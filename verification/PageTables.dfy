/** Two-level page tables as arrays of words at physical addresses, refining a flat map from
    virtual pages to entries. */
module PageTables {
  import opened Arithmetic

  const ENTRIES: nat := 1024
  const PAGE: nat := 4096
  const VPAGES: nat := 1048576
  const WORD_RANGE: nat := 0x1_0000_0000

  const PTE_PRESENT: nat := 1
  const PTE_RW: nat := 2
  const PTE_USER: nat := 4

  type Table = t: seq<nat> | |t| == ENTRIES witness seq(ENTRIES, _ => 0)

  /** Physical pages that hold tables, by address, and the address of the directory. */
  datatype Space = Space(mem: map<nat, Table>, dir: nat)

  predicate Present(w: nat) {
    w % 2 == 1
  }

  predicate User(w: nat) {
    w % (2 * PTE_USER) >= PTE_USER
  }

  predicate Writable(w: nat) {
    w % (2 * PTE_RW) >= PTE_RW
  }

  function Frame(w: nat): nat {
    w / PAGE * PAGE
  }

  function WithUser(w: nat): nat {
    if User(w) then w else w + PTE_USER
  }

  /** A word made of a page-aligned address and flag bits. */
  function Entry(phys: nat, flags: nat): nat
    requires flags < PAGE
  {
    Frame(phys) + flags
  }

  function DirIndex(v: nat): (i: nat)
    requires v < VPAGES
    ensures i < ENTRIES
  {
    v / ENTRIES
  }

  function TableIndex(v: nat): (i: nat)
    ensures i < ENTRIES
  {
    v % ENTRIES
  }

  ghost predicate WF(sp: Space) {
    && sp.dir in sp.mem
    && (forall i :: 0 <= i < ENTRIES && Present(sp.mem[sp.dir][i]) ==>
          Frame(sp.mem[sp.dir][i]) in sp.mem && Frame(sp.mem[sp.dir][i]) != sp.dir)
    && (forall i, j :: 0 <= i < j < ENTRIES && Present(sp.mem[sp.dir][i]) && Present(sp.mem[sp.dir][j]) ==>
          Frame(sp.mem[sp.dir][i]) != Frame(sp.mem[sp.dir][j]))
  }

  lemma HasDir(sp: Space)
    requires WF(sp)
    ensures sp.dir in sp.mem
  {
  }

  function Pde(sp: Space, v: nat): nat
    requires sp.dir in sp.mem && v < VPAGES
  {
    sp.mem[sp.dir][DirIndex(v)]
  }

  /** The entry of a virtual page; without a table there is none, which reads as zero. */
  function Leaf(sp: Space, v: nat): nat
    requires sp.dir in sp.mem && v < VPAGES
  {
    if Present(Pde(sp, v)) && Frame(Pde(sp, v)) in sp.mem then sp.mem[Frame(Pde(sp, v))][TableIndex(v)] else 0
  }

  /** Address translation of a virtual address; 0 stands for no mapping. */
  function Translate(sp: Space, virt: nat): nat
    requires sp.dir in sp.mem && virt < WORD_RANGE
  {
    var pte := Leaf(sp, virt / PAGE);
    if Present(pte) then Frame(pte) + virt % PAGE else 0
  }

  function ZeroTable(): Table {
    seq(ENTRIES, _ => 0)
  }

  // ---- word arithmetic -----------------------------------------------------------------

  lemma EntryParts(phys: nat, flags: nat)
    requires flags < PAGE
    ensures Frame(Entry(phys, flags)) == Frame(phys)
    ensures Present(Entry(phys, flags)) <==> Present(flags)
    ensures User(Entry(phys, flags)) <==> User(flags)
    ensures Writable(Entry(phys, flags)) <==> Writable(flags)
  {
    var f := phys / PAGE;
    assert (f * PAGE + flags) / PAGE == f;
    LowBits(f, flags);
  }

  /** Bit 0 of an entry is the present flag, bit 1 allows writing, bit 2 user code. */
  lemma FlagBits(w: nat)
    ensures (Present(w) <==> w % 2 == 1) && (Writable(w) <==> w / 2 % 2 == 1) && (User(w) <==> w / 4 % 2 == 1)
  {
    var q, r := w / 8, w % 8;
    OfEight(w);
    assert w / 4 == q * 2 + r / 4 && w / 2 == (2 * q) * 2 + r / 2;
    Remainder(q, 2, r / 4);
    assert w / 2 == (2 * q + r / 4) * 2 + r / 2 % 2;
    Remainder(2 * q + r / 4, 2, r / 2 % 2);
  }

  lemma LowBits(f: nat, flags: nat)
    ensures (f * PAGE + flags) % 8 == flags % 8
    ensures (f * PAGE + flags) % 4 == flags % 4 && (f * PAGE + flags) % 2 == flags % 2
  {
    var q, r := flags / 8, flags % 8;
    assert f * PAGE + flags == (f * 512 + q) * 8 + r;
    Remainder(f * 512 + q, 8, r);
    OfEight(f * PAGE + flags);
    OfEight(flags);
  }

  lemma OfEight(x: nat)
    ensures x % 4 == x % 8 % 4 && x % 2 == x % 8 % 2
  {
    var q, r := x / 8, x % 8;
    assert x == (2 * q + r / 4) * 4 + r % 4 && x == (4 * q + r / 2) * 2 + r % 2;
    Remainder(2 * q + r / 4, 4, r % 4);
    Remainder(4 * q + r / 2, 2, r % 2);
  }

  lemma WithUserParts(w: nat)
    ensures Frame(WithUser(w)) == Frame(w) && User(WithUser(w))
    ensures Present(WithUser(w)) <==> Present(w)
    ensures Writable(WithUser(w)) <==> Writable(w)
  {
    if !User(w) {
      Eighths(w);
      Eighths(w + 4);
      assert w == 8 * (w / 8) + w % 8;
      assert (w + 4) / 8 == w / 8 && (w + 4) % 8 == w % 8 + 4;
      OfEight(w);
      OfEight(w + 4);
    }
  }

  lemma Eighths(w: nat)
    ensures w / PAGE == w / 8 / 512
  {
    var q, r := w / PAGE, w % PAGE;
    assert w == 8 * (q * 512 + r / 8) + r % 8;
    assert w / 8 == q * 512 + r / 8 && r / 8 < 512;
  }

  // ---- mapping -------------------------------------------------------------------------

  function TableFlags(flags: nat): nat {
    PTE_PRESENT + PTE_RW + (if User(flags) then PTE_USER else 0)
  }

  /** The effect of mapping one page; spare is the page a missing table is put into. */
  function Mapped(sp: Space, v: nat, phys: nat, flags: nat, spare: nat): Space
    requires sp.dir in sp.mem && v < VPAGES && flags < PAGE
  {
    var pde := Pde(sp, v);
    var i := DirIndex(v);
    var table := if Present(pde) then Frame(pde) else spare;
    var mem1 := if Present(pde) then sp.mem else sp.mem[spare := ZeroTable()];
    var pde' := if !Present(pde) then Entry(spare, TableFlags(flags)) else if User(flags) then WithUser(pde) else pde;
    var dir1: Table := mem1[sp.dir][i := pde'];
    var mem2 := mem1[sp.dir := dir1];
    if table !in mem2 then sp
    else
      var leaf: Table := mem2[table][TableIndex(v) := Entry(phys, flags)];
      sp.(mem := mem2[table := leaf])
  }

  /** The three paths: a new table, an existing table, an existing table that user code must
      be able to reach. */
  lemma MappedPaths(sp: Space, v: nat, phys: nat, flags: nat, spare: nat)
    requires WF(sp) && v < VPAGES && flags < PAGE && Usable(sp, v, spare)
    ensures var pde := Pde(sp, v);
            var i, e := DirIndex(v), Entry(phys, flags);
            var dirOf := (w: nat) => sp.mem[sp.dir][i := w];
            && (!Present(pde) ==>
                  var m := sp.mem[spare := ZeroTable()][sp.dir := dirOf(Entry(spare, TableFlags(flags)))];
                  Mapped(sp, v, phys, flags, spare) == sp.(mem := m[spare := m[spare][TableIndex(v) := e]]))
            && (Present(pde) && !User(flags) ==>
                  Mapped(sp, v, phys, flags, spare)
                    == sp.(mem := sp.mem[Frame(pde) := sp.mem[Frame(pde)][TableIndex(v) := e]]))
            && (Present(pde) && User(flags) ==>
                  var m := sp.mem[sp.dir := dirOf(WithUser(pde))];
                  Mapped(sp, v, phys, flags, spare) == sp.(mem := m[Frame(pde) := m[Frame(pde)][TableIndex(v) := e]]))
  {
    var pde := Pde(sp, v);
    var i := DirIndex(v);
    assert sp.mem[sp.dir][i := pde] == sp.mem[sp.dir];
    assert sp.mem[sp.dir := sp.mem[sp.dir]] == sp.mem;
  }

  ghost predicate Usable(sp: Space, v: nat, spare: nat)
    requires WF(sp) && v < VPAGES
  {
    !Present(Pde(sp, v)) ==>
      && spare % PAGE == 0 && spare != sp.dir
      && forall i :: 0 <= i < ENTRIES && Present(sp.mem[sp.dir][i]) ==> Frame(sp.mem[sp.dir][i]) != spare
  }

  lemma MappedDir(sp: Space, v: nat, phys: nat, flags: nat, spare: nat)
    requires WF(sp) && v < VPAGES && flags < PAGE && Usable(sp, v, spare)
    ensures var sp' := Mapped(sp, v, phys, flags, spare);
            var pde := Pde(sp, v);
            var pde' := Pde(sp', v);
            && sp'.dir == sp.dir && sp.dir in sp'.mem
            && sp'.mem[sp.dir] == sp.mem[sp.dir][DirIndex(v) := pde']
            && Present(pde') && (Present(pde) ==> Frame(pde') == Frame(pde)) && (!Present(pde) ==> Frame(pde') == spare)
            && (User(pde') <==> User(flags) || (Present(pde) && User(pde)))
            && (Writable(pde') <==> !Present(pde) || Writable(pde))
  {
    EntryParts(spare, TableFlags(flags));
    WithUserParts(Pde(sp, v));
    assert spare % PAGE == 0 ==> Frame(spare) == spare;
  }

  lemma MappedWF(sp: Space, v: nat, phys: nat, flags: nat, spare: nat)
    requires WF(sp) && v < VPAGES && flags < PAGE && Usable(sp, v, spare)
    ensures WF(Mapped(sp, v, phys, flags, spare))
  {
    MappedDir(sp, v, phys, flags, spare);
  }

  /** Mapping a page changes the flat map at that page and nowhere else. */
  lemma MappedLeaf(sp: Space, v: nat, phys: nat, flags: nat, spare: nat, u: nat)
    requires WF(sp) && v < VPAGES && flags < PAGE && Usable(sp, v, spare) && u < VPAGES
    ensures Mapped(sp, v, phys, flags, spare).dir in Mapped(sp, v, phys, flags, spare).mem
    ensures Leaf(Mapped(sp, v, phys, flags, spare), u) == if u == v then Entry(phys, flags) else Leaf(sp, u)
  {
    MappedDir(sp, v, phys, flags, spare);
    SplitIndex(u, v);
    var sp' := Mapped(sp, v, phys, flags, spare);
    if DirIndex(u) == DirIndex(v) {
      assert Pde(sp', u) == Pde(sp', v) && Pde(sp, u) == Pde(sp, v);
    } else {
      assert Pde(sp', u) == Pde(sp, u);
    }
  }

  lemma SplitIndex(u: nat, v: nat)
    requires u < VPAGES && v < VPAGES
    ensures DirIndex(u) == DirIndex(v) && TableIndex(u) == TableIndex(v) ==> u == v
  {
  }

  // ---- unmapping -----------------------------------------------------------------------

  function Unmapped(sp: Space, v: nat): Space
    requires sp.dir in sp.mem && v < VPAGES
  {
    var pde := Pde(sp, v);
    if Present(pde) && Frame(pde) in sp.mem then
      var leaf: Table := sp.mem[Frame(pde)][TableIndex(v) := 0];
      sp.(mem := sp.mem[Frame(pde) := leaf])
    else sp
  }

  lemma UnmappedLeaf(sp: Space, v: nat, u: nat)
    requires WF(sp) && v < VPAGES && u < VPAGES
    ensures WF(Unmapped(sp, v)) && Pde(Unmapped(sp, v), u) == Pde(sp, u)
    ensures Leaf(Unmapped(sp, v), u) == if u == v then 0 else Leaf(sp, u)
  {
    SplitIndex(u, v);
  }

  // ---- user access ---------------------------------------------------------------------

  /** A user page is reachable: its directory entry lets user code through. */
  ghost predicate UserOpen(sp: Space) {
    && sp.dir in sp.mem
    && forall v :: 0 <= v < VPAGES && Present(Leaf(sp, v)) && User(Leaf(sp, v)) ==> User(Pde(sp, v))
  }

  /** Access from user mode needs the flag at both levels. */
  predicate Effective(sp: Space, v: nat)
    requires sp.dir in sp.mem && v < VPAGES
  {
    Present(Leaf(sp, v)) && User(Leaf(sp, v)) && User(Pde(sp, v))
  }

  /** Widening a directory entry opens no page that was not a user page itself. */
  lemma EffectiveIsOwn(sp: Space, v: nat)
    requires UserOpen(sp) && v < VPAGES
    ensures Effective(sp, v) <==> Present(Leaf(sp, v)) && User(Leaf(sp, v))
  {
  }

  lemma MappedUser(sp: Space, v: nat, phys: nat, flags: nat, spare: nat)
    requires WF(sp) && UserOpen(sp) && v < VPAGES && flags < PAGE && Usable(sp, v, spare)
    ensures UserOpen(Mapped(sp, v, phys, flags, spare))
  {
    var sp' := Mapped(sp, v, phys, flags, spare);
    MappedDir(sp, v, phys, flags, spare);
    forall u | 0 <= u < VPAGES && Present(Leaf(sp', u)) && User(Leaf(sp', u))
      ensures User(Pde(sp', u))
    {
      MappedLeaf(sp, v, phys, flags, spare, u);
      EntryParts(phys, flags);
      if DirIndex(u) == DirIndex(v) {
        assert Pde(sp', u) == Pde(sp', v) && Pde(sp, u) == Pde(sp, v);
      } else {
        assert Pde(sp', u) == Pde(sp, u);
      }
    }
  }

  /** Although mapping widens the directory entry of all pages around it, it changes user
      access to the mapped page only, and gives that page exactly what its flags say. */
  lemma MappedEffective(sp: Space, v: nat, phys: nat, flags: nat, spare: nat, u: nat)
    requires WF(sp) && UserOpen(sp) && v < VPAGES && flags < PAGE && Usable(sp, v, spare) && u < VPAGES
    ensures var sp' := Mapped(sp, v, phys, flags, spare);
            && sp'.dir in sp'.mem
            && (Effective(sp', u) <==> if u == v then Present(flags) && User(flags) else Effective(sp, u))
  {
    MappedUser(sp, v, phys, flags, spare);
    MappedLeaf(sp, v, phys, flags, spare, u);
    EntryParts(phys, flags);
    EffectiveIsOwn(sp, u);
    EffectiveIsOwn(Mapped(sp, v, phys, flags, spare), u);
  }

  lemma UnmappedUser(sp: Space, v: nat)
    requires WF(sp) && UserOpen(sp) && v < VPAGES
    ensures UserOpen(Unmapped(sp, v))
  {
    var sp' := Unmapped(sp, v);
    UnmappedLeaf(sp, v, 0);
    forall u | 0 <= u < VPAGES && Present(Leaf(sp', u)) && User(Leaf(sp', u))
      ensures User(Pde(sp', u))
    {
      UnmappedLeaf(sp, v, u);
    }
  }

  // ---- write access ----------------------------------------------------------------------

  /** Every present directory entry lets writes through. */
  ghost predicate WriteOpen(sp: Space) {
    && sp.dir in sp.mem
    && forall i :: 0 <= i < ENTRIES && Present(sp.mem[sp.dir][i]) ==> Writable(sp.mem[sp.dir][i])
  }

  /** Writing needs the flag at both levels. */
  predicate Writes(sp: Space, v: nat)
    requires sp.dir in sp.mem && v < VPAGES
  {
    Present(Pde(sp, v)) && Writable(Pde(sp, v)) && Present(Leaf(sp, v)) && Writable(Leaf(sp, v))
  }

  lemma MappedWrite(sp: Space, v: nat, phys: nat, flags: nat, spare: nat)
    requires WF(sp) && WriteOpen(sp) && v < VPAGES && flags < PAGE && Usable(sp, v, spare)
    ensures WriteOpen(Mapped(sp, v, phys, flags, spare))
  {
    MappedDir(sp, v, phys, flags, spare);
    hide Mapped, Writable, Present, User;
  }

  /** So the flag of the page itself decides, and mapping changes it for exactly one page, to
      what its flags say. */
  lemma MappedWrites(sp: Space, v: nat, phys: nat, flags: nat, spare: nat, u: nat)
    requires WF(sp) && WriteOpen(sp) && v < VPAGES && flags < PAGE && Usable(sp, v, spare) && u < VPAGES
    ensures var sp' := Mapped(sp, v, phys, flags, spare);
            && sp'.dir in sp'.mem
            && (Writes(sp', u) <==> Present(Leaf(sp', u)) && Writable(Leaf(sp', u)))
            && (Writes(sp', u) <==> if u == v then Present(flags) && Writable(flags) else Writes(sp, u))
  {
    hide Mapped, Writable;
    MappedWrite(sp, v, phys, flags, spare);
    MappedLeaf(sp, v, phys, flags, spare, u);
    EntryParts(phys, flags);
    WritesIsOwn(sp, u);
    WritesIsOwn(Mapped(sp, v, phys, flags, spare), u);
  }

  lemma WritesIsOwn(sp: Space, v: nat)
    requires WriteOpen(sp) && v < VPAGES
    ensures Writes(sp, v) <==> Present(Leaf(sp, v)) && Writable(Leaf(sp, v))
  {
  }

  lemma UnmappedWrite(sp: Space, v: nat)
    requires WF(sp) && WriteOpen(sp) && v < VPAGES
    ensures WriteOpen(Unmapped(sp, v))
  {
  }

  // ---- cloning -------------------------------------------------------------------------

  /** The same tables seen through a copied directory at address copy. */
  function Cloned(sp: Space, copy: nat): Space
    requires sp.dir in sp.mem
  {
    Space(sp.mem[copy := sp.mem[sp.dir]], copy)
  }

  ghost predicate Outside(sp: Space, page: nat)
    requires WF(sp)
  {
    page != sp.dir && forall i :: 0 <= i < ENTRIES && Present(sp.mem[sp.dir][i]) ==> Frame(sp.mem[sp.dir][i]) != page
  }

  /** At first both directories translate alike. */
  lemma CloneAgrees(sp: Space, copy: nat, v: nat)
    requires WF(sp) && Outside(sp, copy) && v < VPAGES
    ensures WF(Cloned(sp, copy)) && Leaf(Cloned(sp, copy), v) == Leaf(sp, v)
    ensures WF(Space(sp.mem[copy := sp.mem[sp.dir]], sp.dir))
    ensures Leaf(Space(sp.mem[copy := sp.mem[sp.dir]], sp.dir), v) == Leaf(sp, v)
  {
  }

  /** The clone shares tables, not the directory: a page mapped later through the original
      is seen through the clone exactly when its table existed at the time of cloning,
      unless the entry written is the empty word. */
  lemma CloneSees(sp: Space, copy: nat, v: nat, phys: nat, flags: nat, spare: nat)
    requires WF(sp) && Outside(sp, copy) && v < VPAGES && flags < PAGE
    requires Usable(sp, v, spare) && spare != copy
    ensures var both := Space(sp.mem[copy := sp.mem[sp.dir]], sp.dir);
            var after := Mapped(both, v, phys, flags, spare);
            && copy in after.mem && sp.dir in after.mem
            && (Leaf(Space(after.mem, copy), v) == Leaf(Space(after.mem, sp.dir), v)
                <==> Present(Pde(sp, v)) || Entry(phys, flags) == 0)
  {
    var both := Space(sp.mem[copy := sp.mem[sp.dir]], sp.dir);
    assert WF(both) && Pde(both, v) == Pde(sp, v);
    MappedDir(both, v, phys, flags, spare);
    MappedLeaf(both, v, phys, flags, spare, v);
  }

  /** What the clone shows of any page after the mapping. */
  lemma CloneLeaf(sp: Space, copy: nat, v: nat, phys: nat, flags: nat, spare: nat, u: nat)
    requires WF(sp) && Outside(sp, copy) && v < VPAGES && flags < PAGE && u < VPAGES
    requires Usable(sp, v, spare) && spare != copy
    ensures var both := Space(sp.mem[copy := sp.mem[sp.dir]], sp.dir);
            var clone := Space(Mapped(both, v, phys, flags, spare).mem, copy);
            && copy in clone.mem && Pde(clone, u) == Pde(sp, u)
            && Leaf(clone, u) == if !Present(Pde(sp, u)) then 0 else if u == v then Entry(phys, flags) else Leaf(sp, u)
  {
    var both := Space(sp.mem[copy := sp.mem[sp.dir]], sp.dir);
    assert WF(both) && Pde(both, v) == Pde(sp, v) && Pde(both, u) == Pde(sp, u) && Leaf(both, u) == Leaf(sp, u);
    MappedDir(both, v, phys, flags, spare);
    MappedLeaf(both, v, phys, flags, spare, u);
    SplitIndex(u, v);
  }

  /** The mapping widens the directory entry of the original only. User code reaches the page
      through the clone if and only if the copied entry was a user entry already; if it was
      present but not one, the clone has a user page that its directory does not let through. */
  lemma CloneUser(sp: Space, copy: nat, v: nat, phys: nat, flags: nat, spare: nat)
    requires WF(sp) && UserOpen(sp) && Outside(sp, copy) && v < VPAGES && flags < PAGE
    requires Usable(sp, v, spare) && spare != copy
    ensures var both := Space(sp.mem[copy := sp.mem[sp.dir]], sp.dir);
            var clone := Space(Mapped(both, v, phys, flags, spare).mem, copy);
            && copy in clone.mem
            && (Effective(clone, v) <==> Present(flags) && User(flags) && Present(Pde(sp, v)) && User(Pde(sp, v)))
            && (UserOpen(clone) <==> !(Present(flags) && User(flags) && Present(Pde(sp, v)) && !User(Pde(sp, v))))
  {
    hide Mapped;
    EntryParts(phys, flags);
    CloneLeaf(sp, copy, v, phys, flags, spare, v);
    var both := Space(sp.mem[copy := sp.mem[sp.dir]], sp.dir);
    var clone := Space(Mapped(both, v, phys, flags, spare).mem, copy);
    forall u | 0 <= u < VPAGES && u != v && Present(Leaf(clone, u)) && User(Leaf(clone, u))
      ensures User(Pde(clone, u))
    {
      CloneLeaf(sp, copy, v, phys, flags, spare, u);
    }
  }

  /** Directory entries being writable, a page mapped later can be written through the clone if
      and only if its table existed and its own flags allow it. */
  lemma CloneWrites(sp: Space, copy: nat, v: nat, phys: nat, flags: nat, spare: nat)
    requires WF(sp) && WriteOpen(sp) && Outside(sp, copy) && v < VPAGES && flags < PAGE
    requires Usable(sp, v, spare) && spare != copy
    ensures var both := Space(sp.mem[copy := sp.mem[sp.dir]], sp.dir);
            var clone := Space(Mapped(both, v, phys, flags, spare).mem, copy);
            && copy in clone.mem
            && (Writes(clone, v) <==> Present(Pde(sp, v)) && Present(flags) && Writable(flags))
  {
    hide Mapped, Writable;
    EntryParts(phys, flags);
    CloneLeaf(sp, copy, v, phys, flags, spare, v);
  }

  /** Translation as the hardware does it: ten bits of the address choose the directory entry,
      the next ten the entry of the table it points to, the last twelve the byte of the page. */
  lemma TranslateWalks(sp: Space, virt: nat)
    requires WF(sp) && virt < WORD_RANGE
    ensures var pde := sp.mem[sp.dir][virt / 0x40_0000];
            && (pde % 2 == 1 ==> pde / 4096 * 4096 in sp.mem)
            && var pte := if pde % 2 == 1 then sp.mem[pde / 4096 * 4096][virt / 0x1000 % 0x400] else 0;
            && Translate(sp, virt) == if pte % 2 == 1 then pte / 4096 * 4096 + virt % 4096 else 0
  {
    assert virt / 0x40_0000 == virt / 0x1000 / 0x400;
  }

  // ---- the flat map ----------------------------------------------------------------------

  datatype Mapping = Mapping(frame: nat, flags: nat)

  function MappingOf(w: nat): Mapping {
    Mapping(w / PAGE, w % PAGE)
  }

  /** What the two levels stand for: the mapped virtual pages, with frame number and flags. */
  ghost function Flat(sp: Space): map<nat, Mapping>
    requires sp.dir in sp.mem
  {
    map v: nat | v < VPAGES && Present(Leaf(sp, v)) :: MappingOf(Leaf(sp, v))
  }

  lemma FlatChange(sp: Space, sp': Space, v: nat, w: nat)
    requires sp.dir in sp.mem && sp'.dir in sp'.mem && v < VPAGES
    requires forall u: nat :: u < VPAGES ==> Leaf(sp', u) == if u == v then w else Leaf(sp, u)
    ensures Flat(sp') == if Present(w) then Flat(sp)[v := MappingOf(w)] else Flat(sp) - {v}
  {
    hide Leaf, Present, MappingOf;
  }

  /** Mapping with the present flag changes exactly one page of the flat map, to the given
      frame and flags; without that flag it removes the page. */
  lemma MappedFlat(sp: Space, v: nat, phys: nat, flags: nat, spare: nat)
    requires WF(sp) && v < VPAGES && flags < PAGE && Usable(sp, v, spare)
    ensures Mapped(sp, v, phys, flags, spare).dir in Mapped(sp, v, phys, flags, spare).mem
    ensures Flat(Mapped(sp, v, phys, flags, spare)) ==
            if Present(flags) then Flat(sp)[v := Mapping(phys / PAGE, flags)] else Flat(sp) - {v}
  {
    hide Mapped, Usable, WF, Leaf;
    HasDir(sp);
    var sp' := Mapped(sp, v, phys, flags, spare);
    MappedLeaf(sp, v, phys, flags, spare, v);
    forall u: nat | u < VPAGES
      ensures Leaf(sp', u) == if u == v then Entry(phys, flags) else Leaf(sp, u)
    {
      MappedLeaf(sp, v, phys, flags, spare, u);
    }
    FlatChange(sp, sp', v, Entry(phys, flags));
    EntryParts(phys, flags);
    EntryMapping(phys, flags);
  }

  lemma EntryMapping(phys: nat, flags: nat)
    requires flags < PAGE
    ensures MappingOf(Entry(phys, flags)) == Mapping(phys / PAGE, flags)
  {
  }

  lemma UnmappedFlat(sp: Space, v: nat)
    requires WF(sp) && v < VPAGES
    ensures WF(Unmapped(sp, v)) && Flat(Unmapped(sp, v)) == Flat(sp) - {v}
  {
    hide Unmapped, Leaf;
    HasDir(sp);
    UnmappedLeaf(sp, v, v);
    forall u: nat | u < VPAGES
      ensures Leaf(Unmapped(sp, v), u) == if u == v then 0 else Leaf(sp, u)
    {
      UnmappedLeaf(sp, v, u);
    }
    FlatChange(sp, Unmapped(sp, v), v, 0);
  }

  /** Translation reads the flat map: frame plus offset, or 0 for a page that is not mapped. */
  lemma TranslateFlat(sp: Space, virt: nat)
    requires sp.dir in sp.mem && virt < WORD_RANGE
    ensures Translate(sp, virt) ==
            if virt / PAGE in Flat(sp) then Flat(sp)[virt / PAGE].frame * PAGE + virt % PAGE else 0
  {
    hide Leaf, Present;
    assert virt / PAGE < VPAGES;
  }
}
