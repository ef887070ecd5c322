/** The virtual memory manager: tables drawn page by page from the physical allocator. */
module VirtualMemory {
  import PageBitmap
  import opened Sequences
  import opened PageAllocator
  import opened PageTables

  const IDENTITY_PAGES: nat := 2048
  const KERNEL_FLAGS: nat := 3

  class Vmm {
    const pmm: Pmm
    var mem: map<nat, Table>
    var kernelDirectory: nat

    ghost function Sp(): Space
      reads this
    {
      Space(mem, kernelDirectory)
    }

    /** Every table in use is a page that the allocator has handed out. */
    ghost predicate Backed()
      requires WF(Sp())
      reads this, pmm
    {
      && Owned(pmm.given, kernelDirectory)
      && forall i :: 0 <= i < ENTRIES && Present(mem[kernelDirectory][i]) ==> Owned(pmm.given, Frame(mem[kernelDirectory][i]))
    }

    ghost predicate Valid()
      reads this, pmm, pmm.bitmap
    {
      pmm.Valid() && pmm.Guarded() && WF(Sp()) && UserOpen(Sp()) && WriteOpen(Sp()) && Backed()
    }

    /** The page the allocator would hand out next; NONE when memory is exhausted. */
    ghost function NextPage(): nat
      requires pmm.Valid()
      reads this, pmm, pmm.bitmap
    {
      PageBitmap.FirstFree(pmm.bitmap[..], pmm.totalBlocks, 0)
    }

    method MapPage(phys: nat, virt: nat, flags: nat)
      requires Valid() && phys < WORD_RANGE && virt < WORD_RANGE && flags < PAGE
      modifies this`mem, pmm`usedBlocks, pmm`given, pmm.bitmap
      ensures Valid() && pmm.totalBlocks == old(pmm.totalBlocks)
      ensures old(Present(Pde(Sp(), virt / PAGE))) ==>
                && Sp() == Mapped(old(Sp()), virt / PAGE, phys, flags, 0)
                && pmm.bitmap[..] == old(pmm.bitmap[..]) && pmm.given == old(pmm.given)
      ensures !old(Present(Pde(Sp(), virt / PAGE))) ==>
                if old(NextPage()) == PageBitmap.NONE then
                  Sp() == old(Sp()) && pmm.bitmap[..] == old(pmm.bitmap[..]) && pmm.given == old(pmm.given)
                else
                  && Sp() == Mapped(old(Sp()), virt / PAGE, phys, flags, old(NextPage()) * PAGE)
                  && pmm.Taken() == old(pmm.Taken()) + {old(NextPage())} && pmm.given == old(pmm.given) + {old(NextPage())}
    {
      hide WF, UserOpen, WriteOpen, Mapped, Leaf, Usable, PageBitmap.Guard, PageBitmap.UsedSet, PageBitmap.FirstFree, PageBitmap.Marked,
        PageBitmap.Used;
      HasDir(Sp());
      var pde := mem[kernelDirectory][virt / PAGE / ENTRIES];
      if !Present(pde) {
        var newTable := pmm.AllocBlock();
        if newTable == 0 {
          return;
        }
        SpareUsable(Sp(), old(pmm.given), virt / PAGE, newTable);
        MapInNewTable(phys, virt, flags, newTable);
      } else {
        MapInTable(phys, virt, flags);
      }
    }

    method MapInNewTable(phys: nat, virt: nat, flags: nat, newTable: nat)
      requires Valid() && virt < WORD_RANGE && flags < PAGE
      requires !Present(Pde(Sp(), virt / PAGE)) && Usable(Sp(), virt / PAGE, newTable) && Owned(pmm.given, newTable)
      modifies this`mem
      ensures Valid() && Sp() == Mapped(old(Sp()), virt / PAGE, phys, flags, newTable)
    {
      ghost var sp, v := Sp(), virt / PAGE;
      MappedPaths(sp, v, phys, flags, newTable);
      MappedDir(sp, v, phys, flags, newTable);
      MappedWF(sp, v, phys, flags, newTable);
      MappedUser(sp, v, phys, flags, newTable);
      MappedWrite(sp, v, phys, flags, newTable);
      hide WF, UserOpen, WriteOpen, Mapped, Leaf, Usable;
      var pdIndex, ptIndex := virt / PAGE / ENTRIES, virt / PAGE % ENTRIES;
      var table := newTable;
      mem := mem[table := ZeroTable()];
      mem := mem[kernelDirectory := mem[kernelDirectory][pdIndex := Entry(newTable, TableFlags(flags))]];
      mem := mem[table := mem[table][ptIndex := Entry(phys, flags)]];
    }

    method MapInTable(phys: nat, virt: nat, flags: nat)
      requires Valid() && virt < WORD_RANGE && flags < PAGE && Present(Pde(Sp(), virt / PAGE))
      modifies this`mem
      ensures Valid() && Sp() == Mapped(old(Sp()), virt / PAGE, phys, flags, 0)
    {
      ghost var sp, v := Sp(), virt / PAGE;
      MappedPaths(sp, v, phys, flags, 0);
      MappedDir(sp, v, phys, flags, 0);
      MappedWF(sp, v, phys, flags, 0);
      MappedUser(sp, v, phys, flags, 0);
      MappedWrite(sp, v, phys, flags, 0);
      var pdIndex, ptIndex := virt / PAGE / ENTRIES, virt / PAGE % ENTRIES;
      var pde := mem[kernelDirectory][pdIndex];
      if User(flags) {
        mem := mem[kernelDirectory := mem[kernelDirectory][pdIndex := WithUser(pde)]];
      }
      var table := Frame(pde);
      mem := mem[table := mem[table][ptIndex := Entry(phys, flags)]];
      assert Sp() == Mapped(sp, v, phys, flags, 0);
      hide UserOpen, WriteOpen, Mapped, Leaf;
    }

    method UnmapPage(virt: nat)
      requires Valid() && virt < WORD_RANGE
      modifies this`mem
      ensures Valid() && Sp() == Unmapped(old(Sp()), virt / PAGE)
    {
      ghost var sp, v := Sp(), virt / PAGE;
      UnmappedUser(sp, v);
      UnmappedWrite(sp, v);
      UnmappedLeaf(sp, v, v);
      var pde := mem[kernelDirectory][virt / PAGE / ENTRIES];
      if !Present(pde) {
        return;
      }
      var table := Frame(pde);
      mem := mem[table := mem[table][virt / PAGE % ENTRIES := 0]];
      assert Sp() == Unmapped(sp, v);
    }

    method GetPhysicalAddress(virt: nat) returns (r: nat)
      requires Valid() && virt < WORD_RANGE
      ensures r == Translate(Sp(), virt)
    {
      var pde := mem[kernelDirectory][virt / PAGE / ENTRIES];
      if !Present(pde) {
        return 0;
      }
      var pte := mem[Frame(pde)][virt / PAGE % ENTRIES];
      if !Present(pte) {
        return 0;
      }
      r := Frame(pte) + virt % PAGE;
    }

    /** Returns 0 when no page is left for the copied directory. */
    method CloneDirectory() returns (copy: nat)
      requires Valid()
      modifies this`mem, pmm`usedBlocks, pmm`given, pmm.bitmap
      ensures Valid() && kernelDirectory == old(kernelDirectory)
      ensures copy == 0 ==> Sp() == old(Sp())
      ensures copy == 0 <==> old(NextPage()) == PageBitmap.NONE
      ensures copy != 0 ==>
                && Outside(old(Sp()), copy) && copy / PAGE !in old(pmm.given) && copy / PAGE in pmm.given
                && Space(mem, copy) == Cloned(old(Sp()), copy)
                && forall v :: 0 <= v < VPAGES ==> Leaf(Space(mem, copy), v) == Leaf(Sp(), v) == old(Leaf(Sp(), v))
    {
      ghost var sp := Sp();
      hide PageBitmap.Guard, PageBitmap.UsedSet, PageBitmap.FirstFree, UserOpen, WriteOpen, Leaf;
      copy := pmm.AllocBlock();
      if copy == 0 {
        return;
      }
      SpareOutside(sp, old(pmm.given), copy);
      CopyDirectory(copy);
      CloneKeeps(sp, copy);
    }

    /** Clear the new page, then copy both ranges of directory entries. */
    method CopyDirectory(copy: nat)
      requires kernelDirectory in mem && copy != kernelDirectory
      modifies this`mem
      ensures mem == old(mem)[copy := old(mem)[kernelDirectory]]
    {
      ghost var m, from := mem, mem[kernelDirectory];
      mem := mem[copy := ZeroTable()];
      var i := 0;
      while i < 768
        invariant 0 <= i <= 768 && copy in mem && mem == m[copy := mem[copy]]
        invariant mem[copy][..i] == from[..i]
      {
        mem := mem[copy := mem[copy][i := mem[kernelDirectory][i]]];
        i := i + 1;
      }
      while i < ENTRIES
        invariant 768 <= i <= ENTRIES && copy in mem && mem == m[copy := mem[copy]]
        invariant mem[copy][..i] == from[..i]
      {
        mem := mem[copy := mem[copy][i := mem[kernelDirectory][i]]];
        i := i + 1;
      }
      assert mem[copy] == mem[copy][..i] && from == from[..i];
    }

    /** One round of the identity loop. */
    method MapIdentity(i: nat)
      requires Valid() && i < IDENTITY_PAGES && kernelDirectory == 1024 * PAGE && Filled(Sp(), i)
      requires pmm.Taken() == Interval(0, 1025 + Tables(i)) && 1027 <= pmm.totalBlocks
      modifies this`mem, pmm`usedBlocks, pmm`given, pmm.bitmap
      ensures Valid() && Filled(Sp(), i + 1) && kernelDirectory == old(kernelDirectory) && 1027 <= pmm.totalBlocks
      ensures pmm.Taken() == Interval(0, 1025 + Tables(i + 1))
    {
      hide PageBitmap.Used, PageBitmap.UsedSet, PageBitmap.FirstFree, Interval, PageBitmap.Guard;
      hide Mapped, Tables, UserOpen, WriteOpen, Leaf, Usable;
      ghost var sp := Sp();
      FilledStep(sp, i);
      if !Present(Pde(sp, i)) {
        NextAfter(pmm.bitmap[..], pmm.totalBlocks, 1025 + Tables(i));
      }
      Address(i);
      MapPage(i * PAGE, i * PAGE, KERNEL_FLAGS);
    }

    /** The kernel's own space on a freshly initialised allocator with three pages to spare:
        the first 8 MB map to themselves, nothing else is mapped, and the directory and both
        tables lie inside the mapped part. */
    constructor Init(pmm: Pmm)
      requires pmm.Valid() && pmm.Guarded() && pmm.given == {}
      requires pmm.Taken() == Interval(0, PageBitmap.LOW_BLOCKS)
      requires PageBitmap.LOW_BLOCKS + 3 <= pmm.totalBlocks
      modifies pmm`usedBlocks, pmm`given, pmm.bitmap
      ensures Valid() && this.pmm == pmm
      ensures forall v :: 0 <= v < VPAGES ==> Leaf(Sp(), v) == if v < IDENTITY_PAGES then Entry(v * PAGE, KERNEL_FLAGS) else 0
      ensures Filled(Sp(), IDENTITY_PAGES)
      ensures forall virt: nat :: virt < WORD_RANGE ==> Translate(Sp(), virt) == if virt < IDENTITY_PAGES * PAGE then virt else 0
      ensures forall v :: 0 <= v < VPAGES ==> (Writes(Sp(), v) <==> v < 2048) && !Effective(Sp(), v)
      ensures kernelDirectory < IDENTITY_PAGES * PAGE
      ensures forall i :: 0 <= i < ENTRIES && Present(mem[kernelDirectory][i]) ==>
                Frame(mem[kernelDirectory][i]) < IDENTITY_PAGES * PAGE
    {
      this.pmm := pmm;
      mem := map[];
      kernelDirectory := 0;
      new;
      hide Filled, Tables, UserOpen, WriteOpen, Leaf, WF, Translate, Writes, Effective, PageBitmap.Guard, PageBitmap.UsedSet;
      NewDirectory();
      MapKernel();
      FilledLow(Sp());
      FilledAccess(Sp());
      AllTranslate(Sp());
    }

    /** An empty directory in the first page that is handed out. */
    method NewDirectory()
      requires pmm.Valid() && pmm.Guarded() && pmm.given == {}
      requires pmm.Taken() == Interval(0, PageBitmap.LOW_BLOCKS)
      requires PageBitmap.LOW_BLOCKS + 3 <= pmm.totalBlocks
      modifies this`mem, this`kernelDirectory, pmm`usedBlocks, pmm`given, pmm.bitmap
      ensures Valid() && kernelDirectory == 1024 * PAGE && Filled(Sp(), 0)
      ensures pmm.Taken() == Interval(0, 1025 + Tables(0)) && pmm.totalBlocks == old(pmm.totalBlocks)
    {
      hide PageBitmap.Used, PageBitmap.UsedSet, PageBitmap.FirstFree, Interval, PageBitmap.Marked;
      hide Filled, Mapped, Tables, UserOpen, WriteOpen, Leaf, WF, PageBitmap.Guard;
      NextAfter(pmm.bitmap[..], pmm.totalBlocks, PageBitmap.LOW_BLOCKS);
      kernelDirectory := pmm.AllocBlock();
      mem := map[kernelDirectory := ZeroTable()];
      FilledEmpty(Sp());
    }

    method MapKernel()
      requires Valid() && kernelDirectory == 1024 * PAGE && Filled(Sp(), 0)
      requires pmm.Taken() == Interval(0, 1025 + Tables(0)) && 1027 <= pmm.totalBlocks
      modifies this`mem, pmm`usedBlocks, pmm`given, pmm.bitmap
      ensures Valid() && Filled(Sp(), IDENTITY_PAGES)
    {
      hide Filled, Tables, UserOpen, WriteOpen, Leaf, WF, PageBitmap.Guard, PageBitmap.UsedSet;
      var i := 0;
      while i < IDENTITY_PAGES
        invariant 0 <= i <= IDENTITY_PAGES && Valid() && kernelDirectory == 1024 * PAGE
        invariant pmm.Taken() == Interval(0, 1025 + Tables(i)) && 1027 <= pmm.totalBlocks
        invariant Filled(Sp(), i)
      {
        MapIdentity(i);
        i := i + 1;
      }
    }
  }

  lemma FilledEmpty(sp: Space)
    requires sp.dir in sp.mem && sp.mem[sp.dir] == ZeroTable()
    ensures WF(sp) && Filled(sp, 0) && UserOpen(sp) && WriteOpen(sp) && Tables(0) == 0
    ensures forall i :: 0 <= i < ENTRIES ==> !Present(sp.mem[sp.dir][i])
  {
  }

  ghost predicate Owned(given: set<nat>, page: nat) {
    page % PAGE == 0 && page / PAGE in given
  }

  /** The number of tables in use once i pages have been mapped from 0 upwards. */
  function Tables(i: nat): nat {
    (i + ENTRIES - 1) / ENTRIES
  }

  ghost predicate Filled(sp: Space, i: nat) {
    && WF(sp)
    && (forall v :: 0 <= v < VPAGES ==> Leaf(sp, v) == if v < i then Entry(v * PAGE, KERNEL_FLAGS) else 0)
    && (forall p :: 0 <= p < ENTRIES ==> (Present(sp.mem[sp.dir][p]) <==> p < Tables(i)))
    && (forall p :: 0 <= p < Tables(i) && p < ENTRIES ==> Frame(sp.mem[sp.dir][p]) == (1025 + p) * PAGE)
  }

  lemma FilledStep(sp: Space, i: nat)
    requires Filled(sp, i) && i < IDENTITY_PAGES && sp.dir == 1024 * PAGE
    ensures Present(Pde(sp, i)) <==> i % ENTRIES != 0
    ensures !Present(Pde(sp, i)) ==> Tables(i + 1) == Tables(i) + 1
    ensures Present(Pde(sp, i)) ==> Tables(i + 1) == Tables(i)
    ensures Usable(sp, i, (1025 + Tables(i)) * PAGE) && Tables(i + 1) <= 2
    ensures Filled(Mapped(sp, i, i * PAGE, KERNEL_FLAGS, if Present(Pde(sp, i)) then 0 else (1025 + Tables(i)) * PAGE), i + 1)
  {
    var spare := if Present(Pde(sp, i)) then 0 else (1025 + Tables(i)) * PAGE;
    var sp' := Mapped(sp, i, i * PAGE, KERNEL_FLAGS, spare);
    MappedDir(sp, i, i * PAGE, KERNEL_FLAGS, spare);
    MappedWF(sp, i, i * PAGE, KERNEL_FLAGS, spare);
    forall v | 0 <= v < VPAGES
      ensures Leaf(sp', v) == if v < i + 1 then Entry(v * PAGE, KERNEL_FLAGS) else 0
    {
      MappedLeaf(sp, i, i * PAGE, KERNEL_FLAGS, spare, v);
    }
  }

  lemma FilledLow(sp: Space)
    requires Filled(sp, IDENTITY_PAGES)
    ensures forall v :: 0 <= v < VPAGES ==> Leaf(sp, v) == if v < IDENTITY_PAGES then Entry(v * PAGE, KERNEL_FLAGS) else 0
    ensures forall i :: 0 <= i < ENTRIES && Present(sp.mem[sp.dir][i]) ==> Frame(sp.mem[sp.dir][i]) < IDENTITY_PAGES * PAGE
  {
  }

  lemma Address(i: nat)
    requires i < IDENTITY_PAGES
    ensures i * PAGE < WORD_RANGE && i * PAGE / PAGE == i && Frame(i * PAGE) == i * PAGE
  {
  }

  /** The kernel's pages can be written, and not by user code. */
  lemma FilledAccess(sp: Space)
    requires Filled(sp, IDENTITY_PAGES) && WriteOpen(sp)
    ensures forall v :: 0 <= v < VPAGES ==> (Writes(sp, v) <==> v < 2048) && !Effective(sp, v)
  {
    hide Writes, Effective, WriteOpen, Entry;
    FilledLow(sp);
    forall v | 0 <= v < VPAGES
      ensures (Writes(sp, v) <==> v < 2048) && !Effective(sp, v)
    {
      WritesIsOwn(sp, v);
      EntryParts(v * PAGE, KERNEL_FLAGS);
      EffectiveNeeds(sp, v);
    }
  }

  lemma EffectiveNeeds(sp: Space, v: nat)
    requires sp.dir in sp.mem && v < VPAGES
    ensures Effective(sp, v) ==> Present(Leaf(sp, v)) && User(Leaf(sp, v))
  {
  }

  lemma AllTranslate(sp: Space)
    requires Filled(sp, IDENTITY_PAGES)
    ensures forall virt: nat :: virt < WORD_RANGE ==> Translate(sp, virt) == if virt < IDENTITY_PAGES * PAGE then virt else 0
  {
    forall virt: nat | virt < WORD_RANGE
      ensures Translate(sp, virt) == if virt < IDENTITY_PAGES * PAGE then virt else 0
    {
      FilledTranslates(sp, virt);
    }
  }

  /** A filled space translates every address below 8 MB to itself and no other. */
  lemma FilledTranslates(sp: Space, virt: nat)
    requires Filled(sp, IDENTITY_PAGES) && virt < WORD_RANGE
    ensures Translate(sp, virt) == if virt < IDENTITY_PAGES * PAGE then virt else 0
  {
    var v := virt / PAGE;
    if v < IDENTITY_PAGES {
      Address(v);
      EntryParts(v * PAGE, KERNEL_FLAGS);
    }
  }

  lemma NextAfter(words: PageBitmap.Words, total: nat, k: nat)
    requires k < total <= PageBitmap.MAX_BLOCKS && PageBitmap.UsedSet(words, total) == Interval(0, k)
    ensures PageBitmap.FirstFree(words, total, 0) == k
    ensures Interval(0, k) + {k} == Interval(0, k + 1)
  {
    forall c: nat | c < k
      ensures PageBitmap.Used(words, c)
    {
      assert c in PageBitmap.UsedSet(words, total);
    }
    assert k !in PageBitmap.UsedSet(words, total);
    PageBitmap.SkipUsed(words, total, 0, k);
  }

  lemma SpareUsable(sp: Space, given: set<nat>, v: nat, spare: nat)
    requires WF(sp) && v < VPAGES && spare % PAGE == 0 && spare / PAGE !in given && Owned(given, sp.dir)
    requires forall i :: 0 <= i < ENTRIES && Present(sp.mem[sp.dir][i]) ==> Owned(given, Frame(sp.mem[sp.dir][i]))
    ensures Usable(sp, v, spare)
  {
  }

  lemma SpareOutside(sp: Space, given: set<nat>, copy: nat)
    requires WF(sp) && copy / PAGE !in given && Owned(given, sp.dir)
    requires forall i :: 0 <= i < ENTRIES && Present(sp.mem[sp.dir][i]) ==> Owned(given, Frame(sp.mem[sp.dir][i]))
    ensures Outside(sp, copy)
  {
  }

  lemma CloneKeeps(sp: Space, copy: nat)
    requires WF(sp) && UserOpen(sp) && WriteOpen(sp) && Outside(sp, copy)
    ensures var both := Space(sp.mem[copy := sp.mem[sp.dir]], sp.dir);
            && WF(both) && UserOpen(both) && WriteOpen(both) && WriteOpen(Cloned(sp, copy))
            && forall v :: 0 <= v < VPAGES ==> Leaf(Cloned(sp, copy), v) == Leaf(both, v) == Leaf(sp, v)
  {
    var both := Space(sp.mem[copy := sp.mem[sp.dir]], sp.dir);
    forall v | 0 <= v < VPAGES
      ensures Leaf(Cloned(sp, copy), v) == Leaf(both, v) == Leaf(sp, v) && Pde(both, v) == Pde(sp, v)
    {
      CloneAgrees(sp, copy, v);
    }
  }
}
