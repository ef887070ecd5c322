/** One slab: a page cut into equal slots, with the list of free slots threaded through the
    slots themselves as 32-bit pointers. */
module SlabPages {
  import opened Bytes
  import opened Sequences

  const PAGE: nat := 4096
  const NULL: nat := 0
  const WORD_RANGE: nat := 0x1_0000_0000

  /** List node, memory, counters and free-list pointer of a descriptor: 24 bytes. */
  const DESCRIPTOR: nat := 24

  type Ram = seq<Byte>

  datatype Slab = Slab(mem: nat, inuse: nat, objects: nat, freelist: nat)

  // ---- words in memory -------------------------------------------------------------------

  function Load(ram: Ram, a: nat): nat
    requires a + 4 <= |ram|
  {
    ram[a] as int + 256 * ram[a + 1] as int + 0x1_0000 * ram[a + 2] as int + 0x100_0000 * ram[a + 3] as int
  }

  function Stored(ram: Ram, a: nat, v: nat): Ram
    requires a + 4 <= |ram| && v < WORD_RANGE
  {
    ram[a := v % 256][a + 1 := v / 256 % 256][a + 2 := v / 0x1_0000 % 256][a + 3 := v / 0x100_0000]
  }

  lemma LoadStored(ram: Ram, a: nat, v: nat)
    requires a + 4 <= |ram| && v < WORD_RANGE
    ensures Load(Stored(ram, a, v), a) == v
    ensures Agree(ram, Stored(ram, a, v), a, a + 4)
  {
    Digits(v);
  }

  /** Memories that differ at most within [lo, hi). */
  ghost predicate Agree(ram: Ram, ram': Ram, lo: nat, hi: nat) {
    |ram'| == |ram| && forall a :: 0 <= a < |ram| && !(lo <= a < hi) ==> ram'[a] == ram[a]
  }

  lemma LoadAgree(ram: Ram, ram': Ram, lo: nat, hi: nat, a: nat)
    requires Agree(ram, ram', lo, hi) && a + 4 <= |ram| && (a + 4 <= lo || hi <= a)
    ensures Load(ram', a) == Load(ram, a)
  {
  }

  // ---- slots -------------------------------------------------------------------------------

  function ObjectsPerSlab(size: nat): nat
    requires 0 < size
  {
    (PAGE - DESCRIPTOR) / size
  }

  /** A page holds as many objects as fit in front of its last 24 bytes: one more would not. */
  lemma ObjectsFill(size: nat)
    requires 0 < size
    ensures ObjectsPerSlab(size) * size <= 4072 < (ObjectsPerSlab(size) + 1) * size
  {
    var n := ObjectsPerSlab(size);
    assert 4072 == n * size + 4072 % size;
  }

  function Addr(mem: nat, size: nat, j: nat): nat {
    mem + j * size
  }

  lemma SlotApart(mem: nat, size: nat, i: nat, j: nat)
    requires i < j
    ensures Addr(mem, size, i) + size <= Addr(mem, size, j)
  {
    assert (i + 1) * size <= j * size;
  }

  lemma SlotInPage(mem: nat, size: nat, j: nat)
    requires 0 < size && j < ObjectsPerSlab(size)
    ensures mem <= Addr(mem, size, j) && Addr(mem, size, j) + size <= mem + PAGE - DESCRIPTOR
  {
    var n := ObjectsPerSlab(size);
    assert n * size <= PAGE - DESCRIPTOR;
    assert (j + 1) * size <= n * size;
  }

  function Link(mem: nat, size: nat, fs: seq<nat>, k: nat): nat {
    if k < |fs| then Addr(mem, size, fs[k]) else NULL
  }

  /** fs lists the free slots in list order: no duplicates, only slots of this page, as many
      as are not in use, and each free slot starts with the address of the next. */
  ghost predicate SlabOk(ram: Ram, size: nat, sl: Slab, fs: seq<nat>) {
    && 4 <= size && sl.objects == ObjectsPerSlab(size) && 0 < sl.objects
    && 0 < sl.mem && sl.mem + PAGE <= |ram| && sl.mem + PAGE <= WORD_RANGE
    && Distinct(fs) && (forall k :: 0 <= k < |fs| ==> fs[k] < sl.objects)
    && |fs| + sl.inuse == sl.objects
    && sl.freelist == Link(sl.mem, size, fs, 0)
    && (forall k :: 0 <= k < |fs| ==> HoldsLink(ram, sl.mem, size, fs, k))
  }

  ghost predicate HoldsLink(ram: Ram, mem: nat, size: nat, fs: seq<nat>, k: nat)
    requires k < |fs|
  {
    Addr(mem, size, fs[k]) + 4 <= |ram| && Load(ram, Addr(mem, size, fs[k])) == Link(mem, size, fs, k + 1)
  }

  /** Writes outside the page do not matter to a slab. */
  lemma OtherPage(ram: Ram, ram': Ram, size: nat, sl: Slab, fs: seq<nat>, lo: nat, hi: nat)
    requires SlabOk(ram, size, sl, fs) && Agree(ram, ram', lo, hi) && (hi <= sl.mem || sl.mem + PAGE <= lo)
    ensures SlabOk(ram', size, sl, fs)
  {
    forall k | 0 <= k < |fs|
      ensures HoldsLink(ram', sl.mem, size, fs, k)
    {
      assert HoldsLink(ram, sl.mem, size, fs, k);
      SlotInPage(sl.mem, size, fs[k]);
      LoadAgree(ram, ram', lo, hi, Addr(sl.mem, size, fs[k]));
    }
  }

  lemma TailLinks(ram: Ram, ram': Ram, size: nat, sl: Slab, fs: seq<nat>, j: nat, hi: nat)
    requires 4 <= size && sl.objects == ObjectsPerSlab(size) && j < sl.objects && hi <= Addr(sl.mem, size, j) + size
    requires Agree(ram, ram', Addr(sl.mem, size, j), hi)
    requires forall k :: 0 <= k < |fs| ==> fs[k] < sl.objects && fs[k] != j && HoldsLink(ram, sl.mem, size, fs, k)
    ensures forall k :: 0 <= k < |fs| ==> HoldsLink(ram', sl.mem, size, fs, k)
  {
    forall k | 0 <= k < |fs|
      ensures HoldsLink(ram', sl.mem, size, fs, k)
    {
      assert HoldsLink(ram, sl.mem, size, fs, k);
      if fs[k] < j { SlotApart(sl.mem, size, fs[k], j); } else { SlotApart(sl.mem, size, j, fs[k]); }
      LoadAgree(ram, ram', Addr(sl.mem, size, j), hi, Addr(sl.mem, size, fs[k]));
    }
  }

  /** The slab after its first free object has been taken. */
  function Popped(ram: Ram, sl: Slab): Slab
    requires sl.freelist + 4 <= |ram|
  {
    sl.(freelist := Load(ram, sl.freelist), inuse := sl.inuse + 1)
  }

  lemma PopOk(ram: Ram, ram': Ram, size: nat, sl: Slab, fs: seq<nat>)
    requires SlabOk(ram, size, sl, fs) && fs != []
    requires Agree(ram, ram', sl.freelist, sl.freelist + size)
    ensures sl.freelist == Addr(sl.mem, size, fs[0]) && sl.freelist + size <= sl.mem + PAGE && sl.mem <= sl.freelist
    ensures SlabOk(ram', size, Popped(ram, sl), fs[1..])
  {
    SlotInPage(sl.mem, size, fs[0]);
    assert HoldsLink(ram, sl.mem, size, fs, 0);
    var t := fs[1..];
    forall k | 0 <= k < |t|
      ensures t[k] < sl.objects && t[k] != fs[0] && HoldsLink(ram, sl.mem, size, t, k)
    {
      assert HoldsLink(ram, sl.mem, size, fs, k + 1);
      assert Link(sl.mem, size, t, k + 1) == Link(sl.mem, size, fs, k + 2);
    }
    TailLinks(ram, ram', size, sl, t, fs[0], sl.freelist + size);
    assert Link(sl.mem, size, t, 0) == Link(sl.mem, size, fs, 1);
  }

  /** A released object goes to the front of the free list; only its first word is written. */
  lemma PushOk(ram: Ram, size: nat, sl: Slab, fs: seq<nat>, j: nat)
    requires SlabOk(ram, size, sl, fs) && j < sl.objects && j !in fs && 0 < sl.inuse
    ensures Addr(sl.mem, size, j) + 4 <= |ram| && sl.freelist < WORD_RANGE
    ensures SlabOk(Stored(ram, Addr(sl.mem, size, j), sl.freelist), size,
                   sl.(freelist := Addr(sl.mem, size, j), inuse := sl.inuse - 1), [j] + fs)
  {
    hide Stored, Load, ObjectsPerSlab;
    SlotInPage(sl.mem, size, j);
    if fs != [] { SlotInPage(sl.mem, size, fs[0]); }
    var a := Addr(sl.mem, size, j);
    LoadStored(ram, a, sl.freelist);
    TailLinks(ram, Stored(ram, a, sl.freelist), size, sl, fs, j, a + 4);
    PushedLinks(Stored(ram, a, sl.freelist), sl.mem, size, fs, j);
  }

  lemma PushedLinks(ram: Ram, mem: nat, size: nat, fs: seq<nat>, j: nat)
    requires Addr(mem, size, j) + 4 <= |ram| && Load(ram, Addr(mem, size, j)) == Link(mem, size, fs, 0)
    requires forall k :: 0 <= k < |fs| ==> HoldsLink(ram, mem, size, fs, k)
    ensures var t := [j] + fs; forall k :: 0 <= k < |t| ==> HoldsLink(ram, mem, size, t, k)
  {
    hide Load, Addr;
    var t := [j] + fs;
    forall k | 0 <= k < |t|
      ensures HoldsLink(ram, mem, size, t, k)
    {
      assert Link(mem, size, t, k + 1) == Link(mem, size, fs, k);
      if k > 0 { assert HoldsLink(ram, mem, size, fs, k - 1); }
    }
  }

  function Counting(n: nat): (r: seq<nat>)
    ensures |r| == n
  {
    seq(n, i requires 0 <= i => i)
  }

  /** A page whose slots link to one another in order is an unused slab. */
  lemma FreshOk(ram: Ram, size: nat, mem: nat)
    requires 4 <= size <= PAGE - DESCRIPTOR && 0 < mem && mem + PAGE <= |ram| && mem + PAGE <= WORD_RANGE
    requires forall k :: 0 <= k < ObjectsPerSlab(size) ==>
               HoldsLink(ram, mem, size, Counting(ObjectsPerSlab(size)), k)
    ensures SlabOk(ram, size, Slab(mem, 0, ObjectsPerSlab(size), mem), Counting(ObjectsPerSlab(size)))
  {
    OnePerSlab(size);
    assert Addr(mem, size, 0) == mem;
  }

  lemma OnePerSlab(size: nat)
    requires 0 < size <= PAGE - DESCRIPTOR
    ensures 1 <= ObjectsPerSlab(size)
  {
  }
}
