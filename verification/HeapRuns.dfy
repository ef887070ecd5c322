/** Runs of the heap: what every sequence of allocations and releases keeps, when adjacent
    free blocks arise, and how the addresses handed out are aligned. */
module HeapRuns {
  import opened Arithmetic
  import opened HeapBlocks

  datatype Op = Alloc(size: nat) | Drop(p: nat)

  /** Callers release null or what they hold. */
  ghost predicate Legal(bs: seq<Block>, op: Op) {
    op.Drop? ==> op.p == 0 || exists i: nat :: LiveAt(bs, op.p, i)
  }

  function Step(bs: seq<Block>, op: Op): seq<Block> {
    match op
    case Alloc(size) => Malloc(bs, size)
    case Drop(p) => Release(bs, p)
  }

  ghost predicate LegalRun(bs: seq<Block>, ops: seq<Op>)
    decreases |ops|
  {
    ops == [] || (Legal(bs, ops[0]) && LegalRun(Step(bs, ops[0]), ops[1..]))
  }

  function Run(bs: seq<Block>, ops: seq<Op>): seq<Block>
    decreases |ops|
  {
    if ops == [] then bs else Run(Step(bs, ops[0]), ops[1..])
  }

  lemma StepTiles(bs: seq<Block>, from: nat, to: nat, op: Op)
    requires Tiles(bs, from, to) && Legal(bs, op)
    ensures Tiles(Step(bs, op), from, to)
  {
    match op
    case Alloc(size) => MallocTiles(bs, from, to, size);
    case Drop(p) =>
      if p != 0 {
        var i: nat :| LiveAt(bs, p, i);
        ReleaseAt(bs, from, to, p, i, 0);
        FreedTiles(bs, from, to, i);
      }
  }

  /** In every reachable state the blocks tile the heap, so header bytes and sizes always
      sum to its size. */
  lemma {:induction false} RunTiles(bs: seq<Block>, from: nat, to: nat, ops: seq<Op>)
    requires Tiles(bs, from, to) && LegalRun(bs, ops)
    ensures Tiles(Run(bs, ops), from, to) && from + Total(Run(bs, ops)) == to
    decreases |ops|
  {
    if ops == [] {
      TilesTotal(bs, from, to);
    } else {
      StepTiles(bs, from, to, ops[0]);
      RunTiles(Step(bs, ops[0]), from, to, ops[1..]);
    }
  }

  /** Callers that never release a block whose predecessor in memory is free. */
  ghost predicate Tidies(bs: seq<Block>, op: Op) {
    op.Drop? && op.p != 0 ==> exists i: nat :: LiveAt(bs, op.p, i) && (i == 0 || !bs[i - 1].free)
  }

  lemma StepNoPair(bs: seq<Block>, from: nat, to: nat, op: Op)
    requires Tiles(bs, from, to) && Legal(bs, op) && NoFreePair(bs)
    ensures NoFreePair(Step(bs, op)) <==> Tidies(bs, op)
  {
    match op
    case Alloc(size) => MallocNoPair(bs, size);
    case Drop(p) =>
      if p != 0 {
        var i: nat :| LiveAt(bs, p, i);
        ReleaseAt(bs, from, to, p, i, 0);
        FreedNoPair(bs, i);
        OnlyIndex(bs, from, to, p, i);
      }
  }

  lemma OnlyIndex(bs: seq<Block>, from: nat, to: nat, p: nat, i: nat)
    requires Tiles(bs, from, to) && LiveAt(bs, p, i)
    ensures forall j: nat :: LiveAt(bs, p, j) ==> j == i
  {
    forall j: nat | LiveAt(bs, p, j)
      ensures j == i
    {
      SameAddr(bs, from, to, i, j);
    }
  }

  ghost predicate TidyRun(bs: seq<Block>, ops: seq<Op>)
    decreases |ops|
  {
    ops == [] || (Tidies(bs, ops[0]) && TidyRun(Step(bs, ops[0]), ops[1..]))
  }

  ghost predicate NeverPair(bs: seq<Block>, ops: seq<Op>)
    decreases |ops|
  {
    NoFreePair(bs) && (ops == [] || NeverPair(Step(bs, ops[0]), ops[1..]))
  }

  /** So a run that starts without adjacent free blocks stays without them, at every step, if
      and only if no release in it hits a block behind a free one; and then every well-nested
      use that follows is the identity. */
  lemma {:induction false} RunNoPair(bs: seq<Block>, from: nat, to: nat, ops: seq<Op>, t: Nest)
    requires Tiles(bs, from, to) && LegalRun(bs, ops) && NoFreePair(bs)
    ensures NeverPair(bs, ops) <==> TidyRun(bs, ops)
    ensures TidyRun(bs, ops) ==> Exec(Run(bs, ops), t) == Run(bs, ops)
    decreases |ops|
  {
    if ops == [] {
      NestIdentity(bs, from, to, t);
    } else {
      StepTiles(bs, from, to, ops[0]);
      StepNoPair(bs, from, to, ops[0]);
      if Tidies(bs, ops[0]) { RunNoPair(Step(bs, ops[0]), from, to, ops[1..], t); }
    }
  }

  // ---- alignment of addresses --------------------------------------------------------------

  /** Addresses and sizes are multiples of the word size. */
  ghost predicate Words(bs: seq<Block>) {
    forall i :: 0 <= i < |bs| ==> bs[i].addr % 4 == 0 && bs[i].size % 4 == 0
  }

  lemma StepWords(bs: seq<Block>, from: nat, to: nat, op: Op)
    requires Tiles(bs, from, to) && Legal(bs, op) && Words(bs)
    ensures Words(Step(bs, op))
  {
    hide Freed, ReleaseFrom, Carved, Tiles, Rounded;
    match op
    case Alloc(size) =>
      RoundedWords(size);
      CarvedWords(bs, Fit(bs, Rounded(size)), Rounded(size));
    case Drop(p) =>
      if p != 0 {
        var i: nat :| LiveAt(bs, p, i);
        ReleaseAt(bs, from, to, p, i, 0);
        FreedWords(bs, i);
      }
  }

  lemma RoundedWords(size: nat)
    ensures Rounded(size) % 16 == 0 && Rounded(size) % 4 == 0
  {
    Sixteenfold((size + 15) % WORD_RANGE / 16);
  }

  lemma Sixteenfold(q: nat)
    ensures q * 16 % 16 == 0 && q * 16 % 4 == 0
  {
    Multiple(q, 16);
    Multiple(4 * q, 4);
  }

  lemma FreedWords(bs: seq<Block>, i: nat)
    requires Words(bs) && i < |bs|
    ensures Words(Freed(bs, i))
  {
    assert Words(bs[..i]) && (i + 2 <= |bs| ==> Words(bs[i + 2..]));
  }

  lemma CarvedWords(bs: seq<Block>, i: nat, n: nat)
    requires Words(bs) && i <= |bs| && n % 4 == 0
    ensures i < |bs| ==> Words(bs[..i] + Carved(bs[i], n) + bs[i + 1..])
  {
    if i < |bs| {
      assert Words(bs[..i]) && Words(bs[i + 1..]) && Words(Carved(bs[i], n));
    }
  }

  lemma {:induction false} RunWords(bs: seq<Block>, from: nat, to: nat, ops: seq<Op>, size: nat)
    requires Tiles(bs, from, to) && LegalRun(bs, ops) && Words(bs)
    ensures Words(Run(bs, ops)) && Pointer(Run(bs, ops), size) % 4 == 0
    decreases |ops|
  {
    if ops != [] {
      StepTiles(bs, from, to, ops[0]);
      StepWords(bs, from, to, ops[0]);
      RunWords(Step(bs, ops[0]), from, to, ops[1..], size);
    }
  }

  /** In every run from a fresh heap every address handed out is a multiple of 4. */
  lemma AddressesWords(ops: seq<Op>, size: nat)
    requires LegalRun(FRESH, ops)
    ensures Pointer(Run(FRESH, ops), size) % 4 == 0
  {
    FreshTiles();
    RunWords(FRESH, HEAP_START, HEAP_END, ops, size);
  }

  /** k blocks in use, then at most one free block, at an address that k fixes modulo 16. */
  ghost predicate Stacked(bs: seq<Block>, k: nat) {
    && k <= |bs| <= k + 1 && (forall i :: 0 <= i < k ==> !bs[i].free)
    && (|bs| == k + 1 ==> bs[k].free && bs[k].addr % 16 == HEADER * k % 16)
  }

  lemma StackedMalloc(bs: seq<Block>, k: nat, size: nat)
    requires Stacked(bs, k)
    ensures Pointer(bs, size) != 0 ==> Stacked(Malloc(bs, size), k + 1)
    ensures Pointer(bs, size) == 0 ==> Malloc(bs, size) == bs
    ensures Pointer(bs, size) != 0 ==> (Pointer(bs, size) % 16 == 0 <==> (k + 1) % 4 == 0)
  {
    var n := Rounded(size);
    var i := Fit(bs, n);
    if i < |bs| {
      assert i == k && bs[k + 1..] == [];
      assert Malloc(bs, size) == bs[..k] + Carved(bs[k], n);
      RoundedWords(size);
      Sixteen(bs[k].addr, k, n);
    }
  }

  lemma Sixteen(a: nat, k: nat, n: nat)
    requires a % 16 == HEADER * k % 16 && n % 16 == 0
    ensures (a + HEADER + n) % 16 == HEADER * (k + 1) % 16
    ensures (a + HEADER) % 16 == 0 <==> (k + 1) % 4 == 0
  {
    assert HEADER == 12;
    SameSum(a, 12 * k, 12);
    SameSum(a + 12, 12 * (k + 1), n);
    SameSum(n, 0, 12 * (k + 1));
    Twelves(k + 1);
  }

  lemma SameSum(x: nat, y: nat, z: nat)
    requires x % 16 == y % 16
    ensures (x + z) % 16 == (y + z) % 16
  {
    assert x == 16 * (x / 16) + x % 16 && y == 16 * (y / 16) + y % 16;
  }

  lemma Twelves(j: nat)
    ensures 12 * j % 16 == 0 <==> j % 4 == 0
  {
    var q, r := j / 4, j % 4;
    assert 12 * j == 16 * (3 * q) + 12 * r;
  }

  /** The heap after allocations only, and how many of them succeeded. */
  function Mallocs(bs: seq<Block>, sizes: seq<nat>): (seq<Block>, nat)
    decreases |sizes|
  {
    if sizes == [] then (bs, 0)
    else
      var (bs', k) := Mallocs(Malloc(bs, sizes[0]), sizes[1..]);
      (bs', if Pointer(bs, sizes[0]) == 0 then k else k + 1)
  }

  lemma {:induction false} MallocsStacked(bs: seq<Block>, j: nat, sizes: seq<nat>)
    requires Stacked(bs, j)
    ensures Stacked(Mallocs(bs, sizes).0, j + Mallocs(bs, sizes).1)
    decreases |sizes|
  {
    if sizes != [] {
      StackedMalloc(bs, j, sizes[0]);
      MallocsStacked(Malloc(bs, sizes[0]), if Pointer(bs, sizes[0]) == 0 then j else j + 1, sizes[1..]);
    }
  }

  /** With allocations only, the k-th address handed out by a fresh heap is a multiple of 16
      if and only if k is a multiple of 4; the first one is not. */
  lemma AlignedEveryFourth(sizes: seq<nat>, size: nat)
    ensures var (bs, k) := Mallocs(FRESH, sizes);
            Pointer(bs, size) != 0 ==> (Pointer(bs, size) % 16 == 0 <==> (k + 1) % 4 == 0)
    ensures Pointer(FRESH, 16) == HEAP_START + 12 && Pointer(FRESH, 16) % 16 == 12
  {
    FirstAddress();
    hide Pointer, Malloc, Rounded;
    MallocsStacked(FRESH, 0, sizes);
    var (bs, k) := Mallocs(FRESH, sizes);
    StackedMalloc(bs, k, size);
  }

  lemma FirstAddress()
    ensures Pointer(FRESH, 16) == HEAP_START + 12 && Pointer(FRESH, 16) % 16 == 12
  {
    assert Rounded(16) == 16;
  }

  const REST: nat := HEAP_SIZE - HEADER - 76

  /** A block of 64 bytes, one of 32, the rest of the heap; and the first two blocks alone. */
  function Three(a: bool, b: bool): seq<Block> {
    [Block(HEAP_START, 64, a), Block(HEAP_START + 76, 32, b), Block(HEAP_START + 120, REST - 44, true)]
  }

  function Two(a: bool): seq<Block> {
    [Block(HEAP_START, 64, a), Block(HEAP_START + 76, REST, true)]
  }

  lemma SampleMallocs()
    ensures Malloc(FRESH, 64) == Two(false) && Malloc(Two(false), 32) == Three(false, false)
    ensures Malloc(Two(true), 64) == Two(false) && Pointer(Two(true), 64) == HEAP_START + 12
  {
    assert Rounded(64) == 64 && Rounded(32) == 32;
    assert Two(false)[1..][0] == Two(false)[1];
    assert Fit(Two(false), 32) == 1 && Fit(Two(true), 64) == 0;
  }

  lemma SampleReleases()
    ensures LiveAt(Three(false, false), HEAP_START + 12, 0)
    ensures Release(Three(false, false), HEAP_START + 12) == Three(true, false)
    ensures LiveAt(Three(true, false), HEAP_START + 88, 1)
    ensures Release(Three(true, false), HEAP_START + 88) == Two(true)
    ensures |Release(Two(false), HEAP_START + 12)| == 1
  {
    var h := Three(true, false);
    assert ReleaseFrom(h, HEAP_START + 88, 1) == Freed(h, 1);
  }

  /** Adjacent free blocks do arise: here 64 bytes, then 32, are allocated from a fresh heap
      and released in that order. One more allocation of 64 bytes and its release then merge
      the first block with its neighbour. */
  lemma PairsArise()
    ensures var ops := [Alloc(64), Alloc(32), Drop(HEAP_START + 12), Drop(HEAP_START + 88)];
            && LegalRun(FRESH, ops) && Run(FRESH, ops) == Two(true) && !NoFreePair(Two(true))
            && Exec(Two(true), Scope(64, Done, Done)) != Two(true)
  {
    hide Malloc, Release, Pointer, Three;
    SampleMallocs();
    SampleReleases();
    RunFour(FRESH, [Alloc(64), Alloc(32), Drop(HEAP_START + 12), Drop(HEAP_START + 88)]);
    assert Two(true)[0].free && Two(true)[1].free;
    assert Exec(Two(false), Done) == Two(false);
  }

  lemma RunFour(bs: seq<Block>, ops: seq<Op>)
    requires |ops| == 4
    ensures var a := Step(bs, ops[0]); var b := Step(a, ops[1]); var c := Step(b, ops[2]);
            && Run(bs, ops) == Step(c, ops[3])
            && (LegalRun(bs, ops) <==> Legal(bs, ops[0]) && Legal(a, ops[1]) && Legal(b, ops[2]) && Legal(c, ops[3]))
  {
    var a := Step(bs, ops[0]); var b := Step(a, ops[1]); var c := Step(b, ops[2]);
    var t1, t2, t3 := ops[1..], ops[2..], ops[3..];
    assert t1[0] == ops[1] && t1[1..] == t2 && t2[0] == ops[2] && t2[1..] == t3 && t3[0] == ops[3] && t3[1..] == [];
    var d := Step(c, ops[3]);
    assert Run(d, []) == d && LegalRun(d, []);
    assert Run(c, t3) == d && LegalRun(c, t3) == Legal(c, ops[3]);
    assert Run(b, t2) == d && LegalRun(b, t2) == (Legal(b, ops[2]) && LegalRun(c, t3));
    assert Run(a, t1) == d && LegalRun(a, t1) == (Legal(a, ops[1]) && LegalRun(b, t2));
  }
}
