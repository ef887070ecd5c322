/** The kernel heap as an address-ordered list of blocks: first fit with splitting, and
    release that merges with the following block only. */
module HeapBlocks {

  const HEAP_START: nat := 0x20_0000
  const HEAP_SIZE: nat := 0x10_0000
  const HEAP_END: nat := HEAP_START + HEAP_SIZE

  /** A header is a size, a flag and a pointer: 12 bytes on the 32-bit target. */
  const HEADER: nat := 12
  const WORD_RANGE: nat := 0x1_0000_0000

  datatype Block = Block(addr: nat, size: nat, free: bool) {
    function End(): nat {
      addr + HEADER + size
    }
  }

  /** Blocks in list order fill [from, to) without gap or overlap. */
  ghost predicate Tiles(bs: seq<Block>, from: nat, to: nat) {
    if bs == [] then from == to else bs[0].addr == from && Tiles(bs[1..], bs[0].End(), to)
  }

  function Total(bs: seq<Block>): nat {
    if bs == [] then 0 else HEADER + bs[0].size + Total(bs[1..])
  }

  lemma {:induction false} TilesTotal(bs: seq<Block>, from: nat, to: nat)
    requires Tiles(bs, from, to)
    ensures from + Total(bs) == to
  {
    if bs != [] { TilesTotal(bs[1..], bs[0].End(), to); }
  }

  lemma {:induction false} TilesSplit(a: seq<Block>, b: seq<Block>, from: nat, mid: nat, to: nat)
    requires Tiles(a, from, mid) && Tiles(b, mid, to)
    ensures Tiles(a + b, from, to)
  {
    if a == [] {
      assert a + b == b;
    } else {
      TilesSplit(a[1..], b, a[0].End(), mid, to);
      assert (a + b)[1..] == a[1..] + b;
    }
  }

  lemma {:induction false} TilesAt(bs: seq<Block>, from: nat, to: nat, i: nat)
    requires Tiles(bs, from, to) && i < |bs|
    ensures Tiles(bs[..i], from, bs[i].addr) && Tiles(bs[i + 1..], bs[i].End(), to)
    ensures from <= bs[i].addr && bs[i].End() <= to
  {
    TilesTotal(bs, from, to);
    if i > 0 {
      TilesAt(bs[1..], bs[0].End(), to, i - 1);
      assert bs[..i][1..] == bs[1..][..i - 1];
      assert bs[1..][i..] == bs[i + 1..];
    } else {
      TilesTotal(bs[1..], bs[0].End(), to);
    }
  }

  /** Payloads of different blocks never overlap, headers included. */
  lemma Ordered(bs: seq<Block>, from: nat, to: nat, i: nat, j: nat)
    requires Tiles(bs, from, to) && i < j < |bs|
    ensures bs[i].End() <= bs[j].addr
  {
    TilesAt(bs, from, to, i);
    TilesAt(bs[i + 1..], bs[i].End(), to, j - i - 1);
  }

  lemma SameAddr(bs: seq<Block>, from: nat, to: nat, i: nat, j: nat)
    requires Tiles(bs, from, to) && i < |bs| && j < |bs| && bs[i].addr == bs[j].addr
    ensures i == j
  {
    if i < j { Ordered(bs, from, to, i, j); }
    if j < i { Ordered(bs, from, to, j, i); }
  }

  // ---- allocation --------------------------------------------------------------------

  /** (size + 15) & ~15 in 32-bit arithmetic. */
  function Rounded(size: nat): nat {
    (size + 15) % WORD_RANGE / 16 * 16
  }

  /** The rounding covers the request exactly when the addition does not wrap around. */
  lemma RoundedCovers(size: nat)
    requires size < WORD_RANGE
    ensures size <= Rounded(size) <==> size + 15 < WORD_RANGE
    ensures size + 15 < WORD_RANGE ==> Rounded(size) < size + 16
    ensures size + 15 >= WORD_RANGE ==> Rounded(size) == 0
  {
    if size + 15 >= WORD_RANGE {
      assert (size + 15) % WORD_RANGE == size + 15 - WORD_RANGE;
    }
  }

  function Fit(bs: seq<Block>, n: nat): (i: nat)
    ensures i <= |bs|
    ensures i < |bs| ==> bs[i].free && n <= bs[i].size
    ensures forall j :: 0 <= j < i ==> !(bs[j].free && n <= bs[j].size)
  {
    if bs == [] || (bs[0].free && n <= bs[0].size) then 0 else 1 + Fit(bs[1..], n)
  }

  predicate Splits(b: Block, n: nat) {
    b.size > n + HEADER + 16
  }

  function Carved(b: Block, n: nat): seq<Block> {
    if Splits(b, n) then [Block(b.addr, n, false), Block(b.addr + HEADER + n, b.size - n - HEADER, true)]
    else [Block(b.addr, b.size, false)]
  }

  function Malloc(bs: seq<Block>, size: nat): seq<Block> {
    var n := Rounded(size);
    var i := Fit(bs, n);
    if i == |bs| then bs else bs[..i] + Carved(bs[i], n) + bs[i + 1..]
  }

  /** The address handed out; 0 is the null pointer. */
  function Pointer(bs: seq<Block>, size: nat): nat {
    var i := Fit(bs, Rounded(size));
    if i == |bs| then 0 else bs[i].addr + HEADER
  }

  // ---- release -----------------------------------------------------------------------

  function Freed(bs: seq<Block>, i: nat): seq<Block>
    requires i < |bs|
  {
    var b := bs[i];
    if i + 1 < |bs| && bs[i + 1].free then
      bs[..i] + [Block(b.addr, b.size + HEADER + bs[i + 1].size, true)] + bs[i + 2..]
    else
      bs[i := Block(b.addr, b.size, true)]
  }

  /** p is the payload of a block in use, at index i. */
  ghost predicate LiveAt(bs: seq<Block>, p: nat, i: nat) {
    i < |bs| && bs[i].addr + HEADER == p && !bs[i].free
  }

  // ---- tiling ------------------------------------------------------------------------

  lemma Replace(bs: seq<Block>, from: nat, to: nat, i: nat, k: nat, mid: seq<Block>)
    requires Tiles(bs, from, to) && i < k <= |bs|
    requires Tiles(mid, bs[i].addr, bs[k - 1].End())
    ensures Tiles(bs[..i] + mid + bs[k..], from, to)
  {
    TilesAt(bs, from, to, i);
    TilesAt(bs, from, to, k - 1);
    TilesSplit(bs[..i], mid, from, bs[i].addr, bs[k - 1].End());
    TilesSplit(bs[..i] + mid, bs[k..], from, bs[k - 1].End(), to);
  }

  lemma One(b: Block, from: nat, to: nat)
    ensures Tiles([b], from, to) <==> b.addr == from && b.End() == to
  {
    assert [b][1..] == [];
  }

  lemma Two(b: Block, c: Block, from: nat, to: nat)
    ensures Tiles([b, c], from, to) <==> b.addr == from && b.End() == c.addr && c.End() == to
  {
    assert [b, c][1..] == [c];
    One(c, b.End(), to);
  }

  lemma MallocTiles(bs: seq<Block>, from: nat, to: nat, size: nat)
    requires Tiles(bs, from, to)
    ensures Tiles(Malloc(bs, size), from, to)
  {
    var n := Rounded(size);
    var i := Fit(bs, n);
    if i < |bs| {
      var c := Carved(bs[i], n);
      if Splits(bs[i], n) { Two(c[0], c[1], bs[i].addr, bs[i].End()); } else { One(c[0], bs[i].addr, bs[i].End()); }
      Replace(bs, from, to, i, i + 1, c);
    }
  }

  lemma FreedTiles(bs: seq<Block>, from: nat, to: nat, i: nat)
    requires Tiles(bs, from, to) && i < |bs|
    ensures Tiles(Freed(bs, i), from, to)
  {
    var b := bs[i];
    if i + 1 < |bs| && bs[i + 1].free {
      TilesAt(bs, from, to, i);
      assert bs[i + 1..][0] == bs[i + 1];
      var m := Block(b.addr, b.size + HEADER + bs[i + 1].size, true);
      One(m, b.addr, bs[i + 1].End());
      Replace(bs, from, to, i, i + 2, [m]);
    } else {
      var m := Block(b.addr, b.size, true);
      One(m, b.addr, b.End());
      Replace(bs, from, to, i, i + 1, [m]);
      assert bs[i := m] == bs[..i] + [m] + bs[i + 1..];
    }
  }

  // ---- what callers hold ---------------------------------------------------------------

  /** The blocks in use: what allocation adds to and release takes from. */
  function Live(bs: seq<Block>): set<Block> {
    set b | b in bs && !b.free
  }

  lemma LiveParts(a: seq<Block>, m: seq<Block>, c: seq<Block>)
    ensures Live(a + m + c) == Live(a) + Live(m) + Live(c)
  {
    forall x
      ensures x in a + m + c <==> x in a || x in m || x in c
    {
    }
  }

  lemma Parts(bs: seq<Block>, i: nat, k: nat)
    requires i <= k <= |bs|
    ensures bs == bs[..i] + bs[i..k] + bs[k..]
  {
  }

  /** The block that an allocation hands out. */
  function Handed(bs: seq<Block>, size: nat): Block
    requires Fit(bs, Rounded(size)) < |bs|
  {
    Carved(bs[Fit(bs, Rounded(size))], Rounded(size))[0]
  }

  lemma NotLive(bs: seq<Block>, from: nat, to: nat, i: nat, b: Block)
    requires Tiles(bs, from, to) && i < |bs| && bs[i].free && b.addr == bs[i].addr
    ensures b !in Live(bs)
  {
    if b in Live(bs) {
      var j :| 0 <= j < |bs| && bs[j] == b;
      SameAddr(bs, from, to, i, j);
    }
  }

  /** First fit, with the split written out: the first free block that is large enough is handed
      out, whole if at most 28 bytes more than asked for, and otherwise cut, the rest free. */
  lemma MallocExact(bs: seq<Block>, size: nat, i: nat)
    requires i < |bs| && bs[i].free && Rounded(size) <= bs[i].size
    requires forall j :: 0 <= j < i ==> !(bs[j].free && Rounded(size) <= bs[j].size)
    ensures Pointer(bs, size) == bs[i].addr + 12
    ensures var b, n := bs[i], Rounded(size);
            Malloc(bs, size) == bs[..i]
              + (if b.size <= n + 28 then [Block(b.addr, b.size, false)]
                 else [Block(b.addr, n, false), Block(b.addr + 12 + n, b.size - n - 12, true)])
              + bs[i + 1..]
  {
    assert Fit(bs, Rounded(size)) == i;
  }

  /** No more than 43 bytes of a block handed out go unused. */
  lemma WasteBounded(bs: seq<Block>, size: nat)
    requires size + 15 < WORD_RANGE && Pointer(bs, size) != 0
    ensures Handed(bs, size).addr + 12 == Pointer(bs, size)
    ensures size <= Handed(bs, size).size < size + 44
  {
    RoundedCovers(size);
  }

  /** Allocation fails exactly when no free block is large enough, and then changes nothing. */
  lemma MallocFails(bs: seq<Block>, size: nat)
    ensures Pointer(bs, size) == 0 <==> forall b :: b in bs && b.free ==> b.size < Rounded(size)
    ensures Pointer(bs, size) == 0 ==> Malloc(bs, size) == bs
  {
    var i := Fit(bs, Rounded(size));
    if i < |bs| { assert bs[i] in bs; }
  }

  /** Otherwise it adds one block of at least the rounded size to those in use and leaves
      all others as they are. */
  lemma MallocLive(bs: seq<Block>, from: nat, to: nat, size: nat)
    requires Tiles(bs, from, to) && Pointer(bs, size) != 0
    ensures var b := Handed(bs, size);
            && Pointer(bs, size) == b.addr + HEADER && Rounded(size) <= b.size
            && b !in Live(bs) && Live(Malloc(bs, size)) == Live(bs) + {b}
  {
    var n := Rounded(size);
    var i := Fit(bs, n);
    NotLive(bs, from, to, i, Carved(bs[i], n)[0]);
    LiveReplace(bs, i, i + 1, Carved(bs[i], n));
    CarvedLive(bs, i, n);
  }

  lemma CarvedLive(bs: seq<Block>, i: nat, n: nat)
    requires i < |bs| && bs[i].free
    ensures Live(Carved(bs[i], n)) == {Carved(bs[i], n)[0]} && Live(bs[i..i + 1]) == {}
    ensures n <= bs[i].size ==> n <= Carved(bs[i], n)[0].size
  {
    assert bs[i..i + 1] == [bs[i]];
    var c := Carved(bs[i], n);
    assert forall b :: b in c ==> b == c[0] || b.free;
  }

  lemma LiveReplace(bs: seq<Block>, i: nat, k: nat, mid: seq<Block>)
    requires i <= k <= |bs|
    ensures Live(bs) == Live(bs[..i]) + Live(bs[k..]) + Live(bs[i..k])
    ensures Live(bs[..i] + mid + bs[k..]) == Live(bs[..i]) + Live(bs[k..]) + Live(mid)
  {
    Parts(bs, i, k);
    LiveParts(bs[..i], bs[i..k], bs[k..]);
    LiveParts(bs[..i], mid, bs[k..]);
  }

  /** Release takes exactly the released block out of use. */
  lemma FreedLive(bs: seq<Block>, from: nat, to: nat, p: nat, i: nat)
    requires Tiles(bs, from, to) && LiveAt(bs, p, i)
    ensures Live(Freed(bs, i)) == Live(bs) - {bs[i]}
  {
    var k := if i + 1 < |bs| && bs[i + 1].free then i + 2 else i + 1;
    var m := Freed(bs, i)[i];
    FreedIs(bs, i, k, m);
    LiveReplace(bs, i, k, [m]);
    Middle(bs, i, k, m);
    Alone(bs, from, to, i, k);
    hide Live;
    assert Live(bs) - {bs[i]} == Live(bs[..i]) + Live(bs[k..]);
  }

  lemma Middle(bs: seq<Block>, i: nat, k: nat, m: Block)
    requires i < |bs| && k == (if i + 1 < |bs| && bs[i + 1].free then i + 2 else i + 1)
    requires !bs[i].free && m.free
    ensures Live([m]) == {} && Live(bs[i..k]) == {bs[i]}
  {
  }

  lemma FreedIs(bs: seq<Block>, i: nat, k: nat, m: Block)
    requires i < |bs| && k == (if i + 1 < |bs| && bs[i + 1].free then i + 2 else i + 1) && m == Freed(bs, i)[i]
    ensures Freed(bs, i) == bs[..i] + [m] + bs[k..] && m.free
  {
  }

  lemma Alone(bs: seq<Block>, from: nat, to: nat, i: nat, k: nat)
    requires Tiles(bs, from, to) && i < k <= |bs|
    ensures bs[i] !in Live(bs[..i]) + Live(bs[k..])
  {
    forall j | 0 <= j < |bs| && bs[j] == bs[i] ensures j == i { SameAddr(bs, from, to, i, j); }
    assert bs[i] !in bs[..i] && bs[i] !in bs[k..];
  }

  /** The addresses that callers hold. */
  function Pointers(bs: seq<Block>): set<nat> {
    set b | b in Live(bs) :: b.addr + HEADER
  }

  lemma HeldPointer(bs: seq<Block>, p: nat)
    ensures p in Pointers(bs) <==> exists i: nat :: LiveAt(bs, p, i)
  {
    if p in Pointers(bs) {
      var b :| b in Live(bs) && p == b.addr + HEADER;
      var i: nat :| i < |bs| && bs[i] == b;
      assert LiveAt(bs, p, i);
    }
    if i: nat :| LiveAt(bs, p, i) { assert bs[i] in Live(bs); }
  }

  /** An allocation adds one address, not held before, to those that callers hold. */
  lemma MallocPointers(bs: seq<Block>, from: nat, to: nat, size: nat)
    requires Tiles(bs, from, to) && Pointer(bs, size) != 0
    ensures Pointer(bs, size) !in Pointers(bs) && Pointers(Malloc(bs, size)) == Pointers(bs) + {Pointer(bs, size)}
  {
    hide Tiles, Pointers;
    var p := Pointer(bs, size);
    MallocLive(bs, from, to, size);
    HeldPointer(bs, p);
    var i := Fit(bs, Rounded(size));
    if j: nat :| LiveAt(bs, p, j) { SameAddr(bs, from, to, i, j); }
    AddedPointer(bs, Malloc(bs, size), Handed(bs, size));
  }

  lemma AddedPointer(bs: seq<Block>, bs': seq<Block>, b: Block)
    requires Live(bs') == Live(bs) + {b}
    ensures Pointers(bs') == Pointers(bs) + {b.addr + HEADER}
  {
    hide Live;
    assert b in Live(bs');
  }

  lemma FreedPointers(bs: seq<Block>, from: nat, to: nat, p: nat)
    requires Tiles(bs, from, to) && p in Pointers(bs)
    ensures Pointers(Release(bs, p)) == Pointers(bs) - {p}
  {
    HeldPointer(bs, p);
    var i: nat :| LiveAt(bs, p, i);
    ReleaseAt(bs, from, to, p, i, 0);
    FreedLive(bs, from, to, p, i);
    forall b | b in Live(bs) && b.addr == bs[i].addr
      ensures b == bs[i]
    {
      var j: nat :| j < |bs| && bs[j] == b;
      SameAddr(bs, from, to, i, j);
    }
    DroppedPointer(bs, Freed(bs, i), bs[i]);
  }

  lemma DroppedPointer(bs: seq<Block>, bs': seq<Block>, b: Block)
    requires b in Live(bs) && Live(bs') == Live(bs) - {b} && forall c :: c in Live(bs) && c.addr == b.addr ==> c == b
    ensures Pointers(bs') == Pointers(bs) - {b.addr + HEADER}
  {
    hide Live;
  }

  // ---- last in, first out --------------------------------------------------------------

  ghost predicate NoFreePair(bs: seq<Block>) {
    forall i, j :: 0 <= i < |bs| && 0 <= j < |bs| && j == i + 1 ==> !(bs[i].free && bs[j].free)
  }

  /** Releasing what was just allocated gives back the exact block list, unless the block
      fitted without a split and the next block is free, when the two are merged. */
  lemma LifoExact(bs: seq<Block>, size: nat)
    ensures var n := Rounded(size);
            var i := Fit(bs, n);
            i < |bs| ==>
              && i < |Malloc(bs, size)| && Malloc(bs, size)[i].addr == bs[i].addr && !Malloc(bs, size)[i].free
              && (Freed(Malloc(bs, size), i) == bs <==> (Splits(bs[i], n) || !(i + 1 < |bs| && bs[i + 1].free)))
  {
    var n := Rounded(size);
    var i := Fit(bs, n);
    if i < |bs| {
      if Splits(bs[i], n) { LifoSplit(bs, i, n); } else { LifoWhole(bs, i); }
    }
  }

  lemma LifoSplit(bs: seq<Block>, i: nat, n: nat)
    requires i < |bs| && bs[i].free && Splits(bs[i], n)
    ensures var m := bs[..i] + Carved(bs[i], n) + bs[i + 1..];
            m[i] == Carved(bs[i], n)[0] && Freed(m, i) == bs
  {
    var c := Carved(bs[i], n);
    var m := bs[..i] + c + bs[i + 1..];
    assert m[i] == c[0] && m[i + 1] == c[1] && m[..i] == bs[..i] && m[i + 2..] == bs[i + 1..];
    Parts(bs, i, i + 1);
    assert bs[i..i + 1] == [Block(c[0].addr, c[0].size + HEADER + c[1].size, true)];
  }

  lemma LifoWhole(bs: seq<Block>, i: nat)
    requires i < |bs| && bs[i].free
    ensures var m := bs[..i] + [bs[i].(free := false)] + bs[i + 1..];
            && m[i] == bs[i].(free := false)
            && (Freed(m, i) == bs <==> !(i + 1 < |bs| && bs[i + 1].free))
  {
    var m := bs[..i] + [bs[i].(free := false)] + bs[i + 1..];
    assert m == bs[i := bs[i].(free := false)];
    if i + 1 < |bs| && bs[i + 1].free {
      assert |Freed(m, i)| == |bs| - 1;
    } else {
      assert Freed(m, i) == bs;
    }
  }

  lemma MallocNoPair(bs: seq<Block>, size: nat)
    requires NoFreePair(bs)
    ensures NoFreePair(Malloc(bs, size))
  {
    var n := Rounded(size);
    var i := Fit(bs, n);
    if i < |bs| {
      CarvedNoPair(bs, i, Carved(bs[i], n));
    }
  }

  lemma CarvedNoPair(bs: seq<Block>, i: nat, c: seq<Block>)
    requires NoFreePair(bs) && i < |bs| && bs[i].free && 1 <= |c| <= 2 && !c[0].free
    ensures NoFreePair(bs[..i] + c + bs[i + 1..])
  {
    var m, k := bs[..i] + c + bs[i + 1..], |c| - 1;
    forall x, y | 0 <= x < |m| && 0 <= y < |m| && y == x + 1
      ensures !(m[x].free && m[y].free)
    {
      if y < i {
        assert m[x] == bs[x] && m[y] == bs[y];
      } else if x == i || y == i {
        assert m[i] == c[0];
      } else {
        assert m[y] == bs[y - k];
        assert x > i + k ==> m[x] == bs[x - k];
        assert x - k == i || (x - k > i && y - k == x - k + 1);
      }
    }
  }

  /** Release leaves no two adjacent free blocks exactly when the block before the released
      one is in use: the block behind it is merged, the one before it is not. */
  lemma FreedNoPair(bs: seq<Block>, i: nat)
    requires NoFreePair(bs) && i < |bs| && !bs[i].free
    ensures NoFreePair(Freed(bs, i)) <==> i == 0 || !bs[i - 1].free
  {
    var bs' := Freed(bs, i);
    var k := |bs| - |bs'|;
    assert bs'[i].free && (forall j :: 0 <= j < i ==> bs'[j] == bs[j]);
    assert forall j :: i < j < |bs'| ==> bs'[j] == bs[j + k];
    if i > 0 && bs[i - 1].free {
      assert bs'[i - 1].free && bs'[i].free;
    } else {
      MergedNoPair(bs, bs', i, k);
    }
  }

  lemma MergedNoPair(bs: seq<Block>, bs': seq<Block>, i: nat, k: nat)
    requires NoFreePair(bs) && i < |bs'| && |bs| == |bs'| + k && k <= 1 && (k == 1 ==> bs[i + 1].free)
    requires (forall j :: 0 <= j < i ==> bs'[j] == bs[j]) && (forall j :: i < j < |bs'| ==> bs'[j] == bs[j + k])
    requires k == 0 && i + 1 < |bs| ==> !bs[i + 1].free
    requires i == 0 || !bs[i - 1].free
    ensures NoFreePair(bs')
  {
    forall x, y | 0 <= x < |bs'| && 0 <= y < |bs'| && y == x + 1
      ensures !(bs'[x].free && bs'[y].free)
    {
      if x == i && k == 1 { assert bs'[y] == bs[i + 2]; }
    }
  }

  /** Well-nested use: allocate, do something well nested, release, go on. */
  datatype Nest = Done | Scope(size: nat, inner: Nest, rest: Nest)

  function Release(bs: seq<Block>, p: nat): seq<Block> {
    if p == 0 then bs else ReleaseFrom(bs, p, 0)
  }

  function ReleaseFrom(bs: seq<Block>, p: nat, k: nat): seq<Block>
    requires k <= |bs|
    decreases |bs| - k
  {
    if k == |bs| then bs
    else if bs[k].addr + HEADER == p then Freed(bs, k)
    else ReleaseFrom(bs, p, k + 1)
  }

  lemma {:induction false} ReleaseAt(bs: seq<Block>, from: nat, to: nat, p: nat, i: nat, k: nat)
    requires Tiles(bs, from, to) && i < |bs| && bs[i].addr + HEADER == p && k <= i
    ensures ReleaseFrom(bs, p, k) == Freed(bs, i)
    decreases i - k
  {
    if k < i {
      Ordered(bs, from, to, k, i);
      ReleaseAt(bs, from, to, p, i, k + 1);
    }
  }

  function Exec(bs: seq<Block>, t: Nest): seq<Block>
    decreases t
  {
    match t
    case Done => bs
    case Scope(size, inner, rest) =>
      Exec(Release(Exec(Malloc(bs, size), inner), Pointer(bs, size)), rest)
  }

  /** On a heap without two adjacent free blocks every well-nested use is the identity,
      although release never merges backwards. */
  lemma {:induction false} NestIdentity(bs: seq<Block>, from: nat, to: nat, t: Nest)
    requires Tiles(bs, from, to) && NoFreePair(bs)
    ensures Exec(bs, t) == bs
    decreases t
  {
    if t.Scope? {
      MallocTiles(bs, from, to, t.size);
      MallocNoPair(bs, t.size);
      NestIdentity(Malloc(bs, t.size), from, to, t.inner);
      LifoExact(bs, t.size);
      var i := Fit(bs, Rounded(t.size));
      if i < |bs| {
        ReleaseAt(Malloc(bs, t.size), from, to, Pointer(bs, t.size), i, 0);
      }
      NestIdentity(bs, from, to, t.rest);
    }
  }

  const FRESH: seq<Block> := [Block(HEAP_START, HEAP_SIZE - HEADER, true)]

  lemma FreshTiles()
    ensures Tiles(FRESH, HEAP_START, HEAP_END) && NoFreePair(FRESH)
  {
    One(FRESH[0], HEAP_START, HEAP_END);
  }
}
