/** The physical memory manager: page allocation over the bitmap, in place. */
module PageAllocator {
  import opened PageBitmap
  import opened Sequences

  class Pmm {
    const bitmap: array<bv32>
    var totalBlocks: nat
    var usedBlocks: nat
    /** Pages handed out and not yet taken back. */
    ghost var given: set<nat>

    /** The counter is exact, and no bit behind the end of memory is set. */
    ghost predicate Valid()
      reads this, bitmap
    {
      && bitmap.Length == BITMAP_SIZE
      && totalBlocks <= MAX_BLOCKS
      && usedBlocks == |Taken()|
      && (forall b :: totalBlocks <= b < MAX_BLOCKS ==> !Used(bitmap[..], b))
    }

    ghost function Taken(): set<nat>
      requires bitmap.Length == BITMAP_SIZE && totalBlocks <= MAX_BLOCKS
      reads this, bitmap
    {
      UsedSet(bitmap[..], totalBlocks)
    }

    ghost predicate Guarded()
      requires bitmap.Length == BITMAP_SIZE && totalBlocks <= MAX_BLOCKS
      reads this, bitmap
    {
      Guard(totalBlocks, Taken(), given)
    }

    /** With 4MB of memory or more. With less, the loop marks pages behind the end of memory
        and the counter exceeds the number of pages, so the invariant does not hold. */
    constructor Init(memSize: nat)
      requires memSize < WORD_RANGE
      ensures Valid() <==> LOW_BLOCKS * PAGE <= memSize
      ensures Valid() ==> Guarded() && Taken() == Interval(0, LOW_BLOCKS)
      ensures given == {} && fresh(bitmap) && totalBlocks == memSize / PAGE && usedBlocks == LOW_BLOCKS
    {
      var t := memSize / PAGE;
      if t > MAX_BLOCKS {
        t := MAX_BLOCKS;
      }
      totalBlocks := t;
      usedBlocks := 0;
      given := {};
      bitmap := new bv32[BITMAP_SIZE](_ => 0);
      new;
      ghost var words := bitmap[..];
      ClearWords(words, t);
      hide Used, Marked;
      var i := 0;
      while i < LOW_BLOCKS
        invariant 0 <= i <= LOW_BLOCKS && usedBlocks == i && totalBlocks == t && given == {}
        invariant bitmap[..] == MarkedRange(words, 0, i)
      {
        BitmapSet(i);
        usedBlocks := usedBlocks + 1;
        i := i + 1;
      }
      if LOW_BLOCKS <= t {
        RangeSet(words, t, 0, LOW_BLOCKS);
        IntervalSize(0, LOW_BLOCKS);
        AboveClear(words, t, 0, LOW_BLOCKS);
      } else {
        MarkedRangeUsed(words, 0, LOW_BLOCKS, t);
      }
    }

    method BitmapSet(b: nat)
      requires bitmap.Length == BITMAP_SIZE && b < MAX_BLOCKS
      modifies bitmap
      ensures bitmap[..] == Marked(old(bitmap[..]), b)
    {
      bitmap[b / 32] := WithBit(bitmap[b / 32], At(b));
    }

    method BitmapUnset(b: nat)
      requires bitmap.Length == BITMAP_SIZE && b < MAX_BLOCKS
      modifies bitmap
      ensures bitmap[..] == Unmarked(old(bitmap[..]), b)
    {
      bitmap[b / 32] := WithoutBit(bitmap[b / 32], At(b));
    }

    method BitmapTest(b: nat) returns (r: bool)
      requires bitmap.Length == BITMAP_SIZE && b < MAX_BLOCKS
      ensures r == Used(bitmap[..], b)
    {
      r := bitmap[b / 32] & Mask(At(b)) != 0;
    }

    /** The scan skips 32 pages at a time, yet finds the page the naive scan finds. */
    method FindFree() returns (r: nat)
      requires bitmap.Length == BITMAP_SIZE && totalBlocks <= MAX_BLOCKS
      ensures r == FirstFree(bitmap[..], totalBlocks, 0)
    {
      ghost var words := bitmap[..];
      var i := 0;
      while i < BITMAP_SIZE
        invariant 0 <= i <= BITMAP_SIZE
        invariant forall b :: 0 <= b < 32 * i ==> Used(words, b)
      {
        if bitmap[i] != 0xFFFF_FFFF {
          var j := 0;
          while j < 32
            invariant 0 <= j <= 32
            invariant forall b :: 0 <= b < 32 * i + j ==> Used(words, b)
          {
            var bit := i * 32 + j;
            if bit >= totalBlocks {
              SkipUsed(words, totalBlocks, 0, totalBlocks);
              return NONE;
            }
            var used := BitmapTest(bit);
            if !used {
              SkipUsed(words, totalBlocks, 0, bit);
              return bit;
            }
            j := j + 1;
          }
          WholeWord(words, i);
          assert false;
        }
        SkipWord(words, i);
        i := i + 1;
      }
      SkipUsed(words, totalBlocks, 0, totalBlocks);
      return NONE;
    }

    /** The leftmost run of count free pages, or NONE exactly when there is no run. */
    method FindFreeContiguous(count: nat) returns (r: nat)
      requires bitmap.Length == BITMAP_SIZE && totalBlocks <= MAX_BLOCKS && 0 < count
      ensures r != NONE ==> FreeRun(bitmap[..], totalBlocks, r, count)
      ensures r != NONE ==> forall s: nat :: s < r ==> !FreeRun(bitmap[..], totalBlocks, s, count)
      ensures r == NONE ==> forall s: nat :: !FreeRun(bitmap[..], totalBlocks, s, count)
    {
      hide Used;
      ghost var words := bitmap[..];
      var found, start := 0, 0;
      var i := 0;
      while i < totalBlocks
        invariant 0 <= i <= totalBlocks && 0 <= found < count && found <= i
        invariant found > 0 ==> start == i - found
        invariant forall b :: i - found <= b < i ==> !Used(words, b)
        invariant found < i ==> Used(words, i - found - 1)
        invariant forall s: nat :: s + count <= i ==> !FreeRun(words, totalBlocks, s, count)
      {
        var used := BitmapTest(i);
        if !used {
          if found == 0 {
            start := i;
          }
          found := found + 1;
          forall s: nat | s < i + 1 - found && s + count <= i + 1
            ensures !FreeRun(words, totalBlocks, s, count)
          {
            assert s + count <= i || Used(words, i - found);
          }
          if found == count {
            assert FreeRun(words, totalBlocks, start, count);
            return start;
          }
        } else {
          found := 0;
        }
        i := i + 1;
      }
      return NONE;
    }

    method AllocBlock() returns (addr: nat)
      requires Valid()
      modifies this`usedBlocks, this`given, bitmap
      ensures Valid() && totalBlocks == old(totalBlocks)
      ensures var b := FirstFree(old(bitmap[..]), totalBlocks, 0);
              if b == NONE then
                addr == 0 && bitmap[..] == old(bitmap[..]) && given == old(given) && Taken() == Interval(0, totalBlocks)
              else
                && addr == b * PAGE < WORD_RANGE && bitmap[..] == Marked(old(bitmap[..]), b)
                && b !in old(Taken()) && Taken() == old(Taken()) + {b} && given == old(given) + {b}
      ensures old(Guarded()) ==> Guarded()
      ensures old(Guarded()) && FirstFree(old(bitmap[..]), totalBlocks, 0) != NONE ==>
                LOW_BLOCKS * PAGE <= addr && addr / PAGE !in old(given)
    {
      hide Used, Marked, FirstFree, UsedSet, Interval;
      ghost var words, taken := bitmap[..], Taken();
      var block := FindFree();
      if block == NONE {
        AllTaken(words, totalBlocks);
        return 0;
      }
      FirstFreeFree(words, totalBlocks);
      PageFacts(words, totalBlocks, block);
      BitmapSet(block);
      usedBlocks := usedBlocks + 1;
      if Guard(totalBlocks, taken, given) {
        GuardTake(totalBlocks, taken, given, {block});
        assert block in {block};
      }
      given := given + {block};
      return block * PAGE;
    }

    /** Takes a page back; addresses of free pages or beyond memory are ignored. */
    method FreeBlock(addr: nat)
      requires Valid() && addr < WORD_RANGE
      modifies this`usedBlocks, this`given, bitmap
      ensures Valid() && totalBlocks == old(totalBlocks)
      ensures bitmap[..] == Unmarked(old(bitmap[..]), addr / PAGE)
      ensures Taken() == old(Taken()) - {addr / PAGE} && given == old(given) - {addr / PAGE}
      ensures old(Guarded()) ==> (Guarded() <==> LOW_BLOCKS <= addr / PAGE)
    {
      hide UsedSet, Interval, Used, Unmarked;
      TakenBelow(bitmap[..], totalBlocks);
      var block := addr / PAGE;
      UnmarkFree(bitmap[..], block);
      if Guard(totalBlocks, Taken(), given) { GuardDrop(totalBlocks, Taken(), given, {block}); }
      given := given - {block};
      if block < totalBlocks {
        PageFacts(bitmap[..], totalBlocks, block);
        var used := BitmapTest(block);
        if used {
          BitmapUnset(block);
          usedBlocks := usedBlocks - 1;
        }
      }
    }

    method AllocBlocks(count: nat) returns (addr: nat)
      requires Valid() && count < WORD_RANGE
      modifies this`usedBlocks, this`given, bitmap
      ensures Valid() && totalBlocks == old(totalBlocks)
      ensures addr == 0 || RunTaken(old(bitmap[..]), addr, count)
      ensures addr != 0 ==> given == old(given) + Interval(addr / PAGE, count)
      ensures old(Guarded()) ==> Guarded()
      ensures old(Guarded()) && addr == 0 ==> bitmap[..] == old(bitmap[..]) && given == old(given)
      ensures old(Guarded()) ==>
                (addr == 0 <==> count == 0 || forall s: nat :: !FreeRun(old(bitmap[..]), totalBlocks, s, count))
    {
      if count == 0 {
        return 0;
      }
      if count == 1 {
        addr := AllocOne();
        return;
      }
      var start := FindFreeContiguous(count);
      if start == NONE {
        return 0;
      }
      addr := TakeRun(start, count);
    }

    /** The leftmost run of count free pages, which starts at addr, is now marked. */
    ghost predicate RunTaken(before: Words, addr: nat, count: nat)
      requires bitmap.Length == BITMAP_SIZE && totalBlocks <= MAX_BLOCKS
      reads this, bitmap
    {
      var s := addr / PAGE;
      && addr == s * PAGE && 0 < count && FreeRun(before, totalBlocks, s, count)
      && (forall r: nat :: r < s ==> !FreeRun(before, totalBlocks, r, count))
      && bitmap[..] == MarkedRange(before, s, count)
      && Taken() == UsedSet(before, totalBlocks) + Interval(s, count)
    }

    method AllocOne() returns (addr: nat)
      requires Valid()
      modifies this`usedBlocks, this`given, bitmap
      ensures Valid() && totalBlocks == old(totalBlocks)
      ensures addr == 0 || (RunTaken(old(bitmap[..]), addr, 1) && given == old(given) + Interval(addr / PAGE, 1))
      ensures old(Guarded()) ==> Guarded()
      ensures old(Guarded()) && addr == 0 ==> bitmap[..] == old(bitmap[..]) && given == old(given)
      ensures old(Guarded()) ==> (addr == 0 <==> forall s: nat :: !FreeRun(old(bitmap[..]), totalBlocks, s, 1))
    {
      hide Used, Marked, FirstFree, FreeRun, UsedSet, Interval, MarkedRange, Guard;
      ghost var words := bitmap[..];
      OneIsRun(words, totalBlocks);
      addr := AllocBlock();
      if addr != 0 {
        OnePage(words, addr / PAGE);
      }
    }

    /** Mark a run that the scan has found. */
    method TakeRun(start: nat, count: nat) returns (addr: nat)
      requires Valid() && 0 < count && FreeRun(bitmap[..], totalBlocks, start, count)
      requires forall r: nat :: r < start ==> !FreeRun(bitmap[..], totalBlocks, r, count)
      modifies this`usedBlocks, this`given, bitmap
      ensures Valid() && totalBlocks == old(totalBlocks)
      ensures RunTaken(old(bitmap[..]), addr, count)
      ensures addr == start * PAGE && given == old(given) + Interval(start, count)
      ensures old(Guarded()) ==> Guarded() && addr != 0
    {
      hide Used, UsedSet, Interval;
      ghost var words, taken := bitmap[..], Taken();
      RunFacts(words, totalBlocks, start, count);
      MarkRun(start, count);
      if Guard(totalBlocks, taken, given) {
        GuardTake(totalBlocks, taken, given, Interval(start, count));
      }
      given := given + Interval(start, count);
      return start * PAGE;
    }

    method MarkRun(start: nat, count: nat)
      requires Valid() && FreeRun(bitmap[..], totalBlocks, start, count)
      modifies this`usedBlocks, bitmap
      ensures Valid() && bitmap[..] == MarkedRange(old(bitmap[..]), start, count)
    {
      hide Used, Marked, UsedSet, Interval;
      ghost var words := bitmap[..];
      RunFacts(words, totalBlocks, start, count);
      var i := 0;
      while i < count
        invariant 0 <= i <= count && bitmap[..] == MarkedRange(words, start, i)
        invariant usedBlocks == |UsedSet(words, totalBlocks)| + i
      {
        BitmapSet(start + i);
        usedBlocks := usedBlocks + 1;
        i := i + 1;
      }
    }

    /** The addresses wrap around in 32 bits, and so do the pages taken back. */
    method FreeBlocks(addr: nat, count: nat)
      requires Valid() && addr < WORD_RANGE && count < WORD_RANGE
      modifies this`usedBlocks, this`given, bitmap
      ensures Valid() && totalBlocks == old(totalBlocks)
      ensures bitmap[..] == UnmarkedRange(old(bitmap[..]), addr / PAGE, count)
      ensures Taken() == old(Taken()) - Wrapped(addr / PAGE, count) && given == old(given) - Wrapped(addr / PAGE, count)
      ensures old(Guarded()) ==> (Guarded() <==> Wrapped(addr / PAGE, count) !! Interval(0, LOW_BLOCKS))
    {
      hide Used, Unmarked, Guard, UsedSet, Interval, UnmarkedRange, Wrapped;
      ghost var words, taken, held, s := bitmap[..], Taken(), given, addr / PAGE;
      ReleaseRun(addr, count);
      UnmarkedSet(words, totalBlocks, s, count);
      if Guard(totalBlocks, taken, held) { GuardDrop(totalBlocks, taken, held, Wrapped(s, count)); }
    }

    method ReleaseRun(addr: nat, count: nat)
      requires Valid() && addr < WORD_RANGE
      modifies this`usedBlocks, this`given, bitmap
      ensures Valid() && totalBlocks == old(totalBlocks)
      ensures bitmap[..] == UnmarkedRange(old(bitmap[..]), addr / PAGE, count)
      ensures given == old(given) - Wrapped(addr / PAGE, count)
    {
      hide Used, Unmarked, Guard, UsedSet, PageAfter;
      ghost var words, held, s := bitmap[..], given, addr / PAGE;
      var i := 0;
      while i < count
        invariant 0 <= i <= count && Valid() && totalBlocks == old(totalBlocks)
        invariant bitmap[..] == UnmarkedRange(words, s, i) && given == held - Wrapped(s, i)
      {
        PageStep(addr, i);
        DropStep(held, Wrapped(s, i), PageAfter(s, i));
        FreeBlock((addr + i * PAGE) % WORD_RANGE);
        i := i + 1;
      }
    }

    /** Marks the pages a region may touch; pages already taken are not counted twice. */
    method ReserveRegion(start: nat, size: nat)
      requires Valid() && start < WORD_RANGE && size < WORD_RANGE
      modifies this`usedBlocks, bitmap
      ensures Valid()
      ensures Taken() == old(Taken()) + Interval(start / PAGE, PageCount(size)) * Interval(0, totalBlocks)
      ensures old(Guarded()) ==> Guarded()
    {
      hide Used, UsedSet, Interval, Guard;
      ghost var taken := Taken();
      ReserveRun(start / PAGE, (size + PAGE - 1) % WORD_RANGE / PAGE);
      if Guard(totalBlocks, taken, given) { GuardGrow(totalBlocks, taken, given, Taken()); }
    }

    method ReserveRun(startBlock: nat, blockCount: nat)
      requires Valid()
      modifies this`usedBlocks, bitmap
      ensures Valid() && Taken() == old(Taken()) + Interval(startBlock, blockCount) * Interval(0, totalBlocks)
    {
      hide Used, UsedSet, Reserved;
      ghost var taken := Taken();
      ReservedNone(taken, startBlock, totalBlocks);
      var i := 0;
      while i < blockCount
        invariant 0 <= i <= blockCount && Valid()
        invariant Taken() == Reserved(taken, startBlock, i, totalBlocks)
      {
        ReservedMore(taken, startBlock, i, totalBlocks);
        ReserveBlock(startBlock + i);
        i := i + 1;
      }
      ReservedAll(taken, startBlock, blockCount, totalBlocks);
    }

    method ReserveBlock(block: nat)
      requires Valid()
      modifies this`usedBlocks, bitmap
      ensures Valid() && Taken() == old(Taken()) + (if block < totalBlocks then {block} else {})
    {
      hide UsedSet, Used, Marked;
      if block < totalBlocks {
        PageFacts(bitmap[..], totalBlocks, block);
        var used := BitmapTest(block);
        if !used {
          BitmapSet(block);
          usedBlocks := usedBlocks + 1;
        }
      }
    }
  }

  /** What taking a free run does to the set of taken pages. */
  lemma RunFacts(words: Words, total: nat, s: nat, n: nat)
    requires FreeRun(words, total, s, n) && forall c :: total <= c < MAX_BLOCKS ==> !Used(words, c)
    ensures UsedSet(words, total) !! Interval(s, n) && |Interval(s, n)| == n && (0 < n ==> s in Interval(s, n))
    ensures UsedSet(MarkedRange(words, s, n), total) == UsedSet(words, total) + Interval(s, n)
    ensures |UsedSet(MarkedRange(words, s, n), total)| == |UsedSet(words, total)| + n
    ensures forall c :: total <= c < MAX_BLOCKS ==> !Used(MarkedRange(words, s, n), c)
  {
    AboveClear(words, total, s, n);
    IntervalSize(s, n);
    RangeSet(words, total, s, n);
  }

  /** The same for one page, and for taking it back. */
  lemma PageFacts(words: Words, total: nat, b: nat)
    requires b < total <= MAX_BLOCKS && forall c :: total <= c < MAX_BLOCKS ==> !Used(words, c)
    ensures Used(words, b) <==> b in UsedSet(words, total)
    ensures UsedSet(Marked(words, b), total) == UsedSet(words, total) + {b}
    ensures UsedSet(Unmarked(words, b), total) == UsedSet(words, total) - {b}
    ensures forall c :: total <= c < MAX_BLOCKS ==> !Used(Marked(words, b), c) && !Used(Unmarked(words, b), c)
  {
    MarkedSet(words, total, b);
    AboveMarked(words, total, b);
  }

  lemma TakenBelow(words: Words, total: nat)
    requires total <= MAX_BLOCKS
    ensures forall b :: b in UsedSet(words, total) ==> b < total
  {
  }

  lemma AllTaken(words: Words, total: nat)
    requires total <= MAX_BLOCKS && FirstFree(words, total, 0) == NONE
    ensures UsedSet(words, total) == Interval(0, total)
  {
  }

  lemma FirstFreeFree(words: Words, total: nat)
    requires total <= MAX_BLOCKS && FirstFree(words, total, 0) != NONE
    ensures FirstFree(words, total, 0) < total && !Used(words, FirstFree(words, total, 0))
  {
  }

  /** Marking below the end of memory sets no bit behind it. */
  lemma AboveMarked(words: Words, total: nat, b: nat)
    requires b < total <= MAX_BLOCKS && forall c :: total <= c < MAX_BLOCKS ==> !Used(words, c)
    ensures forall c :: total <= c < MAX_BLOCKS ==> !Used(Marked(words, b), c) && !Used(Unmarked(words, b), c)
  {
    forall c | total <= c < MAX_BLOCKS
      ensures !Used(Marked(words, b), c) && !Used(Unmarked(words, b), c)
    {
      MarkedUsed(words, b, c);
    }
  }

  lemma AboveClear(words: Words, total: nat, s: nat, n: nat)
    requires s + n <= total <= MAX_BLOCKS && forall c :: total <= c < MAX_BLOCKS ==> !Used(words, c)
    ensures forall c :: total <= c < MAX_BLOCKS ==> !Used(MarkedRange(words, s, n), c)
  {
    forall c | total <= c < MAX_BLOCKS
      ensures !Used(MarkedRange(words, s, n), c)
    {
      MarkedRangeUsed(words, s, n, c);
    }
  }

  /** The pages taken after n from s on have been reserved, as far as they exist. */
  ghost function Reserved(taken: set<nat>, s: nat, n: nat, total: nat): set<nat> {
    taken + Interval(s, n) * Interval(0, total)
  }

  lemma ReservedNone(taken: set<nat>, s: nat, total: nat)
    ensures Reserved(taken, s, 0, total) == taken
  {
    IntervalStep(s, 0);
  }

  lemma ReservedMore(taken: set<nat>, s: nat, n: nat, total: nat)
    ensures Reserved(taken, s, n + 1, total) == Reserved(taken, s, n, total) + (if s + n < total then {s + n} else {})
  {
    IntervalStep(s, n);
  }

  lemma ReservedAll(taken: set<nat>, s: nat, n: nat, total: nat)
    ensures Reserved(taken, s, n, total) == taken + Interval(s, n) * Interval(0, total)
  {
  }

  lemma PageStep(addr: nat, i: nat)
    ensures (addr + i * PAGE) % WORD_RANGE / PAGE == PageAfter(addr / PAGE, i)
  {
    var q, r := addr / PAGE, addr % PAGE;
    var x, y := (q + i) / MAX_BLOCKS, (q + i) % MAX_BLOCKS;
    assert addr + i * PAGE == x * WORD_RANGE + (y * PAGE + r);
    WordRest(x, y * PAGE + r);
  }

  lemma WordRest(x: nat, r: nat)
    requires r < WORD_RANGE
    ensures (x * WORD_RANGE + r) % WORD_RANGE == r
  {
  }

  lemma DropStep(a: set<nat>, p: set<nat>, b: nat)
    ensures a - p - {b} == a - (p + {b})
  {
  }

  lemma SkipWord(words: Words, i: nat)
    requires i < BITMAP_SIZE && words[i] == 0xFFFF_FFFF
    ensures forall b :: 32 * i <= b < 32 * (i + 1) ==> Used(words, b)
  {
    forall b | 32 * i <= b < 32 * (i + 1)
      ensures Used(words, b)
    {
      FullWord(At(b));
    }
  }

  lemma WholeWord(words: Words, i: nat)
    requires i < BITMAP_SIZE && forall b :: 0 <= b < 32 * i + 32 ==> Used(words, b)
    ensures words[i] == 0xFFFF_FFFF
  {
    hide Bit, Mask, At;
    forall j: bv5
      ensures Bit(words[i], j)
    {
      assert Used(words, PageOf(i, j));
    }
    AllOnes(words[i]);
  }

  /** The number of pages of a region, in 32-bit arithmetic. */
  function PageCount(size: nat): nat {
    (size + PAGE - 1) % WORD_RANGE / PAGE
  }

  /** As many pages as the size needs, unless rounding it up wraps. */
  lemma PageCountExact(size: nat)
    requires size < WORD_RANGE
    ensures size + 4095 < WORD_RANGE ==> size <= 4096 * PageCount(size) < size + 4096
    ensures size + 4095 >= WORD_RANGE ==> PageCount(size) == 0
  {
    if size + 4095 >= WORD_RANGE {
      assert (size + 4095) % WORD_RANGE == size + 4095 - WORD_RANGE;
    }
  }

  /** The reserved pages cover the whole region exactly when the rounding does not wrap around
      and the bytes before its start in the first page leave room: the page count does not
      see the start offset. */
  lemma ReserveCovers(start: nat, size: nat)
    requires 0 < size < WORD_RANGE
    ensures (forall a: nat :: start <= a < start + size ==> a / PAGE in Interval(start / PAGE, PageCount(size)))
            <==> size + PAGE - 1 < WORD_RANGE && start % PAGE + size <= PageCount(size) * PAGE
  {
    var s, n := start / PAGE, PageCount(size);
    if size + PAGE - 1 >= WORD_RANGE {
      assert (size + PAGE - 1) % WORD_RANGE == size + PAGE - 1 - WORD_RANGE && n == 0;
      assert start <= start < start + size && start / PAGE !in Interval(s, n);
    } else if start % PAGE + size <= n * PAGE {
      forall a: nat | start <= a < start + size
        ensures a / PAGE in Interval(s, n)
      {
        assert s * PAGE <= a < (s + n) * PAGE;
      }
    } else {
      var a := start + size - 1;
      assert (s + n) * PAGE <= a;
      assert start <= a < start + size && a / PAGE !in Interval(s, n);
    }
  }
}
