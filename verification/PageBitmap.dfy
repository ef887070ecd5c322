/** The physical page bitmap: one bit for each 4 KB page, 32 pages to a word. */
module PageBitmap {
  import opened Sequences

  const PAGE: nat := 4096
  const MAX_BLOCKS: nat := 1048576
  const BITMAP_SIZE: nat := 32768
  const NONE: nat := 0xFFFF_FFFF
  const WORD_RANGE: nat := 0x1_0000_0000

  /** The first 4 MB hold the kernel, the heap and device memory. */
  const LOW_BLOCKS: nat := 1024

  type Words = w: seq<bv32> | |w| == BITMAP_SIZE witness seq(BITMAP_SIZE, _ => 0)

  function Mask(j: bv5): bv32 {
    1 << j
  }

  predicate Bit(w: bv32, j: bv5) {
    w & Mask(j) != 0
  }

  function At(b: nat): bv5 {
    (b % 32) as bv5
  }

  function WithBit(w: bv32, j: bv5): bv32 {
    w | Mask(j)
  }

  function WithoutBit(w: bv32, j: bv5): bv32 {
    w & !Mask(j)
  }

  predicate Used(words: Words, b: nat)
    requires b < MAX_BLOCKS
  {
    Bit(words[b / 32], At(b))
  }

  function Marked(words: Words, b: nat): Words
    requires b < MAX_BLOCKS
  {
    words[b / 32 := WithBit(words[b / 32], At(b))]
  }

  function Unmarked(words: Words, b: nat): Words
    requires b < MAX_BLOCKS
  {
    words[b / 32 := WithoutBit(words[b / 32], At(b))]
  }

  lemma OrSame(w: bv32, j: bv5)
    ensures Bit(WithBit(w, j), j)
  {
  }

  lemma OrOther(w: bv32, j: bv5, k: bv5)
    requires j != k
    ensures Bit(WithBit(w, j), k) == Bit(w, k)
  {
    assert Mask(j) & Mask(k) == 0;
  }

  lemma AndSame(w: bv32, j: bv5)
    ensures !Bit(WithoutBit(w, j), j)
  {
  }

  lemma AndOther(w: bv32, j: bv5, k: bv5)
    requires j != k
    ensures Bit(WithoutBit(w, j), k) == Bit(w, k)
  {
    assert Mask(j) & Mask(k) == 0;
  }

  lemma AtInjective(b: nat, c: nat)
    requires At(b) == At(c)
    ensures b % 32 == c % 32
  {
    assert (b % 32) as bv5 as nat == b % 32 && (c % 32) as bv5 as nat == c % 32;
  }

  lemma MarkedUsed(words: Words, b: nat, c: nat)
    requires b < MAX_BLOCKS && c < MAX_BLOCKS
    ensures Used(Marked(words, b), c) <==> c == b || Used(words, c)
    ensures Used(Unmarked(words, b), c) <==> c != b && Used(words, c)
  {
    hide Bit, Mask, WithBit, WithoutBit, At;
    if b / 32 == c / 32 {
      var w, j, k := words[b / 32], At(b), At(c);
      if j == k {
        AtInjective(b, c);
        OrSame(w, j);
        AndSame(w, j);
        assert b == c;
      } else {
        OrOther(w, j, k);
        AndOther(w, j, k);
      }
    }
  }

  lemma AllAgree(v: bv32, w: bv32)
    requires Bit(v, 0) == Bit(w, 0) && Bit(v, 1) == Bit(w, 1) && Bit(v, 2) == Bit(w, 2) && Bit(v, 3) == Bit(w, 3)
    requires Bit(v, 4) == Bit(w, 4) && Bit(v, 5) == Bit(w, 5) && Bit(v, 6) == Bit(w, 6) && Bit(v, 7) == Bit(w, 7)
    requires Bit(v, 8) == Bit(w, 8) && Bit(v, 9) == Bit(w, 9) && Bit(v, 10) == Bit(w, 10) && Bit(v, 11) == Bit(w, 11)
    requires Bit(v, 12) == Bit(w, 12) && Bit(v, 13) == Bit(w, 13) && Bit(v, 14) == Bit(w, 14) && Bit(v, 15) == Bit(w, 15)
    requires Bit(v, 16) == Bit(w, 16) && Bit(v, 17) == Bit(w, 17) && Bit(v, 18) == Bit(w, 18) && Bit(v, 19) == Bit(w, 19)
    requires Bit(v, 20) == Bit(w, 20) && Bit(v, 21) == Bit(w, 21) && Bit(v, 22) == Bit(w, 22) && Bit(v, 23) == Bit(w, 23)
    requires Bit(v, 24) == Bit(w, 24) && Bit(v, 25) == Bit(w, 25) && Bit(v, 26) == Bit(w, 26) && Bit(v, 27) == Bit(w, 27)
    requires Bit(v, 28) == Bit(w, 28) && Bit(v, 29) == Bit(w, 29) && Bit(v, 30) == Bit(w, 30) && Bit(v, 31) == Bit(w, 31)
    ensures v == w
  {
  }

  /** A word whose 32 bits all agree with those of another is that word. */
  lemma BitsDetermine(v: bv32, w: bv32)
    requires forall j: bv5 :: Bit(v, j) == Bit(w, j)
    ensures v == w
  {
    hide Bit;
    AllAgree(v, w);
  }

  lemma AllOnes(w: bv32)
    requires forall j: bv5 :: Bit(w, j)
    ensures w == 0xFFFF_FFFF
  {
    forall j: bv5
      ensures Bit(0xFFFF_FFFF, j) == Bit(w, j)
    {
      FullWord(j);
    }
    BitsDetermine(0xFFFF_FFFF, w);
  }

  lemma FullWord(j: bv5)
    ensures Bit(0xFFFF_FFFF, j)
  {
  }

  function PageOf(i: nat, j: bv5): (b: nat)
    requires i < BITMAP_SIZE
    ensures b < MAX_BLOCKS && b / 32 == i && At(b) == j
  {
    32 * i + j as nat
  }

  /** Bitmaps that agree on every page are equal word for word. */
  lemma UsedDetermines(v: Words, w: Words)
    requires forall b :: 0 <= b < MAX_BLOCKS ==> (Used(v, b) <==> Used(w, b))
    ensures v == w
  {
    hide Bit, Mask, At;
    forall i | 0 <= i < BITMAP_SIZE
      ensures v[i] == w[i]
    {
      forall j: bv5
        ensures Bit(v[i], j) == Bit(w[i], j)
      {
        var b := PageOf(i, j);
        assert Used(v, b) <==> Used(w, b);
      }
      BitsDetermine(v[i], w[i]);
    }
  }

  // ---- searching -----------------------------------------------------------------------

  /** The naive scan: the least free page from i on. */
  function FirstFree(words: Words, total: nat, i: nat): (b: nat)
    requires i <= total <= MAX_BLOCKS
    ensures b == NONE || (i <= b < total && !Used(words, b))
    ensures b == NONE ==> forall c :: i <= c < total ==> Used(words, c)
    ensures b != NONE ==> forall c :: i <= c < b ==> Used(words, c)
    decreases total - i
  {
    if i == total then NONE else if !Used(words, i) then i else FirstFree(words, total, i + 1)
  }

  lemma {:induction false} SkipUsed(words: Words, total: nat, i: nat, k: nat)
    requires i <= k <= total <= MAX_BLOCKS && forall c :: i <= c < k ==> Used(words, c)
    ensures FirstFree(words, total, i) == FirstFree(words, total, k)
    decreases k - i
  {
    if i < k { SkipUsed(words, total, i + 1, k); }
  }

  ghost predicate FreeRun(words: Words, total: nat, s: nat, count: nat) {
    s + count <= total <= MAX_BLOCKS && forall b :: s <= b < s + count ==> !Used(words, b)
  }

  // ---- the set of used pages -----------------------------------------------------------

  ghost function UsedSet(words: Words, total: nat): set<nat>
    requires total <= MAX_BLOCKS
  {
    set b: nat | b < total && Used(words, b)
  }

  lemma MarkedSet(words: Words, total: nat, b: nat)
    requires b < total <= MAX_BLOCKS
    ensures UsedSet(Marked(words, b), total) == UsedSet(words, total) + {b}
    ensures UsedSet(Unmarked(words, b), total) == UsedSet(words, total) - {b}
  {
    forall c: nat | c < total
      ensures Used(Marked(words, b), c) <==> c == b || Used(words, c)
      ensures Used(Unmarked(words, b), c) <==> c != b && Used(words, c)
    {
      MarkedUsed(words, b, c);
    }
  }

  lemma ClearAgain(w: bv32, j: bv5)
    requires !Bit(w, j)
    ensures WithoutBit(w, j) == w
  {
  }

  lemma UnmarkFree(words: Words, b: nat)
    requires b < MAX_BLOCKS
    ensures !Used(words, b) ==> Unmarked(words, b) == words
  {
    hide Bit, Mask, WithoutBit, At;
    if !Used(words, b) { ClearAgain(words[b / 32], At(b)); }
  }

  /** A stretch of pages marked, or unmarked, one after the other. */
  function MarkedRange(words: Words, s: nat, n: nat): Words
    requires s + n <= MAX_BLOCKS
  {
    if n == 0 then words else Marked(MarkedRange(words, s, n - 1), s + n - 1)
  }

  /** Page numbers computed from 32-bit addresses wrap around behind the last page. */
  function PageAfter(s: nat, i: nat): (b: nat)
    ensures b < MAX_BLOCKS
  {
    (s + i) % MAX_BLOCKS
  }

  function UnmarkedRange(words: Words, s: nat, n: nat): Words {
    if n == 0 then words else Unmarked(UnmarkedRange(words, s, n - 1), PageAfter(s, n - 1))
  }

  ghost function Wrapped(s: nat, n: nat): set<nat> {
    if n == 0 then {} else Wrapped(s, n - 1) + {PageAfter(s, n - 1)}
  }

  lemma {:induction false} WrappedPlain(s: nat, n: nat)
    requires s + n <= MAX_BLOCKS
    ensures Wrapped(s, n) == Interval(s, n)
  {
    if n > 0 { WrappedPlain(s, n - 1); }
  }

  lemma {:induction false} MarkedRangeUsed(words: Words, s: nat, n: nat, c: nat)
    requires s + n <= MAX_BLOCKS && c < MAX_BLOCKS
    ensures Used(MarkedRange(words, s, n), c) <==> s <= c < s + n || Used(words, c)
  {
    hide Used, Marked, Unmarked;
    if n > 0 {
      MarkedRangeUsed(words, s, n - 1, c);
      MarkedUsed(MarkedRange(words, s, n - 1), s + n - 1, c);
    }
  }

  lemma {:induction false} UnmarkedRangeUsed(words: Words, s: nat, n: nat, c: nat)
    requires c < MAX_BLOCKS
    ensures Used(UnmarkedRange(words, s, n), c) <==> c !in Wrapped(s, n) && Used(words, c)
  {
    hide Used, Marked, Unmarked, PageAfter;
    if n > 0 {
      UnmarkedRangeUsed(words, s, n - 1, c);
      MarkedUsed(UnmarkedRange(words, s, n - 1), PageAfter(s, n - 1), c);
    }
  }

  /** Releasing a stretch right after it was taken restores the bitmap bit for bit. */
  lemma RangeRestored(words: Words, s: nat, n: nat)
    requires s + n <= MAX_BLOCKS && forall b :: s <= b < s + n ==> !Used(words, b)
    ensures UnmarkedRange(MarkedRange(words, s, n), s, n) == words
  {
    var w := UnmarkedRange(MarkedRange(words, s, n), s, n);
    WrappedPlain(s, n);
    hide Used, Wrapped;
    forall c | 0 <= c < MAX_BLOCKS
      ensures Used(w, c) <==> Used(words, c)
    {
      MarkedRangeUsed(words, s, n, c);
      UnmarkedRangeUsed(MarkedRange(words, s, n), s, n, c);
    }
    UsedDetermines(w, words);
  }

  lemma RangeSet(words: Words, total: nat, s: nat, n: nat)
    requires s + n <= total <= MAX_BLOCKS
    ensures UsedSet(MarkedRange(words, s, n), total) == UsedSet(words, total) + Interval(s, n)
  {
    forall c: nat | c < total
      ensures Used(MarkedRange(words, s, n), c) <==> s <= c < s + n || Used(words, c)
    {
      MarkedRangeUsed(words, s, n, c);
    }
  }

  lemma UnmarkedSet(words: Words, total: nat, s: nat, n: nat)
    requires total <= MAX_BLOCKS
    ensures UsedSet(UnmarkedRange(words, s, n), total) == UsedSet(words, total) - Wrapped(s, n)
  {
    forall c: nat | c < total
      ensures Used(UnmarkedRange(words, s, n), c) <==> c !in Wrapped(s, n) && Used(words, c)
    {
      UnmarkedRangeUsed(words, s, n, c);
    }
  }

  /** What callers rely on: pages they hold are taken, and all of low memory is taken but
      held by no one. */
  ghost predicate Guard(total: nat, taken: set<nat>, given: set<nat>) {
    given <= taken && LOW_BLOCKS <= total && Interval(0, LOW_BLOCKS) <= taken - given
  }

  lemma GuardTake(total: nat, taken: set<nat>, given: set<nat>, more: set<nat>)
    requires Guard(total, taken, given) && more !! taken
    ensures Guard(total, taken + more, given + more)
    ensures forall b :: b in more ==> LOW_BLOCKS <= b && b !in given
  {
    assert forall b: nat :: b < LOW_BLOCKS ==> b in Interval(0, LOW_BLOCKS);
  }

  lemma GuardGrow(total: nat, taken: set<nat>, given: set<nat>, taken': set<nat>)
    requires Guard(total, taken, given) && taken <= taken'
    ensures Guard(total, taken', given)
  {
  }

  /** Taking pages back keeps the guard exactly when none of them is low memory. */
  lemma GuardDrop(total: nat, taken: set<nat>, given: set<nat>, less: set<nat>)
    requires Guard(total, taken, given)
    ensures Guard(total, taken - less, given - less) <==> less !! Interval(0, LOW_BLOCKS)
  {
    if b :| b in less && b in Interval(0, LOW_BLOCKS) {
      assert b !in taken - less;
    }
  }

  lemma OnePage(words: Words, b: nat)
    requires b < MAX_BLOCKS
    ensures MarkedRange(words, b, 1) == Marked(words, b) && Interval(b, 1) == {b}
  {
    IntervalStep(b, 0);
    assert MarkedRange(words, b, 0) == words;
  }

  /** A run of one page starts where the naive scan stops. */
  lemma OneIsRun(words: Words, total: nat)
    requires total <= MAX_BLOCKS
    ensures var b := FirstFree(words, total, 0);
            && (b == NONE ==> forall s: nat :: !FreeRun(words, total, s, 1))
            && (b != NONE ==> FreeRun(words, total, b, 1) && forall s: nat :: s < b ==> !FreeRun(words, total, s, 1))
  {
    forall s: nat | FreeRun(words, total, s, 1)
      ensures s < total && !Used(words, s)
    {
    }
  }

  lemma ClearWords(words: Words, total: nat)
    requires total <= MAX_BLOCKS && forall i :: 0 <= i < BITMAP_SIZE ==> words[i] == 0
    ensures UsedSet(words, total) == {} && forall b :: 0 <= b < MAX_BLOCKS ==> !Used(words, b)
  {
  }
}
