/** Sequences of addresses and numbers, and intervals: what several parts share. */
module Sequences {

  ghost predicate Distinct(s: seq<nat>) {
    forall i, j :: 0 <= i < j < |s| ==> s[i] != s[j]
  }

  function Elems(s: seq<nat>): set<nat> {
    set c | c in s
  }

  lemma {:induction false} DistinctCount(s: seq<nat>)
    requires Distinct(s)
    ensures |Elems(s)| == |s|
  {
    if s != [] {
      var t := s[..|s| - 1];
      DistinctCount(t);
      assert Elems(s) == Elems(t) + {s[|s| - 1]};
    }
  }

  /** s without the first occurrence of d. */
  function Less(s: seq<nat>, d: nat): seq<nat> {
    if s == [] then [] else if s[0] == d then s[1..] else [s[0]] + Less(s[1..], d)
  }

  lemma {:induction false} LessAbsent(s: seq<nat>, d: nat)
    requires d !in s
    ensures Less(s, d) == s
  {
    if s != [] { LessAbsent(s[1..], d); }
  }

  predicate AtLeast(b: nat, s: nat) {
    s <= b
  }

  /** The numbers s .. s + n - 1. */
  ghost function Interval(s: nat, n: nat): (r: set<nat>)
    ensures forall c :: c in r <==> s <= c < s + n
  {
    set b: nat | b < s + n && AtLeast(b, s)
  }

  lemma IntervalStep(s: nat, n: nat)
    ensures Interval(s, 0) == {} && Interval(s, n + 1) == Interval(s, n) + {s + n} && s + n !in Interval(s, n)
  {
  }

  lemma {:induction false} IntervalSize(s: nat, n: nat)
    ensures |Interval(s, n)| == n
  {
    if n > 0 {
      IntervalSize(s, n - 1);
      IntervalStep(s, n - 1);
    }
  }
}
