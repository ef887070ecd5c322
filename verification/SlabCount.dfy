/** The counter of active objects against the objects in use themselves. */
module SlabCount {
  import opened Sequences
  import opened SlabPages
  import opened SlabLists

  ghost function At(mem: nat, size: nat, js: set<nat>): set<nat> {
    set j | j in js :: Addr(mem, size, j)
  }

  lemma {:induction false} AtCount(mem: nat, size: nat, js: set<nat>)
    requires 0 < size
    ensures |At(mem, size, js)| == |js|
    decreases js
  {
    if js != {} {
      var j :| j in js;
      AtCount(mem, size, js - {j});
      forall i | i in js - {j}
        ensures Addr(mem, size, i) != Addr(mem, size, j)
      {
        if Addr(mem, size, i) == Addr(mem, size, j) { SlotUnique(mem, size, i, j); }
      }
      assert At(mem, size, js) == At(mem, size, js - {j}) + {Addr(mem, size, j)};
    }
  }

  /** The objects of one slab that are in use. */
  ghost function HeldSet(size: nat, s: Slab, fs: seq<nat>): set<nat> {
    At(s.mem, size, Interval(0, s.objects) - Elems(fs))
  }

  lemma HeldSetIs(ram: Ram, size: nat, s: Slab, fs: seq<nat>)
    requires SlabOk(ram, size, s, fs)
    ensures forall a: nat :: a in HeldSet(size, s, fs) <==> Held(size, s, fs, a)
    ensures |HeldSet(size, s, fs)| == s.inuse
  {
    var js := Interval(0, s.objects) - Elems(fs);
    AtCount(s.mem, size, js);
    DistinctCount(fs);
    IntervalSize(0, s.objects);
    assert Elems(fs) <= Interval(0, s.objects);
    forall a: nat
      ensures a in HeldSet(size, s, fs) <==> Held(size, s, fs, a)
    {
      if a in HeldSet(size, s, fs) {
        var j: nat :| j in js && a == Addr(s.mem, size, j);
        assert HeldAt(size, s, fs, a, j);
      }
      if j: nat :| HeldAt(size, s, fs, a, j) { assert j in js; }
    }
  }

  ghost function HeldBy(size: nat, m: Slabs, free: FreeLists, list: seq<Ref>): set<nat>
    requires free.Keys == m.Keys && forall d: Ref :: d in list ==> d in m
  {
    if list == [] then {} else HeldSet(size, m[list[0]], free[list[0]]) + HeldBy(size, m, free, list[1..])
  }

  lemma {:induction false} HeldByIs(ram: Ram, size: nat, m: Slabs, free: FreeLists, list: seq<Ref>)
    requires Stores(ram, size, m, free) && Distinct(list) && forall d: Ref :: d in list ==> d in m
    ensures forall a: nat :: a in HeldBy(size, m, free, list) <==> exists d: Ref :: d in list && Held(size, m[d], free[d], a)
    ensures |HeldBy(size, m, free, list)| == InUse(m, list)
  {
    if list != [] {
      var d, t := list[0], list[1..];
      assert list == [d] + t && d !in t;
      HeldByIs(ram, size, m, free, t);
      SlabAt(ram, size, m, free, d);
      HeldSetIs(ram, size, m[d], free[d]);
      hide Stores, SlabOk, Held, HeldSet, HeldBy;
      forall a: nat | a in HeldSet(size, m[d], free[d])
        ensures a !in HeldBy(size, m, free, t)
      {
        Elsewhere(ram, size, m, free, d, a);
      }
      HeldByStep(size, m, free, list);
    }
  }

  lemma HeldByStep(size: nat, m: Slabs, free: FreeLists, list: seq<Ref>)
    requires free.Keys == m.Keys && list != [] && forall d: Ref :: d in list ==> d in m
    requires HeldSet(size, m[list[0]], free[list[0]]) !! HeldBy(size, m, free, list[1..])
    ensures HeldBy(size, m, free, list) == HeldSet(size, m[list[0]], free[list[0]]) + HeldBy(size, m, free, list[1..])
    ensures |HeldBy(size, m, free, list)|
            == |HeldSet(size, m[list[0]], free[list[0]])| + |HeldBy(size, m, free, list[1..])|
  {
  }

  lemma Elsewhere(ram: Ram, size: nat, m: Slabs, free: FreeLists, d: Ref, a: nat)
    requires Stores(ram, size, m, free) && d in m && Held(size, m[d], free[d], a)
    ensures forall e: Ref :: e in m && e != d ==> !Held(size, m[e], free[e], a)
  {
    SlabAt(ram, size, m, free, d);
    HeldInPage(ram, size, m[d], free[d], a);
    Others(ram, size, m, free, d, a);
    forall e: Ref | e in m && e != d
      ensures !Held(size, m[e], free[e], a)
    {
      assert e in m - {d} && (m - {d})[e] == m[e] && (free - {d})[e] == free[e];
    }
  }

  /** The sum over the three lists that the cache counts is the number of objects in use. */
  lemma ActiveCounts(ram: Ram, size: nat, m: Slabs, free: FreeLists, l: Lists) returns (all: set<nat>)
    requires Stores(ram, size, m, free) && Listed(m, l)
    ensures free.Keys == m.Keys && forall a: nat :: a in all <==> HeldIn(size, m, free, a)
    ensures |all| == l.Active(m)
  {
    SameKeys(ram, size, m, free);
    AllListed(m, l);
    hide Stores, Listed, Distinct, InUse, Held, Lists.Active;
    HeldByIs(ram, size, m, free, All(l));
    all := HeldBy(size, m, free, All(l));
  }

  function All(l: Lists): seq<Ref> {
    l.full + l.partial + l.empty
  }

  lemma AllListed(m: Slabs, l: Lists)
    requires Listed(m, l)
    ensures Distinct(All(l)) && forall d: Ref :: d in All(l) <==> d in m
    ensures InUse(m, All(l)) == l.Active(m)
  {
    assert ListedAs(m, l.Of(Full), Full) && ListedAs(m, l.Of(Partial), Partial) && ListedAs(m, l.Of(Empty), Empty);
    forall d: Ref
      ensures d in All(l) <==> d in m
    {
      assert d in All(l) <==> d in l.Of(Full) || d in l.Of(Partial) || d in l.Of(Empty);
    }
    DistinctJoined(l.full, l.partial);
    DistinctJoined(l.full + l.partial, l.empty);
    InUseJoined(m, l.full, l.partial);
    InUseJoined(m, l.full + l.partial, l.empty);
  }

  lemma DistinctJoined(s: seq<Ref>, t: seq<Ref>)
    requires Distinct(s) && Distinct(t) && forall d: Ref :: d in s ==> d !in t
    ensures Distinct(s + t)
  {
    forall i, j | 0 <= i < j < |s + t|
      ensures (s + t)[i] != (s + t)[j]
    {
      assert i < |s| ==> (s + t)[i] in s;
      assert |s| <= j ==> (s + t)[j] in t;
    }
  }

  lemma {:induction false} InUseJoined(m: Slabs, s: seq<Ref>, t: seq<Ref>)
    requires forall d: Ref :: d in s || d in t ==> d in m
    ensures InUse(m, s + t) == InUse(m, s) + InUse(m, t)
  {
    if s == [] {
      assert s + t == t;
    } else {
      InUseJoined(m, s[1..], t);
      assert (s + t)[1..] == s[1..] + t;
    }
  }
}
