/** What a slab cache knows as a whole: its slabs on three lists, the objects in use, and
    the heap blocks and pages behind them. */
module SlabLists {
  import opened Sequences
  import opened SlabPages
  import opened HeapBlocks

  /** A slab is named by the address of its descriptor on the kernel heap. */
  type Ref = nat

  type Slabs = map<Ref, Slab>
  type FreeLists = map<Ref, seq<nat>>

  // ---- the three lists -----------------------------------------------------------------------

  datatype Kind = Full | Partial | Empty

  function KindOf(s: Slab): Kind {
    if s.inuse == s.objects then Full else if s.inuse == 0 then Empty else Partial
  }

  datatype Lists = Lists(full: seq<Ref>, partial: seq<Ref>, empty: seq<Ref>) {
    function Of(k: Kind): seq<Ref> {
      match k
      case Full => full
      case Partial => partial
      case Empty => empty
    }

    function Without(d: Ref): Lists {
      Lists(Less(full, d), Less(partial, d), Less(empty, d))
    }

    /** New at the head of the list that its counters call for. */
    function With(d: Ref, s: Slab): Lists {
      match KindOf(s)
      case Full => this.(full := [d] + full)
      case Partial => this.(partial := [d] + partial)
      case Empty => this.(empty := [d] + empty)
    }

    function Count(): nat {
      |full| + |partial| + |empty|
    }

    function Active(m: Slabs): nat
      requires forall k: Kind, d: Ref :: d in Of(k) ==> d in m
    {
      assert forall d: Ref :: (d in full ==> d in Of(Full)) && (d in partial ==> d in Of(Partial)) && (d in empty ==> d in Of(Empty));
      InUse(m, full) + InUse(m, partial) + InUse(m, empty)
    }
  }

  function InUse(m: Slabs, s: seq<Ref>): nat
    requires forall d: Ref :: d in s ==> d in m
  {
    if s == [] then 0 else m[s[0]].inuse + InUse(m, s[1..])
  }

  /** Each slab is on the list that its counters call for, once, and on no other. */
  ghost predicate Listed(m: Slabs, l: Lists) {
    forall k: Kind :: ListedAs(m, l.Of(k), k)
  }

  ghost predicate ListedAs(m: Slabs, s: seq<Ref>, k: Kind) {
    Distinct(s) && forall d: Ref :: d in s <==> d in m && KindOf(m[d]) == k
  }

  lemma {:induction false} LessOf(s: seq<Ref>, d: Ref)
    requires Distinct(s)
    ensures Distinct(Less(s, d)) && forall e: Ref :: e in Less(s, d) <==> e in s && e != d
    ensures |Less(s, d)| == |s| - (if d in s then 1 else 0)
  {
    if s != [] {
      var t := s[1..];
      assert s == [s[0]] + t;
      LessOf(t, d);
      if s[0] != d { Prepended(s[0], Less(t, d)); }
    }
  }

  lemma Prepended(d: Ref, s: seq<Ref>)
    requires Distinct(s) && d !in s
    ensures Distinct([d] + s)
  {
  }

  lemma {:induction false} LessInUse(m: Slabs, s: seq<Ref>, d: Ref)
    requires Distinct(s) && forall e: Ref :: e in s ==> e in m
    ensures forall e: Ref :: e in Less(s, d) ==> e in m - {d}
    ensures InUse(m - {d}, Less(s, d)) == InUse(m, s) - (if d in s then m[d].inuse else 0)
  {
    LessOf(s, d);
    if s != [] {
      var t := s[1..];
      assert s == [s[0]] + t;
      if s[0] == d {
        InUseAgree(m, m - {d}, t);
      } else {
        LessInUse(m, t, d);
        assert Less(s, d)[1..] == Less(t, d);
      }
    }
  }

  lemma {:induction false} InUseAgree(m: Slabs, m': Slabs, s: seq<Ref>)
    requires forall d: Ref :: d in s ==> d in m && d in m' && m[d] == m'[d]
    ensures InUse(m, s) == InUse(m', s)
  {
    if s != [] { InUseAgree(m, m', s[1..]); }
  }

  lemma Without(m: Slabs, l: Lists, d: Ref)
    requires Listed(m, l) && d in m
    ensures Listed(m - {d}, l.Without(d))
    ensures l.Without(d).Count() == l.Count() - 1 && l.Without(d).Active(m - {d}) == l.Active(m) - m[d].inuse
  {
    forall k: Kind
      ensures ListedAs(m - {d}, l.Without(d).Of(k), k)
    {
      LessListed(m, l.Of(k), k, d);
    }
    forall k: Kind
      ensures d in l.Of(k) <==> k == KindOf(m[d])
    {
      assert ListedAs(m, l.Of(k), k);
    }
    CountLess(m, l, d);
  }

  lemma LessListed(m: Slabs, s: seq<Ref>, k: Kind, d: Ref)
    requires ListedAs(m, s, k)
    ensures ListedAs(m - {d}, Less(s, d), k)
  {
    LessOf(s, d);
  }

  lemma CountLess(m: Slabs, l: Lists, d: Ref)
    requires Listed(m, l) && Listed(m - {d}, l.Without(d)) && d in m
    requires forall k: Kind :: d in l.Of(k) <==> k == KindOf(m[d])
    ensures l.Without(d).Count() == l.Count() - 1 && l.Without(d).Active(m - {d}) == l.Active(m) - m[d].inuse
  {
    assert ListedAs(m, l.Of(Full), Full) && ListedAs(m, l.Of(Partial), Partial) && ListedAs(m, l.Of(Empty), Empty);
    assert d in l.full <==> d in l.Of(Full);
    assert d in l.partial <==> d in l.Of(Partial);
    assert d in l.empty <==> d in l.Of(Empty);
    LessOf(l.full, d);
    LessOf(l.partial, d);
    LessOf(l.empty, d);
    hide Less, InUse, Distinct, KindOf, Listed, ListedAs;
    LessInUse(m, l.full, d);
    LessInUse(m, l.partial, d);
    LessInUse(m, l.empty, d);
  }

  lemma With(m: Slabs, l: Lists, d: Ref, s: Slab)
    requires Listed(m, l) && d !in m
    ensures Listed(m[d := s], l.With(d, s))
    ensures l.With(d, s).Count() == l.Count() + 1 && l.With(d, s).Active(m[d := s]) == l.Active(m) + s.inuse
  {
    forall k: Kind
      ensures ListedAs(m[d := s], l.With(d, s).Of(k), k)
    {
      MoreListed(m, l.Of(k), k, d, s);
    }
    InUseWith(m, l, d, s);
  }

  lemma MoreListed(m: Slabs, t: seq<Ref>, k: Kind, d: Ref, s: Slab)
    requires ListedAs(m, t, k) && d !in m
    ensures ListedAs(m[d := s], if k == KindOf(s) then [d] + t else t, k)
  {
    if k == KindOf(s) { Prepended(d, t); }
  }

  lemma InUseWith(m: Slabs, l: Lists, d: Ref, s: Slab)
    requires Listed(m, l) && d !in m && Listed(m[d := s], l.With(d, s))
    ensures l.With(d, s).Active(m[d := s]) == l.Active(m) + s.inuse
  {
    forall k: Kind
      ensures forall e: Ref :: e in l.Of(k) ==> e in m
      ensures InUse(m[d := s], l.Of(k)) == InUse(m, l.Of(k))
      ensures InUse(m[d := s], [d] + l.Of(k)) == s.inuse + InUse(m, l.Of(k))
    {
      assert ListedAs(m, l.Of(k), k);
      InUseMore(m, l.Of(k), d, s);
    }
    hide InUse, Listed, ListedAs;
    assert l.full == l.Of(Full) && l.partial == l.Of(Partial) && l.empty == l.Of(Empty);
  }

  lemma InUseMore(m: Slabs, t: seq<Ref>, d: Ref, s: Slab)
    requires d !in m && forall e: Ref :: e in t ==> e in m
    ensures InUse(m[d := s], t) == InUse(m, t) && InUse(m[d := s], [d] + t) == s.inuse + InUse(m, t)
  {
    InUseAgree(m, m[d := s], t);
    assert ([d] + t)[1..] == t;
  }

  /** A slab whose counters have changed goes to the head of the list that they call for. */
  lemma Moved(m: Slabs, l: Lists, d: Ref, s: Slab)
    requires Listed(m, l) && d in m
    ensures Listed(m[d := s], l.Without(d).With(d, s)) && l.Without(d).With(d, s).Count() == l.Count()
    ensures l.Without(d).With(d, s).Active(m[d := s]) == l.Active(m) - m[d].inuse + s.inuse
  {
    hide Listed, Lists.Active, Lists.Without, Lists.With, Lists.Count;
    Without(m, l, d);
    With(m - {d}, l.Without(d), d, s);
    assert (m - {d})[d := s] == m[d := s];
  }

  /** The first unused slab leaves its list and no other. */
  lemma WithoutFirst(m: Slabs, l: Lists)
    requires Listed(m, l) && l.empty != []
    ensures l.empty[0] in m && m[l.empty[0]].inuse == 0 && l.Without(l.empty[0]) == l.(empty := l.empty[1..])
  {
    var d := l.empty[0];
    assert ListedAs(m, l.Of(Full), Full) && ListedAs(m, l.Of(Partial), Partial) && ListedAs(m, l.Of(Empty), Empty);
    assert d in l.Of(Empty) && d !in l.Of(Full) && d !in l.Of(Partial);
    LessAbsent(l.full, d);
    LessAbsent(l.partial, d);
  }

  // ---- the pages of the slabs -----------------------------------------------------------------

  ghost predicate Stores(ram: Ram, size: nat, m: Slabs, free: FreeLists) {
    && free.Keys == m.Keys
    && (forall d: Ref :: d in m ==> SlabOk(ram, size, m[d], free[d]))
    && (forall d: Ref, e: Ref :: d in m && e in m && d != e ==> PagesApart(m[d], m[e]))
  }

  predicate PagesApart(s: Slab, t: Slab) {
    s.mem + PAGE <= t.mem || t.mem + PAGE <= s.mem
  }

  /** One slab changes, in its own page. */
  lemma StoresUpdate(ram: Ram, ram': Ram, size: nat, m: Slabs, free: FreeLists, d: Ref, s: Slab, fs: seq<nat>, lo: nat, hi: nat)
    requires Stores(ram, size, m, free) && d in m && s.mem == m[d].mem
    requires Agree(ram, ram', lo, hi) && s.mem <= lo && hi <= s.mem + PAGE && SlabOk(ram', size, s, fs)
    ensures Stores(ram', size, m[d := s], free[d := fs])
  {
    hide SlabOk, Agree;
    forall e: Ref | e in m && e != d
      ensures SlabOk(ram', size, m[e], free[e])
    {
      assert PagesApart(m[d], m[e]);
      OtherPage(ram, ram', size, m[e], free[e], lo, hi);
    }
  }

  /** A slab is added, in a page of its own. */
  lemma StoresAdd(ram: Ram, ram': Ram, size: nat, m: Slabs, free: FreeLists, d: Ref, s: Slab, fs: seq<nat>)
    requires Stores(ram, size, m, free) && d !in m && forall e: Ref :: e in m ==> PagesApart(s, m[e])
    requires Agree(ram, ram', s.mem, s.mem + PAGE) && SlabOk(ram', size, s, fs)
    ensures Stores(ram', size, m[d := s], free[d := fs])
  {
    hide SlabOk, Agree;
    forall e: Ref | e in m
      ensures SlabOk(ram', size, m[e], free[e])
    {
      OtherPage(ram, ram', size, m[e], free[e], s.mem, s.mem + PAGE);
    }
  }

  lemma StoresLess(ram: Ram, size: nat, m: Slabs, free: FreeLists, d: Ref)
    requires Stores(ram, size, m, free)
    ensures Stores(ram, size, m - {d}, free - {d})
  {
    hide SlabOk;
  }

  // ---- objects in use ---------------------------------------------------------------------------

  /** a is a slot of the slab that is not on its free list. */
  ghost predicate Held(size: nat, s: Slab, fs: seq<nat>, a: nat) {
    exists j: nat :: HeldAt(size, s, fs, a, j)
  }

  ghost predicate HeldAt(size: nat, s: Slab, fs: seq<nat>, a: nat, j: nat) {
    j < s.objects && j !in fs && a == Addr(s.mem, size, j)
  }

  ghost predicate HeldIn(size: nat, m: Slabs, free: FreeLists, a: nat)
    requires free.Keys == m.Keys
  {
    exists d: Ref :: d in m && Held(size, m[d], free[d], a)
  }

  lemma SlotOf(size: nat, s: Slab, fs: seq<nat>, a: nat) returns (j: nat)
    requires Held(size, s, fs, a)
    ensures j < s.objects && j !in fs && a == Addr(s.mem, size, j)
  {
    j :| HeldAt(size, s, fs, a, j);
  }

  lemma SlotUnique(mem: nat, size: nat, i: nat, j: nat)
    requires 0 < size && Addr(mem, size, i) == Addr(mem, size, j)
    ensures i == j
  {
    if i < j { SlotApart(mem, size, i, j); }
    if j < i { SlotApart(mem, size, j, i); }
  }

  lemma HeldInPage(ram: Ram, size: nat, s: Slab, fs: seq<nat>, a: nat)
    requires SlabOk(ram, size, s, fs) && Held(size, s, fs, a)
    ensures s.mem <= a && a + size <= s.mem + PAGE && 0 < s.inuse
  {
    var j: nat :| HeldAt(size, s, fs, a, j);
    SlotInPage(s.mem, size, j);
    MissingOne(fs, s.objects, j);
  }

  /** Objects in use do not overlap. */
  lemma HeldApart(ram: Ram, size: nat, s: Slab, fs: seq<nat>, a: nat, b: nat)
    requires SlabOk(ram, size, s, fs) && Held(size, s, fs, a) && Held(size, s, fs, b) && a < b
    ensures a + size <= b
  {
    var i: nat :| HeldAt(size, s, fs, a, i);
    var j: nat :| HeldAt(size, s, fs, b, j);
    if j < i { SlotApart(s.mem, size, j, i); }
    if i < j { SlotApart(s.mem, size, i, j); }
  }

  lemma MissingOne(fs: seq<nat>, n: nat, j: nat)
    requires Distinct(fs) && (forall k :: 0 <= k < |fs| ==> fs[k] < n) && j < n && j !in fs
    ensures |fs| < n
  {
    Bounded([j] + fs, n);
  }

  /** Distinct numbers below n are at most n. */
  lemma {:induction false} Bounded(fs: seq<nat>, n: nat)
    requires Distinct(fs) && forall k :: 0 <= k < |fs| ==> fs[k] < n
    ensures |fs| <= n
    decreases n
  {
    if n > 0 {
      LessOf(fs, n - 1);
      var t := Less(fs, n - 1);
      forall k | 0 <= k < |t|
        ensures t[k] < n - 1
      {
        assert t[k] in t;
      }
      Bounded(t, n - 1);
    }
  }

  lemma HeldPopped(ram: Ram, size: nat, s: Slab, fs: seq<nat>, s': Slab, a: nat)
    requires SlabOk(ram, size, s, fs) && fs != [] && s'.mem == s.mem && s'.objects == s.objects
    ensures Held(size, s', fs[1..], a) <==> Held(size, s, fs, a) || a == s.freelist
    ensures !Held(size, s, fs, s.freelist)
  {
    var t := fs[1..];
    assert fs == [fs[0]] + t;
    assert s.freelist == Addr(s.mem, size, fs[0]);
    if j: nat :| HeldAt(size, s', t, a, j) {
      if j != fs[0] { assert HeldAt(size, s, fs, a, j); }
    }
    if j: nat :| HeldAt(size, s, fs, a, j) { assert HeldAt(size, s', t, a, j); }
    if a == s.freelist { assert fs[0] !in t; assert HeldAt(size, s', t, a, fs[0]); }
    if j: nat :| HeldAt(size, s, fs, s.freelist, j) { SlotUnique(s.mem, size, j, fs[0]); }
  }

  lemma HeldPushed(size: nat, s: Slab, fs: seq<nat>, s': Slab, j: nat, a: nat)
    requires 0 < size && j < s.objects && s'.mem == s.mem && s'.objects == s.objects
    ensures Held(size, s', [j] + fs, a) <==> Held(size, s, fs, a) && a != Addr(s.mem, size, j)
  {
    var t := [j] + fs;
    if i: nat :| HeldAt(size, s', t, a, i) {
      assert HeldAt(size, s, fs, a, i);
      if a == Addr(s.mem, size, j) { SlotUnique(s.mem, size, i, j); }
    }
    if a != Addr(s.mem, size, j) {
      if i: nat :| HeldAt(size, s, fs, a, i) { assert HeldAt(size, s', t, a, i); }
    }
  }

  /** What one slab holds decides what changes for the cache. */
  lemma HeldChange(size: nat, m: Slabs, free: FreeLists, d: Ref, s: Slab, fs: seq<nat>, a: nat)
    requires free.Keys == m.Keys
    ensures HeldIn(size, m[d := s], free[d := fs], a) <==> HeldIn(size, m - {d}, free - {d}, a) || Held(size, s, fs, a)
    ensures d in m ==> (HeldIn(size, m, free, a) <==> HeldIn(size, m - {d}, free - {d}, a) || Held(size, m[d], free[d], a))
  {
    hide Held;
    var m', f' := m[d := s], free[d := fs];
    if Held(size, s, fs, a) { assert d in m' && Held(size, m'[d], f'[d], a); }
    if HeldIn(size, m', f', a) {
      var e: Ref :| e in m' && Held(size, m'[e], f'[e], a);
      if e != d { assert e in m - {d} && Held(size, (m - {d})[e], (free - {d})[e], a); }
    }
    if HeldIn(size, m - {d}, free - {d}, a) {
      var e: Ref :| e in m - {d} && Held(size, (m - {d})[e], (free - {d})[e], a);
      assert Held(size, m'[e], f'[e], a);
      assert d in m ==> Held(size, m[e], free[e], a);
    }
    if d in m && HeldIn(size, m, free, a) {
      var e: Ref :| e in m && Held(size, m[e], free[e], a);
      if e != d { assert e in m - {d} && Held(size, (m - {d})[e], (free - {d})[e], a); }
    }
  }

  lemma Others(ram: Ram, size: nat, m: Slabs, free: FreeLists, d: Ref, a: nat)
    requires Stores(ram, size, m, free) && d in m && m[d].mem <= a < m[d].mem + PAGE
    ensures !HeldIn(size, m - {d}, free - {d}, a)
  {
    forall e: Ref | e in m && e != d
      ensures !Held(size, m[e], free[e], a)
    {
      assert PagesApart(m[e], m[d]);
      if Held(size, m[e], free[e], a) { HeldInPage(ram, size, m[e], free[e], a); }
    }
  }

  lemma SameKeys(ram: Ram, size: nat, m: Slabs, free: FreeLists)
    requires Stores(ram, size, m, free)
    ensures free.Keys == m.Keys
  {
  }

  /** Taking the first free slot of a slab makes it, and nothing else, an object in use. */
  lemma TakenLive(ram: Ram, size: nat, m: Slabs, free: FreeLists, d: Ref, s: Slab, a: nat)
    requires Stores(ram, size, m, free) && d in m && free[d] != [] && s.mem == m[d].mem && s.objects == m[d].objects
    ensures HeldIn(size, m[d := s], free[d := free[d][1..]], a) <==> HeldIn(size, m, free, a) || a == m[d].freelist
    ensures !HeldIn(size, m, free, m[d].freelist)
  {
    PopOk(ram, ram, size, m[d], free[d]);
    Others(ram, size, m, free, d, m[d].freelist);
    hide Held, HeldIn, Stores, PagesApart;
    SlabAt(ram, size, m, free, d);
    HeldChange(size, m, free, d, s, free[d][1..], a);
    HeldChange(size, m, free, d, s, free[d][1..], m[d].freelist);
    HeldPopped(ram, size, m[d], free[d], s, a);
  }

  lemma AllTaken(ram: Ram, size: nat, m: Slabs, free: FreeLists, d: Ref, s: Slab)
    requires Stores(ram, size, m, free) && d in m && free[d] != [] && s.mem == m[d].mem && s.objects == m[d].objects
    ensures forall a: nat ::
              HeldIn(size, m[d := s], free[d := free[d][1..]], a) <==> HeldIn(size, m, free, a) || a == m[d].freelist
    ensures !HeldIn(size, m, free, m[d].freelist)
  {
    SameKeys(ram, size, m, free);
    hide HeldIn, Stores;
    forall a: nat
      ensures HeldIn(size, m[d := s], free[d := free[d][1..]], a) <==> HeldIn(size, m, free, a) || a == m[d].freelist
      ensures !HeldIn(size, m, free, m[d].freelist)
    {
      TakenLive(ram, size, m, free, d, s, a);
    }
  }

  lemma SlabAt(ram: Ram, size: nat, m: Slabs, free: FreeLists, d: Ref)
    requires Stores(ram, size, m, free) && d in m
    ensures free.Keys == m.Keys && SlabOk(ram, size, m[d], free[d])
  {
  }

  /** Putting a slot back takes it, and nothing else, out of use. */
  lemma GivenLive(ram: Ram, size: nat, m: Slabs, free: FreeLists, d: Ref, s: Slab, j: nat, a: nat)
    requires Stores(ram, size, m, free) && d in m && j < m[d].objects && s.mem == m[d].mem && s.objects == m[d].objects
    ensures HeldIn(size, m[d := s], free[d := [j] + free[d]], a)
            <==> HeldIn(size, m, free, a) && a != Addr(m[d].mem, size, j)
  {
    SlabAt(ram, size, m, free, d);
    SlotInPage(m[d].mem, size, j);
    Others(ram, size, m, free, d, Addr(m[d].mem, size, j));
    HeldChange(size, m, free, d, s, [j] + free[d], a);
    HeldPushed(size, m[d], free[d], s, j, a);
  }

  /** The page that an address lies in tells which slab holds it. */
  lemma Owner(ram: Ram, size: nat, m: Slabs, free: FreeLists, d: Ref, a: nat)
    requires Stores(ram, size, m, free) && d in m && InPage(m[d], a) && HeldIn(size, m, free, a)
    ensures Held(size, m[d], free[d], a)
  {
    Others(ram, size, m, free, d, a);
    HeldChange(size, m, free, d, m[d], free[d], a);
  }

  predicate InPage(s: Slab, a: nat) {
    s.mem <= a < s.mem + PAGE
  }

  /** The address lies in no page with objects in use. */
  ghost predicate Foreign(m: Slabs, a: nat) {
    forall d: Ref :: d in m && 0 < m[d].inuse ==> !InPage(m[d], a)
  }

  /** Slabs with objects in use are on the full and the partial list. */
  lemma Searched(m: Slabs, l: Lists, a: nat)
    requires Listed(m, l) && (forall d: Ref :: d in l.full || d in l.partial ==> d in m && !InPage(m[d], a))
    ensures Foreign(m, a)
  {
    assert ListedAs(m, l.Of(Full), Full) && ListedAs(m, l.Of(Partial), Partial) && ListedAs(m, l.Of(Empty), Empty);
  }

  /** The lists in terms of the counters. */
  lemma ListsByUse(ram: Ram, size: nat, m: Slabs, free: FreeLists, l: Lists)
    requires Listed(m, l) && Stores(ram, size, m, free) && 0 < size
    ensures forall d: Ref :: d in l.full <==> d in m && m[d].inuse == m[d].objects
    ensures forall d: Ref :: d in l.partial <==> d in m && 0 < m[d].inuse < m[d].objects
    ensures forall d: Ref :: d in l.empty <==> d in m && m[d].inuse == 0
  {
    hide Stores;
    assert ListedAs(m, l.Of(Full), Full) && ListedAs(m, l.Of(Partial), Partial) && ListedAs(m, l.Of(Empty), Empty);
    forall d: Ref | d in m
      ensures m[d].inuse <= m[d].objects && 0 < m[d].objects == ObjectsPerSlab(size)
    {
      SlabAt(ram, size, m, free, d);
    }
  }

  /** No slab has a free slot if and only if every page holds as many objects in use as fit. */
  ghost predicate Crammed(size: nat, m: Slabs) {
    forall d: Ref :: d in m ==> m[d].inuse * size <= 4072 < (m[d].inuse + 1) * size
  }

  lemma NoneLeft(ram: Ram, size: nat, m: Slabs, free: FreeLists, l: Lists)
    requires Listed(m, l) && Stores(ram, size, m, free) && 0 < size
    ensures l.partial == [] && l.empty == [] <==> Crammed(size, m)
  {
    hide Stores, Listed;
    ListsByUse(ram, size, m, free, l);
    if l.partial != [] { assert l.partial[0] in l.partial; }
    if l.empty != [] { assert l.empty[0] in l.empty; }
    forall d: Ref | d in m
      ensures (d in l.partial || d in l.empty) <==> (m[d].inuse + 1) * size <= 4072
      ensures m[d].inuse * size <= 4072
    {
      SlabAt(ram, size, m, free, d);
      UseCounted(size, m[d]);
    }
  }

  lemma UseCounted(size: nat, s: Slab)
    requires 0 < size && s.objects == ObjectsPerSlab(size) && s.inuse <= s.objects && 0 < s.objects
    ensures s.inuse * size <= 4072
    ensures s.inuse < s.objects <==> (s.inuse + 1) * size <= 4072
  {
    ObjectsFill(size);
    hide ObjectsPerSlab;
    if s.inuse < s.objects { Scaled(s.inuse + 1, s.objects, size); }
    Scaled(s.inuse, s.objects, size);
  }

  lemma Scaled(a: nat, b: nat, size: nat)
    requires a <= b
    ensures a * size <= b * size
  {
  }

  lemma OnFullOrPartial(ram: Ram, size: nat, m: Slabs, free: FreeLists, l: Lists)
    requires Listed(m, l) && Stores(ram, size, m, free)
    ensures forall d: Ref :: d in l.full || d in l.partial ==> d in m && 0 < m[d].inuse
  {
    assert ListedAs(m, l.Of(Full), Full) && ListedAs(m, l.Of(Partial), Partial) && ListedAs(m, l.Of(Empty), Empty);
    forall d: Ref | d in m
      ensures 0 < m[d].objects
    {
      SlabAt(ram, size, m, free, d);
    }
  }

  /** No two objects in use overlap, in whatever slabs they are. */
  lemma LiveApart(ram: Ram, size: nat, m: Slabs, free: FreeLists, a: nat, b: nat)
    requires Stores(ram, size, m, free) && HeldIn(size, m, free, a) && HeldIn(size, m, free, b) && a < b
    ensures a + size <= b
  {
    var d: Ref :| d in m && Held(size, m[d], free[d], a);
    var e: Ref :| e in m && Held(size, m[e], free[e], b);
    HeldInPage(ram, size, m[d], free[d], a);
    HeldInPage(ram, size, m[e], free[e], b);
    if d == e {
      HeldApart(ram, size, m[d], free[d], a, b);
    } else {
      assert PagesApart(m[d], m[e]);
    }
  }

  /** Only the given pages and the bytes from lo to hi may differ. */
  ghost predicate Untouched(ram: Ram, ram': Ram, pages: set<nat>, lo: nat, hi: nat) {
    |ram'| == |ram| && forall k :: 0 <= k < |ram| && k / PAGE !in pages && !(lo <= k < hi) ==> ram'[k] == ram[k]
  }

  ghost predicate SameBytes(ram: Ram, ram': Ram, a: nat, n: nat) {
    a + n <= |ram| == |ram'| && ram'[a..a + n] == ram[a..a + n]
  }

  /** Whatever is written inside one object, or in pages that were not handed out before,
      the other objects in use stay as they are. */
  lemma Undisturbed(ram: Ram, size: nat, m: Slabs, free: FreeLists, bs: seq<Block>, given: set<nat>, a: nat,
                    ram': Ram, pages: set<nat>, lo: nat, hi: nat)
    requires Stores(ram, size, m, free) && Backed(bs, given, m) && HeldIn(size, m, free, a) && pages !! given
    requires Untouched(ram, ram', pages, lo, hi) && (a + size <= lo || hi <= a)
    ensures SameBytes(ram, ram', a, size)
  {
    SameKeys(ram, size, m, free);
    hide Stores, Backed, Held, SlabOk, Untouched, SameBytes;
    var d: Ref :| d in m && Held(size, m[d], free[d], a);
    SlabAt(ram, size, m, free, d);
    HeldInPage(ram, size, m[d], free[d], a);
    BackedAt(bs, given, m, d);
    PageInRam(ram, size, m[d], free[d]);
    StaysInPage(ram, ram', pages, lo, hi, m[d].mem, a, size);
  }

  lemma StaysInPage(ram: Ram, ram': Ram, pages: set<nat>, lo: nat, hi: nat, mem: nat, a: nat, n: nat)
    requires Untouched(ram, ram', pages, lo, hi) && (a + n <= lo || hi <= a)
    requires mem % PAGE == 0 && mem / PAGE !in pages && mem <= a && a + n <= mem + PAGE <= |ram|
    ensures SameBytes(ram, ram', a, n)
  {
    InOnePage(mem, a, a + n);
    assert forall k :: a <= k < a + n ==> ram'[k] == ram[k];
  }

  lemma InOnePage(mem: nat, lo: nat, hi: nat)
    requires mem % PAGE == 0 && mem <= lo && hi <= mem + PAGE
    ensures forall k :: lo <= k < hi ==> k / PAGE == mem / PAGE
  {
  }

  lemma PageInRam(ram: Ram, size: nat, s: Slab, fs: seq<nat>)
    requires SlabOk(ram, size, s, fs)
    ensures s.mem + PAGE <= |ram|
  {
  }

  /** An unused slab comes or goes without any object in use. */
  lemma UnusedLive(ram: Ram, size: nat, m: Slabs, free: FreeLists, d: Ref, a: nat)
    requires Stores(ram, size, m, free) && d in m && m[d].inuse == 0
    ensures HeldIn(size, m, free, a) <==> HeldIn(size, m - {d}, free - {d}, a)
  {
    HeldChange(size, m, free, d, m[d], free[d], a);
    if Held(size, m[d], free[d], a) { HeldInPage(ram, size, m[d], free[d], a); }
  }

  // ---- what stands behind a slab -----------------------------------------------------------------

  /** Each descriptor is a heap allocation that is still held, each page one that the page
      allocator has handed out. */
  ghost predicate Backed(bs: seq<Block>, given: set<nat>, m: Slabs) {
    forall d: Ref :: d in m ==> d in Pointers(bs) && m[d].mem % PAGE == 0 && m[d].mem / PAGE in given
  }

  lemma FreshPage(bs: seq<Block>, given: set<nat>, m: Slabs, s: Slab)
    requires Backed(bs, given, m) && s.mem % PAGE == 0 && s.mem / PAGE !in given
    ensures forall e: Ref :: e in m ==> PagesApart(s, m[e])
  {
  }

  lemma NotNull(bs: seq<Block>, given: set<nat>, m: Slabs)
    requires Backed(bs, given, m)
    ensures NULL !in m
  {
    assert NULL !in Pointers(bs);
  }

  lemma BackedAt(bs: seq<Block>, given: set<nat>, m: Slabs, d: Ref)
    requires Backed(bs, given, m) && d in m
    ensures m[d].mem % PAGE == 0 && m[d].mem / PAGE in given && d in Pointers(bs)
  {
  }

  lemma BackedMoved(bs: seq<Block>, given: set<nat>, m: Slabs, d: Ref, s: Slab)
    requires Backed(bs, given, m) && d in m && s.mem == m[d].mem
    ensures Backed(bs, given, m[d := s])
  {
  }

  /** A slab without objects in use belongs on the list of such slabs and holds nothing. */
  lemma NewUnused(ram: Ram, size: nat, m: Slabs, free: FreeLists, m': Slabs, free': FreeLists, l: Lists, d: Ref)
    requires Stores(ram, size, m', free') && free.Keys == m.Keys && d !in m && d in m' && m'[d].inuse == 0
    requires m' == m[d := m'[d]] && free' == free[d := free'[d]]
    ensures l.With(d, m'[d]) == l.(empty := [d] + l.empty) && m'[d].inuse < m'[d].objects
    ensures forall a: nat :: HeldIn(size, m', free', a) <==> HeldIn(size, m, free, a)
  {
    SlabAt(ram, size, m', free', d);
    assert m' - {d} == m && free' - {d} == free;
    forall a: nat
      ensures HeldIn(size, m', free', a) <==> HeldIn(size, m, free, a)
    {
      UnusedLive(ram, size, m', free', d, a);
    }
  }

  lemma NotBacked(bs: seq<Block>, given: set<nat>, m: Slabs, d: Ref)
    requires Backed(bs, given, m) && d !in Pointers(bs)
    ensures d !in m
  {
  }

  lemma BackedNew(bs: seq<Block>, given: set<nat>, m: Slabs, bs': seq<Block>, given': set<nat>, d: Ref, s: Slab)
    requires Backed(bs, given, m) && Pointers(bs') == Pointers(bs) + {d} && given' == given + {s.mem / PAGE} && s.mem % PAGE == 0
    ensures Backed(bs', given', m[d := s])
  {
    hide Pointers;
  }

  lemma BackedLess(bs: seq<Block>, given: set<nat>, m: Slabs, bs': seq<Block>, given': set<nat>, d: Ref,
                   ram: Ram, size: nat, free: FreeLists)
    requires Backed(bs, given, m) && Stores(ram, size, m, free) && d in m
    requires Pointers(bs') == Pointers(bs) - {d} && given' == given - {m[d].mem / PAGE}
    ensures Backed(bs', given', m - {d})
  {
    hide Pointers, SlabOk;
    forall e: Ref | e in m && e != d
      ensures m[e].mem / PAGE != m[d].mem / PAGE
    {
      assert PagesApart(m[e], m[d]);
    }
  }

  lemma BackedMore(bs: seq<Block>, given: set<nat>, m: Slabs, bs': seq<Block>, given': set<nat>)
    requires Backed(bs, given, m) && Pointers(bs) <= Pointers(bs') && given <= given'
    ensures Backed(bs', given', m)
  {
  }
}
