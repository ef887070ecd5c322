/** Several caches over one heap and one page allocator: what an operation of one cache leaves
    alone, and that it therefore keeps the invariant of every other. */
module SlabNeighbours {
  import opened Sequences
  import opened SlabPages
  import opened SlabLists
  import opened HeapBlocks

  /** The heap, the pages handed out, and memory. */
  datatype World = World(bs: seq<Block>, given: set<nat>, ram: Ram)

  /** The pages of a cache. */
  ghost function PagesOf(m: Slabs): set<nat> {
    set d | d in m :: m[d].mem / PAGE
  }

  /** Heap addresses and pages that the cache does not own are held as before, and memory
      outside its pages is as before. */
  ghost predicate Private(w: World, m: Slabs, w': World, m': Slabs) {
    && Pointers(w'.bs) - m'.Keys == Pointers(w.bs) - m.Keys
    && w'.given - PagesOf(m') == w.given - PagesOf(m)
    && |w'.ram| == |w.ram|
    && forall k :: 0 <= k < |w.ram| && k / PAGE !in PagesOf(m) + PagesOf(m') ==> w'.ram[k] == w.ram[k]
  }

  lemma PrivateSame(w: World, m: Slabs, w': World)
    requires Pointers(w'.bs) == Pointers(w.bs) && w'.given == w.given && w'.ram == w.ram
    ensures Private(w, m, w', m)
  {
  }

  lemma PrivateThen(w: World, m: Slabs, w1: World, m1: Slabs, w2: World, m2: Slabs)
    requires Private(w, m, w1, m1) && Private(w1, m1, w2, m2) && PagesOf(m1) <= PagesOf(m) + PagesOf(m2)
    ensures Private(w, m, w2, m2)
  {
    hide PagesOf, Pointers;
  }

  /** A slab changes, and bytes in its page. */
  lemma PrivateWrite(w: World, m: Slabs, d: Ref, s: Slab, ram': Ram, lo: nat, hi: nat)
    requires d in m && s.mem == m[d].mem && s.mem % PAGE == 0
    requires Agree(w.ram, ram', lo, hi) && s.mem <= lo && hi <= s.mem + PAGE
    ensures Private(w, m, w.(ram := ram'), m[d := s]) && PagesOf(m[d := s]) == PagesOf(m)
  {
    var m' := m[d := s];
    SamePages(m, d, s);
    assert forall k :: s.mem <= k < s.mem + PAGE ==> k / PAGE == m[d].mem / PAGE;
  }

  lemma SamePages(m: Slabs, d: Ref, s: Slab)
    requires d in m && s.mem == m[d].mem
    ensures PagesOf(m[d := s]) == PagesOf(m)
  {
    var m' := m[d := s];
    forall e | e in m
      ensures m'[e].mem == m[e].mem
    {
    }
    assert forall p :: p in PagesOf(m) ==> exists e :: e in m' && p == m'[e].mem / PAGE;
  }

  /** A slab is added, with a descriptor and a page that nobody held. */
  lemma PrivateNew(w: World, m: Slabs, w': World, d: Ref, s: Slab)
    requires d !in m && d !in Pointers(w.bs) && Pointers(w'.bs) == Pointers(w.bs) + {d}
    requires s.mem % PAGE == 0 && s.mem / PAGE !in w.given && w'.given == w.given + {s.mem / PAGE}
    requires Agree(w.ram, w'.ram, s.mem, s.mem + PAGE)
    ensures Private(w, m, w', m[d := s])
  {
    var m' := m[d := s];
    MorePages(m, d, s);
    hide Pointers, PagesOf;
    assert Pointers(w'.bs) - m'.Keys == Pointers(w.bs) - m.Keys;
    forall k | 0 <= k < |w.ram| && k / PAGE !in PagesOf(m')
      ensures w'.ram[k] == w.ram[k]
    {
    }
  }

  lemma MorePages(m: Slabs, d: Ref, s: Slab)
    requires d !in m
    ensures PagesOf(m[d := s]) == PagesOf(m) + {s.mem / PAGE}
  {
    var m' := m[d := s];
    assert forall e :: e in m ==> e in m' && m'[e] == m[e];
    assert d in m' && m'[d] == s;
  }

  /** A slab is given up, with its descriptor and its page. */
  lemma PrivateDrop(w: World, m: Slabs, w': World, d: Ref)
    requires d in m && Pointers(w'.bs) == Pointers(w.bs) - {d} && w'.given == w.given - {m[d].mem / PAGE} && w'.ram == w.ram
    requires forall e: Ref :: e in m && e != d ==> m[e].mem / PAGE != m[d].mem / PAGE
    ensures Private(w, m, w', m - {d}) && PagesOf(m - {d}) <= PagesOf(m)
  {
    var m' := m - {d};
    assert forall e :: e in m' ==> e in m && m'[e] == m[e];
    assert PagesOf(m') == PagesOf(m) - {m[d].mem / PAGE};
    hide Pointers, PagesOf;
    assert Pointers(w'.bs) - m'.Keys == Pointers(w.bs) - m.Keys;
  }

  lemma OwnPages(ram: Ram, size: nat, m: Slabs, free: FreeLists, bs: seq<Block>, given: set<nat>, d: Ref)
    requires Stores(ram, size, m, free) && Backed(bs, given, m) && d in m
    ensures forall e: Ref :: e in m && e != d ==> m[e].mem / PAGE != m[d].mem / PAGE
  {
    hide SlabOk;
    forall e: Ref | e in m && e != d
      ensures m[e].mem / PAGE != m[d].mem / PAGE
    {
      assert PagesApart(m[e], m[d]);
    }
  }

  // ---- two caches ------------------------------------------------------------------------

  ghost predicate Separate(m: Slabs, n: Slabs) {
    m.Keys !! n.Keys && PagesOf(m) !! PagesOf(n)
  }

  /** What one cache does keeps another one, with descriptors and pages of its own, intact,
      and the two stay separate. */
  lemma NeighbourKept(w: World, m: Slabs, w': World, m': Slabs, size: nat, n: Slabs, free: FreeLists)
    requires Private(w, m, w', m') && Separate(m, n)
    requires Stores(w.ram, size, n, free) && Backed(w.bs, w.given, n)
    ensures Stores(w'.ram, size, n, free) && Backed(w'.bs, w'.given, n) && Separate(m', n)
  {
    hide SlabOk, Pointers;
    forall d: Ref | d in n
      ensures d in Pointers(w'.bs) - m'.Keys
    {
      assert d in Pointers(w.bs) - m.Keys;
    }
    forall d: Ref | d in n
      ensures n[d].mem / PAGE in w'.given - PagesOf(m')
      ensures SlabOk(w'.ram, size, n[d], free[d])
    {
      assert n[d].mem / PAGE in PagesOf(n);
      assert n[d].mem / PAGE in w.given - PagesOf(m);
      SamePage(w, m, w', m', size, n[d], free[d]);
    }
  }

  lemma SamePage(w: World, m: Slabs, w': World, m': Slabs, size: nat, s: Slab, fs: seq<nat>)
    requires Private(w, m, w', m') && SlabOk(w.ram, size, s, fs) && s.mem % PAGE == 0
    requires s.mem / PAGE !in PagesOf(m) + PagesOf(m')
    ensures SlabOk(w'.ram, size, s, fs)
  {
    hide PagesOf, Pointers;
    forall k | 0 <= k < |fs|
      ensures HoldsLink(w'.ram, s.mem, size, fs, k)
    {
      assert HoldsLink(w.ram, s.mem, size, fs, k);
      SlotInPage(s.mem, size, fs[k]);
      var a := Addr(s.mem, size, fs[k]);
      assert forall b :: a <= b < a + 4 ==> b / PAGE == s.mem / PAGE;
    }
  }
}
