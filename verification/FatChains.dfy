/** Cluster chains as linked lists inside the cell array, and what edits of single cells
    mean for whole chains. Everything here is about values; FatDriver does the edits. */
module FatChains {
  import opened FatCells
  import opened Sequences

  /** Cell values by cluster number; clusters 0 and 1 are reserved. */
  type Fat = f: seq<nat> | 2 <= |f| <= MAX_CELLS witness [0, 0]

  const FREE: nat := 0x000
  const LAST: nat := 0xFFF
  const END_MIN: nat := 0xFF8

  /** The loop guard of every chain walk in the driver. */
  predicate Walks(c: nat) {
    2 <= c < END_MIN
  }

  ghost predicate WellFormed(fat: Fat) {
    forall c :: 2 <= c < |fat| ==> fat[c] == FREE || 2 <= fat[c] < |fat| || END_MIN <= fat[c]
  }

  /** ch is a complete chain: acyclic, in range, each cell names the next cluster, and the
      last cell carries an end mark. */
  ghost predicate Chain(fat: Fat, ch: seq<nat>) {
    && Distinct(ch)
    && (forall i :: 0 <= i < |ch| ==> 2 <= ch[i] < |fat|)
    && (forall i, j :: 0 <= i < |ch| && 0 <= j < |ch| && j == i + 1 ==> fat[ch[i]] == ch[j])
    && (ch != [] ==> END_MIN <= fat[ch[|ch| - 1]])
  }

  lemma DistinctParts(a: seq<nat>, b: seq<nat>)
    requires Distinct(a + b)
    ensures Distinct(a) && Distinct(b)
    ensures forall c :: c in a ==> c !in b
  {
    var s := a + b;
    forall i, j | 0 <= i < j < |a| ensures a[i] != a[j] { assert s[i] != s[j]; }
    forall i, j | 0 <= i < j < |b| ensures b[i] != b[j] { assert s[|a| + i] != s[|a| + j]; }
    forall i, j | 0 <= i < |a| && 0 <= j < |b| ensures a[i] != b[j] { assert s[i] != s[|a| + j]; }
  }

  ghost predicate Covered(chains: seq<seq<nat>>, c: nat) {
    exists i :: 0 <= i < |chains| && c in chains[i]
  }

  /** No cross-link and no leak: chains are disjoint and own every cell in use. */
  ghost predicate Sound(fat: Fat, chains: seq<seq<nat>>) {
    && (forall i :: 0 <= i < |chains| ==> Chain(fat, chains[i]))
    && (forall i, j, c :: 0 <= i < |chains| && 0 <= j < |chains| && c in chains[i] && c in chains[j] ==> i == j)
    && (forall c {:trigger Covered(chains, c)} :: 2 <= c < |fat| && fat[c] != FREE ==> Covered(chains, c))
  }

  lemma SoundIsWellFormed(fat: Fat, chains: seq<seq<nat>>)
    requires Sound(fat, chains)
    ensures WellFormed(fat)
    ensures forall i, c :: 0 <= i < |chains| && c in chains[i] ==> 2 <= c < |fat| && fat[c] != FREE
  {
    forall c | 2 <= c < |fat| && fat[c] != FREE
      ensures 2 <= fat[c] < |fat| || END_MIN <= fat[c]
    {
      assert Covered(chains, c);
      var i :| 0 <= i < |chains| && c in chains[i];
      InChain(fat, chains[i], c);
    }
    forall i, c | 0 <= i < |chains| && c in chains[i]
      ensures 2 <= c < |fat| && fat[c] != FREE
    {
      InChain(fat, chains[i], c);
    }
  }

  lemma InChain(fat: Fat, ch: seq<nat>, c: nat)
    requires Chain(fat, ch) && c in ch
    ensures 2 <= c < |fat| && (2 <= fat[c] < |fat| || END_MIN <= fat[c])
  {
    var k :| 0 <= k < |ch| && ch[k] == c;
    if k < |ch| - 1 {
      assert 2 <= ch[k + 1] < |fat|;
    }
  }

  /** The cell of a chain member tells whether the walk goes on, and where. */
  lemma ChainStep(fat: Fat, ch: seq<nat>, k: nat)
    requires Chain(fat, ch) && k < |ch|
    ensures 2 <= ch[k] < |fat| && Walks(ch[k])
    ensures k + 1 < |ch| <==> Walks(fat[ch[k]])
    ensures k + 1 < |ch| ==> fat[ch[k]] == ch[k + 1]
  {
    if k + 1 < |ch| {
      assert fat[ch[k]] == ch[k + 1];
    }
  }

  /** The head of a chain determines it. */
  lemma {:induction false} ChainUnique(fat: Fat, a: seq<nat>, b: seq<nat>, k: nat)
    requires Chain(fat, a) && Chain(fat, b)
    requires k < |a| && k < |b| && a[k] == b[k]
    ensures a[k..] == b[k..]
    decreases |a| - k
  {
    ChainStep(fat, a, k);
    ChainStep(fat, b, k);
    if k + 1 < |a| {
      ChainUnique(fat, a, b, k + 1);
      assert a[k..] == [a[k]] + a[k + 1..];
      assert b[k..] == [b[k]] + b[k + 1..];
    }
  }

  // ---- free clusters -------------------------------------------------------------

  /** Free clusters from i upwards, ascending: the order in which first fit hands them out. */
  function FreeFrom(fat: seq<nat>, i: nat): (free: seq<nat>)
    ensures forall c :: c in free <==> i <= c < |fat| && fat[c] == FREE
    ensures Distinct(free)
    decreases |fat| - i
  {
    if i >= |fat| then []
    else if fat[i] == FREE then [i] + FreeFrom(fat, i + 1)
    else FreeFrom(fat, i + 1)
  }

  function FreeList(fat: seq<nat>): seq<nat> {
    FreeFrom(fat, 2)
  }

  /** Free clusters are listed in ascending order. */
  lemma {:induction false} FreeRises(fat: seq<nat>, i: nat)
    ensures forall a, b :: 0 <= a < b < |FreeFrom(fat, i)| ==> FreeFrom(fat, i)[a] < FreeFrom(fat, i)[b]
    decreases |fat| - i
  {
    if i < |fat| {
      FreeRises(fat, i + 1);
      var rest := FreeFrom(fat, i + 1);
      forall a, b | 0 <= a < b < |FreeFrom(fat, i)|
        ensures FreeFrom(fat, i)[a] < FreeFrom(fat, i)[b]
      {
        if fat[i] == FREE && a == 0 { assert rest[b - 1] in rest; }
      }
    }
  }

  /** The first one is the lowest. */
  lemma FreeLeast(fat: seq<nat>)
    requires FreeList(fat) != []
    ensures 2 <= FreeList(fat)[0] < |fat| && fat[FreeList(fat)[0]] == FREE
    ensures forall c :: 2 <= c < FreeList(fat)[0] ==> fat[c] != FREE
  {
    FreeRises(fat, 2);
    var free := FreeList(fat);
    assert free[0] in free;
  }

  lemma {:induction false} SameFree(f: Fat, g: Fat, i: nat)
    requires |f| == |g| && forall c :: i <= c < |f| ==> (f[c] == FREE <==> g[c] == FREE)
    ensures FreeFrom(f, i) == FreeFrom(g, i)
    decreases |f| - i
  {
    if i < |f| { SameFree(f, g, i + 1); }
  }

  lemma {:induction false} TakeFirst(f: Fat, g: Fat, i: nat)
    requires |f| == |g| && FreeFrom(f, i) != []
    requires FreeFrom(f, i)[0] in FreeFrom(f, i) && g[FreeFrom(f, i)[0]] != FREE
    requires forall c :: i <= c < |f| && c != FreeFrom(f, i)[0] ==> (f[c] == FREE <==> g[c] == FREE)
    ensures FreeFrom(g, i) == FreeFrom(f, i)[1..]
    decreases |f| - i
  {
    if f[i] == FREE { SameFree(f, g, i + 1); } else { TakeFirst(f, g, i + 1); }
  }

  // ---- growing a chain -----------------------------------------------------------

  /** Link the cluster c behind the chain ch: its last cell names c, and c ends the chain. */
  function Push(fat: Fat, ch: seq<nat>, c: nat): Fat
    requires c < |fat| && (ch != [] ==> ch[|ch| - 1] < |fat|)
  {
    (if ch == [] then fat else fat[ch[|ch| - 1] := c])[c := LAST]
  }

  lemma PushOther(fat: Fat, ch: seq<nat>, c: nat, other: seq<nat>)
    requires c < |fat| && (ch != [] ==> ch[|ch| - 1] < |fat|)
    requires Chain(fat, other) && c !in other && (ch != [] ==> ch[|ch| - 1] !in other)
    ensures Chain(Push(fat, ch, c), other)
  {
    assert forall k :: 0 <= k < |other| ==> other[k] in other;
  }

  lemma PushOwn(fat: Fat, ch: seq<nat>, c: nat)
    requires Chain(fat, ch) && 2 <= c < |fat| && c !in ch
    ensures Chain(Push(fat, ch, c), ch + [c])
  {
    assert forall k :: 0 <= k < |ch| ==> ch[k] in ch;
    var fat' := Push(fat, ch, c);
    var ch' := ch + [c];
    forall k | 0 <= k < |ch'| - 1
      ensures fat'[ch'[k]] == ch'[k + 1]
    {
      if k < |ch| - 1 { assert ch[k] != ch[|ch| - 1]; }
    }
  }

  lemma PushSound(fat: Fat, chains: seq<seq<nat>>, i: nat, c: nat)
    requires Sound(fat, chains) && i < |chains| && 2 <= c < |fat| && fat[c] == FREE
    requires chains[i] != [] ==> chains[i][|chains[i]| - 1] < |fat|
    ensures Sound(Push(fat, chains[i], c), chains[i := chains[i] + [c]])
  {
    SoundIsWellFormed(fat, chains);
    var ch := chains[i];
    var fat' := Push(fat, ch, c);
    var chains' := chains[i := ch + [c]];
    assert ch != [] ==> ch[|ch| - 1] in ch;
    forall j | 0 <= j < |chains'|
      ensures Chain(fat', chains'[j])
    {
      if j == i { PushOwn(fat, ch, c); } else { PushOther(fat, ch, c, chains[j]); }
    }
    forall j, l, d | 0 <= j < |chains'| && 0 <= l < |chains'| && d in chains'[j] && d in chains'[l]
      ensures j == l
    {
      assert d == c || d in chains[j];
      assert d == c || d in chains[l];
    }
    forall d | 2 <= d < |fat'| && fat'[d] != FREE
      ensures Covered(chains', d)
    {
      PushCovers(fat, chains, i, c, d);
    }
  }

  lemma PushCovers(fat: Fat, chains: seq<seq<nat>>, i: nat, c: nat, d: nat)
    requires Sound(fat, chains) && i < |chains| && 2 <= c < |fat| && fat[c] == FREE
    requires chains[i] != [] ==> chains[i][|chains[i]| - 1] < |fat|
    requires 2 <= d < |fat| && Push(fat, chains[i], c)[d] != FREE
    ensures Covered(chains[i := chains[i] + [c]], d)
  {
    var chains' := chains[i := chains[i] + [c]];
    if d == c || d in chains[i] {
      assert d in chains'[i];
    } else {
      assert Covered(chains, d);
      var j :| 0 <= j < |chains| && d in chains[j];
      assert d in chains'[j];
    }
  }

  predicate GrowsFrom(fat: Fat, ch: seq<nat>) {
    ch != [] ==> 2 <= ch[|ch| - 1] < |fat| && fat[ch[|ch| - 1]] != FREE
  }

  /** One cluster is taken from the front of the free list. */
  lemma PushTakes(fat: Fat, ch: seq<nat>)
    requires GrowsFrom(fat, ch) && FreeList(fat) != []
    ensures var c := FreeList(fat)[0];
            && 2 <= c < |fat| && fat[c] == FREE
            && FreeList(Push(fat, ch, c)) == FreeList(fat)[1..]
            && GrowsFrom(Push(fat, ch, c), ch + [c])
  {
    var c := FreeList(fat)[0];
    assert c in FreeList(fat);
    TakeFirst(fat, Push(fat, ch, c), 2);
  }

  /** First-fit allocation of k more clusters behind ch. */
  function Grow(fat: Fat, ch: seq<nat>, k: nat): (r: (Fat, seq<nat>))
    requires k <= |FreeList(fat)| && GrowsFrom(fat, ch)
    ensures |r.0| == |fat| && |r.1| == |ch| + k
    decreases k
  {
    if k == 0 then (fat, ch)
    else
      PushTakes(fat, ch);
      var c := FreeList(fat)[0];
      Grow(Push(fat, ch, c), ch + [c], k - 1)
  }

  lemma GrowsFromChain(fat: Fat, chains: seq<seq<nat>>, i: nat)
    requires Sound(fat, chains) && i < |chains|
    ensures GrowsFrom(fat, chains[i])
  {
    SoundIsWellFormed(fat, chains);
    assert chains[i] != [] ==> chains[i][|chains[i]| - 1] in chains[i];
  }

  /** Growth appends exactly the k lowest free clusters in ascending order. */
  lemma {:induction false} GrowTakes(fat: Fat, ch: seq<nat>, k: nat)
    requires GrowsFrom(fat, ch) && k <= |FreeList(fat)|
    ensures Grow(fat, ch, k).1 == ch + FreeList(fat)[..k]
    ensures FreeList(Grow(fat, ch, k).0) == FreeList(fat)[k..]
    decreases k
  {
    var free := FreeList(fat);
    if k == 0 {
      assert ch + free[..0] == ch;
    } else {
      var c := free[0];
      PushTakes(fat, ch);
      GrowTakes(Push(fat, ch, c), ch + [c], k - 1);
      assert ch + [c] + free[1..][..k - 1] == ch + free[..k];
    }
  }

  /** Growing one chain of a sound table keeps it sound. */
  lemma {:induction false} GrowSound(fat: Fat, chains: seq<seq<nat>>, i: nat, k: nat)
    requires Sound(fat, chains) && i < |chains| && k <= |FreeList(fat)|
    ensures GrowsFrom(fat, chains[i])
    ensures Sound(Grow(fat, chains[i], k).0, chains[i := Grow(fat, chains[i], k).1])
    decreases k
  {
    hide Sound, FreeFrom;
    GrowsFromChain(fat, chains, i);
    var ch := chains[i];
    if k == 0 {
      assert chains[i := ch] == chains;
    } else {
      PushTakes(fat, ch);
      var c := FreeList(fat)[0];
      var fat1, chains1 := Push(fat, ch, c), chains[i := ch + [c]];
      assert Sound(fat1, chains1) && k - 1 <= |FreeList(fat1)| by {
        PushSound(fat, chains, i, c);
      }
      GrowSound(fat1, chains1, i, k - 1);
      assert chains1[i := Grow(fat, ch, k).1] == chains[i := Grow(fat, ch, k).1];
    }
  }

  lemma GrowSoundAt(fat: Fat, chains: seq<seq<nat>>, i: nat, ch: seq<nat>, k: nat)
    requires i < |chains| && Sound(fat, chains[i := ch]) && k <= |FreeList(fat)| && GrowsFrom(fat, ch)
    ensures Sound(Grow(fat, ch, k).0, chains[i := ch + FreeList(fat)[..k]])
  {
    var base := chains[i := ch];
    GrowSound(fat, base, i, k);
    GrowTakes(fat, ch, k);
    assert base[i := Grow(fat, ch, k).1] == chains[i := ch + FreeList(fat)[..k]];
  }

  // ---- freeing a chain -----------------------------------------------------------

  /** Every cluster of ch marked free, nothing else touched. */
  function Cleared(fat: Fat, ch: seq<nat>): (r: Fat)
    ensures |r| == |fat|
  {
    seq(|fat|, c requires 0 <= c < |fat| => if c in ch then FREE else fat[c])
  }

  lemma ClearKeepsOther(fat: Fat, ch: seq<nat>, other: seq<nat>)
    requires Chain(fat, other) && forall c :: c in other ==> c !in ch
    ensures Chain(Cleared(fat, ch), other)
  {
    assert forall k :: 0 <= k < |other| ==> other[k] in other;
  }

  lemma ClearSound(fat: Fat, chains: seq<seq<nat>>, i: nat)
    requires Sound(fat, chains) && i < |chains|
    ensures Sound(Cleared(fat, chains[i]), chains[i := []])
  {
    var fat' := Cleared(fat, chains[i]);
    var chains' := chains[i := []];
    assert forall j :: 0 <= j < |chains'| && j != i ==> chains'[j] == chains[j];
    forall j | 0 <= j < |chains'|
      ensures Chain(fat', chains'[j])
    {
      if j != i { ClearKeepsOther(fat, chains[i], chains[j]); }
    }
    forall d | 2 <= d < |fat'| && fat'[d] != FREE
      ensures Covered(chains', d)
    {
      assert Covered(chains, d) && d !in chains[i];
      var j :| 0 <= j < |chains| && d in chains[j];
      assert d in chains'[j];
    }
  }

  // ---- walking an arbitrary table ------------------------------------------------

  /** The clusters a walk from start visits before it leaves the table or returns to a
      cluster it has already seen. */
  ghost predicate Walk(fat: Fat, start: nat, vs: seq<nat>) {
    && Distinct(vs)
    && (forall i :: 0 <= i < |vs| ==> 2 <= vs[i] < |fat|)
    && (forall i, j :: 0 <= i < |vs| && 0 <= j < |vs| && j == i + 1 ==> fat[vs[i]] == vs[j])
    && (vs == [] <==> !Walks(start))
    && (vs != [] ==> vs[0] == start && (Walks(fat[vs[|vs| - 1]]) ==> fat[vs[|vs| - 1]] in vs))
  }

  /** On a proper chain the walk is the chain. */
  lemma {:induction false} WalkIsChain(fat: Fat, start: nat, vs: seq<nat>, ch: seq<nat>, k: nat)
    requires Walk(fat, start, vs) && Chain(fat, ch)
    requires k < |vs| && k < |ch| && vs[..k + 1] == ch[..k + 1]
    ensures vs == ch
    decreases |ch| - k
  {
    ChainStep(fat, ch, k);
    assert vs[k] == vs[..k + 1][k] == ch[k];
    assert forall m :: 0 <= m <= k && k + 1 < |ch| ==> ch[m] != ch[k + 1];
    if k + 1 == |vs| {
      assert vs == ch[..k + 1];
      assert vs == vs[..k + 1] && ch == ch[..k + 1];
    } else {
      assert vs[k + 1] == fat[vs[k]] && Walks(vs[k + 1]);
      assert vs[..k + 2] == vs[..k + 1] + [vs[k + 1]];
      assert ch[..k + 2] == ch[..k + 1] + [ch[k + 1]];
      WalkIsChain(fat, start, vs, ch, k + 1);
    }
  }

  /** The state of the freeing loop: vs has been cleared, cluster comes next; back says that
      the walk has re-entered vs, where every cell now reads free. */
  ghost predicate Walking(fat: Fat, start: nat, vs: seq<nat>, cluster: nat, back: bool) {
    && Distinct(vs)
    && (forall i :: 0 <= i < |vs| ==> 2 <= vs[i] < |fat|)
    && (forall i, j :: 0 <= i < |vs| && 0 <= j < |vs| && j == i + 1 ==> fat[vs[i]] == vs[j])
    && (vs == [] ==> cluster == start && !back)
    && (vs != [] ==> Walks(start) && vs[0] == start)
    && (vs != [] && !back ==> cluster == fat[vs[|vs| - 1]])
    && (back ==> vs != [] && fat[vs[|vs| - 1]] in vs && !Walks(cluster))
    && (Walks(cluster) ==> cluster < |fat|)
  }

  lemma WalkingStep(fat: Fat, start: nat, vs: seq<nat>, cluster: nat)
    requires WellFormed(fat) && Walking(fat, start, vs, cluster, false) && Walks(cluster)
    ensures cluster in vs ==>
              && Cleared(fat, vs)[cluster] == FREE
              && Cleared(fat, vs)[cluster := FREE] == Cleared(fat, vs)
              && Walking(fat, start, vs, FREE, true)
    ensures cluster !in vs ==>
              && Cleared(fat, vs)[cluster] == fat[cluster]
              && Cleared(fat, vs)[cluster := FREE] == Cleared(fat, vs + [cluster])
              && Walking(fat, start, vs + [cluster], fat[cluster], false)
              && |vs| < |fat|
  {
    if cluster !in vs {
      var vs' := vs + [cluster];
      WalkBound(fat, vs');
      assert Cleared(fat, vs)[cluster := FREE] == Cleared(fat, vs');
    } else {
      assert Cleared(fat, vs)[cluster := FREE] == Cleared(fat, vs);
    }
  }

  lemma WalkingDone(fat: Fat, start: nat, vs: seq<nat>, cluster: nat, back: bool)
    requires Walking(fat, start, vs, cluster, back) && !Walks(cluster)
    ensures Walk(fat, start, vs)
    ensures forall ch :: Chain(fat, ch) && start == (if ch == [] then 0 else ch[0]) ==> vs == ch
  {
    forall ch | Chain(fat, ch) && start == (if ch == [] then 0 else ch[0])
      ensures vs == ch
    {
      if ch != [] {
        ChainStep(fat, ch, 0);
        assert vs[..1] == [start] == ch[..1];
        WalkIsChain(fat, start, vs, ch, 0);
      }
    }
  }

  /** A duplicate-free list of data clusters is shorter than the table. */
  lemma WalkBound(fat: Fat, vs: seq<nat>)
    requires Distinct(vs) && forall i :: 0 <= i < |vs| ==> 2 <= vs[i] < |fat|
    ensures |vs| <= |fat| - 2
  {
    DistinctCount(vs);
    assert Elems(vs) <= Interval(2, |fat| - 2);
    SubsetCount(Elems(vs), Interval(2, |fat| - 2));
    IntervalSize(2, |fat| - 2);
  }

  lemma SubsetCount(a: set<nat>, b: set<nat>)
    requires a <= b
    ensures |a| <= |b|
  {
    assert b == a + (b - a);
  }

  // ---- progress of an allocation loop ----------------------------------------------

  /** After new of k allocations the table is fat and the chain ch; finishing from here
      gives the same result as growing ch0 in fat0 by k at once. */
  ghost predicate Growing(fat0: Fat, ch0: seq<nat>, k: nat, fat: Fat, ch: seq<nat>, new_: nat) {
    && GrowsFrom(fat0, ch0) && k <= |FreeList(fat0)| && GrowsFrom(fat, ch) && new_ <= k
    && |fat| == |fat0|
    && FreeList(fat) == FreeList(fat0)[new_..]
    && ch == ch0 + FreeList(fat0)[..new_]
    && Grow(fat, ch, k - new_) == Grow(fat0, ch0, k)
  }

  lemma GrowingStart(fat0: Fat, ch0: seq<nat>, k: nat)
    requires GrowsFrom(fat0, ch0) && k <= |FreeList(fat0)|
    ensures Growing(fat0, ch0, k, fat0, ch0, 0)
  {
    assert ch0 + FreeList(fat0)[..0] == ch0;
  }

  lemma GrowingStep(fat0: Fat, ch0: seq<nat>, k: nat, fat: Fat, ch: seq<nat>, new_: nat)
    requires Growing(fat0, ch0, k, fat, ch, new_) && new_ < k
    ensures var c := FreeList(fat)[0];
            && 2 <= c < |fat| && c == FreeList(fat0)[new_]
            && Growing(fat0, ch0, k, Push(fat, ch, c), ch + [c], new_ + 1)
  {
    PushTakes(fat, ch);
    var free := FreeList(fat0);
    var c := FreeList(fat)[0];
    assert ch + [c] == ch0 + free[..new_ + 1];
  }

  // ---- conservation --------------------------------------------------------------

  function Total(chains: seq<seq<nat>>): nat {
    if chains == [] then 0 else Total(chains[..|chains| - 1]) + |chains[|chains| - 1]|
  }

  ghost function Owned(chains: seq<seq<nat>>): set<nat> {
    if chains == [] then {} else Owned(chains[..|chains| - 1]) + Elems(chains[|chains| - 1])
  }

  lemma {:induction false} OwnedMembers(chains: seq<seq<nat>>, c: nat)
    ensures c in Owned(chains) <==> Covered(chains, c)
  {
    if chains != [] {
      var n := |chains| - 1;
      OwnedMembers(chains[..n], c);
      if c in chains[n] { assert Covered(chains, c); }
      if Covered(chains[..n], c) {
        var i :| 0 <= i < n && c in chains[..n][i];
        assert c in chains[i];
      }
      if Covered(chains, c) && c !in chains[n] {
        var i :| 0 <= i < |chains| && c in chains[i];
        assert c in chains[..n][i];
      }
    }
  }

  lemma {:induction false} OwnedCount(chains: seq<seq<nat>>)
    requires forall i :: 0 <= i < |chains| ==> Distinct(chains[i])
    requires forall i, j, c :: 0 <= i < |chains| && 0 <= j < |chains| && c in chains[i] && c in chains[j] ==> i == j
    ensures |Owned(chains)| == Total(chains)
  {
    if chains != [] {
      var n := |chains| - 1;
      OwnedCount(chains[..n]);
      DistinctCount(chains[n]);
      forall c | c in chains[n]
        ensures c !in Owned(chains[..n])
      {
        OwnedMembers(chains[..n], c);
      }
      assert Owned(chains[..n]) !! Elems(chains[n]);
    }
  }

  /** Free clusters plus the lengths of all chains is always the number of data clusters. */
  lemma Conservation(fat: Fat, chains: seq<seq<nat>>)
    requires Sound(fat, chains)
    ensures |FreeList(fat)| + Total(chains) == |fat| - 2
  {
    hide FreeFrom, Total, Owned;
    DistinctCount(FreeList(fat));
    OwnedCount(chains);
    FreeOrOwned(fat, chains);
    IntervalSize(2, |fat| - 2);
    assert |Elems(FreeList(fat)) + Owned(chains)| == |Elems(FreeList(fat))| + |Owned(chains)|;
  }

  lemma FreeOrOwned(fat: Fat, chains: seq<seq<nat>>)
    requires Sound(fat, chains)
    ensures Elems(FreeList(fat)) !! Owned(chains)
    ensures Elems(FreeList(fat)) + Owned(chains) == Interval(2, |fat| - 2)
  {
    SoundIsWellFormed(fat, chains);
    forall c: nat
      ensures (c in Owned(chains) ==> c in Interval(2, |fat| - 2) && c !in FreeList(fat))
      ensures c in Interval(2, |fat| - 2) && c !in FreeList(fat) ==> c in Owned(chains)
    {
      OwnedMembers(chains, c);
    }
  }

  lemma {:induction false} TotalUpdate(chains: seq<seq<nat>>, i: nat, ch: seq<nat>)
    requires i < |chains|
    ensures Total(chains[i := ch]) == Total(chains) - |chains[i]| + |ch|
  {
    var n := |chains| - 1;
    if i < n {
      TotalUpdate(chains[..n], i, ch);
      assert chains[i := ch][..n] == chains[..n][i := ch];
    } else {
      assert chains[i := ch][..n] == chains[..n];
    }
  }

  /** Clearing a chain of a sound table returns exactly its clusters to the free list. */
  lemma ClearedFree(fat: Fat, chains: seq<seq<nat>>, i: nat)
    requires Sound(fat, chains) && i < |chains|
    ensures |FreeList(Cleared(fat, chains[i]))| == |FreeList(fat)| + |chains[i]|
  {
    ClearSound(fat, chains, i);
    Conservation(fat, chains);
    Conservation(Cleared(fat, chains[i]), chains[i := []]);
    TotalUpdate(chains, i, []);
  }
}
