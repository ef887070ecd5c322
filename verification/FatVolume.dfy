/** A FAT12 volume as a value: the effect of every operation as a function on volumes, and
    what those effects mean for files, free space and the volume invariant. */
module FatVolume {
  import opened Bytes
  import opened FatCells
  import opened FatChains
  import opened Sequences
  import opened FatNames

  const SECTOR: nat := 512

  type Sector = s: seq<Byte> | |s| == SECTOR witness seq(SECTOR, _ => 0)

  /** chains[i] lists the clusters of root slot i, and is empty for an unused slot. Chains
      behind those of the slots hold clusters that are in use but that no entry owns. */
  datatype Disk = Disk(fat: Fat, root: seq<DirEntry>, data: seq<Sector>, chains: seq<seq<nat>>)

  datatype Status = Success | NotFound | DiskFull | InvalidName | AlreadyExists | NotAFile | NotADir

  ghost predicate Sized(d: Disk) {
    |d.root| <= |d.chains| && |d.data| == |d.fat| - 2
  }

  /** The clusters that no entry owns. */
  function Lost(d: Disk): seq<seq<nat>>
    requires |d.root| <= |d.chains|
  {
    d.chains[|d.root|..]
  }

  /** A slot and its chain belong together, and the chain can hold the recorded size. */
  predicate Fits(e: DirEntry, ch: seq<nat>) {
    if Live(e) then (if ch == [] then e.cluster == 0 else e.cluster == ch[0]) && e.size <= SECTOR * |ch|
    else ch == []
  }

  /** The invariant of a volume that holds between operations. */
  ghost predicate Inv(d: Disk) {
    && Sized(d)
    && Sound(d.fat, d.chains)
    && Tidy(d.root)
    && (forall i :: 0 <= i < |d.root| ==> Fits(d.root[i], d.chains[i]))
  }

  // ---- sectors and contents --------------------------------------------------------

  function SectorCount(size: nat): nat {
    (size + SECTOR - 1) / SECTOR
  }

  /** Sector j of content, zero-filled behind the end. */
  function SectorAt(content: seq<Byte>, j: nat): Sector
    requires SECTOR * j <= |content|
  {
    var chunk := content[SECTOR * j..Min(|content|, SECTOR * (j + 1))];
    chunk + Zeros(SECTOR - |chunk|)
  }

  ghost predicate Clusters(cs: seq<nat>, data: seq<Sector>) {
    forall k :: 0 <= k < |cs| ==> 2 <= cs[k] < |data| + 2
  }

  /** The clusters cs overwritten, in order, by the sectors of content. */
  ghost function Stored(data: seq<Sector>, cs: seq<nat>, content: seq<Byte>): (r: seq<Sector>)
    requires Clusters(cs, data) && SECTOR * |cs| < |content| + SECTOR
    ensures |r| == |data|
  {
    if cs == [] then data
    else
      var n := |cs| - 1;
      Stored(data, cs[..n], content)[cs[n] - 2 := SectorAt(content, n)]
  }

  /** The bytes read by walking the clusters cs. */
  ghost function Gather(data: seq<Sector>, cs: seq<nat>): (r: seq<Byte>)
    requires Clusters(cs, data)
    ensures |r| == SECTOR * |cs|
  {
    if cs == [] then []
    else Gather(data, cs[..|cs| - 1]) + data[cs[|cs| - 1] - 2]
  }

  /** The first k whole sectors of content, zero-filled behind its end. */
  function Prefix(content: seq<Byte>, k: nat): (r: seq<Byte>)
    ensures |r| == SECTOR * k
  {
    var m := Min(|content|, SECTOR * k);
    content[..m] + Zeros(SECTOR * k - m)
  }

  lemma PrefixStep(content: seq<Byte>, k: nat)
    requires SECTOR * k < |content|
    ensures Prefix(content, k) + SectorAt(content, k) == Prefix(content, k + 1)
  {
    assert Prefix(content, k) == content[..SECTOR * k];
    var m := Min(|content|, SECTOR * (k + 1));
    assert content[..SECTOR * k] + content[SECTOR * k..m] == content[..m];
  }

  lemma {:induction false} GatherFrame(a: seq<Sector>, b: seq<Sector>, cs: seq<nat>)
    requires |a| == |b| && Clusters(cs, a)
    requires forall k :: 0 <= k < |cs| ==> a[cs[k] - 2] == b[cs[k] - 2]
    ensures Gather(a, cs) == Gather(b, cs)
  {
    if cs != [] {
      GatherFrame(a, b, cs[..|cs| - 1]);
    }
  }

  lemma {:induction false} StoredFrame(data: seq<Sector>, cs: seq<nat>, content: seq<Byte>, c: nat)
    requires Clusters(cs, data) && SECTOR * |cs| < |content| + SECTOR
    requires 2 <= c < |data| + 2 && c !in cs
    ensures Stored(data, cs, content)[c - 2] == data[c - 2]
  {
    if cs != [] {
      assert cs[|cs| - 1] in cs;
      StoredFrame(data, cs[..|cs| - 1], content, c);
    }
  }

  lemma {:induction false} StoredElsewhere(data: seq<Sector>, cs: seq<nat>, content: seq<Byte>, other: seq<nat>)
    requires Clusters(cs, data) && SECTOR * |cs| < |content| + SECTOR
    requires Clusters(other, data) && forall c :: c in other ==> c !in cs
    ensures Gather(Stored(data, cs, content), other) == Gather(data, other)
  {
    hide Stored;
    if other != [] {
      var n := |other| - 1;
      assert other[n] in other;
      assert forall c :: c in other[..n] ==> c in other;
      StoredElsewhere(data, cs, content, other[..n]);
      StoredFrame(data, cs, content, other[n]);
    }
  }

  /** Writing content over distinct clusters and walking them yields its sectors. */
  lemma {:induction false} StoredGather(data: seq<Sector>, cs: seq<nat>, content: seq<Byte>)
    requires Clusters(cs, data) && SECTOR * |cs| < |content| + SECTOR && Distinct(cs)
    ensures Gather(Stored(data, cs, content), cs) == Prefix(content, |cs|)
  {
    if cs != [] {
      var n := |cs| - 1;
      var before := Stored(data, cs[..n], content);
      StoredGather(data, cs[..n], content);
      assert forall k :: 0 <= k < n ==> cs[k] != cs[n];
      GatherFrame(before, Stored(data, cs, content), cs[..n]);
      PrefixStep(content, n);
    }
  }

  lemma {:induction false} GatherConcat(data: seq<Sector>, a: seq<nat>, b: seq<nat>)
    requires Clusters(a, data) && Clusters(b, data)
    ensures Clusters(a + b, data)
    ensures Gather(data, a + b) == Gather(data, a) + Gather(data, b)
  {
    if b == [] {
      assert a + b == a;
    } else {
      hide Gather;
      var n := |b| - 1;
      var all := a + b;
      GatherConcat(data, a, b[..n]);
      assert Clusters(all, data);
      GatherLast(data, all);
      GatherLast(data, b);
      hide Clusters;
      assert all[..|all| - 1] == a + b[..n] && all[|all| - 1] == b[n];
      Associate(Gather(data, a), Gather(data, b[..n]), data[b[n] - 2]);
    }
  }

  lemma GatherLast(data: seq<Sector>, all: seq<nat>)
    requires Clusters(all, data) && all != []
    ensures Clusters(all[..|all| - 1], data) && 2 <= all[|all| - 1] < |data| + 2
    ensures Gather(data, all) == Gather(data, all[..|all| - 1]) + data[all[|all| - 1] - 2]
  {
  }

  lemma Associate(a: seq<Byte>, b: seq<Byte>, c: seq<Byte>)
    ensures (a + b) + c == a + (b + c)
  {
  }

  // ---- files by name ---------------------------------------------------------------

  /** What a caller can learn about one file: attributes, size, and all allocated bytes. */
  datatype File = File(attributes: Byte, size: nat, bytes: seq<Byte>)

  lemma ChainClusters(d: Disk, i: nat)
    requires Sized(d) && Sound(d.fat, d.chains) && i < |d.chains|
    ensures Clusters(d.chains[i], d.data) && Distinct(d.chains[i])
  {
  }

  ghost function FileAt(d: Disk, i: nat): File
    requires Sized(d) && Sound(d.fat, d.chains) && i < |d.root|
  {
    ChainClusters(d, i);
    File(d.root[i].attributes, d.root[i].size, Gather(d.data, d.chains[i]))
  }

  ghost function Lookup(d: Disk, n: Name): Option<File>
    requires Inv(d)
  {
    var i := Find(d.root, n, 0);
    if i < |d.root| then Some(FileAt(d, i)) else None
  }

  ghost function FreeCount(d: Disk): nat {
    |FreeList(d.fat)|
  }

  /** Slot i may change; every other slot keeps its entry, chain and bytes. */
  ghost predicate OnlySlot(d: Disk, d': Disk, i: nat)
    requires Inv(d) && Inv(d')
  {
    && |d'.root| == |d.root|
    && forall j :: 0 <= j < |d.root| && j != i ==>
         d'.root[j] == d.root[j] && d'.chains[j] == d.chains[j] && FileAt(d', j) == FileAt(d, j)
  }

  /** A change of one slot is invisible under every name that this slot does not bear. */
  lemma OtherNames(d: Disk, d': Disk, i: nat, n: Name)
    requires Inv(d) && Inv(d') && i < |d.root| && OnlySlot(d, d', i)
    requires !(Live(d.root[i]) && d.root[i].name == n) && !(Live(d'.root[i]) && d'.root[i].name == n)
    ensures Lookup(d', n) == Lookup(d, n)
  {
    var k, k' := Find(d.root, n, 0), Find(d'.root, n, 0);
    if k < |d.root| { FindExact(d'.root, n, 0, k); }
    if k' < |d.root| { FindExact(d.root, n, 0, k'); }
  }

  lemma NameAtSlot(d: Disk, i: nat)
    requires Inv(d) && i < |d.root| && Live(d.root[i])
    ensures Lookup(d, d.root[i].name) == Some(FileAt(d, i))
  {
    FindExact(d.root, d.root[i].name, 0, i);
  }
}
