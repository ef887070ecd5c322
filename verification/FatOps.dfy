/** The operations of the driver as functions on volumes, with their meaning. */
module FatOps {
  import opened Bytes
  import opened FatCells
  import opened FatChains
  import opened FatNames
  import opened FatVolume

  // ---- what rewriting one slot means -------------------------------------------------

  /** Slot i, which kept the clusters ch, gained the clusters cs and filled them with the
      first sectors of content; no other slot and no other sector was written. */
  ghost predicate Rewrites(d: Disk, d': Disk, i: nat, ch: seq<nat>, cs: seq<nat>, content: seq<Byte>) {
    && Inv(d) && Inv(d') && i < |d.root| && |d'.fat| == |d.fat|
    && (ch == d.chains[i] || ch == [])
    && d'.chains == d.chains[i := ch + cs]
    && |d'.root| == |d.root| && (forall j :: 0 <= j < |d.root| && j != i ==> d'.root[j] == d.root[j])
    && Clusters(cs, d.data) && |cs| <= SectorCount(|content|)
    && d'.data == Stored(d.data, cs, content)
  }

  /** Clusters only move between the free list and the slot. */
  lemma RewriteConserves(d: Disk, d': Disk, i: nat, ch: seq<nat>, cs: seq<nat>, content: seq<Byte>)
    requires Rewrites(d, d', i, ch, cs, content)
    ensures FreeCount(d') + |ch + cs| == FreeCount(d) + |d.chains[i]|
  {
    Conservation(d.fat, d.chains);
    Conservation(d'.fat, d'.chains);
    TotalUpdate(d.chains, i, ch + cs);
  }

  /** The slot now reads as the kept bytes followed by the new sectors. */
  lemma RewriteReads(d: Disk, d': Disk, i: nat, ch: seq<nat>, cs: seq<nat>, content: seq<Byte>)
    requires Rewrites(d, d', i, ch, cs, content)
    ensures Clusters(ch, d.data)
    ensures FileAt(d', i).bytes == Gather(d.data, ch) + Prefix(content, |cs|)
  {
    ChainClusters(d', i);
    DistinctParts(ch, cs);
    GatherConcat(d'.data, ch, cs);
    StoredGather(d.data, cs, content);
    StoredElsewhere(d.data, cs, content, ch);
  }

  lemma RewriteKeeps(d: Disk, d': Disk, i: nat, ch: seq<nat>, cs: seq<nat>, content: seq<Byte>, j: nat)
    requires Rewrites(d, d', i, ch, cs, content) && j < |d.root| && j != i
    ensures FileAt(d', j) == FileAt(d, j)
  {
    ChainClusters(d, j);
    assert d'.chains[j] == d.chains[j] && d'.chains[i] == ch + cs;
    forall c | c in d.chains[j]
      ensures c !in cs
    {
      assert c in d'.chains[j];
      assert c !in d'.chains[i];
    }
    hide Inv, Stored, Gather;
    StoredElsewhere(d.data, cs, content, d.chains[j]);
  }

  lemma RewriteOnly(d: Disk, d': Disk, i: nat, ch: seq<nat>, cs: seq<nat>, content: seq<Byte>)
    requires Rewrites(d, d', i, ch, cs, content)
    ensures OnlySlot(d, d', i)
  {
    forall j | 0 <= j < |d.root| && j != i
      ensures d'.chains[j] == d.chains[j] && FileAt(d', j) == FileAt(d, j)
    {
      RewriteKeeps(d, d', i, ch, cs, content, j);
    }
  }

  // ---- the one transformation behind write, append and mkdir --------------------------

  /** Slot i becomes e; its chain, now ch in the table fat, is grown by k first-fit clusters
      that receive the first k sectors of content. */
  ghost function Regrown(d: Disk, i: nat, e: DirEntry, fat: Fat, ch: seq<nat>, content: seq<Byte>, k: nat): Disk
    requires |d.data| == |fat| - 2 && i < |d.root| && |d.root| <= |d.chains|
    requires GrowsFrom(fat, ch) && k <= |FreeList(fat)| && k <= SectorCount(|content|)
  {
    FreshClusters(fat, d.data, k);
    var (fat', ch') := Grow(fat, ch, k);
    Disk(fat', d.root[i := e], Stored(d.data, FreeList(fat)[..k], content), d.chains[i := ch'])
  }

  lemma FreshClusters(fat: Fat, data: seq<Sector>, k: nat)
    requires k <= |FreeList(fat)| && |data| == |fat| - 2
    ensures Clusters(FreeList(fat)[..k], data)
  {
    var free := FreeList(fat);
    assert forall j :: 0 <= j < k ==> free[j] in free;
  }

  /** The chain ch that slot i keeps is either its whole old chain or nothing. */
  ghost predicate Keeps(d: Disk, i: nat, fat: Fat, ch: seq<nat>)
    requires Inv(d) && i < |d.root|
  {
    || (fat == d.fat && ch == d.chains[i])
    || (fat == Cleared(d.fat, d.chains[i]) && ch == [])
  }

  lemma KeepsSound(d: Disk, i: nat, fat: Fat, ch: seq<nat>)
    requires Inv(d) && i < |d.root| && Keeps(d, i, fat, ch)
    ensures Sound(fat, d.chains[i := ch]) && GrowsFrom(fat, ch)
    ensures |FreeList(fat)| + |ch| == FreeCount(d) + |d.chains[i]|
  {
    if ch == d.chains[i] && fat == d.fat {
      assert d.chains[i := ch] == d.chains;
    } else {
      ClearSound(d.fat, d.chains, i);
      ClearedFree(d.fat, d.chains, i);
    }
    GrowsFromChain(fat, d.chains[i := ch], i);
  }

  lemma RegrownRewrites(d: Disk, i: nat, e: DirEntry, fat: Fat, ch: seq<nat>, content: seq<Byte>, k: nat, d': Disk)
    requires Inv(d) && i < |d.root| && Keeps(d, i, fat, ch)
    requires k <= |FreeList(fat)| && k <= SectorCount(|content|)
    requires Tidy(d.root[i := e]) && Fits(e, ch + FreeList(fat)[..k])
    requires GrowsFrom(fat, ch) && d' == Regrown(d, i, e, fat, ch, content, k)
    ensures Rewrites(d, d', i, ch, FreeList(fat)[..k], content)
  {
    var chains' := d.chains[i := ch + FreeList(fat)[..k]];
    assert Sound(d'.fat, chains') by {
      KeepsSound(d, i, fat, ch);
      GrowSoundAt(fat, d.chains, i, ch, k);
    }
    assert d'.chains == chains' by { GrowTakes(fat, ch, k); }
    FreshClusters(fat, d.data, k);
    assert Inv(d') by {
      assert forall j :: 0 <= j < |d.root| ==> Fits(d'.root[j], d'.chains[j]);
    }
  }

  // ---- operations --------------------------------------------------------------------

  /** The root slot a file name leads to; |root| when the name is invalid or absent. */
  function Slot(root: seq<DirEntry>, f: CString): (i: nat)
    ensures i <= |root|
    ensures i < |root| ==> Live(root[i]) && Parse(f) == Some(root[i].name)
  {
    match Parse(f)
    case None => |root|
    case Some(n) => Find(root, n, 0)
  }

  function WrittenEntry(e: DirEntry, cs: seq<nat>, content: seq<Byte>): DirEntry {
    e.(cluster := if cs == [] then 0 else cs[0],
       size := if content == [] then 0 else if cs == [] then e.size else Min(|content|, SECTOR * |cs|))
  }

  ghost function WriteSlot(d: Disk, i: nat, content: seq<Byte>): (Disk, Status)
    requires |d.data| == |d.fat| - 2 && |d.root| <= |d.chains| && i < |d.root|
  {
    var fat := Cleared(d.fat, d.chains[i]);
    var need := SectorCount(|content|);
    var k := Min(need, |FreeList(fat)|);
    (Regrown(d, i, WrittenEntry(d.root[i], FreeList(fat)[..k], content), fat, [], content, k),
     if k == need then Success else DiskFull)
  }

  ghost function Write(d: Disk, f: CString, content: seq<Byte>): (Disk, Status)
    requires Inv(d)
  {
    var i := Slot(d.root, f);
    if i == |d.root| then (d, NotFound)
    else if d.root[i].attributes == ATTR_DIRECTORY then (d, NotAFile)
    else WriteSlot(d, i, content)
  }

  ghost function AppendSlot(d: Disk, i: nat, content: seq<Byte>): (Disk, Status)
    requires |d.data| == |d.fat| - 2 && |d.root| <= |d.chains| && i < |d.root| && GrowsFrom(d.fat, d.chains[i])
  {
    var e := d.root[i];
    var need := SectorCount(|content|);
    var k := Min(need, FreeCount(d));
    if k == need then
      (Regrown(d, i, e.(size := e.size + |content|), d.fat, d.chains[i], content, k), Success)
    else
      (Regrown(d, i, e, d.fat, d.chains[i], content, k), DiskFull)
  }

  ghost function Append(d: Disk, f: CString, content: seq<Byte>): (Disk, Status)
    requires Inv(d)
  {
    var i := Slot(d.root, f);
    if i == |d.root| then (d, NotFound)
    else if d.root[i].attributes == ATTR_DIRECTORY then (d, NotAFile)
    else if d.root[i].cluster < 2 then Write(d, f, content)
    else
      KeepsSound(d, i, d.fat, d.chains[i]);
      AppendSlot(d, i, content)
  }

  ghost function Delete(d: Disk, f: CString): (Disk, Status)
    requires Inv(d)
  {
    var i := Slot(d.root, f);
    if i == |d.root| then (d, NotFound)
    else if d.root[i].attributes == ATTR_DIRECTORY then (d, NotADir)
    else
      (Disk(Cleared(d.fat, d.chains[i]), d.root[i := Tombstone(d.root[i])], d.data, d.chains[i := []]), Success)
  }

  ghost function Create(d: Disk, f: CString): (Disk, Status) {
    var i := FreeSlot(d.root, 0);
    if Slot(d.root, f) < |d.root| then (d, AlreadyExists)
    else if i == |d.root| then (d, DiskFull)
    else if Parse(f).None? then (d, InvalidName)
    else (d.(root := d.root[i := DirEntry(Parse(f).value, ATTR_ARCHIVE, 0, 0)]), Success)
  }

  const DOT_NAME: Name := [46, 32, 32, 32, 32, 32, 32, 32, 32, 32, 32]
  const DOTDOT_NAME: Name := [46, 46, 32, 32, 32, 32, 32, 32, 32, 32, 32]

  /** The first sector of a new directory: entries for itself and its parent. */
  function DirSector(self: nat, parent: nat): Sector
    requires self < 0x1_0000 && parent < 0x1_0000
  {
    EntryBytes(DirEntry(DOT_NAME, ATTR_DIRECTORY, self, 0)) + EntryBytes(DirEntry(DOTDOT_NAME, ATTR_DIRECTORY, parent, 0))
    + Zeros(SECTOR - 2 * ENTRY)
  }

  function NewCluster(d: Disk): (c: nat)
    requires FreeList(d.fat) != []
    ensures 2 <= c < |d.fat| && d.fat[c] == FREE
  {
    assert FreeList(d.fat)[0] in FreeList(d.fat);
    FreeList(d.fat)[0]
  }

  /** The first free cluster becomes the directory of slot i; if the entry of that slot does
      not count as in use, no entry owns the cluster. */
  ghost function MadeDir(d: Disk, i: nat, e: DirEntry, parent: nat): Disk
    requires |d.data| == |d.fat| - 2 && |d.root| <= |d.chains| && i < |d.root| && parent < 0x1_0000
    requires FreeList(d.fat) != []
  {
    var c := NewCluster(d);
    var d' := Regrown(d, i, e, d.fat, [], DirSector(c, parent), 1);
    if Live(e) then d' else d'.(chains := d.chains + [[c]])
  }

  ghost function MakeDir(d: Disk, f: CString, parent: nat): (Disk, Status)
    requires |d.data| == |d.fat| - 2 && |d.root| <= |d.chains| && parent < 0x1_0000
  {
    var i := FreeSlot(d.root, 0);
    if Slot(d.root, f) < |d.root| then (d, AlreadyExists)
    else if i == |d.root| then (d, DiskFull)
    else if Parse(f).None? then (d, InvalidName)
    else if FreeList(d.fat) == [] then (d, DiskFull)
    else
      var c := NewCluster(d);
      (MadeDir(d, i, DirEntry(Parse(f).value, ATTR_DIRECTORY, c, 0), parent), Success)
  }

  // ---- meaning of the operations -------------------------------------------------------

  ghost predicate SameElsewhere(d: Disk, d': Disk, n: Name)
    requires Inv(d) && Inv(d')
  {
    forall m: Name :: m != n ==> Lookup(d', m) == Lookup(d, m)
  }

  lemma SlotChange(d: Disk, d': Disk, i: nat, n: Name)
    requires Inv(d) && Inv(d') && i < |d.root| && OnlySlot(d, d', i)
    requires Live(d.root[i]) ==> d.root[i].name == n
    requires Live(d'.root[i]) ==> d'.root[i].name == n
    ensures SameElsewhere(d, d', n)
  {
    forall m: Name | m != n
      ensures Lookup(d', m) == Lookup(d, m)
    {
      OtherNames(d, d', i, m);
    }
  }

  lemma SlotLookup(d: Disk, f: CString)
    requires Inv(d)
    ensures var i := Slot(d.root, f);
            i < |d.root| ==> Lookup(d, Parse(f).value) == Some(FileAt(d, i))
    ensures Parse(f).Some? && Slot(d.root, f) == |d.root| ==> Lookup(d, Parse(f).value) == None
  {
  }

  lemma RenameTidy(root: seq<DirEntry>, i: nat, e: DirEntry)
    requires Tidy(root) && i < |root| && e.name == root[i].name
    ensures Tidy(root[i := e])
  {
  }

  /** The name n now shows file, and every other name what it showed before. */
  ghost predicate Outcome(d: Disk, d': Disk, n: Name, file: Option<File>)
    requires Inv(d)
  {
    Inv(d') && Lookup(d', n) == file && SameElsewhere(d, d', n)
  }

  lemma SlotOutcome(d: Disk, d': Disk, i: nat)
    requires Inv(d) && Inv(d') && i < |d.root| && OnlySlot(d, d', i)
    requires Live(d'.root[i]) && (Live(d.root[i]) ==> d'.root[i].name == d.root[i].name)
    ensures Outcome(d, d', d'.root[i].name, Some(FileAt(d', i)))
  {
    NameAtSlot(d', i);
    SlotChange(d, d', i, d'.root[i].name);
  }

  /** Rewriting a live slot, seen through names. */
  lemma RewriteOutcome(d: Disk, d': Disk, i: nat, ch: seq<nat>, cs: seq<nat>, content: seq<Byte>)
    requires Rewrites(d, d', i, ch, cs, content)
    requires Live(d'.root[i]) && (Live(d.root[i]) ==> d'.root[i].name == d.root[i].name)
    ensures Clusters(ch, d.data)
    ensures Outcome(d, d', d'.root[i].name,
                    Some(File(d'.root[i].attributes, d'.root[i].size, Gather(d.data, ch) + Prefix(content, |cs|))))
    ensures FreeCount(d') + |ch + cs| == FreeCount(d) + |d.chains[i]|
  {
    RewriteConserves(d, d', i, ch, cs, content);
    RewriteReads(d, d', i, ch, cs, content);
    RewriteOnly(d, d', i, ch, cs, content);
    SlotOutcome(d, d', i);
  }

  /** A regular file is stored under the name f parses to. */
  ghost predicate IsFile(d: Disk, f: CString)
    requires Inv(d)
  {
    && Parse(f).Some? && Lookup(d, Parse(f).value).Some?
    && Lookup(d, Parse(f).value).value.attributes != ATTR_DIRECTORY
  }

  /** Sectors that become available to the file when its old contents are dropped. */
  ghost function Room(d: Disk, f: CString): nat
    requires Inv(d) && IsFile(d, f)
  {
    FreeCount(d) + |Lookup(d, Parse(f).value).value.bytes| / SECTOR
  }

  /** The three operations on a named file fail in the same way, without any effect. */
  lemma FileErrors(d: Disk, f: CString, content: seq<Byte>)
    requires Inv(d) && !IsFile(d, f)
    ensures var missing := Parse(f).None? || Lookup(d, Parse(f).value).None?;
            && Write(d, f, content) == (d, if missing then NotFound else NotAFile)
            && Append(d, f, content) == (d, if missing then NotFound else NotAFile)
            && Delete(d, f) == (d, if missing then NotFound else NotADir)
  {
    SlotLookup(d, f);
  }

  lemma WriteSlotRewrites(d: Disk, i: nat, content: seq<Byte>)
    requires Inv(d) && i < |d.root| && Live(d.root[i])
    ensures var fat := Cleared(d.fat, d.chains[i]);
            var k := Min(SectorCount(|content|), |FreeList(fat)|);
            && |FreeList(fat)| == FreeCount(d) + |d.chains[i]|
            && Rewrites(d, WriteSlot(d, i, content).0, i, [], FreeList(fat)[..k], content)
  {
    var fat := Cleared(d.fat, d.chains[i]);
    KeepsSound(d, i, fat, []);
    var k := Min(SectorCount(|content|), |FreeList(fat)|);
    var cs := FreeList(fat)[..k];
    var e := WrittenEntry(d.root[i], cs, content);
    assert Tidy(d.root[i := e]) by { RenameTidy(d.root, i, e); }
    assert [] + cs == cs;
    assert Fits(e, cs);
    RegrownRewrites(d, i, e, fat, [], content, k, WriteSlot(d, i, content).0);
  }

  lemma NothingBefore(data: seq<Sector>, b: seq<Byte>)
    ensures Gather(data, []) + b == b
  {
  }

  /** The early disk-full exit leaves the size field alone, and it is right to: no cluster
      was free although the old chain had been dropped, so the file was empty already. */
  lemma WrittenSize(e: DirEntry, ch: seq<nat>, cs: seq<nat>, content: seq<Byte>)
    requires Live(e) && Fits(e, ch) && |cs| <= SectorCount(|content|) && (|cs| == 0 ==> |content| == 0 || ch == [])
    ensures WrittenEntry(e, cs, content).size == Min(|content|, SECTOR * |cs|)
  {
  }

  lemma WriteSlotMeans(d: Disk, i: nat, content: seq<Byte>)
    requires Inv(d) && i < |d.root| && Live(d.root[i])
    ensures var d' := WriteSlot(d, i, content).0;
            var k := Min(SectorCount(|content|), FreeCount(d) + |d.chains[i]|);
            && Outcome(d, d', d.root[i].name,
                       Some(File(d.root[i].attributes, Min(|content|, SECTOR * k), Prefix(content, k))))
            && FreeCount(d') + k == FreeCount(d) + |d.chains[i]|
  {
    WriteSlotRewrites(d, i, content);
    var fat := Cleared(d.fat, d.chains[i]);
    var k := Min(SectorCount(|content|), |FreeList(fat)|);
    var d', cs := WriteSlot(d, i, content).0, FreeList(fat)[..k];
    RewriteOutcome(d, d', i, [], cs, content);
    NothingBefore(d.data, Prefix(content, |cs|));
    WrittenSize(d.root[i], d.chains[i], cs, content);
  }

  lemma FileRoom(d: Disk, f: CString)
    requires Inv(d) && IsFile(d, f)
    ensures var i := Slot(d.root, f);
            && i < |d.root| && Live(d.root[i]) && d.root[i].attributes != ATTR_DIRECTORY
            && d.root[i].name == Parse(f).value
            && Lookup(d, Parse(f).value) == Some(FileAt(d, i))
            && Room(d, f) == FreeCount(d) + |d.chains[i]|
  {
    SlotLookup(d, f);
  }

  /** fat12_write_file on a regular file: the exact capacity law, the round trip and the
      frame. A write fails for lack of space exactly when the sectors needed exceed the free
      ones plus those the file already holds, and then the longest prefix that fits is kept,
      with its size. */
  lemma WriteMeans(d: Disk, f: CString, content: seq<Byte>)
    requires Inv(d) && IsFile(d, f)
    ensures var (d', st) := Write(d, f, content);
            var n := Parse(f).value;
            var k := Min(SectorCount(|content|), Room(d, f));
            && st == (if SectorCount(|content|) <= Room(d, f) then Success else DiskFull)
            && Outcome(d, d', n, Some(File(Lookup(d, n).value.attributes, Min(|content|, SECTOR * k), Prefix(content, k))))
            && FreeCount(d') + k == Room(d, f)
  {
    FileRoom(d, f);
    var i := Slot(d.root, f);
    WriteSlotMeans(d, i, content);
    WriteSlotRewrites(d, i, content);
  }
}
