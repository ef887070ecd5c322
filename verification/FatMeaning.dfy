/** Append, delete, create and mkdir seen through names. */
module FatMeaning {
  import opened Bytes
  import opened FatCells
  import opened FatChains
  import opened FatNames
  import opened FatVolume
  import opened FatOps

  // ---- append --------------------------------------------------------------------------

  /** The chain effect: the old chain stays as a prefix, and the k lowest free clusters
      follow it, also when the disk runs full on the way. */
  lemma AppendSlotRewrites(d: Disk, i: nat, content: seq<Byte>)
    requires Inv(d) && i < |d.root| && Live(d.root[i]) && d.chains[i] != []
    ensures GrowsFrom(d.fat, d.chains[i])
    ensures var k := Min(SectorCount(|content|), FreeCount(d));
            && Rewrites(d, AppendSlot(d, i, content).0, i, d.chains[i], FreeList(d.fat)[..k], content)
            && AppendSlot(d, i, content).0.chains[i] == d.chains[i] + FreeList(d.fat)[..k]
  {
    KeepsSound(d, i, d.fat, d.chains[i]);
    var k := Min(SectorCount(|content|), FreeCount(d));
    var d' := AppendSlot(d, i, content).0;
    var e := d'.root[i];
    AppendedFits(d, i, e, content, k);
    RegrownRewrites(d, i, e, d.fat, d.chains[i], content, k, d');
  }

  lemma AppendedFits(d: Disk, i: nat, e: DirEntry, content: seq<Byte>, k: nat)
    requires Inv(d) && i < |d.root| && Live(d.root[i]) && d.chains[i] != []
    requires k <= FreeCount(d) && k <= SectorCount(|content|)
    requires e == d.root[i] || (k == SectorCount(|content|) && e == d.root[i].(size := d.root[i].size + |content|))
    ensures Tidy(d.root[i := e]) && Fits(e, d.chains[i] + FreeList(d.fat)[..k])
    ensures Keeps(d, i, d.fat, d.chains[i])
  {
    RenameTidy(d.root, i, e);
    var all := d.chains[i] + FreeList(d.fat)[..k];
    assert all[0] == d.chains[i][0] && |all| == |d.chains[i]| + k;
    assert Fits(d.root[i], d.chains[i]);
  }

  lemma AppendSlotMeans(d: Disk, i: nat, content: seq<Byte>)
    requires Inv(d) && i < |d.root| && Live(d.root[i]) && d.chains[i] != []
    ensures GrowsFrom(d.fat, d.chains[i]) && Clusters(d.chains[i], d.data)
    ensures var d' := AppendSlot(d, i, content).0;
            var k := Min(SectorCount(|content|), FreeCount(d));
            && Outcome(d, d', d.root[i].name,
                       Some(File(d.root[i].attributes, d'.root[i].size, Gather(d.data, d.chains[i]) + Prefix(content, k))))
            && FreeCount(d') + k == FreeCount(d)
  {
    AppendSlotRewrites(d, i, content);
    var k := Min(SectorCount(|content|), FreeCount(d));
    RewriteOutcome(d, AppendSlot(d, i, content).0, i, d.chains[i], FreeList(d.fat)[..k], content);
  }

  /** fat12_append_file on a regular file with clusters: old sectors, then the new ones. */
  lemma AppendMeans(d: Disk, f: CString, content: seq<Byte>)
    requires Inv(d) && IsFile(d, f) && Lookup(d, Parse(f).value).value.bytes != []
    ensures var (d', st) := Append(d, f, content);
            var n := Parse(f).value;
            var was := Lookup(d, n).value;
            var need := SectorCount(|content|);
            && st == (if need <= FreeCount(d) then Success else DiskFull)
            && Outcome(d, d', n, Some(File(was.attributes,
                 if need <= FreeCount(d) then was.size + |content| else was.size,
                 was.bytes + Prefix(content, Min(need, FreeCount(d))))))
            && FreeCount(d') + Min(need, FreeCount(d)) == FreeCount(d)
  {
    FileRoom(d, f);
    var i := Slot(d.root, f);
    assert Fits(d.root[i], d.chains[i]);
    AppendIsSlot(d, f, content);
    AppendSlotMeans(d, i, content);
  }

  lemma AppendIsSlot(d: Disk, f: CString, content: seq<Byte>)
    requires Inv(d) && IsFile(d, f) && Lookup(d, Parse(f).value).value.bytes != []
    ensures var i := Slot(d.root, f);
            && i < |d.root| && d.chains[i] != [] && GrowsFrom(d.fat, d.chains[i])
            && Append(d, f, content) == AppendSlot(d, i, content)
  {
    FileRoom(d, f);
    var i := Slot(d.root, f);
    KeepsSound(d, i, d.fat, d.chains[i]);
    SoundIsWellFormed(d.fat, d.chains);
    assert d.chains[i][0] in d.chains[i];
    assert Fits(d.root[i], d.chains[i]);
  }

  /** An empty file is appended to by writing it. */
  lemma AppendToEmpty(d: Disk, f: CString, content: seq<Byte>)
    requires Inv(d) && IsFile(d, f) && Lookup(d, Parse(f).value).value.bytes == []
    ensures Append(d, f, content) == Write(d, f, content)
  {
    SlotLookup(d, f);
  }

  /** The bytes a program sees: the first size ones. */
  function Visible(file: File): seq<Byte> {
    file.bytes[..Min(file.size, |file.bytes|)]
  }

  lemma FileSize(d: Disk, n: Name)
    requires Inv(d) && Lookup(d, n).Some?
    ensures Lookup(d, n).value.size <= |Lookup(d, n).value.bytes|
  {
  }

  /** Every append that fits shows the old contents followed by the new ones. */
  ghost predicate AppendsFaithfully(d: Disk, f: CString)
    requires Inv(d) && IsFile(d, f)
  {
    forall content: seq<Byte> :: SectorCount(|content|) <= FreeCount(d) ==>
      AppendShows(d, f, content)
  }

  ghost predicate AppendShows(d: Disk, f: CString, content: seq<Byte>)
    requires Inv(d) && IsFile(d, f)
  {
    var now := Lookup'(Append(d, f, content).0, Parse(f).value);
    now.Some? && Visible(now.value) == Visible(Lookup(d, Parse(f).value).value) + content
  }

  ghost function Lookup'(d: Disk, n: Name): Option<File> {
    if Inv(d) then Lookup(d, n) else None
  }

  lemma TakeBoth(a: seq<Byte>, b: seq<Byte>, c: seq<Byte>)
    requires |c| <= |b| && b[..|c|] == c
    ensures (a + b)[..|a| + |c|] == a + c
  {
  }

  lemma AlignedAppend(d: Disk, f: CString, content: seq<Byte>)
    requires Inv(d) && IsFile(d, f) && Lookup(d, Parse(f).value).value.bytes != []
    requires Lookup(d, Parse(f).value).value.size == |Lookup(d, Parse(f).value).value.bytes|
    requires SectorCount(|content|) <= FreeCount(d)
    ensures AppendShows(d, f, content)
  {
    AppendMeans(d, f, content);
    var was := Lookup(d, Parse(f).value).value;
    var k := SectorCount(|content|);
    TakeBoth(was.bytes, Prefix(content, k), content);
  }

  /** The driver never fills the last sector: what is appended starts at the next one. */
  lemma GappedAppend(d: Disk, f: CString)
    requires Inv(d) && IsFile(d, f) && FreeCount(d) > 0
    requires Lookup(d, Parse(f).value).value.size < |Lookup(d, Parse(f).value).value.bytes|
    ensures exists b: Byte :: !AppendShows(d, f, [b])
  {
    var was := Lookup(d, Parse(f).value).value;
    var x := was.bytes[was.size];
    var b := if x == 255 then 0 else x + 1;
    assert SectorCount(|[b]|) == 1;
    AppendMeans(d, f, [b]);
    var now := Lookup(Append(d, f, [b]).0, Parse(f).value).value;
    assert now.bytes[was.size] == was.bytes[was.size];
    assert Visible(now)[was.size] != (Visible(was) + [b])[was.size];
    assert !AppendShows(d, f, [b]);
  }

  /** With nothing to add, or for a file without clusters, nothing is out of place. */
  lemma PlainAppend(d: Disk, f: CString, content: seq<Byte>)
    requires Inv(d) && IsFile(d, f) && SectorCount(|content|) <= FreeCount(d)
    requires content == [] || Lookup(d, Parse(f).value).value.bytes == []
    ensures AppendShows(d, f, content)
  {
    var was := Lookup(d, Parse(f).value).value;
    FileSize(d, Parse(f).value);
    if was.bytes == [] {
      AppendToEmpty(d, f, content);
      WriteMeans(d, f, content);
      TakeBoth([], Prefix(content, SectorCount(|content|)), content);
      assert Visible(was) + content == content;
    } else {
      AppendMeans(d, f, content);
      assert was.bytes + Prefix([], 0) == was.bytes;
      assert Visible(was) + [] == Visible(was);
    }
  }

  /** Append concatenates exactly when the file fills its clusters to the last byte, as one
      without clusters does, or no cluster is free to append to. */
  lemma AppendExact(d: Disk, f: CString)
    requires Inv(d) && IsFile(d, f)
    ensures AppendsFaithfully(d, f) <==>
            FreeCount(d) == 0 || Lookup(d, Parse(f).value).value.size == |Lookup(d, Parse(f).value).value.bytes|
  {
    hide AppendShows;
    var was := Lookup(d, Parse(f).value).value;
    FileSize(d, Parse(f).value);
    if FreeCount(d) == 0 || was.size == |was.bytes| {
      forall content: seq<Byte> | SectorCount(|content|) <= FreeCount(d)
        ensures AppendShows(d, f, content)
      {
        if FreeCount(d) == 0 || was.bytes == [] {
          assert FreeCount(d) == 0 ==> |content| == 0;
          PlainAppend(d, f, content);
        } else {
          AlignedAppend(d, f, content);
        }
      }
    } else {
      GappedAppend(d, f);
      var b: Byte :| !AppendShows(d, f, [b]);
      assert SectorCount(|[b]|) == 1;
    }
  }

  // ---- delete --------------------------------------------------------------------------

  /** fat12_delete_file on a regular file: exactly that name disappears, and exactly its
      clusters become free. */
  lemma DeleteMeans(d: Disk, f: CString)
    requires Inv(d) && IsFile(d, f)
    ensures Delete(d, f).1 == Success
    ensures Outcome(d, Delete(d, f).0, Parse(f).value, None)
    ensures FreeCount(Delete(d, f).0) == Room(d, f)
  {
    SlotLookup(d, f);
    var i := Slot(d.root, f);
    var d' := Delete(d, f).0;
    DeleteRewrites(d, i, d');
    RewriteConserves(d, d', i, [], [], []);
    RewriteOnly(d, d', i, [], [], []);
    SlotChange(d, d', i, Parse(f).value);
    FindMiss(d'.root, Parse(f).value);
    assert Lookup(d', Parse(f).value) == None by {
      FindUnique(d.root, i);
    }
  }

  lemma FindUnique(root: seq<DirEntry>, i: nat)
    requires Tidy(root) && i < |root| && Live(root[i])
    ensures forall k :: 0 <= k < |root| && k != i && Live(root[k]) ==> root[k].name != root[i].name
  {
  }

  lemma DeleteRewrites(d: Disk, i: nat, d': Disk)
    requires Inv(d) && i < |d.root| && Live(d.root[i])
    requires d' == Disk(Cleared(d.fat, d.chains[i]), d.root[i := Tombstone(d.root[i])], d.data, d.chains[i := []])
    ensures Rewrites(d, d', i, [], [], [])
  {
    assert Sound(d'.fat, d'.chains) by { ClearSound(d.fat, d.chains, i); }
    assert Tidy(d'.root) by { DeleteTidy(d.root, i); }
    var none: seq<nat> := [];
    assert none + none == none;
    assert Inv(d') by {
      assert forall j :: 0 <= j < |d.root| ==> Fits(d'.root[j], d'.chains[j]);
    }
  }

  // ---- create --------------------------------------------------------------------------

  /** The driver writes the entry but will never find it again. */
  predicate Ghostly(f: CString) {
    f != [] && f[0] == DELETED
  }

  ghost predicate Present(d: Disk, f: CString)
    requires Inv(d)
  {
    Parse(f).Some? && Lookup(d, Parse(f).value).Some?
  }

  /** Error order of create and mkdir: present, directory full, bad name. */
  lemma CreateErrors(d: Disk, f: CString, parent: nat)
    requires Inv(d) && parent < 0x1_0000
    ensures Present(d, f) ==> Create(d, f) == (d, AlreadyExists) == MakeDir(d, f, parent)
    ensures !Present(d, f) && (forall i :: 0 <= i < |d.root| ==> Live(d.root[i])) ==>
              Create(d, f) == (d, DiskFull) == MakeDir(d, f, parent)
    ensures !Present(d, f) && (exists i :: 0 <= i < |d.root| && !Live(d.root[i])) && Parse(f).None? ==>
              Create(d, f) == (d, InvalidName) == MakeDir(d, f, parent)
    ensures Creatable(d, f) && FreeCount(d) == 0 ==> MakeDir(d, f, parent) == (d, DiskFull)
  {
    SlotLookup(d, f);
  }

  ghost predicate Creatable(d: Disk, f: CString)
    requires Inv(d)
  {
    Parse(f).Some? && Lookup(d, Parse(f).value).None? && FreeSlot(d.root, 0) < |d.root|
  }

  lemma NewEntryTidy(d: Disk, f: CString, e: DirEntry)
    requires Inv(d) && Creatable(d, f) && e.name == Parse(f).value
    ensures Tidy(d.root[FreeSlot(d.root, 0) := e])
    ensures Live(e) <==> !Ghostly(f)
  {
    ParseCanonical(f);
    FindMiss(d.root, e.name);
    CreateTidy(d.root, e);
  }

  lemma CreateRewrites(d: Disk, f: CString)
    requires Inv(d) && Creatable(d, f)
    ensures Create(d, f).1 == Success
    ensures Rewrites(d, Create(d, f).0, FreeSlot(d.root, 0), [], [], [])
  {
    hide Sound, Tidy, Find;
    SlotLookup(d, f);
    var i := FreeSlot(d.root, 0);
    var d' := Create(d, f).0;
    assert Tidy(d'.root) by { NewEntryTidy(d, f, d'.root[i]); }
    assert Fits(d.root[i], d.chains[i]) && d.chains[i] == [];
    var none: seq<nat> := [];
    assert none + none == none && d.chains[i := none] == d.chains;
    assert Inv(d') by {
      assert forall j :: 0 <= j < |d.root| ==> Fits(d'.root[j], d'.chains[j]);
    }
  }

  /** fat12_create_file: exactly the new name becomes findable, unless its first byte is the
      tombstone mark, when nothing at all changes for any caller. */
  lemma CreateMeans(d: Disk, f: CString)
    requires Inv(d) && Creatable(d, f)
    ensures var d' := Create(d, f).0;
            && Create(d, f).1 == Success && FreeCount(d') == FreeCount(d)
            && Outcome(d, d', Parse(f).value, if Ghostly(f) then None else Some(File(ATTR_ARCHIVE, 0, [])))
  {
    CreateRewrites(d, f);
    var i := FreeSlot(d.root, 0);
    var d' := Create(d, f).0;
    NewEntryTidy(d, f, d'.root[i]);
    if Ghostly(f) {
      RewriteOnly(d, d', i, [], [], []);
      SlotChange(d, d', i, Parse(f).value);
      OtherNames(d, d', i, Parse(f).value);
    } else {
      RewriteOutcome(d, d', i, [], [], []);
    }
  }

  // ---- mkdir ---------------------------------------------------------------------------

  lemma MakeDirRewrites(d: Disk, f: CString, parent: nat)
    requires Inv(d) && Creatable(d, f) && FreeCount(d) > 0 && parent < 0x1_0000 && !Ghostly(f)
    ensures MakeDir(d, f, parent).1 == Success
    ensures Rewrites(d, MakeDir(d, f, parent).0, FreeSlot(d.root, 0), [], [NewCluster(d)],
                     DirSector(NewCluster(d), parent))
  {
    SlotLookup(d, f);
    var i := FreeSlot(d.root, 0);
    var c := NewCluster(d);
    assert FreeList(d.fat)[..1] == [c] == [] + [c];
    var d' := MakeDir(d, f, parent).0;
    var e := DirEntry(Parse(f).value, ATTR_DIRECTORY, c, 0);
    NewEntryTidy(d, f, e);
    assert Fits(d.root[i], d.chains[i]) && d.chains[i] == [];
    RegrownRewrites(d, i, e, d.fat, [], DirSector(c, parent), 1, d');
  }

  /** fat12_create_directory: one cluster moves to the new name, which reads as a sector
      with the entries "." and ".."; no other name is affected. */
  lemma MakeDirMeans(d: Disk, f: CString, parent: nat)
    requires Inv(d) && Creatable(d, f) && FreeCount(d) > 0 && parent < 0x1_0000 && !Ghostly(f)
    ensures var d' := MakeDir(d, f, parent).0;
            && MakeDir(d, f, parent).1 == Success && FreeCount(d') + 1 == FreeCount(d)
            && Outcome(d, d', Parse(f).value, Some(File(ATTR_DIRECTORY, 0, DirSector(NewCluster(d), parent))))
  {
    MakeDirRewrites(d, f, parent);
    var i := FreeSlot(d.root, 0);
    var content := DirSector(NewCluster(d), parent);
    var d' := MakeDir(d, f, parent).0;
    NewEntryTidy(d, f, d'.root[i]);
    assert d.chains[i] == [] by { assert Fits(d.root[i], d.chains[i]); }
    RewriteOutcome(d, d', i, [], [NewCluster(d)], content);
    WholeSector(content);
    SlotLookup(d, f);
  }

  /** Under a name that starts with the tombstone byte, mkdir succeeds and takes a cluster,
      but changes the outcome of no lookup: the cluster is lost. */
  lemma MakeDirLoses(d: Disk, f: CString, parent: nat)
    requires Inv(d) && Creatable(d, f) && FreeCount(d) > 0 && parent < 0x1_0000 && Ghostly(f)
    ensures var d' := MakeDir(d, f, parent).0;
            && MakeDir(d, f, parent).1 == Success && FreeCount(d') + 1 == FreeCount(d)
            && Outcome(d, d', Parse(f).value, None) && Lost(d') == Lost(d) + [[NewCluster(d)]]
  {
    var i, c := FreeSlot(d.root, 0), NewCluster(d);
    var d' := MakeDir(d, f, parent).0;
    SlotLookup(d, f);
    NewEntryTidy(d, f, DirEntry(Parse(f).value, ATTR_DIRECTORY, c, 0));
    assert Fits(d.root[i], d.chains[i]) && d.chains[i] == [];
    hide Inv, Sound;
    DirParts(d, i, d'.root[i], c, parent, Push(d.fat, [], c), d.data[c - 2 := DirSector(c, parent)]);
    LostInv(d, d', i, c);
    LostElsewhere(d, d', i, c);
    PushTakes(d.fat, []);
    SlotChange(d, d', i, Parse(f).value);
    OtherNames(d, d', i, Parse(f).value);
  }

  /** A cluster becomes lost, and slot i stays unused. */
  ghost predicate Loses(d: Disk, d': Disk, i: nat, c: nat) {
    && Inv(d) && i < |d.root| && d.chains[i] == [] && 2 <= c < |d.fat| && d.fat[c] == FREE
    && d'.fat == Push(d.fat, [], c) && d'.chains == d.chains + [[c]]
    && |d'.root| == |d.root| && d'.root == d.root[i := d'.root[i]] && !Live(d'.root[i]) && Tidy(d'.root)
    && |d'.data| == |d.data| && d'.data == d.data[c - 2 := d'.data[c - 2]]
  }

  lemma LostInv(d: Disk, d': Disk, i: nat, c: nat)
    requires Loses(d, d', i, c)
    ensures Inv(d') && Lost(d') == Lost(d) + [[c]]
  {
    var n := |d.chains|;
    SpareChain(d.fat, d.chains);
    var none: seq<nat> := [];
    PushSound(d.fat, d.chains + [none], n, c);
    assert none + [c] == [c] && (d.chains + [none])[n := [c]] == d.chains + [[c]];
    assert forall j :: 0 <= j < |d.root| ==> Fits(d.root[j], d.chains[j]) && d'.chains[j] == d.chains[j];
  }

  lemma SpareChain(fat: Fat, chains: seq<seq<nat>>)
    requires Sound(fat, chains)
    ensures var none: seq<nat> := []; Sound(fat, chains + [none])
  {
    var none: seq<nat> := [];
    var more := chains + [none];
    assert Chain(fat, none);
    assert forall i :: 0 <= i < |chains| ==> more[i] == chains[i];
    hide Chain;
    forall c | 2 <= c < |fat| && fat[c] != FREE
      ensures Covered(more, c)
    {
      assert Covered(chains, c);
      var i :| 0 <= i < |chains| && c in chains[i];
      assert c in more[i];
    }
  }

  lemma LostElsewhere(d: Disk, d': Disk, i: nat, c: nat)
    requires Loses(d, d', i, c) && Inv(d')
    ensures OnlySlot(d, d', i)
  {
    SoundIsWellFormed(d.fat, d.chains);
    forall j | 0 <= j < |d.root| && j != i
      ensures d'.chains[j] == d.chains[j] && FileAt(d', j) == FileAt(d, j)
    {
      assert c !in d.chains[j];
      ChainClusters(d, j);
      GatherFrame(d.data, d'.data, d.chains[j]);
    }
  }

  lemma DirParts(d: Disk, i: nat, e: DirEntry, c: nat, parent: nat, fat: Fat, data: seq<Sector>)
    requires |d.data| == |d.fat| - 2 && |d.root| <= |d.chains| && i < |d.root| && parent < 0x1_0000
    requires FreeList(d.fat) != [] && c == NewCluster(d) && fat == Push(d.fat, [], c)
    requires data == d.data[c - 2 := DirSector(c, parent)]
    ensures GrowsFrom(d.fat, [])
    ensures Regrown(d, i, e, d.fat, [], DirSector(c, parent), 1) == Disk(fat, d.root[i := e], data, d.chains[i := [c]])
  {
    PushTakes(d.fat, []);
    FreshClusters(d.fat, d.data, 1);
    assert FreeList(d.fat)[..1] == [c] == [] + [c] && [c][..0] == [];
    assert Grow(d.fat, [], 1) == Grow(fat, [] + [c], 0);
    var s := DirSector(c, parent);
    assert SectorAt(s, 0) == s;
    assert Stored(d.data, [c], s) == Stored(d.data, [], s)[c - 2 := s];
  }

  lemma WholeSector(s: Sector)
    ensures [] + Prefix(s, 1) == s
  {
  }
}
