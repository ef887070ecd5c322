/** The host tool's image as the driver sees it after loading: each side has its own count of
    reserved sectors, and only some sectors are loaded. */
module ImageAgreement {
  import opened Bytes
  import opened FatCells
  import opened FatChains
  import opened FatNames
  import opened FatScan
  import opened FatVolume
  import opened FatImage
  import opened HostBytes
  import opened ImageBuilder

  ghost predicate AllEncodable(root: seq<DirEntry>) {
    forall e :: e in root ==> Encodable(e)
  }

  lemma {:induction false} AddedEncodable(d: Disk, current: nat, files: seq<HostFile>)
    requires Plan(d, current, files) && AllEncodable(d.root)
    ensures AllEncodable(Added(d, current, files).root)
    ensures |Added(d, current, files).root| == |d.root| && |Added(d, current, files).fat| == |d.fat|
    decreases |files|
  {
    hide Plan, Addable, CreateWrite, AllEncodable, Inv, SectorCount;
    if files != [] {
      StepEncodable(d, current, files);
      AddedEncodable(CreateWrite(d, files[0].name, files[0].content), current + SectorCount(|files[0].content|), files[1..]);
    }
  }

  lemma StepEncodable(d: Disk, current: nat, files: seq<HostFile>)
    requires Plan(d, current, files) && files != [] && AllEncodable(d.root)
    ensures Inv(d) && Addable(d, current, files[0].name, files[0].content)
    ensures var d' := CreateWrite(d, files[0].name, files[0].content);
            && Plan(d', current + SectorCount(|files[0].content|), files[1..])
            && AllEncodable(d'.root) && |d'.root| == |d.root| && |d'.fat| == |d.fat|
  {
    hide AllEncodable, Built, BuilderName;
    PlanTail(d, current, files);
    BuiltEntry(d, current, files[0].name, files[0].content);
    EntryEncodable(d, current, BuilderName(files[0].name), files[0].content);
  }

  lemma EntryEncodable(d: Disk, current: nat, n: Name, content: seq<Byte>)
    requires Fitting(d, current, content) && AllEncodable(d.root)
    ensures AllEncodable(Built(d, current, n, content).root)
    ensures |Built(d, current, n, content).root| == |d.root| && |Built(d, current, n, content).fat| == |d.fat|
  {
    RisingFits(d, current, content);
    assert Encodable(DirEntry(n, ATTR_ARCHIVE, current, |content|));
  }

  // ---- the sectors of the byte array -----------------------------------------------------------

  lemma {:induction false} ChunksLaid(area: seq<Byte>, sectors: seq<Sector>, start: nat, content: seq<Byte>, i: nat)
    requires 2 <= start && start + SectorCount(|content|) <= |sectors| + 2 && i <= SectorCount(|content|)
    requires sectors == SectorsOf(area, |sectors|)
    requires forall p :: start - 2 <= p < |sectors| ==> sectors[p] == Zeros(SECTOR)
    ensures LaidOut(area, Assigned(area, Start(start), content[..Min(|content|, SECTOR * i)]), sectors, start, content, i)
    decreases i
  {
    hide SectorsOf, LaidOut, Assigned, SectorCount, ChunkOf;
    NothingAssigned(area, Start(start));
    assert content[..0] == [];
    if i == 0 {
      LaidOutStart(area, sectors, start, SectorCount(|content|), content);
    } else {
      var before := Assigned(area, Start(start), content[..Min(|content|, SECTOR * (i - 1))]);
      ChunksLaid(area, sectors, start, content, i - 1);
      LaidOutStep(area, before, sectors, start, SectorCount(|content|), content, i - 1);
      LaidOutArea(area, Assigned(before, SECTOR * (start + (i - 1) - 2), ChunkOf(content, i - 1)), sectors, start, content, i);
    }
  }

  lemma LaidOutArea(before: seq<Byte>, area: seq<Byte>, sectors: seq<Sector>, start: nat, content: seq<Byte>, i: nat)
    requires LaidOut(before, area, sectors, start, content, i)
    ensures 2 <= start && area == Assigned(before, Start(start), content[..Min(|content|, SECTOR * i)])
  {
  }

  /** Where the array reaches to the first cluster, its sectors afterwards are those of the
      volume with the file laid out. */
  lemma FileSectors(d: Disk, current: nat, n: Name, content: seq<Byte>, area: seq<Byte>)
    requires Fitting(d, current, content) && 2 <= current && d.data == SectorsOf(area, |d.data|) && Start(current) <= |area|
    ensures SectorsOf(Assigned(area, Start(current), content), |d.data|) == Built(d, current, n, content).data
  {
    hide SectorsOf, Assigned, Stored, Rising, SectorOf;
    RisingFits(d, current, content);
    ChunksLaid(area, d.data, current, content, SectorCount(|content|));
    assert content[..Min(|content|, SECTOR * SectorCount(|content|))] == content;
    LaidOutDone(area, Assigned(area, Start(current), content), d.data, current, SectorCount(|content|), content);
  }

  /** The sectors of the finished array are those of the planned volume, if the files are
      contained. */
  lemma {:induction false} AddedSectors(d: Disk, current: nat, files: seq<HostFile>, area: seq<Byte>)
    requires Plan(d, current, files) && 2 <= current && d.data == SectorsOf(area, |d.data|)
    requires files != [] ==> Start(current) <= |area| && Contained(|area|, current, Contents(files))
    ensures SectorsOf(Written(area, current, Contents(files)), |d.data|) == Added(d, current, files).data
    decreases |files|
  {
    hide Upward, Addable, CreateWrite, Lookup, BuilderName, Plain, FreeSlot, Inv, Sectors, Built, Fitting, Assigned, Plan;
    hide SectorsOf, Contained, Written, Contents;
    if files == [] {
      AllDone(d, current, area, files);
    } else {
      var content := files[0].content;
      var next, area' := current + SectorCount(|content|), Assigned(area, Start(current), content);
      PlanTail(d, current, files);
      PlanInv(d, current, files);
      BuiltEntry(d, current, files[0].name, content);
      FileSectors(d, current, BuilderName(files[0].name), content, area);
      SameSize(d, current, files);
      WrittenStep(area, current, files);
      AddedSectors(CreateWrite(d, files[0].name, content), next, files[1..], area');
    }
  }

  lemma SameSize(d: Disk, current: nat, files: seq<HostFile>)
    requires Plan(d, current, files) && files != [] && Inv(d)
    ensures |CreateWrite(d, files[0].name, files[0].content).data| == |d.data|
  {
    hide CreateWrite, Built;
    PlanTail(d, current, files);
    BuiltEntry(d, current, files[0].name, files[0].content);
    BuiltZeros(d, current, BuilderName(files[0].name), files[0].content);
  }

  // ---- the last file ------------------------------------------------------------------------------

  /** The clusters of the last file are the last ones handed out. */
  lemma {:induction false} LastChain(d: Disk, current: nat, files: seq<HostFile>) returns (i: nat)
    requires Plan(d, current, files) && files != []
    ensures var all, last := Added(d, current, files), files[|files| - 1];
            && Inv(all) && i < |all.root| && i < |all.chains| && Live(all.root[i]) && all.root[i].name == BuilderName(last.name)
            && SectorCount(|last.content|) <= Sectors(files)
            && all.chains[i] == Rising(current + Sectors(files) - SectorCount(|last.content|), SectorCount(|last.content|))
    decreases |files|
  {
    hide Upward, Addable, CreateWrite, Lookup, Plain, Inv, Rising, BuilderName, Plan;
    PlanTail(d, current, files);
    PlanInv(d, current, files);
    var content, rest := files[0].content, files[1..];
    var d', next := CreateWrite(d, files[0].name, content), current + SectorCount(|content|);
    if rest == [] {
      PlanInv(d', next, rest);
      BuiltEntry(d, current, files[0].name, content);
      i := BuiltSlot(d, current, files[0].name, content);
      assert Sectors(files) == SectorCount(|content|) + Sectors([]);
    } else {
      i := LastChain(d', next, rest);
    }
  }

  lemma BuiltSlot(d: Disk, current: nat, f: CString, content: seq<Byte>) returns (i: nat)
    requires Addable(d, current, f, content) && Fitting(d, current, content)
    ensures var d' := Built(d, current, BuilderName(f), content);
            && i < |d'.root| && i < |d'.chains| && Live(d'.root[i]) && d'.root[i].name == BuilderName(f)
            && d'.chains[i] == Rising(current, SectorCount(|content|))
  {
    i := FreeSlot(d.root, 0);
    NamesAgree(f);
    ParseCanonical(f);
  }

  lemma {:induction false} LastCluster(current: nat, files: seq<HostFile>)
    requires files != []
    ensures var last := |files| - 1;
            ClusterOf(current, Contents(files), last) + SectorCount(|files[last].content|) == current + Sectors(files)
    decreases |files|
  {
    assert Contents(files)[1..] == Contents(files[1..]);
    if |files| > 1 {
      LastCluster(current + SectorCount(|files[0].content|), files[1..]);
    } else {
      assert files[1..] == [];
    }
  }

  // ---- every file, through the bytes ----------------------------------------------------------

  /** What the driver shows under a name, if what it sees is a volume at all. */
  ghost function Shown(d: Disk, n: Name): Option<File> {
    if Inv(d) then Lookup(d, n) else None
  }

  /** The finished image: reserved sectors, then the table copies, the directory, and what the
      tool has written behind it. */
  ghost function ImageOf(boot: seq<Byte>, fats: Copies, root: seq<DirEntry>, area: seq<Byte>): seq<Byte>
    requires AllEncodable(root)
  {
    ImageBytes(boot, fats, root, area)
  }

  /** The volume d, whose sectors are those of area, is to hold the files, and the tables of the
      finished image are fats. */
  ghost predicate Finished(d: Disk, current: nat, files: seq<HostFile>, boot: seq<Byte>, fats: Copies, area: seq<Byte>, reserved: nat) {
    && Plan(d, current, files) && 2 <= current && files != []
    && AllEncodable(d.root) && |d.root| == ROOT_ENTRIES && |d.fat| <= MAX_CELLS
    && 1 <= reserved && |boot| == SECTOR * reserved
    && Cells(fats[..FAT_BYTES], |d.fat|) == Added(d, current, files).fat
    && d.data == SectorsOf(area, |d.data|) && Start(current) <= |area|
  }

  ghost function FinalImage(d: Disk, current: nat, files: seq<HostFile>, boot: seq<Byte>, fats: Copies, area: seq<Byte>, reserved: nat):
      seq<Byte>
    requires Finished(d, current, files, boot, fats, area, reserved)
  {
    AddedEncodable(d, current, files);
    ImageOf(boot, fats, Added(d, current, files).root, Written(area, current, Contents(files)))
  }

  /** Under each name the driver shows the file that the name was given to, whatever the
      memory holds that was not loaded. */
  ghost predicate AllShown(image: seq<Byte>, loaded: nat, reserved: nat, n: nat, chains: seq<seq<nat>>, files: seq<HostFile>) {
    forall ram: Ram, k :: InRam(image, loaded, ram) && Covers(ram, reserved, n) && 0 <= k < |files| ==>
      Shown(Seen(ram, reserved, n, chains), BuilderName(files[k].name)) == Image(files[k])
  }

  /** Only the sectors below the next cluster number matter to what is shown. */
  lemma SameShown(d: Disk, seen: Disk, next: nat, n: Name)
    requires Upward(d, next) && seen == d.(data := seen.data) && |seen.data| == |d.data|
    requires forall p :: 0 <= p < next - 2 ==> seen.data[p] == d.data[p]
    ensures Inv(seen) && Inv(d) && Lookup(seen, n) == Lookup(d, n)
  {
    var i := Find(d.root, n, 0);
    if i < |d.root| {
      SoundIsWellFormed(d.fat, d.chains);
      ChainClusters(d, i);
      var ch := d.chains[i];
      forall k | 0 <= k < |ch|
        ensures d.data[ch[k] - 2] == seen.data[ch[k] - 2]
      {
        assert ch[k] in ch && 2 <= ch[k] < |d.fat| && d.fat[ch[k]] != FREE;
        assert ch[k] < next;
      }
      GatherFrame(d.data, seen.data, ch);
    }
  }

  /** Loading the last cluster needs an image that long, which only contained files give. */
  lemma LoadedContained(d: Disk, current: nat, files: seq<HostFile>, boot: seq<Byte>, fats: Copies, area: seq<Byte>,
                        reserved: nat, loaded: nat)
    requires Finished(d, current, files, boot, fats, area, reserved)
    requires SECTOR * (loaded + 1) <= |FinalImage(d, current, files, boot, fats, area, reserved)|
    requires 2 <= current + Sectors(files) - 1 && ClusterSector(reserved, current + Sectors(files) - 1) <= loaded
    ensures Contained(|area|, current, Contents(files))
  {
    hide Inv, Upward, Plain, Added, Written, Contained, Sectors, ClusterOf, Contents, Plan, AllEncodable, Cells, SectorsOf;
    AddedEncodable(d, current, files);
    PlanInv(d, current, files);
    LongEnough(area, current, Contents(files));
    EndsBefore(current, files);
    ImageLength(d, current, files, boot, fats, area, reserved);
  }

  lemma ImageLength(d: Disk, current: nat, files: seq<HostFile>, boot: seq<Byte>, fats: Copies, area: seq<Byte>, reserved: nat)
    requires Finished(d, current, files, boot, fats, area, reserved)
    ensures |FinalImage(d, current, files, boot, fats, area, reserved)|
            == SECTOR * ClusterSector(reserved, 2) + |Written(area, current, Contents(files))|
  {
    hide Inv, Upward, Plain, Added, Written, Contained, Sectors, Contents, Plan, AllEncodable, Cells, SectorsOf;
    AddedEncodable(d, current, files);
  }

  lemma EndsBefore(current: nat, files: seq<HostFile>)
    requires files != [] && 2 <= current
    ensures var last := |files| - 1;
            Start(ClusterOf(current, Contents(files), last)) + |files[last].content| <= Start(current + Sectors(files))
  {
    LastCluster(current, files);
  }

  lemma LoadedShows(d: Disk, current: nat, files: seq<HostFile>, boot: seq<Byte>, fats: Copies, area: seq<Byte>,
                    reserved: nat, loaded: nat, ram: Ram, k: nat)
    requires Finished(d, current, files, boot, fats, area, reserved) && k < |files|
    requires InRam(FinalImage(d, current, files, boot, fats, area, reserved), loaded, ram) && Covers(ram, reserved, |d.fat|)
    requires 2 <= current + Sectors(files) - 1 && ClusterSector(reserved, current + Sectors(files) - 1) <= loaded
    ensures Shown(Seen(ram, reserved, |d.fat|, Added(d, current, files).chains), BuilderName(files[k].name)) == Image(files[k])
  {
    hide Inv, Upward, Plain, Added, Written, Contained, Lookup, SectorOf, Image, Covers, BuilderName, AllEncodable, Plan, Sectors;
    var all, written := Added(d, current, files), Written(area, current, Contents(files));
    AddedEncodable(d, current, files);
    LoadedContained(d, current, files, boot, fats, area, reserved, loaded);
    AllFound(d, current, files, k);
    PlanSize(d, current, files);
    AddedSectors(d, current, files, area);
    EncodableEach(all.root);
    SeenLaid(reserved, boot, fats, all.root, written, loaded, ram, |d.fat|, all.chains);
    var seen := Seen(ram, reserved, |d.fat|, all.chains);
    forall p | 0 <= p < current + Sectors(files) - 2
      ensures seen.data[p] == all.data[p]
    {
      assert ClusterSector(reserved, p + 2) <= loaded;
      assert SectorsOf(written, |d.data|)[p] == SectorOf(written, p);
    }
    SameShown(all, seen, current + Sectors(files), BuilderName(files[k].name));
  }

  lemma PlanSize(d: Disk, current: nat, files: seq<HostFile>)
    requires Plan(d, current, files)
    ensures |d.data| + 2 == |d.fat| && current + Sectors(files) <= |d.fat|
  {
  }

  lemma EncodableEach(root: seq<DirEntry>)
    requires AllEncodable(root)
    ensures forall e :: e in root ==> Encodable(e)
  {
  }

  // ---- a memory that lacks a cluster ------------------------------------------------------------

  /** The image in memory, except for sector s, which holds something else. */
  function Spoilt(image: seq<Byte>, sectors: nat, s: nat, x: Byte): Ram
    requires 1 <= s && SECTOR <= |image|
  {
    seq(SECTOR * sectors, a requires 0 <= a < SECTOR * sectors =>
      if SECTOR * (s - 1) <= a < SECTOR * s then x else if SECTOR + a < |image| then image[SECTOR + a] else 0)
  }

  lemma SpoiltLoaded(image: seq<Byte>, sectors: nat, s: nat, x: Byte, loaded: nat)
    requires 1 <= s && loaded < s && loaded <= sectors && SECTOR * (loaded + 1) <= |image|
    ensures InRam(image, loaded, Spoilt(image, sectors, s, x))
  {
  }

  lemma SpoiltSector(image: seq<Byte>, sectors: nat, x: Byte, reserved: nat, n: nat, p: nat)
    requires SECTOR <= |image| && 1 <= reserved && 2 <= n <= MAX_CELLS && p < n - 2
    requires reserved - 1 + 2 * FAT_SECTORS + ROOT_SECTORS + n - 2 <= sectors
    ensures var ram := Spoilt(image, sectors, ClusterSector(reserved, p + 2), x);
            Covers(ram, reserved, n) && SeenSector(ram, reserved, n, p) == seq(SECTOR, _ => x)
  {
    var s := ClusterSector(reserved, p + 2);
    var ram := Spoilt(image, sectors, s, x);
    assert forall a :: SECTOR * (s - 1) <= a < SECTOR * s ==> ram[a] == x;
    hide Spoilt;
    var b := SeenSector(ram, reserved, n, p);
    assert forall k :: 0 <= k < SECTOR ==> b[k] == ram[SECTOR * (s - 1) + k];
  }

  /** A file one of whose sectors reads differently is not shown. */
  lemma LastDiffers(seen: Disk, i: nat, file: HostFile, x: Byte)
    requires Inv(seen) && i < |seen.root| && Live(seen.root[i]) && seen.root[i].name == BuilderName(file.name)
    requires file.content != [] && |seen.chains[i]| == SectorCount(|file.content|)
    requires var ch := seen.chains[i]; 2 <= ch[|ch| - 1] < |seen.data| + 2 && seen.data[ch[|ch| - 1] - 2] == seq(SECTOR, _ => x)
    requires var b := Prefix(file.content, SectorCount(|file.content|)); x != b[|b| - 1]
    ensures Lookup(seen, BuilderName(file.name)) != Image(file)
  {
    hide Prefix, Sound, Fits, BuilderName;
    var ch := seen.chains[i];
    FindExact(seen.root, BuilderName(file.name), 0, i);
    ChainClusters(seen, i);
    GatherLast(seen.data, ch);
    hide Gather;
    var g := Gather(seen.data, ch);
    assert g[|g| - 1] == seen.data[ch[|ch| - 1] - 2][SECTOR - 1] == x;
  }

  /** The driver sees the tables and the directory, and x in the last cluster. */
  lemma SpoiltSeen(d: Disk, current: nat, files: seq<HostFile>, boot: seq<Byte>, fats: Copies, area: seq<Byte>,
                   reserved: nat, loaded: nat, sectors: nat, x: Byte)
    requires Finished(d, current, files, boot, fats, area, reserved)
    requires SECTOR * (loaded + 1) <= |FinalImage(d, current, files, boot, fats, area, reserved)|
    requires 2 <= current + Sectors(files) - 1 && loaded < ClusterSector(reserved, current + Sectors(files) - 1)
    requires loaded + reserved + 2 * FAT_SECTORS + ROOT_SECTORS + |d.fat| <= sectors
    ensures var all, image := Added(d, current, files), FinalImage(d, current, files, boot, fats, area, reserved);
            var last := current + Sectors(files) - 1;
            var ram := Spoilt(image, sectors, ClusterSector(reserved, last), x);
            && InRam(image, loaded, ram) && Covers(ram, reserved, |d.fat|)
            && var seen := Seen(ram, reserved, |d.fat|, all.chains);
            && seen == Disk(all.fat, all.root, seen.data, all.chains) && last - 2 < |seen.data|
            && seen.data[last - 2] == seq(SECTOR, _ => x)
  {
    hide Inv, Upward, Plain, Added, Written, Contained, Lookup, SectorOf, AllEncodable, Plan, Sectors, Contents, SectorsOf;
    hide Spoilt, InRam, SeenSector, EntryOf, Cells;
    var all, last := Added(d, current, files), current + Sectors(files) - 1;
    var written, image := Written(area, current, Contents(files)), FinalImage(d, current, files, boot, fats, area, reserved);
    var ram := Spoilt(image, sectors, ClusterSector(reserved, last), x);
    AddedEncodable(d, current, files);
    PlanSize(d, current, files);
    EncodableEach(all.root);
    SpoiltLoaded(image, sectors, ClusterSector(reserved, last), x, loaded);
    SpoiltLoaded(image, sectors, ClusterSector(reserved, last), x, reserved + 2 * FAT_SECTORS + ROOT_SECTORS - 1);
    SpoiltSector(image, sectors, x, reserved, |d.fat|, last - 2);
    SeenLaid(reserved, boot, fats, all.root, written, reserved + 2 * FAT_SECTORS + ROOT_SECTORS - 1, ram, |d.fat|, all.chains);
  }

  lemma NotLoadedHides(d: Disk, current: nat, files: seq<HostFile>, boot: seq<Byte>, fats: Copies, area: seq<Byte>,
                       reserved: nat, loaded: nat) returns (ram: Ram)
    requires Finished(d, current, files, boot, fats, area, reserved)
    requires SECTOR * (loaded + 1) <= |FinalImage(d, current, files, boot, fats, area, reserved)|
    requires 2 <= current + Sectors(files) - 1 && loaded < ClusterSector(reserved, current + Sectors(files) - 1)
    ensures InRam(FinalImage(d, current, files, boot, fats, area, reserved), loaded, ram) && Covers(ram, reserved, |d.fat|)
    ensures Shown(Seen(ram, reserved, |d.fat|, Added(d, current, files).chains), BuilderName(files[|files| - 1].name))
            != Image(files[|files| - 1])
  {
    hide Inv, Upward, Added, Written, Lookup, Image, Covers, BuilderName, AllEncodable, Sectors;
    hide Spoilt, InRam, Rising, Prefix, Seen, FinalImage, Live, SectorCount, Cells, Contents, SectorsOf, Plain, Finished;
    FinishedPlan(d, current, files, boot, fats, area, reserved);
    var all, file := Added(d, current, files), files[|files| - 1];
    var i := LastChain(d, current, files);
    var b := Prefix(file.content, SectorCount(|file.content|));
    var x: Byte := if b[|b| - 1] == 0 then 1 else 0;
    var sectors := loaded + reserved + 2 * FAT_SECTORS + ROOT_SECTORS + |d.fat|;
    SpoiltSeen(d, current, files, boot, fats, area, reserved, loaded, sectors, x);
    ram := Spoilt(FinalImage(d, current, files, boot, fats, area, reserved), sectors,
                  ClusterSector(reserved, current + Sectors(files) - 1), x);
    var seen := Seen(ram, reserved, |d.fat|, all.chains);
    ImageSome(file);
    if Inv(seen) {
      RisingEnd(current + Sectors(files) - SectorCount(|file.content|), SectorCount(|file.content|));
      LastDiffers(seen, i, file, x);
    }
  }

  lemma FinishedPlan(d: Disk, current: nat, files: seq<HostFile>, boot: seq<Byte>, fats: Copies, area: seq<Byte>, reserved: nat)
    requires Finished(d, current, files, boot, fats, area, reserved)
    ensures Plan(d, current, files) && files != [] && files[|files| - 1].content != []
    ensures 0 < SectorCount(|files[|files| - 1].content|)
  {
    PlanInv(d, current, files);
    assert Contents(files)[|files| - 1] != [];
  }

  lemma ImageSome(file: HostFile)
    ensures Image(file).Some?
  {
  }

  lemma RisingEnd(from: nat, n: nat)
    requires n > 0
    ensures Rising(from, n)[n - 1] == from + n - 1
  {
  }

  /** Builder and driver agree on the whole image. With equally many reserved sectors on both
      sides the driver shows every file, byte for byte under its own name, if and only if the
      last cluster of the last file has been loaded; then the image also holds every file where
      it belongs. */
  lemma FoundInImage(d: Disk, current: nat, files: seq<HostFile>, boot: seq<Byte>, fats: Copies, area: seq<Byte>,
                     reserved: nat, loaded: nat)
    requires Finished(d, current, files, boot, fats, area, reserved)
    requires SECTOR * (loaded + 1) <= |FinalImage(d, current, files, boot, fats, area, reserved)|
    ensures var image, last := FinalImage(d, current, files, boot, fats, area, reserved), current + Sectors(files) - 1;
            && 2 <= last
            && (AllShown(image, loaded, reserved, |d.fat|, Added(d, current, files).chains, files)
                <==> ClusterSector(reserved, last) <= loaded)
            && (ClusterSector(reserved, last) <= loaded ==> Contained(|area|, current, Contents(files)))
  {
    hide Inv, Upward, Plain, Added, Written, Contained, Seen, Shown, InRam, Covers, Image, BuilderName, AllEncodable;
    var image, last := FinalImage(d, current, files, boot, fats, area, reserved), current + Sectors(files) - 1;
    AtLeastOne(d, current, files);
    if ClusterSector(reserved, last) <= loaded {
      LoadedContained(d, current, files, boot, fats, area, reserved, loaded);
      forall ram: Ram, k | InRam(image, loaded, ram) && Covers(ram, reserved, |d.fat|) && 0 <= k < |files|
        ensures Shown(Seen(ram, reserved, |d.fat|, Added(d, current, files).chains), BuilderName(files[k].name)) == Image(files[k])
      {
        LoadedShows(d, current, files, boot, fats, area, reserved, loaded, ram, k);
      }
    } else {
      var ram := NotLoadedHides(d, current, files, boot, fats, area, reserved, loaded);
    }
  }

  lemma AtLeastOne(d: Disk, current: nat, files: seq<HostFile>)
    requires Plan(d, current, files) && files != [] && 2 <= current
    ensures 2 <= current + Sectors(files) - 1
  {
    PlanInv(d, current, files);
    assert Contents(files)[0] != [];
  }

  /** The host tool's own count of reserved sectors leaves no room: the boot sector loads 1024
      sectors, and the directory begins at 1042. No memory need show any file. */
  lemma NoneLoaded(d: Disk, current: nat, files: seq<HostFile>, boot: seq<Byte>, fats: Copies, area: seq<Byte>)
    requires Finished(d, current, files, boot, fats, area, BUILDER_RESERVED)
    requires SECTOR * (LOADED_SECTORS + 1) <= |FinalImage(d, current, files, boot, fats, area, BUILDER_RESERVED)|
    ensures !AllShown(FinalImage(d, current, files, boot, fats, area, BUILDER_RESERVED), LOADED_SECTORS, BUILDER_RESERVED,
                      |d.fat|, Added(d, current, files).chains, files)
  {
    hide Finished, AllShown, InRam, Covers, ImageOf, Added, FinalImage, Sectors, Contained;
    FoundInImage(d, current, files, boot, fats, area, BUILDER_RESERVED, LOADED_SECTORS);
  }

  // ---- different counts ---------------------------------------------------------------------------

  /** The addresses of the driver are those of the builder, all of them, if and only if the
      numbers of reserved sectors are equal. */
  lemma AddressesDiffer(built: nat, read: nat)
    requires 1 <= built && 1 <= read
    ensures built == read <==>
            && (forall copy: nat :: Loaded(BuilderFat(built, copy)) == DriverFat(read, copy))
            && (forall i: nat :: Loaded(BuilderRoot(built, i * (SECTOR / ENTRY))) == DriverRoot(read, i))
            && (forall c: nat :: 2 <= c ==> Loaded(BuilderData(built, c)) == DriverData(read, c))
  {
    SameAddresses(built, read, 0, 0, 2);
    forall copy: nat, i: nat, c: nat | 2 <= c
      ensures built == read ==> Loaded(BuilderFat(built, copy)) == DriverFat(read, copy)
      ensures built == read ==> Loaded(BuilderRoot(built, i * (SECTOR / ENTRY))) == DriverRoot(read, i)
      ensures built == read ==> Loaded(BuilderData(built, c)) == DriverData(read, c)
    {
      SameAddresses(built, read, copy, i, c);
    }
  }

  /** What the driver takes for the root directory: 224 entries from sector 218 on, all of them
      in the reserved sectors of the host tool. */
  function KernelEntries(boot: seq<Byte>): (root: seq<DirEntry>)
    requires |boot| == SECTOR * BUILDER_RESERVED
    ensures |root| == ROOT_ENTRIES
  {
    seq(ROOT_ENTRIES, e requires 0 <= e < ROOT_ENTRIES =>
      EntryOf(boot[SECTOR * (DRIVER_RESERVED + 2 * FAT_SECTORS) + ENTRY * e..][..ENTRY]))
  }

  /** With the constants of the two programs, 1024 and 200, and 1024 sectors loaded, the driver
      searches what the kernel left there: it finds no file under any name if and only if no
      entry read there is in use before the first end mark, as when that area begins with a
      zero byte. */
  lemma ShippedMisses(boot: seq<Byte>, fats: Copies, root: seq<DirEntry>, area: seq<Byte>, ram: Ram, n: nat)
    requires |boot| == SECTOR * BUILDER_RESERVED && AllEncodable(root) && |root| == ROOT_ENTRIES
    requires InRam(ImageOf(boot, fats, root, area), LOADED_SECTORS, ram) && Covers(ram, DRIVER_RESERVED, n)
    ensures var seen := SeenRoot(ram, DRIVER_RESERVED, n);
            && seen == KernelEntries(boot)
            && ((forall name: Name :: Find(seen, name, 0) == ROOT_ENTRIES) <==> NoneLive(KernelEntries(boot), 0))
    ensures boot[SECTOR * (DRIVER_RESERVED + 2 * FAT_SECTORS)] == 0 ==> NoneLive(KernelEntries(boot), 0)
  {
    var seen := SeenRoot(ram, DRIVER_RESERVED, n);
    forall e | 0 <= e < ROOT_ENTRIES
      ensures SeenEntry(ram, DRIVER_RESERVED, n, e) == KernelEntries(boot)[e]
    {
      KernelEntry(boot, fats, root, area, ram, n, e);
    }
    assert seen == KernelEntries(boot);
    hide SeenEntry, ImageOf, InRam, KernelEntries, Covers;
    NothingFound(seen, 0);
    if boot[SECTOR * (DRIVER_RESERVED + 2 * FAT_SECTORS)] == 0 { FirstByte(boot); }
  }

  lemma FirstByte(boot: seq<Byte>)
    requires |boot| == SECTOR * BUILDER_RESERVED && boot[SECTOR * (DRIVER_RESERVED + 2 * FAT_SECTORS)] == 0
    ensures NoneLive(KernelEntries(boot), 0)
  {
    var b := boot[SECTOR * (DRIVER_RESERVED + 2 * FAT_SECTORS)..][..ENTRY];
    assert b[0] == 0;
    assert KernelEntries(boot)[0] == EntryOf(b) && EntryOf(b).name[0] == b[..11][0];
  }

  lemma KernelEntry(boot: seq<Byte>, fats: Copies, root: seq<DirEntry>, area: seq<Byte>, ram: Ram, n: nat, e: nat)
    requires |boot| == SECTOR * BUILDER_RESERVED && AllEncodable(root) && |root| == ROOT_ENTRIES && e < ROOT_ENTRIES
    requires InRam(ImageOf(boot, fats, root, area), LOADED_SECTORS, ram) && Covers(ram, DRIVER_RESERVED, n)
    ensures SeenEntry(ram, DRIVER_RESERVED, n, e) == KernelEntries(boot)[e]
  {
    var b := Peek(ram, DriverRoot(DRIVER_RESERVED, e / 16) + e % 16 * ENTRY, ENTRY);
    var t := boot[SECTOR * (DRIVER_RESERVED + 2 * FAT_SECTORS) + ENTRY * e..][..ENTRY];
    ImageBytesAt(BUILDER_RESERVED, boot, fats, root, area);
    hide ImageBytes, EntryOf;
    forall k | 0 <= k < ENTRY
      ensures b[k] == t[k]
    {
      var a := SECTOR * (DRIVER_RESERVED - 1 + 2 * FAT_SECTORS) + ENTRY * e + k;
      assert b[k] == ram[a];
    }
    assert b == t;
  }
}
