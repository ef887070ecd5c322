/** The host tool that lays out a fresh image, and its agreement with the driver: adding a
    file to the image is the same volume change as the driver's create followed by write. */
module ImageBuilder {
  import opened Bytes
  import opened FatCells
  import opened FatChains
  import opened FatNames
  import opened FatVolume
  import opened FatOps
  import opened FatTables
  import opened HostBytes
  import FatMeaning
  import FatRuns

  datatype HostFile = HostFile(name: CString, content: seq<Byte>)

  /** Clusters are handed out upwards: everything from current on is free and zero, and
      directory slots are filled from the front. */
  ghost predicate Upward(d: Disk, current: nat) {
    && Inv(d) && 2 <= current <= |d.fat|
    && (forall c :: 2 <= c < |d.fat| ==> (d.fat[c] == FREE <==> current <= c))
    && (forall p :: current - 2 <= p < |d.data| ==> d.data[p] == Zeros(SECTOR))
    && (forall i :: 0 <= i < |d.root| ==> d.root[i].name[0] != DELETED)
  }

  function Rising(from: nat, n: nat): (r: seq<nat>)
    ensures |r| == n
  {
    seq(n, j requires 0 <= j => from + j)
  }

  lemma {:induction false} FreeRising(fat: Fat, current: nat, i: nat)
    requires current <= |fat| && i <= |fat|
    requires forall c :: i <= c < |fat| ==> (fat[c] == FREE <==> current <= c)
    ensures FreeFrom(fat, i) == if i <= current then Rising(current, |fat| - current) else Rising(i, |fat| - i)
    decreases |fat| - i
  {
    if i < |fat| {
      FreeRising(fat, current, i + 1);
      if current <= i {
        assert [i] + Rising(i + 1, |fat| - i - 1) == Rising(i, |fat| - i);
      }
    }
  }

  /** The cells after k rising clusters from cur have been linked behind ch. */
  function Strung(fat: Fat, ch: seq<nat>, cur: nat, k: nat): (r: Fat)
    ensures |r| == |fat|
  {
    seq(|fat|, c requires 0 <= c < |fat| =>
      if k == 0 then fat[c]
      else if cur <= c < cur + k then (if c == cur + k - 1 then LAST else c + 1)
      else if ch != [] && c == ch[|ch| - 1] then cur
      else fat[c])
  }

  lemma {:induction false} GrowStrung(fat: Fat, ch: seq<nat>, cur: nat, k: nat)
    requires GrowsFrom(fat, ch) && cur + k <= |fat|
    requires FreeList(fat) == Rising(cur, |fat| - cur)
    requires ch != [] ==> ch[|ch| - 1] < cur
    ensures Grow(fat, ch, k).0 == Strung(fat, ch, cur, k)
    decreases k
  {
    if k == 0 {
      assert Strung(fat, ch, cur, 0) == fat;
    } else {
      hide Strung, FreeFrom;
      PushTakes(fat, ch);
      var fat1, ch1 := Push(fat, ch, cur), ch + [cur];
      RisingTail(cur, |fat| - cur);
      GrowStrung(fat1, ch1, cur + 1, k - 1);
      StrungStep(fat, ch, cur, k);
    }
  }

  lemma RisingTail(from: nat, n: nat)
    requires n > 0
    ensures Rising(from, n)[0] == from && Rising(from, n)[1..] == Rising(from + 1, n - 1)
    ensures Rising(from, n) == [from] + Rising(from + 1, n - 1)
  {
  }

  lemma StrungStep(fat: Fat, ch: seq<nat>, cur: nat, k: nat)
    requires 0 < k && cur + k <= |fat| && (ch != [] ==> ch[|ch| - 1] < cur)
    ensures Strung(Push(fat, ch, cur), ch + [cur], cur + 1, k - 1) == Strung(fat, ch, cur, k)
  {
    var a, b := Strung(Push(fat, ch, cur), ch + [cur], cur + 1, k - 1), Strung(fat, ch, cur, k);
    forall c | 0 <= c < |fat|
      ensures a[c] == b[c]
    {
    }
  }

  ghost predicate Addable(d: Disk, current: nat, f: CString, content: seq<Byte>) {
    && Upward(d, current) && SingleDot83(f) && (f == [] || f[0] != DELETED)
    && content != [] && current + SectorCount(|content|) <= |d.fat|
    && Lookup(d, BuilderName(f)) == None && FreeSlot(d.root, 0) < |d.root|
  }

  /** The driver's way to the same file. */
  ghost function CreateWrite(d: Disk, f: CString, content: seq<Byte>): Disk
    requires Inv(d)
  {
    FatRuns.StepInv(d, FatRuns.Create(f));
    Write(Create(d, f).0, f, content).0
  }

  /** Where a file can be laid out: a slot and enough clusters, whatever its name and size. */
  ghost predicate Fitting(d: Disk, current: nat, content: seq<Byte>) {
    Upward(d, current) && current + SectorCount(|content|) <= |d.fat| && FreeSlot(d.root, 0) < |d.root|
  }

  lemma RisingFits(d: Disk, current: nat, content: seq<Byte>)
    requires Fitting(d, current, content)
    ensures Clusters(Rising(current, SectorCount(|content|)), d.data)
    ensures SECTOR * SectorCount(|content|) < |content| + SECTOR
  {
  }

  /** What add_file writes: an entry under a given name, ascending cells, the sectors. */
  ghost function Built(d: Disk, current: nat, n: Name, content: seq<Byte>): Disk
    requires Fitting(d, current, content)
  {
    RisingFits(d, current, content);
    var i, k := FreeSlot(d.root, 0), SectorCount(|content|);
    Disk(Strung(d.fat, [], current, k),
         d.root[i := DirEntry(n, ATTR_ARCHIVE, current, |content|)],
         Stored(d.data, Rising(current, k), content),
         d.chains[i := Rising(current, k)])
  }

  /** That is what the driver's create followed by write would produce. */
  lemma BuiltEntry(d: Disk, current: nat, f: CString, content: seq<Byte>)
    requires Addable(d, current, f, content)
    ensures Fitting(d, current, content) && Parse(f) == Some(BuilderName(f))
    ensures CreateWrite(d, f, content) == Built(d, current, BuilderName(f), content)
  {
    hide Inv, FreeFrom, Strung, Stored, Grow, Upward, Lookup, Create, WriteSlot, BuilderName, SingleDot83, Parse;
    UpwardTable(d, current);
    RisingFits(d, current, content);
    var i := FreeSlot(d.root, 0);
    var d1 := Create(d, f).0;
    NewSlot(d, f);
    var k := SectorCount(|content|);
    var cs := Rising(current, k);
    BuiltTable(d.fat, current, k);
    WriteEmptySlot(d1, i, content, Strung(d.fat, [], current, k), cs);
    var e := DirEntry(BuilderName(f), ATTR_ARCHIVE, current, |content|);
    assert cs[0] == current && WrittenEntry(d1.root[i], cs, content) == e;
    assert d1.root[i := e] == d.root[i := e];
  }

  lemma UpwardTable(d: Disk, current: nat)
    requires Upward(d, current)
    ensures Inv(d) && 2 <= current && Sized(d)
    ensures forall c :: 2 <= c < |d.fat| ==> (d.fat[c] == FREE <==> current <= c)
  {
  }

  lemma BuiltTable(fat: Fat, current: nat, k: nat)
    requires 2 <= current && current + k <= |fat|
    requires forall c :: 2 <= c < |fat| ==> (fat[c] == FREE <==> current <= c)
    ensures k <= |FreeList(fat)| && FreeList(fat)[..k] == Rising(current, k)
    ensures Grow(fat, [], k) == (Strung(fat, [], current, k), Rising(current, k))
  {
    FreeRising(fat, current, 2);
    GrowStrung(fat, [], current, k);
    GrowTakes(fat, [], k);
    assert [] + Rising(current, k) == Rising(current, k) == Rising(current, |fat| - current)[..k];
  }

  lemma WriteEmptySlot(d: Disk, i: nat, content: seq<Byte>, fat: Fat, cs: seq<nat>)
    requires |d.data| == |d.fat| - 2 && |d.root| <= |d.chains| && i < |d.root| && d.chains[i] == []
    requires var k := SectorCount(|content|);
             k <= |FreeList(d.fat)| && cs == FreeList(d.fat)[..k] && Grow(d.fat, [], k) == (fat, cs)
    ensures Clusters(cs, d.data) && SECTOR * |cs| < |content| + SECTOR
    ensures WriteSlot(d, i, content).0
            == Disk(fat, d.root[i := WrittenEntry(d.root[i], cs, content)], Stored(d.data, cs, content), d.chains[i := cs])
  {
    assert Cleared(d.fat, []) == d.fat;
    FreshClusters(d.fat, d.data, SectorCount(|content|));
  }

  lemma NewSlot(d: Disk, f: CString)
    requires Inv(d) && SingleDot83(f) && (f == [] || f[0] != DELETED)
    requires Lookup(d, BuilderName(f)) == None && FreeSlot(d.root, 0) < |d.root|
    ensures var i, d1 := FreeSlot(d.root, 0), Create(d, f).0;
            && Parse(f) == Some(BuilderName(f)) && Slot(d1.root, f) == i
            && d1 == d.(root := d.root[i := DirEntry(BuilderName(f), ATTR_ARCHIVE, 0, 0)])
            && d.chains[i] == []
  {
    NamesAgree(f);
    SlotLookup(d, f);
    var i, d1 := FreeSlot(d.root, 0), Create(d, f).0;
    FatMeaning.NewEntryTidy(d, f, d1.root[i]);
    FindExact(d1.root, BuilderName(f), 0, i);
    assert Fits(d.root[i], d.chains[i]);
  }

  /** Adding a file keeps the upward layout. */
  lemma AddedUpward(d: Disk, current: nat, f: CString, content: seq<Byte>)
    requires Addable(d, current, f, content)
    ensures Upward(CreateWrite(d, f, content), current + SectorCount(|content|))
  {
    BuiltEntry(d, current, f, content);
    FatRuns.StepInv(d, FatRuns.Create(f));
    FatRuns.WriteInv(Create(d, f).0, f, content);
    NamesAgree(f);
    ParseCanonical(f);
    StillUpward(d, current, BuilderName(f), content);
  }

  lemma StillUpward(d: Disk, current: nat, n: Name, content: seq<Byte>)
    requires Fitting(d, current, content) && Inv(Built(d, current, n, content)) && n[0] != DELETED
    ensures Upward(Built(d, current, n, content), current + SectorCount(|content|))
  {
    hide Inv, FreeFrom;
    RisingFits(d, current, content);
    var k := SectorCount(|content|);
    var cs := Rising(current, k);
    var d' := Built(d, current, n, content);
    forall p | current + k - 2 <= p < |d'.data|
      ensures d'.data[p] == Zeros(SECTOR)
    {
      assert p + 2 !in cs;
      StoredFrame(d.data, cs, content, p + 2);
    }
  }

  /** The new name shows the file byte for byte, and no other name is affected. */
  lemma AddedFound(d: Disk, current: nat, f: CString, content: seq<Byte>)
    requires Addable(d, current, f, content)
    ensures var d' := CreateWrite(d, f, content);
            Outcome(d, d', BuilderName(f), Some(File(ATTR_ARCHIVE, |content|, Prefix(content, SectorCount(|content|)))))
  {
    NamesAgree(f);
    FatMeaning.CreateMeans(d, f);
    var d1 := Create(d, f).0;
    FreeRising(d.fat, current, 2);
    WriteMeans(d1, f, content);
    assert Room(d1, f) == FreeCount(d);
  }

  /** For any ASCII name, truncated or not, the result is a valid volume if and only if the
      file is not empty and no entry bears the stored name. */
  lemma BuiltUpward(d: Disk, current: nat, f: CString, content: seq<Byte>)
    requires Fitting(d, current, content) && Ascii(f)
    ensures Upward(Built(d, current, BuilderName(f), content), current + SectorCount(|content|))
            <==> content != [] && Lookup(d, BuilderName(f)) == None
  {
    var n := BuilderName(f);
    var g := Dotted(n);
    BuilderNameDotted(f);
    if content != [] && Lookup(d, n) == None {
      AddedUpward(d, current, g, content);
      BuiltEntry(d, current, g, content);
    } else {
      BuiltBroken(d, current, n, content);
    }
  }

  lemma BuiltBroken(d: Disk, current: nat, n: Name, content: seq<Byte>)
    requires Fitting(d, current, content) && n[0] != END_MARK && n[0] != DELETED
    requires content == [] || Lookup(d, n) != None
    ensures !Inv(Built(d, current, n, content))
  {
    var i := FreeSlot(d.root, 0);
    var d' := Built(d, current, n, content);
    if content == [] {
      assert d'.chains[i] == [] && !Fits(d'.root[i], d'.chains[i]);
    } else {
      var k := Find(d.root, n, 0);
      assert Live(d'.root[k]) && Live(d'.root[i]) && k != i && d'.root[k].name == d'.root[i].name;
    }
  }

  // ---- a whole image -----------------------------------------------------------------

  /** A non-empty file under an ASCII name with at most one dot, of 8.3 size. */
  ghost predicate Plain(file: HostFile) {
    SingleDot83(file.name) && file.content != [] && Ascii(file.name)
  }

  /** The files, in order, have distinct plain 8.3 names, contents, and room. */
  ghost predicate Plan(d: Disk, current: nat, files: seq<HostFile>) {
    && Inv(d) && Upward(d, current)
    && (forall k :: 0 <= k < |files| ==> Plain(files[k]))
    && (forall k :: 0 <= k < |files| ==> Lookup(d, BuilderName(files[k].name)) == None)
    && (forall j, k :: 0 <= j < k < |files| ==> BuilderName(files[j].name) != BuilderName(files[k].name))
    && current + Sectors(files) <= |d.fat|
    && FreeSlot(d.root, 0) + |files| <= |d.root|
  }

  function Sectors(files: seq<HostFile>): nat {
    if files == [] then 0 else SectorCount(|files[0].content|) + Sectors(files[1..])
  }

  lemma PlanHead(d: Disk, current: nat, files: seq<HostFile>)
    requires Plan(d, current, files) && files != []
    ensures Addable(d, current, files[0].name, files[0].content)
  {
    var f := files[0].name;
    assert f != [] ==> f[0] in f;
  }

  lemma NextSlot(d: Disk, current: nat, e: DirEntry)
    requires Upward(d, current) && FreeSlot(d.root, 0) < |d.root|
    ensures FreeSlot(d.root[FreeSlot(d.root, 0) := e], 0) <= FreeSlot(d.root, 0) + 1
  {
    var i := FreeSlot(d.root, 0);
    var root' := d.root[i := e];
    assert d.root[i].name[0] == END_MARK;
    assert i + 1 < |root'| ==> !Live(root'[i + 1]);
  }

  lemma PlanTail(d: Disk, current: nat, files: seq<HostFile>)
    requires Plan(d, current, files) && files != []
    ensures Addable(d, current, files[0].name, files[0].content)
    ensures Plan(CreateWrite(d, files[0].name, files[0].content),
                 current + SectorCount(|files[0].content|), files[1..])
  {
    hide CreateWrite, Upward, Plain, Lookup, BuilderName, FreeSlot, Sectors, Addable, Plan, Inv, Image;
    PlanInv(d, current, files);
    PlanHead(d, current, files);
    PlanRoom(d, current, files);
    var f, content := files[0].name, files[0].content;
    AddedFound(d, current, f, content);
    PlanNext(d, CreateWrite(d, f, content), current, current + SectorCount(|content|), files);
  }

  lemma PlanNext(d: Disk, d': Disk, current: nat, next: nat, files: seq<HostFile>)
    requires Plan(d, current, files) && files != [] && next == current + SectorCount(|files[0].content|)
    requires Inv(d') && Upward(d', next) && |d'.fat| == |d.fat|
    requires FreeSlot(d'.root, 0) + |files| <= |d'.root| + 1
    requires SameElsewhere(d, d', BuilderName(files[0].name))
    ensures Plan(d', next, files[1..])
  {
    hide Upward, FreeSlot, Plain, BuilderName, Sectors, Lookup, Inv;
    var rest := files[1..];
    assert forall k :: 0 <= k < |rest| ==> rest[k] == files[k + 1];
    forall k | 0 <= k < |rest|
      ensures Lookup(d', BuilderName(rest[k].name)) == None
    {
      assert BuilderName(files[0].name) != BuilderName(files[k + 1].name);
    }
    SectorsHead(files);
  }

  lemma PlanRoom(d: Disk, current: nat, files: seq<HostFile>)
    requires Plan(d, current, files) && files != []
    requires Addable(d, current, files[0].name, files[0].content)
    ensures var d' := CreateWrite(d, files[0].name, files[0].content);
            && Upward(d', current + SectorCount(|files[0].content|))
            && FreeSlot(d'.root, 0) + |files| <= |d'.root| + 1 && |d'.fat| == |d.fat|
  {
    var f, content := files[0].name, files[0].content;
    AddedUpward(d, current, f, content);
    BuiltEntry(d, current, f, content);
    NextSlot(d, current, DirEntry(BuilderName(f), ATTR_ARCHIVE, current, |content|));
  }

  lemma PlanSlot(d: Disk, current: nat, files: seq<HostFile>)
    requires Plan(d, current, files) && files != []
    ensures FreeSlot(d.root, 0) < |d.root|
  {
  }

  lemma AddFits(d: Disk, current: nat, files: seq<HostFile>)
    requires Plan(d, current, files) && files != []
    ensures Ascii(files[0].name) && current + SectorCount(|files[0].content|) <= |d.fat|
    ensures files[0].content != [] && Lookup(d, BuilderName(files[0].name)) == None
  {
    SectorsHead(files);
  }

  lemma SectorsHead(files: seq<HostFile>)
    requires files != []
    ensures Sectors(files) == SectorCount(|files[0].content|) + Sectors(files[1..])
  {
  }

  ghost function Added(d: Disk, current: nat, files: seq<HostFile>): Disk
    requires Plan(d, current, files)
    decreases |files|
  {
    if files == [] then d
    else
      PlanTail(d, current, files);
      Added(CreateWrite(d, files[0].name, files[0].content), current + SectorCount(|files[0].content|), files[1..])
  }

  /** What a file reads as on the finished image. */
  function Image(file: HostFile): Option<File> {
    Some(File(ATTR_ARCHIVE, |file.content|, Prefix(file.content, SectorCount(|file.content|))))
  }

  /** One file added: the plan for the rest stands, and only the new name changes. */
  lemma PlanStep(d: Disk, current: nat, files: seq<HostFile>, n: Name)
    requires Plan(d, current, files) && files != []
    ensures Addable(d, current, files[0].name, files[0].content)
    ensures var d' := CreateWrite(d, files[0].name, files[0].content);
            && Plan(d', current + SectorCount(|files[0].content|), files[1..])
            && Inv(d)
            && (n == BuilderName(files[0].name) ==> Lookup(d', n) == Image(files[0]))
            && (n != BuilderName(files[0].name) ==> Lookup(d', n) == Lookup(d, n))
  {
    PlanTail(d, current, files);
    AddedFound(d, current, files[0].name, files[0].content);
  }

  lemma {:induction false} OtherName(d: Disk, current: nat, files: seq<HostFile>, n: Name)
    requires Plan(d, current, files) && forall k :: 0 <= k < |files| ==> BuilderName(files[k].name) != n
    ensures Upward(Added(d, current, files), current + Sectors(files))
    ensures Lookup(Added(d, current, files), n) == Lookup(d, n)
    decreases |files|
  {
    hide Upward, Addable, CreateWrite, Lookup, BuilderName, Plain, FreeSlot, Image;
    if files != [] {
      PlanStep(d, current, files, n);
      var d' := CreateWrite(d, files[0].name, files[0].content);
      assert forall k :: 0 <= k < |files[1..]| ==> files[1..][k] == files[k + 1];
      OtherName(d', current + SectorCount(|files[0].content|), files[1..], n);
    }
  }

  /** Builder and driver agree: on the finished image every file is found by the driver's
      search under its own name and reads back byte for byte; other names are untouched. */
  lemma {:induction false} AllFound(d: Disk, current: nat, files: seq<HostFile>, k: nat)
    requires Plan(d, current, files) && k < |files|
    ensures Upward(Added(d, current, files), current + Sectors(files))
    ensures Lookup(Added(d, current, files), BuilderName(files[k].name)) == Image(files[k])
    decreases |files|
  {
    hide Upward, Addable, CreateWrite, Lookup, BuilderName, Plain, FreeSlot, Image;
    var rest, n := files[1..], BuilderName(files[k].name);
    PlanStep(d, current, files, n);
    var d', next := CreateWrite(d, files[0].name, files[0].content), current + SectorCount(|files[0].content|);
    assert forall m :: 0 <= m < |rest| ==> rest[m] == files[m + 1];
    if k == 0 {
      OtherName(d', next, rest, n);
    } else {
      AllFound(d', next, rest, k - 1);
    }
  }

  /** Of the bytes a file occupies on the image the first ones are its contents, and the
      driver looks for it under the name the builder stored. */
  lemma ImageShows(file: HostFile)
    requires SingleDot83(file.name)
    ensures Parse(file.name) == Some(BuilderName(file.name))
    ensures Image(file).value.bytes[..Image(file).value.size] == file.content
  {
    NamesAgree(file.name);
  }

  // ---- the image need not hold the sectors ---------------------------------------------

  /** What the sectors hold does not matter to the layout, as long as the free ones are zero. */
  lemma SameLayout(d: Disk, data: seq<Sector>, current: nat)
    requires |data| == |d.data| && 2 <= current
    requires forall p :: current - 2 <= p < |data| ==> data[p] == Zeros(SECTOR) && d.data[p] == Zeros(SECTOR)
    ensures Upward(d.(data := data), current) <==> Upward(d, current)
    ensures Inv(d.(data := data)) <==> Inv(d)
  {
  }

  lemma SamePlan(d: Disk, data: seq<Sector>, current: nat, files: seq<HostFile>)
    requires Plan(d, current, files) && Upward(d.(data := data), current)
    ensures Plan(d.(data := data), current, files)
  {
    hide Upward, FreeSlot, Plain, BuilderName, Sectors, Inv;
    var d' := d.(data := data);
    UpwardInv(d', current);
    forall k | 0 <= k < |files|
      ensures Lookup(d', BuilderName(files[k].name)) == None
    {
      assert Lookup(d, BuilderName(files[k].name)) == None;
    }
  }

  lemma UpwardInv(d: Disk, current: nat)
    requires Upward(d, current)
    ensures Inv(d) && |d.data| + 2 == |d.fat|
  {
  }

  function Contents(files: seq<HostFile>): (r: seq<seq<Byte>>)
    ensures |r| == |files| && forall k :: 0 <= k < |files| ==> r[k] == files[k].content
  {
    seq(|files|, k requires 0 <= k < |files| => files[k].content)
  }

  // ---- the builder itself ----------------------------------------------------------

  /** area is what follows the root directory in the byte array of the tool. */
  class Builder {
    const table: FatTable
    const root: array<DirEntry>
    var area: seq<Byte>
    var currentCluster: nat
    ghost var chains: seq<seq<nat>>

    ghost predicate Shaped()
      reads this, table.fats
    {
      table.Valid() && |chains| == root.Length
    }

    /** The volume with each sector as the array holds it. */
    ghost function Snap(): Disk
      requires Shaped()
      reads this, table.fats, root
    {
      Disk(table.Cells(), root[..], SectorsOf(area, table.limit - 2), chains)
    }

    ghost predicate Valid()
      reads this, table.fats, root
    {
      Shaped() && 2 <= currentCluster && Upward(Snap(), currentCluster)
    }

    /** The array reaches to where the next file begins. */
    ghost predicate Reaches()
      reads this
    {
      2 <= currentCluster && Start(currentCluster) <= |area|
    }

    /** An empty formatted image: all bytes zero except the two reserved cells. */
    constructor Format(limit: nat, entries: nat, bytes: nat)
      requires 2 <= limit <= MAX_CELLS
      ensures Valid() && Reaches() && table.limit == limit && root.Length == entries && currentCluster == 2
      ensures area == Zeros(bytes) && forall n: Name :: Lookup(Snap(), n) == None
    {
      hide FatCells.Cell, FatCells.Cells, Sound;
      var t := new FatTable.Format(limit, limit);
      table := t;
      var zero := DirEntry(seq(11, _ => 0), 0, 0, 0);
      root := new DirEntry[entries](_ => zero);
      area := Zeros(bytes);
      currentCluster := 2;
      chains := seq(entries, _ => []);
      new;
      EmptySound(table.Cells(), chains);
    }

    /** Returns false where the tool raises an error because the directory is full. The bytes
        end up in their clusters if and only if the array reached to the first of them. */
    method AddFile(file: HostFile) returns (ok: bool)
      requires Valid() && Ascii(file.name)
      requires currentCluster + SectorCount(|file.content|) <= table.limit
      modifies this`currentCluster, this`chains, this`area, table.fats, root
      ensures Shaped() && ok == (FreeSlot(old(root[..]), 0) < root.Length)
      ensures !ok ==> Valid() && Snap() == old(Snap()) && currentCluster == old(currentCluster) && area == old(area)
      ensures ok ==>
                && Fitting(old(Snap()), old(currentCluster), file.content)
                && area == Assigned(old(area), Start(old(currentCluster)), file.content)
                && Snap() == Built(old(Snap()), old(currentCluster), BuilderName(file.name), file.content)
                               .(data := SectorsOf(area, table.limit - 2))
                && currentCluster == old(currentCluster) + SectorCount(|file.content|)
                && (Valid() <==> file.content != [] && Lookup(old(Snap()), BuilderName(file.name)) == None)
      ensures ok && old(Reaches()) ==>
                && Snap() == Built(old(Snap()), old(currentCluster), BuilderName(file.name), file.content)
                && (Reaches() <==> Start(currentCluster) <= |old(area)| || |file.content| % SECTOR == 0)
      ensures ok && file.content != [] ==>
                && (Placed(area, Start(old(currentCluster)), file.content) <==> old(Reaches()))
                && (!old(Reaches()) ==> !Reaches())
    {
      hide Stored, Strung, Inv, Addable, Lookup, CreateWrite, BuilderName, Ascii, Clusters, Rising, FatCells.Cell;
      hide Assigned, SectorOf, Placed;
      ghost var d := Snap();
      var slot := 0;
      while slot < root.Length && root[slot].name[0] != 0
        invariant 0 <= slot <= root.Length && FreeSlot(root[..], slot) == FreeSlot(root[..], 0)
      {
        slot := slot + 1;
      }
      if slot == root.Length {
        return false;
      }
      var size := |file.content|;
      var start := currentCluster;
      RisingFits(d, start, file.content);
      BuiltUpward(d, start, file.name, file.content);
      root[slot] := DirEntry(BuilderName(file.name), ATTR_ARCHIVE, start, size);
      assert root[..] == d.root[slot := root[slot]];
      var needed := (size + SECTOR - 1) / SECTOR;
      ghost var before := area;
      LayOut(start, needed, file.content);
      chains := chains[slot := Rising(start, needed)];
      currentCluster := currentCluster + needed;
      ok := true;
      BuiltZeros(d, start, BuilderName(file.name), file.content);
      SameLayout(Built(d, start, BuilderName(file.name), file.content), SectorsOf(area, table.limit - 2), currentCluster);
      if file.content == [] { NothingAssigned(before, Start(start)); }
      if file.content != [] {
        LengthAfter(before, start, file.content);
        PlacedExact(before, Start(start), file.content);
      }
    }

    /** All files, one after the other. The volume is the planned one if each file but the
        last ends within the array as it was, or fills its last sector. */
    method AddAll(files: seq<HostFile>)
      requires Valid() && Plan(Snap(), currentCluster, files)
      modifies this`currentCluster, this`chains, this`area, table.fats, root
      ensures Valid() && area == Written(old(area), old(currentCluster), Contents(files))
      ensures old(Reaches()) && Contained(|old(area)|, old(currentCluster), Contents(files)) ==>
                Snap() == Added(old(Snap()), old(currentCluster), files)
    {
      hide Upward, Addable, CreateWrite, Lookup, BuilderName, Plain, FreeSlot, Inv, Sectors, Built, Fitting, Ascii, SectorCount;
      hide FatCells.Cells, Plan, Assigned, SectorsOf, Contained, Written, Added, Contents, Start, Placed;
      ghost var d0, current0, area0 := Snap(), currentCluster, area;
      ghost var fine := Reaches() && Contained(|area|, currentCluster, Contents(files));
      var i := 0;
      assert files[0..] == files;
      while i < |files|
        invariant 0 <= i <= |files| && Valid() && Plan(Snap(), currentCluster, files[i..])
        invariant Written(area, currentCluster, Contents(files[i..])) == Written(area0, current0, Contents(files))
        invariant fine && i < |files| ==> Reaches() && Contained(|area|, currentCluster, Contents(files[i..]))
        invariant fine ==> Added(Snap(), currentCluster, files[i..]) == Added(d0, current0, files)
      {
        ghost var d, current, rest, was := Snap(), currentCluster, files[i..], area;
        assert rest[0] == files[i] && rest[1..] == files[i + 1..];
        PlanSlot(d, current, rest);
        AddFits(d, current, rest);
        PlanInv(d, current, rest);
        var ok := AddFile(files[i]);
        PlanTail(d, current, rest);
        BuiltEntry(d, current, rest[0].name, rest[0].content);
        ghost var built := CreateWrite(d, rest[0].name, rest[0].content);
        AddedTail(d, built, current, currentCluster, rest);
        SamePlan(built, Snap().data, currentCluster, rest[1..]);
        WrittenStep(was, current, rest);
        i := i + 1;
      }
      AllDone(Snap(), currentCluster, area, files[i..]);
    }

    /** Write the cells and the chunks of one file, front to back. */
    method LayOut(start: nat, needed: nat, content: seq<Byte>)
      requires Shaped() && 2 <= start && start + needed <= table.limit && needed == SectorCount(|content|)
      requires forall p :: start - 2 <= p < table.limit - 2 ==> Snap().data[p] == Zeros(SECTOR)
      modifies this`area, table.fats
      ensures Shaped() && Clusters(Rising(start, needed), old(Snap()).data) && SECTOR * needed < |content| + SECTOR
      ensures table.Cells() == Strung(old(table.Cells()), [], start, needed)
      ensures area == Assigned(old(area), Start(start), content)
      ensures Start(start) <= |old(area)| ==>
                SectorsOf(area, table.limit - 2) == Stored(old(Snap()).data, Rising(start, needed), content)
      ensures ZeroFrom(area, table.limit - 2, start + needed - 2)
    {
      hide Stored, SectorAt, Laid, Strung, Rising, Clusters, SectorCount, FatCells.Cell, Assigned, SectorOf, ChunkOf, SectorsOf;
      hide LaidOut;
      ghost var fat, before, sectors := table.Cells(), area, Snap().data;
      LaidStart(fat, start, needed);
      LaidOutStart(before, sectors, start, needed, content);
      var i := 0;
      while i < needed
        invariant Shaped() && 0 <= i <= needed
        invariant table.Cells() == Laid(fat, start, needed, i)
        invariant LaidOut(before, area, sectors, start, content, i)
      {
        var cluster := start + i;
        var next := if i == needed - 1 then LAST else cluster + 1;
        LaidStep(fat, start, needed, i);
        LaidOutStep(before, area, sectors, start, needed, content, i);
        table.SetWord(cluster, next);
        area := Assigned(area, SECTOR * (cluster - 2), ChunkOf(content, i));
        i := i + 1;
      }
      LaidOutDone(before, area, sectors, start, needed, content);
    }
  }

  /** After i chunks: the array, the sectors it holds if it reached to the first of them, and
      zeros behind. */
  ghost predicate LaidOut(before: seq<Byte>, area: seq<Byte>, sectors: seq<Sector>, start: nat, content: seq<Byte>, i: nat) {
    && 2 <= start && Clusters(Rising(start, i), sectors) && SECTOR * i < |content| + SECTOR
    && area == Assigned(before, Start(start), content[..Min(|content|, SECTOR * i)])
    && (Start(start) <= |before| ==> SectorsOf(area, |sectors|) == Stored(sectors, Rising(start, i), content))
    && ZeroFrom(area, |sectors|, start + i - 2)
  }

  lemma LaidOutStart(area: seq<Byte>, sectors: seq<Sector>, start: nat, needed: nat, content: seq<Byte>)
    requires 2 <= start && start + needed <= |sectors| + 2 && needed == SectorCount(|content|)
    requires sectors == SectorsOf(area, |sectors|)
    requires forall p :: start - 2 <= p < |sectors| ==> sectors[p] == Zeros(SECTOR)
    ensures LaidOut(area, area, sectors, start, content, 0)
  {
    assert content[..0] == [] && Rising(start, 0) == [];
    NothingAssigned(area, Start(start));
    forall p | start - 2 <= p < |sectors|
      ensures SectorOf(area, p) == Zeros(SECTOR)
    {
      assert sectors[p] == SectorsOf(area, |sectors|)[p];
    }
  }

  lemma LaidOutStep(before: seq<Byte>, area: seq<Byte>, sectors: seq<Sector>, start: nat, needed: nat, content: seq<Byte>, i: nat)
    requires LaidOut(before, area, sectors, start, content, i)
    requires start + needed <= |sectors| + 2 && needed == SectorCount(|content|) && i < needed
    ensures SECTOR * i < |content| && 2 <= start
    ensures LaidOut(before, Assigned(area, SECTOR * (start + i - 2), ChunkOf(content, i)), sectors, start, content, i + 1)
  {
    hide Assigned, SectorOf, ChunkOf, SectorsOf, Stored, SectorAt;
    assert Rising(start, i + 1)[..i] == Rising(start, i) && Rising(start, i + 1)[i] == start + i;
    ChunkStep(before, Start(start), content, i);
    ChunkStays(area, |sectors|, start + i, content, i);
    AssignedReaches(before, Start(start), content, i);
    StoredStep(sectors, start, content, i);
  }

  lemma StoredStep(sectors: seq<Sector>, start: nat, content: seq<Byte>, i: nat)
    requires 2 <= start && start + i < |sectors| + 2 && SECTOR * i < |content|
    ensures Clusters(Rising(start, i), sectors) && Clusters(Rising(start, i + 1), sectors)
    ensures Stored(sectors, Rising(start, i + 1), content)
            == Stored(sectors, Rising(start, i), content)[start + i - 2 := SectorAt(content, i)]
  {
    assert Rising(start, i + 1)[..i] == Rising(start, i);
  }

  lemma AssignedReaches(area: seq<Byte>, o: nat, content: seq<Byte>, i: nat)
    requires SECTOR * i < |content|
    ensures o <= |area| ==> o + SECTOR * i <= |Assigned(area, o, content[..SECTOR * i])|
  {
  }

  lemma LaidOutDone(before: seq<Byte>, area: seq<Byte>, sectors: seq<Sector>, start: nat, needed: nat, content: seq<Byte>)
    requires LaidOut(before, area, sectors, start, content, needed) && needed == SectorCount(|content|)
    ensures 2 <= start && Clusters(Rising(start, needed), sectors) && SECTOR * needed < |content| + SECTOR
    ensures area == Assigned(before, Start(start), content)
    ensures Start(start) <= |before| ==> SectorsOf(area, |sectors|) == Stored(sectors, Rising(start, needed), content)
    ensures ZeroFrom(area, |sectors|, start + needed - 2)
  {
    assert content[..|content|] == content;
  }

  lemma NothingAssigned(area: seq<Byte>, o: nat)
    ensures Assigned(area, o, []) == area
  {
  }

  /** Wherever a chunk ends up, it leaves the sectors behind its own alone. */
  lemma ChunkStays(area: seq<Byte>, n: nat, cluster: nat, content: seq<Byte>, i: nat)
    requires 2 <= cluster < n + 2 && SECTOR * i < |content|
    requires ZeroFrom(area, n, cluster - 2)
    ensures var next := Assigned(area, Start(cluster), ChunkOf(content, i));
            && ZeroFrom(next, n, cluster - 1)
            && (Start(cluster) <= |area| ==> SectorsOf(next, n) == SectorsOf(area, n)[cluster - 2 := SectorAt(content, i)])
  {
    var chunk := ChunkOf(content, i);
    forall p | cluster - 1 <= p < n
      ensures SectorOf(Assigned(area, Start(cluster), chunk), p) == Zeros(SECTOR)
    {
      assert |chunk| <= SECTOR;
      BehindChunk(area, Start(cluster), chunk, p);
    }
    if Start(cluster) <= |area| { ChunkFills(area, n, cluster - 2, content, i); }
  }

  /** What one step of the loop over all files leaves to be done. */
  lemma AddedTail(d: Disk, d': Disk, current: nat, next: nat, files: seq<HostFile>)
    requires Inv(d) && files != [] && d' == CreateWrite(d, files[0].name, files[0].content)
    requires next == current + SectorCount(|files[0].content|) && Plan(d, current, files)
    ensures Plan(d', next, files[1..])
    ensures Added(d', next, files[1..]) == Added(d, current, files)
  {
    hide Upward, Addable, CreateWrite, Lookup, BuilderName, Plain, FreeSlot, Sectors;
    PlanTail(d, current, files);
  }

  lemma PlanInv(d: Disk, current: nat, files: seq<HostFile>)
    requires Plan(d, current, files)
    ensures Inv(d) && forall k :: 0 <= k < |files| ==> Contents(files)[k] != []
  {
    forall k | 0 <= k < |files|
      ensures Contents(files)[k] != []
    {
      assert Plain(files[k]);
    }
  }

  lemma WrittenStep(area: seq<Byte>, current: nat, files: seq<HostFile>)
    requires 2 <= current && files != [] && forall k :: 0 <= k < |files| ==> Contents(files)[k] != []
    ensures var next, area' := current + SectorCount(|files[0].content|), Assigned(area, Start(current), files[0].content);
            && Written(area', next, Contents(files[1..])) == Written(area, current, Contents(files))
            && (Start(current) <= |area| && Contained(|area|, current, Contents(files)) && |files| > 1 ==>
                  Start(next) <= |area'| && Contained(|area'|, next, Contents(files[1..])))
  {
    hide Assigned;
    var all := Contents(files);
    assert all[1..] == Contents(files[1..]) && all[0] == files[0].content;
    hide Contents;
    if Start(current) <= |area| && Contained(|area|, current, all) { ContainedStep(area, current, all); }
  }

  lemma AllDone(d: Disk, current: nat, area: seq<Byte>, files: seq<HostFile>)
    requires 2 <= current && files == [] && Plan(d, current, files)
    ensures Written(area, current, Contents(files)) == area && Added(d, current, files) == d
  {
  }

  /** The sectors from the next cluster number on stay zero. */
  lemma BuiltZeros(d: Disk, current: nat, n: Name, content: seq<Byte>)
    requires Fitting(d, current, content)
    ensures var next := Built(d, current, n, content);
            |next.data| == |d.data| && forall p :: current + SectorCount(|content|) - 2 <= p < |d.data| ==> next.data[p] == Zeros(SECTOR)
  {
    RisingFits(d, current, content);
    var cs := Rising(current, SectorCount(|content|));
    forall p | current + |cs| - 2 <= p < |d.data|
      ensures Built(d, current, n, content).data[p] == Zeros(SECTOR)
    {
      assert p + 2 !in cs;
      StoredFrame(d.data, cs, content, p + 2);
    }
  }

  /** The cells after i of needed clusters from start have been written by the builder,
      each naming its successor before that one is in use. */
  function Laid(fat: Fat, start: nat, needed: nat, i: nat): (r: Fat)
    ensures |r| == |fat|
  {
    seq(|fat|, c requires 0 <= c < |fat| =>
      if start <= c < start + i then (if c == start + needed - 1 then LAST else c + 1) else fat[c])
  }

  lemma LaidStart(fat: Fat, start: nat, needed: nat)
    requires 2 <= start && start + needed <= |fat|
    ensures Laid(fat, start, needed, 0) == fat
    ensures Laid(fat, start, needed, needed) == Strung(fat, [], start, needed)
  {
  }

  lemma LaidStep(fat: Fat, start: nat, needed: nat, i: nat)
    requires 2 <= start && start + needed <= |fat| && i < needed
    ensures Laid(fat, start, needed, i)[start + i := if i == needed - 1 then LAST else start + i + 1]
            == Laid(fat, start, needed, i + 1)
  {
  }

  lemma EmptySound(fat: Fat, chains: seq<seq<nat>>)
    requires forall i :: 0 <= i < |chains| ==> chains[i] == []
    requires forall c :: 2 <= c < |fat| ==> fat[c] == FREE
    ensures Sound(fat, chains)
  {
  }

}
