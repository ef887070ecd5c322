/** What a caller finds in the bytes after write, append and mkdir, in plain arithmetic. */
module FatContents {
  import opened Bytes
  import opened FatCells
  import opened FatChains
  import opened FatNames
  import opened FatVolume
  import opened FatOps
  import opened FatMeaning

  /** As many sectors as are needed, and no more. */
  lemma SectorsFit(size: nat, room: nat)
    ensures size <= 512 * SectorCount(size) < size + 512
    ensures SectorCount(size) <= room <==> size <= 512 * room
  {
  }

  /** The bytes begin with content, and zeros fill up the last sector. */
  ghost predicate Holds(bytes: seq<Byte>, content: seq<Byte>) {
    && |content| <= |bytes| < |content| + 512 && |bytes| % 512 == 0 && bytes[..|content|] == content
    && forall i :: |content| <= i < |bytes| ==> bytes[i] == 0
  }

  lemma PrefixHolds(content: seq<Byte>, room: nat)
    ensures Holds(Prefix(content, Min(SectorCount(|content|), room)), content[..Min(|content|, 512 * room)])
  {
    var k, m := Min(SectorCount(|content|), room), Min(|content|, 512 * room);
    SectorsFit(|content|, room);
    assert Min(|content|, SECTOR * k) == m;
    assert content[..m] == content[..Min(|content|, 512 * room)];
  }

  /** A write succeeds if and only if the data are no longer than the free clusters and those of
      the file; the file then holds them to the last byte, or as much of their front as fits. */
  lemma WriteStores(d: Disk, f: CString, content: seq<Byte>)
    requires Inv(d) && IsFile(d, f)
    ensures var (d', st) := Write(d, f, content);
            var kept := content[..Min(|content|, 512 * Room(d, f))];
            && Inv(d') && Lookup(d', Parse(f).value).Some?
            && var now := Lookup(d', Parse(f).value).value;
            && st == (if |content| <= 512 * Room(d, f) then Success else DiskFull)
            && now.size == |kept| && Holds(now.bytes, kept) && Visible(now) == kept
  {
    hide Prefix, SectorCount, Write, Room, Lookup, Inv, IsFile;
    WriteMeans(d, f, content);
    PrefixHolds(content, Room(d, f));
    SectorsFit(|content|, Room(d, f));
  }

  /** An append succeeds if and only if the data are no longer than the free clusters. The bytes
      of the file stay, and behind them come the data, or as much of their front as fits. */
  lemma AppendStores(d: Disk, f: CString, content: seq<Byte>)
    requires Inv(d) && IsFile(d, f) && Lookup(d, Parse(f).value).value.bytes != []
    ensures var (d', st) := Append(d, f, content);
            var was := Lookup(d, Parse(f).value).value;
            var n := |was.bytes|;
            && Inv(d') && Lookup(d', Parse(f).value).Some?
            && var now := Lookup(d', Parse(f).value).value;
            && st == (if |content| <= 512 * FreeCount(d) then Success else DiskFull)
            && now.size == (if st == Success then was.size + |content| else was.size)
            && n <= |now.bytes| && now.bytes[..n] == was.bytes
            && Holds(now.bytes[n..], content[..Min(|content|, 512 * FreeCount(d))])
  {
    hide Prefix, SectorCount, Append, FreeCount, Lookup, Inv, Holds;
    AppendMeans(d, f, content);
    PrefixHolds(content, FreeCount(d));
    SectorsFit(|content|, FreeCount(d));
    var was, p := Lookup(d, Parse(f).value).value, Prefix(content, Min(SectorCount(|content|), FreeCount(d)));
    assert (was.bytes + p)[..|was.bytes|] == was.bytes && (was.bytes + p)[|was.bytes|..] == p;
  }

  /** A created file is an archive entry without clusters, under the parsed name, and cannot be
      found if that begins with byte 0xE5. */
  lemma CreateHolds(d: Disk, f: CString)
    requires Inv(d) && Creatable(d, f)
    ensures var d', i := Create(d, f).0, FreeSlot(d.root, 0);
            && Inv(d') && i < |d'.root| && d'.root[i].name == Parse(f).value
            && d'.root[i].attributes == 0x20 && d'.root[i].cluster == 0 && d'.root[i].size == 0
            && Lookup(d', Parse(f).value)
               == if f != [] && f[0] == 0xE5 then None else Some(File(0x20, 0, []))
  {
    CreateMeans(d, f);
    SlotLookup(d, f);
  }

  /** Delete marks the entry of the file with byte 0xE5 and keeps everything else of it. */
  lemma DeleteMarks(d: Disk, f: CString)
    requires Inv(d) && IsFile(d, f)
    ensures var d', i := Delete(d, f).0, Find(d.root, Parse(f).value, 0);
            && i < |d.root| == |d'.root| && d'.root[i].name[0] == 0xE5 && d'.root[i].name[1..] == d.root[i].name[1..]
            && d'.root[i] == d.root[i].(name := d'.root[i].name) && d'.data == d.data
            && forall j :: 0 <= j < |d.root| && j != i ==> d'.root[j] == d.root[j]
  {
    SlotLookup(d, f);
  }

  // ---- the sector of a directory ----------------------------------------------------------------

  /** The blank-filled names of the two fixed entries. */
  ghost predicate Dots(n: Name, dots: nat) {
    forall i :: 0 <= i < 11 ==> n[i] == if i < dots then 46 else 32
  }

  /** Two directory entries, one dot for the directory itself and two for its parent, and zeros. */
  ghost predicate DirHolds(bytes: seq<Byte>, self: nat, parent: nat) {
    && |bytes| == 512
    && (var e := EntryOf(bytes[..32]); Dots(e.name, 1) && e.attributes == 0x10 && e.cluster == self && e.size == 0)
    && (var e := EntryOf(bytes[32..64]); Dots(e.name, 2) && e.attributes == 0x10 && e.cluster == parent && e.size == 0)
    && forall i :: 64 <= i < 512 ==> bytes[i] == 0
  }

  lemma SectorHolds(self: nat, parent: nat)
    requires self < 0x1_0000 && parent < 0x1_0000
    ensures DirHolds(DirSector(self, parent), self, parent)
  {
    hide EntryBytes, EntryOf;
    var here, up := DirEntry(DOT_NAME, ATTR_DIRECTORY, self, 0), DirEntry(DOTDOT_NAME, ATTR_DIRECTORY, parent, 0);
    var b := DirSector(self, parent);
    EntryRoundTrip(here);
    EntryRoundTrip(up);
    assert b[..32] == EntryBytes(here) && b[32..64] == EntryBytes(up);
  }

  /** After mkdir the new name shows one sector, with an entry for the cluster just recorded in
      the root directory, the lowest that was free, and one for the current directory. */
  lemma MakeDirHolds(d: Disk, f: CString, parent: nat)
    requires Inv(d) && Creatable(d, f) && FreeCount(d) > 0 && parent < 0x1_0000 && !Ghostly(f)
    ensures var d' := MakeDir(d, f, parent).0;
            && Inv(d') && Lookup(d', Parse(f).value).Some?
            && var i := Find(d'.root, Parse(f).value, 0);
            && i < |d'.root| && d'.root[i].attributes == 0x10 && d'.root[i].size == 0
            && 2 <= d'.root[i].cluster < |d.fat| && d.fat[d'.root[i].cluster] == FREE
            && (forall c :: 2 <= c < d'.root[i].cluster ==> d.fat[c] != FREE)
            && DirHolds(Lookup(d', Parse(f).value).value.bytes, d'.root[i].cluster, parent)
  {
    hide DirHolds, DirSector, Sound, Gather, FreeFrom;
    MakeDirMeans(d, f, parent);
    var d', i := MakeDir(d, f, parent).0, FreeSlot(d.root, 0);
    SlotLookup(d, f);
    assert d'.root[i].name == Parse(f).value && Live(d'.root[i]) by { ParseCanonical(f); }
    FindExact(d'.root, Parse(f).value, 0, i);
    FreeLeast(d.fat);
    SectorHolds(NewCluster(d), parent);
  }
}
