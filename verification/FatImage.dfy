/** The volume as bytes of one disk image: where the host tool puts the table copies, the
    root directory and the clusters, and where the driver looks for them once the boot sector
    has loaded a number of sectors into memory. Each side has its own count of reserved
    sectors. */
module FatImage {
  import opened Bytes
  import opened FatCells
  import opened FatNames
  import opened FatScan
  import opened FatVolume
  import opened HostBytes

  const RAMDISK_START: nat := 0x1_0000
  const BOOT_SECTOR: nat := 0x7C00
  const FAT_SECTORS: nat := 9
  const ROOT_ENTRIES: nat := 224
  const ROOT_SECTORS: nat := 14

  /** The constants of the driver and of the host tool. */
  const DRIVER_RESERVED: nat := 200
  const BUILDER_RESERVED: nat := 1024

  /** The sectors that the boot sector loads, from the one behind it on. */
  const LOADED_SECTORS: nat := 1024

  // ---- addresses ------------------------------------------------------------------------

  /** Where the driver finds a sector: the boot sector apart, the image from sector 1 on. */
  function SectorPtr(lba: nat): nat {
    if lba == 0 then BOOT_SECTOR else RAMDISK_START + (lba - 1) * SECTOR
  }

  function DriverFat(reserved: nat, copy: nat): nat {
    SectorPtr(reserved + copy * FAT_SECTORS)
  }

  function DriverRoot(reserved: nat, i: nat): nat {
    SectorPtr(reserved + 2 * FAT_SECTORS + i)
  }

  function DriverData(reserved: nat, c: nat): nat
    requires 2 <= c
  {
    SectorPtr(reserved + 2 * FAT_SECTORS + ROOT_SECTORS + (c - 2))
  }

  /** Byte offsets of the host tool in the image. */
  function BuilderFat(reserved: nat, copy: nat): nat {
    reserved * SECTOR + copy * FAT_BYTES
  }

  function BuilderRoot(reserved: nat, e: nat): nat {
    reserved * SECTOR + 2 * FAT_BYTES + e * ENTRY
  }

  function BuilderData(reserved: nat, c: nat): nat
    requires 2 <= c
  {
    reserved * SECTOR + 2 * FAT_BYTES + ROOT_ENTRIES * ENTRY + (c - 2) * SECTOR
  }

  /** The address of an image byte behind the boot sector after loading. */
  function Loaded(offset: nat): nat
    requires SECTOR <= offset
  {
    RAMDISK_START + offset - SECTOR
  }

  /** Builder and driver mean the same bytes, for each table copy, each sector of the root
      directory and each cluster, if and only if they reserve equally many sectors. */
  lemma SameAddresses(built: nat, read: nat, copy: nat, i: nat, c: nat)
    requires 1 <= built && 1 <= read && 2 <= c
    ensures Loaded(BuilderFat(built, copy)) == DriverFat(read, copy) <==> built == read
    ensures Loaded(BuilderRoot(built, i * (SECTOR / ENTRY))) == DriverRoot(read, i) <==> built == read
    ensures Loaded(BuilderData(built, c)) == DriverData(read, c) <==> built == read
  {
  }

  // ---- the image --------------------------------------------------------------------------

  function RootBytes(root: seq<DirEntry>): (b: seq<Byte>)
    requires forall e :: e in root ==> Encodable(e)
    ensures |b| == ENTRY * |root|
  {
    seq(ENTRY * |root|, k requires 0 <= k < ENTRY * |root| => EntryBytes(root[k / ENTRY])[k % ENTRY])
  }

  /** Reserved sectors, table copies, root directory and what follows it. */
  function ImageBytes(boot: seq<Byte>, fats: Copies, root: seq<DirEntry>, area: seq<Byte>): (image: seq<Byte>)
    requires forall e :: e in root ==> Encodable(e)
    ensures |image| == |boot| + 2 * FAT_BYTES + ENTRY * |root| + |area|
  {
    boot + fats + RootBytes(root) + area
  }

  /** That puts every part at the offset that the host tool computes. */
  lemma ImageBytesAt(reserved: nat, boot: seq<Byte>, fats: Copies, root: seq<DirEntry>, area: seq<Byte>)
    requires |boot| == SECTOR * reserved && |root| == ROOT_ENTRIES && forall e :: e in root ==> Encodable(e)
    ensures var image := ImageBytes(boot, fats, root, area);
            && (forall k :: 0 <= k < |boot| ==> image[k] == boot[k])
            && (forall k :: 0 <= k < 2 * FAT_BYTES ==> image[BuilderFat(reserved, 0) + k] == fats[k])
            && (forall k :: 0 <= k < ENTRY * |root| ==>
                  image[BuilderRoot(reserved, 0) + k] == EntryBytes(root[k / ENTRY])[k % ENTRY])
            && (forall k :: 0 <= k < |area| ==> image[BuilderData(reserved, 2) + k] == area[k])
  {
  }

  // ---- memory ---------------------------------------------------------------------------------

  /** The memory from the address on to which the image is loaded. */
  type Ram = seq<Byte>

  /** The sectors 1 to loaded of the image have been read; what lies behind is arbitrary. */
  ghost predicate InRam(image: seq<Byte>, loaded: nat, ram: Ram) {
    && SECTOR * (loaded + 1) <= |image| && SECTOR * loaded <= |ram|
    && forall a :: 0 <= a < SECTOR * loaded ==> ram[a] == image[SECTOR + a]
  }

  function Peek(ram: Ram, a: nat, n: nat): (b: seq<Byte>)
    requires RAMDISK_START <= a && a + n <= RAMDISK_START + |ram|
    ensures |b| == n
  {
    ram[a - RAMDISK_START..][..n]
  }

  /** The driver reads sector s of the image, whatever it and the rest of the memory hold, if
      and only if s has been loaded. */
  lemma SectorSeen(loaded: nat, total: nat, s: nat)
    requires 1 <= s < total && loaded < total
    ensures (forall image: seq<Byte>, ram: Ram :: |image| == SECTOR * total && SECTOR * s <= |ram| && InRam(image, loaded, ram) ==>
               Peek(ram, SectorPtr(s), SECTOR) == image[SECTOR * s..SECTOR * (s + 1)])
            <==> s <= loaded
  {
    if s <= loaded {
      forall image: seq<Byte>, ram: Ram | |image| == SECTOR * total && SECTOR * s <= |ram| && InRam(image, loaded, ram)
        ensures Peek(ram, SectorPtr(s), SECTOR) == image[SECTOR * s..SECTOR * (s + 1)]
      {
        PeekSector(image, loaded, ram, s);
      }
    } else {
      var image, ram := Zeros(SECTOR * total), Zeros(SECTOR * loaded) + seq(SECTOR * (s - loaded), _ => 1);
      assert InRam(image, loaded, ram);
      assert Peek(ram, SectorPtr(s), SECTOR)[0] == 1;
    }
  }

  lemma PeekSector(image: seq<Byte>, loaded: nat, ram: Ram, s: nat)
    requires InRam(image, loaded, ram) && 1 <= s <= loaded
    ensures Peek(ram, SectorPtr(s), SECTOR) == image[SECTOR * s..SECTOR * (s + 1)]
  {
    var b := Peek(ram, SectorPtr(s), SECTOR);
    forall k | 0 <= k < SECTOR
      ensures b[k] == image[SECTOR * s..SECTOR * (s + 1)][k]
    {
      assert b[k] == ram[SECTOR * (s - 1) + k];
    }
  }

  // ---- the driver's view --------------------------------------------------------------------

  /** The memory reaches to the end of a volume with n cells where the driver expects it. */
  predicate Covers(ram: Ram, reserved: nat, n: nat) {
    && 1 <= reserved && 2 <= n <= MAX_CELLS
    && SECTOR * (reserved - 1 + 2 * FAT_SECTORS + ROOT_SECTORS + n - 2) <= |ram|
  }

  function SeenFats(ram: Ram, reserved: nat, n: nat): Copies
    requires Covers(ram, reserved, n)
  {
    Peek(ram, DriverFat(reserved, 0), 2 * FAT_BYTES)
  }

  /** Entry e lies in sector e / 16 of the root directory. */
  function SeenEntry(ram: Ram, reserved: nat, n: nat, e: nat): DirEntry
    requires Covers(ram, reserved, n) && e < ROOT_ENTRIES
  {
    EntryOf(Peek(ram, DriverRoot(reserved, e / 16) + e % 16 * ENTRY, ENTRY))
  }

  function SeenRoot(ram: Ram, reserved: nat, n: nat): (root: seq<DirEntry>)
    requires Covers(ram, reserved, n)
    ensures |root| == ROOT_ENTRIES
  {
    seq(ROOT_ENTRIES, e requires 0 <= e < ROOT_ENTRIES => SeenEntry(ram, reserved, n, e))
  }

  function SeenSector(ram: Ram, reserved: nat, n: nat, p: nat): Sector
    requires Covers(ram, reserved, n) && p < n - 2
  {
    Peek(ram, DriverData(reserved, p + 2), SECTOR)
  }

  function SeenData(ram: Ram, reserved: nat, n: nat): (data: seq<Sector>)
    requires Covers(ram, reserved, n)
    ensures |data| == n - 2
  {
    seq(n - 2, p requires 0 <= p < n - 2 => SeenSector(ram, reserved, n, p))
  }

  /** The volume that the driver works on, given which clusters belong to which entry. */
  function Seen(ram: Ram, reserved: nat, n: nat, chains: seq<seq<nat>>): Disk
    requires Covers(ram, reserved, n)
  {
    Disk(Cells(SeenFats(ram, reserved, n)[..FAT_BYTES], n), SeenRoot(ram, reserved, n), SeenData(ram, reserved, n), chains)
  }

  /** The sector of the image in which the driver looks for cluster c. */
  function ClusterSector(reserved: nat, c: nat): nat
    requires 2 <= c
  {
    reserved + 2 * FAT_SECTORS + ROOT_SECTORS + c - 2
  }

  lemma SeenFatsLaid(reserved: nat, boot: seq<Byte>, fats: Copies, root: seq<DirEntry>, area: seq<Byte>, loaded: nat, ram: Ram, n: nat)
    requires |boot| == SECTOR * reserved && |root| == ROOT_ENTRIES && forall e :: e in root ==> Encodable(e)
    requires InRam(ImageBytes(boot, fats, root, area), loaded, ram) && Covers(ram, reserved, n)
    requires reserved + 2 * FAT_SECTORS <= loaded + 1
    ensures SeenFats(ram, reserved, n) == fats
  {
    hide ImageBytes;
    var b := SeenFats(ram, reserved, n);
    forall k | 0 <= k < 2 * FAT_BYTES
      ensures b[k] == fats[k]
    {
      FatByte(reserved, boot, fats, root, area, k);
      assert b[k] == ram[SECTOR * (reserved - 1) + k];
    }
  }

  lemma FatByte(reserved: nat, boot: seq<Byte>, fats: Copies, root: seq<DirEntry>, area: seq<Byte>, k: nat)
    requires 1 <= reserved && |boot| == SECTOR * reserved && |root| == ROOT_ENTRIES && forall e :: e in root ==> Encodable(e)
    requires k < 2 * FAT_BYTES
    ensures ImageBytes(boot, fats, root, area)[SECTOR * reserved + k] == fats[k]
  {
    ImageBytesAt(reserved, boot, fats, root, area);
    hide ImageBytes;
    assert ImageBytes(boot, fats, root, area)[BuilderFat(reserved, 0) + k] == fats[k];
  }

  lemma SeenEntryLaid(reserved: nat, boot: seq<Byte>, fats: Copies, root: seq<DirEntry>, area: seq<Byte>, loaded: nat, ram: Ram,
                      n: nat, e: nat)
    requires |boot| == SECTOR * reserved && |root| == ROOT_ENTRIES && forall e :: e in root ==> Encodable(e)
    requires InRam(ImageBytes(boot, fats, root, area), loaded, ram) && Covers(ram, reserved, n)
    requires e < ROOT_ENTRIES && reserved + 2 * FAT_SECTORS + e / 16 <= loaded
    ensures SeenEntry(ram, reserved, n, e) == root[e]
  {
    hide ImageBytes, EntryBytes, EntryOf;
    EntryRoundTrip(root[e]);
    var b := Peek(ram, DriverRoot(reserved, e / 16) + e % 16 * ENTRY, ENTRY);
    forall k | 0 <= k < ENTRY
      ensures b[k] == EntryBytes(root[e])[k]
    {
      EntryByte(reserved, boot, fats, root, area, e, k);
      assert b[k] == ram[SECTOR * (reserved - 1 + 2 * FAT_SECTORS) + (ENTRY * e + k)] by { EntryAddress(reserved, e); }
    }
    assert b == EntryBytes(root[e]);
  }

  lemma EntryAddress(reserved: nat, e: nat)
    requires 1 <= reserved
    ensures DriverRoot(reserved, e / 16) + e % 16 * ENTRY == RAMDISK_START + SECTOR * (reserved - 1 + 2 * FAT_SECTORS) + ENTRY * e
  {
    assert SECTOR * (e / 16) + e % 16 * ENTRY == ENTRY * e;
  }

  lemma EntryByte(reserved: nat, boot: seq<Byte>, fats: Copies, root: seq<DirEntry>, area: seq<Byte>, e: nat, k: nat)
    requires 1 <= reserved && |boot| == SECTOR * reserved && |root| == ROOT_ENTRIES && forall e :: e in root ==> Encodable(e)
    requires e < ROOT_ENTRIES && k < ENTRY
    ensures ImageBytes(boot, fats, root, area)[SECTOR * (reserved + 2 * FAT_SECTORS) + (ENTRY * e + k)] == EntryBytes(root[e])[k]
  {
    ImageBytesAt(reserved, boot, fats, root, area);
    hide ImageBytes, EntryBytes;
    var image, m := ImageBytes(boot, fats, root, area), e * ENTRY + k;
    assert m / ENTRY == e && m % ENTRY == k;
    assert image[BuilderRoot(reserved, 0) + m] == EntryBytes(root[m / ENTRY])[m % ENTRY];
  }

  lemma SeenSectorLaid(reserved: nat, boot: seq<Byte>, fats: Copies, root: seq<DirEntry>, area: seq<Byte>, loaded: nat, ram: Ram,
                       n: nat, p: nat)
    requires |boot| == SECTOR * reserved && |root| == ROOT_ENTRIES && forall e :: e in root ==> Encodable(e)
    requires InRam(ImageBytes(boot, fats, root, area), loaded, ram) && Covers(ram, reserved, n)
    requires p < n - 2 && ClusterSector(reserved, p + 2) <= loaded
    ensures SeenSector(ram, reserved, n, p) == SectorOf(area, p)
  {
    var image := ImageBytes(boot, fats, root, area);
    ImageBytesAt(reserved, boot, fats, root, area);
    hide ImageBytes;
    var b, t := SeenSector(ram, reserved, n, p), SectorOf(area, p);
    forall k | 0 <= k < SECTOR
      ensures b[k] == t[k]
    {
      var a := SECTOR * (ClusterSector(reserved, p + 2) - 1) + k;
      assert b[k] == ram[a] == image[SECTOR + a];
      assert SECTOR + a == BuilderData(reserved, 2) + (SECTOR * p + k);
      SectorByte(area, p, k);
    }
  }

  /** With the same number of reserved sectors the driver sees the tables and the directory
      that were laid out, once they are loaded, and each sector that is. */
  lemma SeenLaid(reserved: nat, boot: seq<Byte>, fats: Copies, root: seq<DirEntry>, area: seq<Byte>, loaded: nat, ram: Ram,
                 n: nat, chains: seq<seq<nat>>)
    requires |boot| == SECTOR * reserved && |root| == ROOT_ENTRIES && forall e :: e in root ==> Encodable(e)
    requires InRam(ImageBytes(boot, fats, root, area), loaded, ram) && Covers(ram, reserved, n)
    requires reserved + 2 * FAT_SECTORS + ROOT_SECTORS <= loaded + 1
    ensures var seen := Seen(ram, reserved, n, chains);
            && seen == Disk(Cells(fats[..FAT_BYTES], n), root, seen.data, chains) && |seen.data| == n - 2
            && (forall p :: 0 <= p < n - 2 && ClusterSector(reserved, p + 2) <= loaded ==> seen.data[p] == SectorOf(area, p))
  {
    SeenFatsLaid(reserved, boot, fats, root, area, loaded, ram, n);
    forall e | 0 <= e < ROOT_ENTRIES
      ensures SeenEntry(ram, reserved, n, e) == root[e]
    {
      SeenEntryLaid(reserved, boot, fats, root, area, loaded, ram, n, e);
    }
    forall p | 0 <= p < n - 2 && ClusterSector(reserved, p + 2) <= loaded
      ensures SeenSector(ram, reserved, n, p) == SectorOf(area, p)
    {
      SeenSectorLaid(reserved, boot, fats, root, area, loaded, ram, n, p);
    }
    hide ImageBytes, SeenFats, SeenEntry, SeenSector, InRam, SectorOf;
    assert SeenRoot(ram, reserved, n) == root;
  }

  // ---- a directory with nothing in it ---------------------------------------------------------

  /** No entry in use stands before the first end mark. */
  predicate NoneLive(root: seq<DirEntry>, i: nat)
    requires i <= |root|
    decreases |root| - i
  {
    i == |root| || root[i].name[0] == END_MARK || (!Live(root[i]) && NoneLive(root, i + 1))
  }

  /** No name at all is found if and only if that is so. */
  lemma {:induction false} NothingFound(root: seq<DirEntry>, i: nat)
    requires i <= |root|
    ensures (forall name: Name :: Find(root, name, i) == |root|) <==> NoneLive(root, i)
    decreases |root| - i
  {
    if i < |root| && root[i].name[0] != END_MARK {
      if Live(root[i]) {
        assert Find(root, root[i].name, i) == i;
      } else {
        NothingFound(root, i + 1);
        if NoneLive(root, i + 1) {
          forall name: Name
            ensures Find(root, name, i) == |root|
          {
            assert Find(root, name, i + 1) == |root|;
          }
        } else {
          var name: Name :| Find(root, name, i + 1) != |root|;
          assert Find(root, name, i) != |root|;
        }
      }
    }
  }
}
