/** The file-system driver working in place on the table, the root directory and the data
    sectors. Every method is tied to the function of the same effect in FatOps. */
module FatDriver {
  import opened Bytes
  import opened FatCells
  import opened FatChains
  import opened FatNames
  import opened FatVolume
  import opened FatOps
  import opened FatFill
  import opened FatTables
  import opened FatScan
  import FatMeaning
  import FatRuns

  const ENTRIES_PER_SECTOR: nat := 16

  method ParseName(f: CString) returns (r: Option<Name>)
    ensures r == Parse(f)
  {
    var name := new Byte[11](_ => SPACE);
    var i, j := 0, 0;
    while i < |f| && f[i] != DOT
      invariant 0 <= i == j <= 8 && i <= |f|
      invariant forall m :: 0 <= m < i ==> f[m] != DOT
      invariant forall m :: 0 <= m < 11 ==> name[m] == if m < i then Upper(f[m]) else SPACE
    {
      if j >= 8 {
        return None;
      }
      name[j] := Upper(f[i]);
      i, j := i + 1, j + 1;
    }
    ghost var d := i;
    if i < |f| {
      i, j := i + 1, 8;
      while i < |f|
        invariant d < i <= |f| && j == 8 + (i - d - 1) <= 11
        invariant forall m :: 0 <= m < 8 ==> name[m] == if m < d then Upper(f[m]) else SPACE
        invariant forall m :: 8 <= m < 11 ==> name[m] == if m < j then Upper(f[d + 1 + (m - 8)]) else SPACE
      {
        if j >= 11 {
          return None;
        }
        name[j] := Upper(f[i]);
        i, j := i + 1, j + 1;
      }
    }
    NameBuilt(f, d, name[..]);
    return Some(name[..]);
  }

  lemma NameBuilt(f: CString, d: nat, name: seq<Byte>)
    requires |name| == 11 && d <= |f| && d <= 8 && |f| <= d + 4
    requires (forall m :: 0 <= m < d ==> f[m] != DOT) && (d < |f| ==> f[d] == DOT)
    requires forall m :: 0 <= m < 8 ==> name[m] == if m < d then Upper(f[m]) else SPACE
    requires forall m :: 8 <= m < 11 ==> name[m] == if m < 8 + (|f| - d - 1) then Upper(f[d + 1 + (m - 8)]) else SPACE
    ensures Parse(f) == Some(name)
  {
    assert Until(f, DOT) == d;
    assert name[..8] == Padded(Uppered(BasePart(f)), 8);
    assert name[8..] == Padded(Uppered(ExtPart(f)), 3);
    assert name == name[..8] + name[8..];
  }

  /** The name the directory listing prints for an entry. */
  method DisplayName(e: DirEntry) returns (text: seq<Byte>)
    ensures text == Listed(e)
  {
    text := [];
    var m := 0;
    while m < 8 && e.name[m] != SPACE
      invariant 0 <= m <= 8 && text == e.name[..m]
      invariant forall j :: 0 <= j < m ==> e.name[..8][j] != SPACE
    {
      text := text + [e.name[m]];
      m := m + 1;
    }
    ghost var base := text;
    if e.attributes != ATTR_DIRECTORY {
      text := text + [DOT];
      m := 0;
      while m < 3 && e.name[8 + m] != SPACE
        invariant 0 <= m <= 3 && text == base + [DOT] + e.name[8..][..m]
        invariant forall j :: 0 <= j < m ==> e.name[8..][j] != SPACE
      {
        text := text + [e.name[8 + m]];
        m := m + 1;
      }
      assert Until(e.name[8..], SPACE) == m;
    }
  }

  /** What a read reports: the size field, or the error. */
  datatype ReadResult = Size(size: nat) | Failed(status: Status)

  class Driver {
    const table: FatTable
    const root: array<DirEntry>
    const data: array<Sector>
    var currentDir: nat
    ghost var chains: seq<seq<nat>>

    /** The arrays have the sizes that the geometry fixes. */
    ghost predicate Shaped()
      reads this, table.fats
    {
      && table.Valid() && table.Reserved()
      && data.Length == table.limit - 2
      && root.Length % ENTRIES_PER_SECTOR == 0
      && root.Length <= |chains|
      && currentDir < 0x1_0000
    }

    ghost function Snap(): Disk
      requires Shaped()
      reads this, table.fats, root, data
    {
      Disk(table.Cells(), root[..], data[..], chains)
    }

    ghost predicate Valid()
      reads this, table.fats, root, data
    {
      Shaped() && Inv(Snap())
    }

    /** A driver on an image that some tool has laid out soundly. */
    constructor (table: FatTable, root: array<DirEntry>, data: array<Sector>, ghost chains: seq<seq<nat>>)
      requires table.Valid() && table.Reserved() && data.Length == table.limit - 2 && root.Length % ENTRIES_PER_SECTOR == 0
      requires Inv(Disk(table.Cells(), root[..], data[..], chains))
      ensures Valid() && Snap() == Disk(table.Cells(), root[..], data[..], chains)
      ensures this.table == table && this.root == root && this.data == data
    {
      this.table, this.root, this.data, this.chains := table, root, data, chains;
      currentDir := 0;
    }

    lemma WholeSectors()
      requires Shaped()
      ensures root.Length == ENTRIES_PER_SECTOR * (root.Length / ENTRIES_PER_SECTOR)
    {
    }

    method FindFile(f: CString) returns (k: nat)
      requires Shaped()
      ensures k == Slot(root[..], f)
    {
      hide Find, Shaped, Parse;
      WholeSectors();
      var parsed := ParseName(f);
      if parsed == None {
        return root.Length;
      }
      var n := parsed.value;
      ghost var all := root[..];
      var i := 0;
      while i < root.Length / ENTRIES_PER_SECTOR
        invariant 0 <= i <= root.Length / ENTRIES_PER_SECTOR
        invariant Find(all, n, ENTRIES_PER_SECTOR * i) == Find(all, n, 0)
      {
        var j := 0;
        while j < ENTRIES_PER_SECTOR
          invariant 0 <= j <= ENTRIES_PER_SECTOR
          invariant Find(all, n, ENTRIES_PER_SECTOR * i + j) == Find(all, n, 0)
        {
          var k := ENTRIES_PER_SECTOR * i + j;
          var e := root[k];
          FindAt(all, n, k);
          if e.name[0] == END_MARK {
            return root.Length;
          }
          if e.name[0] != DELETED && e.name == n {
            return k;
          }
          j := j + 1;
        }
        i := i + 1;
      }
      FindAt(all, n, root.Length);
      return root.Length;
    }

    method FindFreeRootEntry() returns (k: nat)
      requires Shaped()
      ensures k == FreeSlot(root[..], 0)
    {
      ghost var all := root[..];
      var i := 0;
      while i < root.Length / ENTRIES_PER_SECTOR
        invariant 0 <= i <= root.Length / ENTRIES_PER_SECTOR
        invariant FreeSlot(all, ENTRIES_PER_SECTOR * i) == FreeSlot(all, 0)
      {
        var j := 0;
        while j < ENTRIES_PER_SECTOR
          invariant 0 <= j <= ENTRIES_PER_SECTOR
          invariant FreeSlot(all, ENTRIES_PER_SECTOR * i + j) == FreeSlot(all, 0)
        {
          k := ENTRIES_PER_SECTOR * i + j;
          var e := root[k];
          assert e == all[k];
          if e.name[0] == END_MARK || e.name[0] == DELETED {
            return;
          }
          assert FreeSlot(all, k) == FreeSlot(all, k + 1);
          j := j + 1;
        }
        i := i + 1;
      }
      return root.Length;
    }

    /** Walks the chain and copies whole sectors; the reported size is the size field. */
    method ReadFile(f: CString, buffer: array<Byte>) returns (r: ReadResult)
      requires Valid() && buffer != table.fats
      requires IsFile(Snap(), f) ==> |Lookup(Snap(), Parse(f).value).value.bytes| <= buffer.Length
      modifies buffer
      ensures Valid() && Snap() == old(Snap())
      ensures !IsFile(Snap(), f) ==>
                buffer[..] == old(buffer[..]) && r == Failed(if Slot(root[..], f) == root.Length then NotFound else NotAFile)
      ensures IsFile(Snap(), f) ==>
                var file := Lookup(Snap(), Parse(f).value).value;
                && r == Size(file.size)
                && buffer[..|file.bytes|] == file.bytes
                && buffer[|file.bytes|..] == old(buffer[..])[|file.bytes|..]
    {
      ghost var d := Snap();
      SlotLookup(d, f);
      var i := FindFile(f);
      if i == root.Length {
        return Failed(NotFound);
      }
      if root[i].attributes == ATTR_DIRECTORY {
        return Failed(NotAFile);
      }
      FileRoom(d, f);
      ChainClusters(d, i);
      assert Fits(d.root[i], d.chains[i]);
      ReadChain(root[i].cluster, d.chains[i], buffer);
      return Size(root[i].size);
    }

    method ReadChain(start: nat, ghost ch: seq<nat>, buffer: array<Byte>)
      requires Shaped() && Chain(table.Cells(), ch) && start == (if ch == [] then 0 else ch[0])
      requires buffer != table.fats && SECTOR * |ch| <= buffer.Length
      modifies buffer
      ensures Clusters(ch, data[..])
      ensures buffer[..SECTOR * |ch|] == Gather(data[..], ch)
      ensures buffer[SECTOR * |ch|..] == old(buffer[..])[SECTOR * |ch|..]
    {
      hide Gather, Chain, Clusters, FatCells.Cell;
      ChainGathers(table.Cells(), ch, data[..]);
      ghost var k := 0;
      var cluster: nat := start;
      var offset := 0;
      while Walks(cluster)
        invariant 0 <= k <= |ch| && offset == SECTOR * k
        invariant Walks(cluster) <==> k < |ch|
        invariant k < |ch| ==> cluster == ch[k]
        invariant buffer[..offset] == Gather(data[..], ch[..k])
        invariant buffer[offset..] == old(buffer[..])[offset..]
        decreases |ch| - k
      {
        ChainStep(table.Cells(), ch, k);
        ghost var rest := buffer[offset..];
        CopySector(buffer, offset, data[cluster - 2]);
        assert buffer[offset + SECTOR..] == rest[SECTOR..];
        ClustersTake(data[..], ch, k);
        GatherLast(data[..], ch[..k + 1]);
        assert ch[..k + 1][..k] == ch[..k];
        offset := offset + SECTOR;
        k := k + 1;
        cluster := table.Get(cluster);
      }
      assert ch[..k] == ch;
    }

    method CreateFile(f: CString) returns (st: Status)
      requires Valid()
      modifies root
      ensures Valid() && (Snap(), st) == Create(old(Snap()), f)
    {
      ghost var d := Snap();
      FatRuns.CreateInv(d, f);
      var i := FindFile(f);
      if i < root.Length {
        return AlreadyExists;
      }
      i := FindFreeRootEntry();
      if i == root.Length {
        return DiskFull;
      }
      var parsed := ParseName(f);
      if parsed == None {
        return InvalidName;
      }
      root[i] := DirEntry(parsed.value, ATTR_ARCHIVE, 0, 0);
      assert root[..] == d.root[i := root[i]];
      st := Success;
    }

    /** Write one sector of content into a data cluster, zero-filling behind the end. */
    method StoreSector(c: nat, content: seq<Byte>, written: nat, ghost k: nat) returns (chunk: nat)
      requires Shaped() && 2 <= c < table.limit && written == SECTOR * k < |content|
      modifies data
      ensures chunk == Min(SECTOR, |content| - written)
      ensures data[..] == old(data[..])[c - 2 := SectorAt(content, k)]
    {
      chunk := |content| - written;
      if chunk > SECTOR {
        chunk := SECTOR;
      }
      data[c - 2] := content[written..written + chunk] + Zeros(SECTOR - chunk);
    }

    method WriteFile(f: CString, content: seq<Byte>) returns (st: Status)
      requires Valid() && |content| < 0x1_0000_0000
      modifies this`chains, table.fats, root, data
      ensures Valid() && (Snap(), st) == Write(old(Snap()), f, content)
    {
      ghost var d := Snap();
      FatRuns.WriteInv(d, f, content);
      var i := FindFile(f);
      if i == root.Length {
        return NotFound;
      }
      if root[i].attributes == ATTR_DIRECTORY {
        return NotAFile;
      }
      st := WriteInto(i, content);
    }

    /** The part of a write behind the error checks. */
    method WriteInto(i: nat, content: seq<Byte>) returns (st: Status)
      requires Valid() && i < root.Length && Live(root[i])
      modifies this`chains, table.fats, root, data
      ensures Shaped() && (Snap(), st) == WriteSlot(old(Snap()), i, content)
    {
      hide Growing, Stored, FreeFrom, Sound, Tidy, FatCells.Cell, FatCells.Cells, Grow, Regrown;
      ghost var d := Snap();
      DropOldChain(i);
      ghost var fill := Fill(table.Cells(), [], d.data, content);
      fill.Start();
      ghost var cs: seq<nat> := [];
      if |content| == 0 {
        root[i] := root[i].(size := 0);
        st := Success;
      } else {
        fill.More(table.Cells(), [], 0, d.data, 0);
        var first := table.FindFree();
        if first == NO_CLUSTER {
          st := DiskFull;
        } else {
          root[i] := root[i].(cluster := first);
          var written;
          written, cs := FillFrom(first, content);
          chains := chains[i := cs];
          root[i] := root[i].(size := written);
          st := if written == |content| then Success else DiskFull;
        }
      }
      WriteParts(d, i, content, table.Cells(), cs, data[..], root[i]);
      assert root[..] == d.root[i := root[i]];
      assert chains == d.chains[i := cs];
    }

    /** Free the chain of a slot, as the first step of a write. */
    method DropOldChain(i: nat)
      requires Valid() && i < root.Length && Live(root[i])
      modifies this`chains, table.fats, root
      ensures Shaped() && table.Cells() == Cleared(old(table.Cells()), old(chains[i]))
      ensures root[..] == old(root[..])[i := old(root[i]).(cluster := 0)]
      ensures chains == old(chains)[i := []]
    {
      assert Fits(root[i], chains[i]) && root[..][i] == root[i];
      ReleaseChain(i);
      if root[i].cluster >= 2 {
        root[i] := root[i].(cluster := 0);
      }
      chains := chains[i := []];
    }

    method ReleaseChain(i: nat)
      requires Valid() && i < root.Length && Live(root[i])
      modifies table.fats
      ensures Shaped() && table.Cells() == Cleared(old(table.Cells()), chains[i])
      ensures chains[i] == [] <==> root[i].cluster < 2
    {
      ghost var d := Snap();
      assert Fits(d.root[i], d.chains[i]);
      SoundIsWellFormed(d.fat, d.chains);
      if d.chains[i] != [] { ChainStep(d.fat, d.chains[i], 0); }
      if root[i].cluster >= 2 {
        ghost var visited := table.FreeChain(root[i].cluster);
        assert visited == d.chains[i];
      } else {
        assert Cleared(d.fat, []) == d.fat;
      }
    }

    method LinkBehind(current: nat, next: nat, ghost ch: seq<nat>)
      requires Shaped() && ch != [] && 2 <= current == ch[|ch| - 1] < table.limit && 2 <= next < table.limit
      modifies table.fats
      ensures Shaped() && table.Cells() == Push(old(table.Cells()), ch, next)
    {
      hide FatCells.Cell, FatCells.Cells, FreeFrom, Chain, FatScan.Mirrored, FatScan.Scanned;
      table.Set(current, next);
      ghost var mid := table.Cells();
      table.Set(next, LAST);
      assert table.Cells() == mid[next := LAST];
    }

    /** Take the first free cluster, if any, and link it behind the chain that ends in
        current. */
    method LinkNext(current: nat, ghost fill: Fill, ghost ch: seq<nat>, ghost n: nat, ghost w: nat) returns (next: nat)
      requires Shaped() && fill.At(table.Cells(), ch, n, data[..], w) && SECTOR * n < |fill.content|
      requires ch != [] && current == ch[|ch| - 1] && current < table.limit
      modifies table.fats
      ensures Shaped() && n <= fill.Limit() && SECTOR * fill.Limit() < |fill.content| + SECTOR
      ensures next == NO_CLUSTER <==> n == fill.Limit()
      ensures next == NO_CLUSTER ==> table.Cells() == old(table.Cells())
      ensures next != NO_CLUSTER ==> next < table.limit && fill.At(table.Cells(), ch + [next], n + 1, data[..], w)
    {
      hide Growing, Stored, Clusters, FreeFrom, SectorCount, Grow, FatCells.Cell, Push;
      ghost var fat, sectors := table.Cells(), data[..];
      fill.More(fat, ch, n, sectors, w);
      next := table.FindFree();
      if next != NO_CLUSTER {
        fill.Link(fat, ch, n, sectors, w);
        LinkBehind(current, next, ch);
      }
    }

    /** The allocation loop of a write, from the first cluster on. */
    method FillFrom(first: nat, content: seq<Byte>) returns (written: nat, ghost cs: seq<nat>)
      requires Shaped() && content != [] && FreeList(table.Cells()) != [] && first == FreeList(table.Cells())[0]
      modifies table.fats, data
      ensures Shaped()
      ensures var fill := Fill(old(table.Cells()), [], old(data[..]), content);
              && fill.At(table.Cells(), cs, fill.Limit(), data[..], fill.Limit())
              && written == Min(|content|, SECTOR * fill.Limit())
              && cs != [] && cs[0] == first && |cs| == fill.Limit()
    {
      hide Growing, Stored, Clusters, SectorAt, FreeFrom;
      ghost var fill := Fill(table.Cells(), [], data[..], content);
      fill.Start();
      fill.More(table.Cells(), [], 0, data[..], 0);
      fill.Link(table.Cells(), [], 0, data[..], 0);
      table.Set(first, LAST);
      cs := [] + [first];
      written := 0;
      var current := first;
      ghost var w := 0;
      while written < |content|
        invariant Shaped() && fill.At(table.Cells(), cs, |cs|, data[..], w)
        invariant cs != [] && cs[0] == first && current == cs[|cs| - 1]
        invariant written == (if w < |cs| then SECTOR * w else |content|)
        invariant w == |cs| - 1 || (w == |cs| && SECTOR * w < |content| + SECTOR && |content| <= SECTOR * w)
        decreases |content| - written
      {
        fill.Copy(table.Cells(), cs, |cs|, data[..], w);
        var chunk := StoreSector(current, content, written, w);
        written := written + chunk;
        w := w + 1;
        if written < |content| {
          var next := LinkNext(current, fill, cs, |cs|, w);
          if next == NO_CLUSTER {
            return;
          }
          cs := cs + [next];
          current := next;
        }
      }
      fill.Enough(table.Cells(), cs, |cs|, data[..], w);
    }

    method AppendFile(f: CString, content: seq<Byte>) returns (st: Status)
      requires Valid() && |content| < 0x1_0000_0000
      modifies this`chains, table.fats, root, data
      ensures Valid() && (Snap(), st) == Append(old(Snap()), f, content)
    {
      ghost var d := Snap();
      FatRuns.AppendInv(d, f, content);
      var i := FindFile(f);
      if i == root.Length {
        return NotFound;
      }
      if root[i].attributes == ATTR_DIRECTORY {
        return NotAFile;
      }
      if root[i].cluster < 2 {
        st := WriteFile(f, content);
        return;
      }
      KeepsSound(d, i, d.fat, d.chains[i]);
      st := AppendInto(i, content);
    }

    /** Find the last cluster of a chain. */
    method LastCluster(start: nat, ghost ch: seq<nat>) returns (last: nat)
      requires table.Valid() && Chain(table.Cells(), ch) && ch != [] && start == ch[0]
      ensures last == ch[|ch| - 1]
    {
      last := start;
      var cluster: nat := start;
      ghost var k := 0;
      ChainStep(table.Cells(), ch, 0);
      while Walks(cluster)
        invariant 0 <= k <= |ch| && (Walks(cluster) <==> k < |ch|)
        invariant k < |ch| ==> cluster == ch[k]
        invariant 0 < k ==> last == ch[k - 1]
        decreases |ch| - k
      {
        ChainStep(table.Cells(), ch, k);
        last := cluster;
        k := k + 1;
        cluster := table.Get(cluster);
      }
    }

    /** The part of an append behind the error checks, on a file that has clusters. */
    method AppendInto(i: nat, content: seq<Byte>) returns (st: Status)
      requires Valid() && i < root.Length && Live(root[i]) && root[i].cluster >= 2
      requires GrowsFrom(table.Cells(), chains[i])
      modifies this`chains, table.fats, root, data
      ensures Shaped() && (Snap(), st) == AppendSlot(old(Snap()), i, content)
    {
      ghost var d := Snap();
      assert Fits(d.root[i], d.chains[i]);
      var last := LastCluster(root[i].cluster, d.chains[i]);
      ghost var ch;
      var written;
      st, written, ch := Extend(last, d.chains[i], content);
      chains := chains[i := ch];
      if st == Success {
        root[i] := root[i].(size := root[i].size + written);
      }
      AppendParts(d, i, content, table.Cells(), ch, data[..]);
      assert root[..] == d.root[i := root[i]];
    }

    /** The allocation loop of an append, behind the last cluster of the chain ch0. */
    method Extend(last: nat, ghost ch0: seq<nat>, content: seq<Byte>)
        returns (st: Status, written: nat, ghost ch: seq<nat>)
      requires Shaped() && ch0 != [] && last == ch0[|ch0| - 1] && GrowsFrom(table.Cells(), ch0)
      modifies table.fats, data
      ensures Shaped()
      ensures var fill := Fill(old(table.Cells()), ch0, old(data[..]), content);
              && fill.At(table.Cells(), ch, fill.Limit(), data[..], fill.Limit())
              && st == (if fill.Limit() == SectorCount(|content|) then Success else DiskFull)
              && (st == Success ==> written == |content|)
    {
      hide Growing, Stored, Clusters, SectorAt, FreeFrom;
      ghost var fill := Fill(table.Cells(), ch0, data[..], content);
      fill.Start();
      fill.Tail(table.Cells(), ch0, 0, data[..], 0);
      ch := ch0;
      written := 0;
      var current := last;
      ghost var w := 0;
      while written < |content|
        invariant Shaped() && fill.At(table.Cells(), ch, w, data[..], w)
        invariant ch != [] && current == ch[|ch| - 1] < table.limit
        invariant written == Min(|content|, SECTOR * w)
        invariant w == 0 || SECTOR * w < |content| + SECTOR
        decreases |content| - written
      {
        var next := LinkNext(current, fill, ch, w, w);
        if next == NO_CLUSTER {
          st := DiskFull;
          return;
        }
        ch := ch + [next];
        fill.Copy(table.Cells(), ch, w + 1, data[..], w);
        var chunk := StoreSector(next, content, written, w);
        written := written + chunk;
        w := w + 1;
        current := next;
      }
      fill.Enough(table.Cells(), ch, w, data[..], w);
      st := Success;
    }

    method DeleteFile(f: CString) returns (st: Status)
      requires Valid()
      modifies this`chains, table.fats, root
      ensures Valid() && (Snap(), st) == Delete(old(Snap()), f)
    {
      hide Sound, Tidy, FreeFrom, FatCells.Cell, Lost, Fits;
      ghost var d := Snap();
      FatRuns.DeleteInv(d, f);
      var i := FindFile(f);
      if i == root.Length {
        return NotFound;
      }
      if root[i].attributes == ATTR_DIRECTORY {
        return NotADir;
      }
      ReleaseChain(i);
      root[i] := root[i].(name := root[i].name[0 := DELETED]);
      chains := chains[i := []];
      assert root[..] == d.root[i := Tombstone(d.root[i])];
      st := Success;
    }

    method GetFreeSpace() returns (bytes: nat)
      requires Valid()
      ensures bytes == SECTOR * (FreeCount(Snap()) + |table.Again()|)
      ensures bytes / SECTOR + Total(chains) == table.limit - 2
              <==> forall c :: 2 <= c < table.scan - table.limit ==> table.Cells()[c] != FREE
    {
      var n := table.CountFree();
      NoneBelow(table.Cells(), table.scan - table.limit);
      Conservation(table.Cells(), chains);
      bytes := n * SECTOR;
    }

    method CreateDirectory(f: CString) returns (st: Status)
      requires Valid()
      modifies this`chains, table.fats, root, data
      ensures Valid() && (Snap(), st) == MakeDir(old(Snap()), f, currentDir)
    {
      hide Growing, Stored, FreeFrom, Sound, Tidy, FatCells.Cell, FatRuns.Leaks, Lost, DirSector, MadeDir, Fits;
      ghost var d := Snap();
      FatRuns.MakeDirInv(d, f, currentDir);
      var i := FindFile(f);
      if i < root.Length {
        return AlreadyExists;
      }
      i := FindFreeRootEntry();
      if i == root.Length {
        return DiskFull;
      }
      var parsed := ParseName(f);
      if parsed == None {
        return InvalidName;
      }
      var c := table.FindFree();
      if c == NO_CLUSTER {
        return DiskFull;
      }
      PlaceDirectory(i, parsed.value, c);
      st := Success;
    }

    /** The part of mkdir behind the error checks. */
    method PlaceDirectory(i: nat, name: Name, c: nat)
      requires Shaped() && i < root.Length && FreeList(table.Cells()) != [] && c == NewCluster(Snap())
      modifies this`chains, table.fats, root, data
      ensures Shaped()
      ensures var e := DirEntry(name, ATTR_DIRECTORY, c, 0);
              Snap() == MadeDir(old(Snap()), i, e, currentDir)
    {
      hide Stored, FreeFrom, Grow, DirSector, FatCells.Cell, FatCells.Cells;
      ghost var d := Snap();
      table.Set(c, LAST);
      root[i] := DirEntry(name, ATTR_DIRECTORY, c, 0);
      data[c - 2] := DirSector(c, currentDir);
      chains := if Live(root[i]) then chains[i := [c]] else chains + [[c]];
      assert root[..] == d.root[i := root[i]];
      FatMeaning.DirParts(d, i, root[i], c, currentDir, table.Cells(), data[..]);
    }
  }

  lemma ChainGathers(fat: Fat, ch: seq<nat>, data: seq<Sector>)
    requires Chain(fat, ch) && |fat| <= |data| + 2
    ensures Clusters(ch, data) && Clusters([], data) && Gather(data, []) == []
    ensures ch != [] ==> Walks(ch[0])
    ensures forall k :: 0 <= k <= |ch| ==> Clusters(ch[..k], data)
  {
    if ch != [] { ChainStep(fat, ch, 0); }
  }

  lemma ClustersTake(data: seq<Sector>, ch: seq<nat>, k: nat)
    requires Clusters(ch, data) && k < |ch|
    ensures Clusters(ch[..k], data) && Clusters(ch[..k + 1], data) && 2 <= ch[k] < |data| + 2
  {
  }

  method CopySector(buffer: array<Byte>, offset: nat, sector: Sector)
    requires offset + SECTOR <= buffer.Length
    modifies buffer
    ensures buffer[..offset] == old(buffer[..offset])
    ensures buffer[offset..offset + SECTOR] == sector
    ensures buffer[..offset + SECTOR] == old(buffer[..offset]) + sector
    ensures buffer[offset + SECTOR..] == old(buffer[offset + SECTOR..])
  {
    var m := 0;
    while m < SECTOR
      invariant 0 <= m <= SECTOR
      invariant forall k :: 0 <= k < buffer.Length ==>
                  buffer[k] == if offset <= k < offset + m then sector[k - offset] else old(buffer[k])
    {
      buffer[offset + m] := sector[m];
      m := m + 1;
    }
  }
}
