/** The two mirrored copies of the cell table in memory, one behind the other. */
module FatTables {
  import opened Bytes
  import opened FatCells
  import opened FatChains
  import opened FatScan

  const NO_CLUSTER: nat := 0xFFFF

  class FatTable {
    /** First copy, then second copy. */
    const fats: array<Byte>
    /** Clusters that have a cell and a data sector. */
    const limit: nat
    /** Clusters that the scans of the driver look at: as many, or more than a full table has. */
    const scan: nat

    ghost predicate Valid()
      reads fats
    {
      && fats.Length == 2 * FAT_BYTES && Mirrored(fats[..])
      && 2 <= limit <= MAX_CELLS
      && (scan == limit || (limit == MAX_CELLS && limit <= scan <= 2 * MAX_CELLS))
    }

    ghost function Cells(): Fat
      requires Valid()
      reads fats
    {
      FatCells.Cells(fats[..FAT_BYTES], limit)
    }

    /** The two reserved cells, which no operation writes, are in use. */
    ghost predicate Reserved()
      requires Valid()
      reads fats
    {
      Cells()[0] != FREE && Cells()[1] != FREE
    }

    /** The free clusters that a scan past the table meets once more. */
    ghost function Again(): seq<nat>
      requires Valid()
      reads fats
    {
      FreeList(Cells()[..scan - limit])
    }

    /** A fresh table as the image builder formats it: media byte, end marks, all free. */
    constructor Format(limit: nat, scan: nat)
      requires 2 <= limit <= MAX_CELLS
      requires scan == limit || (limit == MAX_CELLS && limit <= scan <= 2 * MAX_CELLS)
      ensures Valid() && Reserved() && fresh(fats) && this.limit == limit && this.scan == scan
      ensures fats[..] == FreshTable() + FreshTable()
      ensures Cells()[0] == 0xFF0 && Cells()[1] == 0xFFF
      ensures forall c :: 2 <= c < limit ==> Cells()[c] == FREE
    {
      this.limit := limit;
      this.scan := scan;
      fats := new Byte[2 * FAT_BYTES](_ => 0);
      new;
      fats[0], fats[1], fats[2] := 0xF0, 0xFF, 0xFF;
      fats[FAT_BYTES], fats[FAT_BYTES + 1], fats[FAT_BYTES + 2] := fats[0], fats[1], fats[2];
      assert fats[..FAT_BYTES] == FreshTable() == fats[FAT_BYTES..];
      FreshCells(limit);
    }

    /** Behind the table the getter reads the second copy. */
    method Get(c: nat) returns (v: nat)
      requires Valid() && c < scan
      ensures v < 4096 && v == if c < limit then Cells()[c] else Cells()[c - limit]
    {
      Aliased(fats[..], c);
      var lo, hi := fats[Offset(c)], fats[Offset(c) + 1];
      v := if c % 2 == 1 then Word(lo, hi) / 16 else Word(lo, hi) % 4096;
    }

    method Set(c: nat, value: nat)
      requires Valid() && c < limit && value < 0x1_0000
      modifies fats
      ensures Valid() && Cells() == old(Cells())[c := value % 4096]
      ensures fats[..FAT_BYTES] == Store(old(fats[..FAT_BYTES]), c, value)
    {
      ghost var t: Table := fats[..FAT_BYTES];
      var o := Offset(c);
      MirroredAt(fats[..], o);
      if c % 2 == 1 {
        fats[o] := fats[o] % 16 + value % 16 * 16;
        fats[o + 1] := value / 16 % 256;
      } else {
        fats[o] := value % 256;
        fats[o + 1] := fats[o + 1] / 16 * 16 + value / 256 % 16;
      }
      fats[FAT_BYTES + o] := fats[o];
      fats[FAT_BYTES + o + 1] := fats[o + 1];
      MirroredStore(old(fats[..]), fats[..], t, c, value);
      StoreIsUpdate(t, limit, c, value);
    }

    /** The image builder's setter: one 16-bit word, written to both copies. */
    method SetWord(c: nat, value: nat)
      requires Valid() && c < limit && value < 0x1_0000
      modifies fats
      ensures Valid() && Cells() == old(Cells())[c := value % 4096]
      ensures fats[..FAT_BYTES] == Store(old(fats[..FAT_BYTES]), c, value)
    {
      ghost var t: Table := fats[..FAT_BYTES];
      var o := Offset(c);
      TwoSettersAgree(fats[o], fats[o + 1], c % 2 == 1, value);
      var (lo, hi) := BuilderBytes(fats[o], fats[o + 1], c % 2 == 1, value);
      fats[o], fats[o + 1] := lo, hi;
      fats[FAT_BYTES + o], fats[FAT_BYTES + o + 1] := lo, hi;
      MirroredStore(old(fats[..]), fats[..], t, c, value);
      StoreIsUpdate(t, limit, c, value);
    }

    /** However far the scan runs, it finds the first free cluster of the table. */
    method FindFree() returns (c: nat)
      requires Valid() && Reserved()
      ensures c == if FreeList(Cells()) == [] then NO_CLUSTER else FreeList(Cells())[0]
      ensures c == NO_CLUSTER <==> FreeList(Cells()) == []
      ensures c != NO_CLUSTER ==> 2 <= c < limit && Cells()[c] == FREE && forall b :: 2 <= b < c ==> Cells()[b] != FREE
    {
      var i := 2;
      while i < scan
        invariant 2 <= i <= scan
        invariant i <= limit ==> FreeFrom(Cells(), i) == FreeList(Cells())
        invariant limit <= i ==> FreeList(Cells()) == []
      {
        var v := Get(i);
        if v == FREE {
          NoneFree(Cells(), i);
          FreeLeast(Cells());
          return i;
        }
        i := i + 1;
      }
      return NO_CLUSTER;
    }

    /** Free clusters of the table, and once more those below scan - limit. */
    method CountFree() returns (n: nat)
      requires Valid() && Reserved()
      ensures n == |FreeList(Cells())| + |Again()|
    {
      hide FatCells.Cell, FatCells.Cells, Mirrored;
      n := 0;
      ghost var fat, more := Cells(), Cells()[..scan - limit];
      FreeSkips(more);
      var i := 2;
      while i < scan
        invariant 2 <= i <= scan
        invariant i <= limit ==> n + |FreeFrom(fat, i)| == |FreeList(fat)|
        invariant limit <= i ==> n + |FreeFrom(more, i - limit)| == |FreeList(fat)| + |FreeList(more)|
      {
        var v := Get(i);
        if v == FREE {
          n := n + 1;
        }
        i := i + 1;
      }
    }

    /** Terminates on every table with well-formed cells, cyclic ones included, and frees
        exactly the clusters the walk visits. */
    method FreeChain(start: nat) returns (ghost visited: seq<nat>)
      requires Valid() && WellFormed(Cells()) && (Walks(start) ==> start < limit)
      modifies fats
      ensures Valid() && Walk(old(Cells()), start, visited)
      ensures Cells() == Cleared(old(Cells()), visited)
      ensures forall ch :: Chain(old(Cells()), ch) && start == (if ch == [] then 0 else ch[0]) ==> visited == ch
    {
      ghost var fat := Cells();
      var cluster: nat := start;
      visited := [];
      ghost var back := false;
      assert Cleared(fat, []) == fat;
      while Walks(cluster)
        invariant Valid() && Cells() == Cleared(fat, visited)
        invariant Walking(fat, start, visited, cluster, back)
        decreases limit - |visited|, if Walks(cluster) then 1 else 0
      {
        WalkingStep(fat, start, visited, cluster);
        var next := Get(cluster);
        Set(cluster, FREE);
        if cluster in visited {
          back := true;
        } else {
          visited := visited + [cluster];
        }
        cluster := next;
      }
      WalkingDone(fat, start, visited, cluster, back);
    }
  }

  lemma MirroredAt(t: Copies, o: nat)
    requires Mirrored(t) && o + 1 < FAT_BYTES
    ensures t[FAT_BYTES + o] == t[o] && t[FAT_BYTES + o + 1] == t[o + 1]
  {
    assert t[FAT_BYTES..][o] == t[..FAT_BYTES][o] && t[FAT_BYTES..][o + 1] == t[..FAT_BYTES][o + 1];
  }

  /** Both copies with the same two bytes replaced are mirrored again. */
  lemma MirroredStore(t: Copies, t': Copies, first: Table, c: Index, value: nat)
    requires Mirrored(t) && first == t[..FAT_BYTES] && value < 0x1_0000
    requires var o := Offset(c);
             var (lo, hi) := DriverBytes(t[o], t[o + 1], c % 2 == 1, value);
             t' == t[o := lo][o + 1 := hi][FAT_BYTES + o := lo][FAT_BYTES + o + 1 := hi]
    ensures Mirrored(t') && t'[..FAT_BYTES] == Store(first, c, value)
  {
    var o := Offset(c);
    forall k | 0 <= k < FAT_BYTES
      ensures t'[k] == Store(first, c, value)[k] && t'[FAT_BYTES + k] == t'[k]
    {
      assert t[FAT_BYTES + k] == t[FAT_BYTES..][k] == t[..FAT_BYTES][k];
    }
  }

  lemma NoneFree(fat: Fat, i: nat)
    ensures FreeList(fat) == [] ==> forall c :: 2 <= c < |fat| ==> fat[c] != FREE
    ensures i < |fat| && fat[i] == FREE && FreeFrom(fat, i) == FreeList(fat) ==> FreeList(fat)[0] == i
  {
    if FreeList(fat) == [] {
      assert forall c :: 2 <= c < |fat| && fat[c] == FREE ==> c in FreeList(fat);
    }
  }
}
