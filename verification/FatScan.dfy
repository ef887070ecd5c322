/** What the driver's scan sees when it runs past the first copy of the table: the copies lie
    one behind the other, so the cells behind the first copy are those of the second. */
module FatScan {
  import opened Bytes
  import opened FatCells
  import opened FatChains

  /** Both copies of the table, as they lie in memory. */
  type Copies = t: seq<Byte> | |t| == 2 * FAT_BYTES witness seq(2 * FAT_BYTES, _ => 0)

  ghost predicate Mirrored(t: Copies) {
    t[..FAT_BYTES] == t[FAT_BYTES..]
  }

  /** The getter's load and selection, at any cluster number that lies in either copy. */
  function WideCell(t: Copies, c: nat): nat
    requires c < 2 * MAX_CELLS
  {
    var word := Word(t[Offset(c)], t[Offset(c) + 1]);
    if c % 2 == 1 then word / 16 else word % 4096
  }

  /** Cell 3072 + k is cell k of the second copy. */
  lemma Aliased(t: Copies, c: nat)
    requires c < 2 * MAX_CELLS && Mirrored(t)
    ensures WideCell(t, c) == Cell(t[..FAT_BYTES], if c < MAX_CELLS then c else c - MAX_CELLS)
  {
    if c >= MAX_CELLS {
      var k := c - MAX_CELLS;
      assert Offset(c) == FAT_BYTES + Offset(k) && c % 2 == k % 2;
      assert t[Offset(c)] == t[FAT_BYTES..][Offset(k)] && t[Offset(c) + 1] == t[FAT_BYTES..][Offset(k) + 1];
    }
  }

  /** The cells that a scan of n clusters reads. */
  function Scanned(t: Copies, n: nat): (fat: seq<nat>)
    requires n <= 2 * MAX_CELLS
    ensures |fat| == n
  {
    seq(n, c requires 0 <= c < n => WideCell(t, c))
  }

  /** A scan that runs past the whole first copy sees the cells twice. */
  lemma ScannedTwice(t: Copies, n: nat)
    requires MAX_CELLS <= n <= 2 * MAX_CELLS && Mirrored(t)
    ensures var fat := Cells(t[..FAT_BYTES], MAX_CELLS);
            Scanned(t, n) == fat + fat[..n - MAX_CELLS]
  {
    forall c | 0 <= c < n
      ensures WideCell(t, c) == Cell(t[..FAT_BYTES], if c < MAX_CELLS then c else c - MAX_CELLS)
    {
      Aliased(t, c);
    }
  }

  /** The same numbers, n added to each. */
  function Shifted(s: seq<nat>, n: nat): (r: seq<nat>)
    ensures |r| == |s|
  {
    seq(|s|, i requires 0 <= i < |s| => s[i] + n)
  }

  lemma {:induction false} FreeTwice(fat: seq<nat>, more: seq<nat>, i: nat)
    requires i <= |fat|
    ensures FreeFrom(fat + more, i) == FreeFrom(fat, i) + Shifted(FreeFrom(more, 0), |fat|)
    decreases |fat| - i
  {
    if i < |fat| {
      FreeTwice(fat, more, i + 1);
      assert (fat + more)[i] == fat[i];
    } else {
      FreeBehind(fat, more, 0);
    }
  }

  lemma {:induction false} FreeBehind(fat: seq<nat>, more: seq<nat>, k: nat)
    requires k <= |more|
    ensures FreeFrom(fat + more, |fat| + k) == Shifted(FreeFrom(more, k), |fat|)
    decreases |more| - k
  {
    if k < |more| {
      FreeBehind(fat, more, k + 1);
      assert (fat + more)[|fat| + k] == more[k];
      var a, b := FreeFrom(more, k + 1), Shifted(FreeFrom(more, k + 1), |fat|);
      assert Shifted([k] + a, |fat|) == [|fat| + k] + b;
    }
  }

  lemma FreeSkips(fat: seq<nat>)
    requires forall c :: 0 <= c < |fat| && c < 2 ==> fat[c] != FREE
    ensures |FreeFrom(fat, 0)| == |FreeList(fat)|
    ensures forall c :: c in FreeFrom(fat, 0) <==> c in FreeList(fat)
  {
    assert FreeFrom(fat, 0) == FreeFrom(fat, 1) == FreeFrom(fat, 2);
  }

  /** A scan past a mirrored table, whose reserved cells are in use, finds the free clusters
      of the table, in the same order, and then aliases of free clusters of the table. */
  lemma ScanFinds(t: Copies, n: nat)
    requires MAX_CELLS <= n <= 2 * MAX_CELLS && Mirrored(t)
    requires var fat := Cells(t[..FAT_BYTES], MAX_CELLS); fat[0] != FREE && fat[1] != FREE
    ensures var fat := Cells(t[..FAT_BYTES], MAX_CELLS);
            var all, free := FreeList(Scanned(t, n)), FreeList(fat);
            && |free| <= |all| && all[..|free|] == free
            && |all| == |free| + |FreeList(fat[..n - MAX_CELLS])|
            && (free == [] ==> all == [])
  {
    var fat := Cells(t[..FAT_BYTES], MAX_CELLS);
    var more := fat[..n - MAX_CELLS];
    ScannedTwice(t, n);
    FreeTwice(fat, more, 2);
    FreeSkips(more);
    assert forall c :: c in FreeFrom(more, 0) ==> c in FreeList(fat);
    assert FreeFrom(more, 0) != [] ==> FreeFrom(more, 0)[0] in FreeFrom(more, 0);
  }

  /** The cluster that the scan of n clusters returns is the one that the scan of the table
      alone returns, never one behind the table; the count of n clusters adds the free
      clusters below n - 3072, and so is exact if and only if there are none. */
  lemma ScanAgrees(t: Copies, n: nat)
    requires MAX_CELLS <= n <= 2 * MAX_CELLS && Mirrored(t)
    requires var fat := Cells(t[..FAT_BYTES], MAX_CELLS); fat[0] != FREE && fat[1] != FREE
    ensures var fat := Cells(t[..FAT_BYTES], MAX_CELLS);
            var all, free := FreeList(Scanned(t, n)), FreeList(fat);
            && (all == [] <==> free == []) && (all != [] ==> all[0] == free[0])
            && |all| == |free| + |FreeList(fat[..n - MAX_CELLS])|
            && (|all| == |free| <==> forall c :: 2 <= c < n - MAX_CELLS ==> fat[c] != FREE)
  {
    var fat := Cells(t[..FAT_BYTES], MAX_CELLS);
    ScanFinds(t, n);
    var all, free := FreeList(Scanned(t, n)), FreeList(fat);
    if free != [] { assert all[0] == all[..|free|][0]; }
    NoneBelow(fat, n - MAX_CELLS);
  }

  lemma NoneBelow(fat: seq<nat>, n: nat)
    requires n <= |fat|
    ensures FreeList(fat[..n]) == [] <==> forall c :: 2 <= c < n ==> fat[c] != FREE
  {
    var more := fat[..n];
    if FreeList(more) == [] {
      forall c | 2 <= c < n
        ensures fat[c] != FREE
      {
        assert c !in FreeList(more) && more[c] == fat[c];
      }
    } else {
      assert FreeList(more)[0] in FreeList(more);
    }
  }

  // ---- a fresh image ---------------------------------------------------------------------

  function FreshTable(): Table {
    [0xF0, 0xFF, 0xFF] + Zeros(FAT_BYTES - 3)
  }

  lemma FreshCells(n: nat)
    requires 2 <= n <= MAX_CELLS
    ensures var fat := Cells(FreshTable(), n);
            fat[0] == 0xFF0 && fat[1] == 0xFFF && forall c :: 2 <= c < n ==> fat[c] == FREE
  {
  }

  lemma {:induction false} AllFree(fat: seq<nat>, i: nat)
    requires i <= |fat| && forall c :: i <= c < |fat| ==> fat[c] == FREE
    ensures |FreeFrom(fat, i)| == |fat| - i
    decreases |fat| - i
  {
    if i < |fat| { AllFree(fat, i + 1); }
  }

  /** On a freshly formatted image the driver counts 4076 free clusters: the 3070 of the table
      and 1006 of them once more. */
  lemma FreshCount()
    ensures |FreeList(Scanned(FreshTable() + FreshTable(), TOTAL_CLUSTERS))| == 4076
    ensures |FreeList(Cells(FreshTable(), MAX_CELLS))| == 3070
  {
    var t: Copies := FreshTable() + FreshTable();
    assert t[..FAT_BYTES] == FreshTable() == t[FAT_BYTES..];
    FreshCells(MAX_CELLS);
    var fat := Cells(FreshTable(), MAX_CELLS);
    hide Cells, FreeFrom, FreshTable, Scanned;
    ScanFinds(t, TOTAL_CLUSTERS);
    AllFree(fat, 2);
    AllFree(fat[..TOTAL_CLUSTERS - MAX_CELLS], 2);
  }
}
