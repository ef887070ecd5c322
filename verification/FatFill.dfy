/** The allocate-and-copy loop of write and append as a value: how far it has come, and
    what one more step does. */
module FatFill {
  import opened Bytes
  import opened FatCells
  import opened FatChains
  import opened FatNames
  import opened FatVolume
  import opened FatOps

  /** From table fat0, chain ch0 and sectors data0: n of at most k clusters are linked in
      (table fat, chain ch), and the first w of them hold their sectors of content. */
  datatype Fill = Fill(fat0: Fat, ch0: seq<nat>, data0: seq<Sector>, content: seq<Byte>)
  {
    function Limit(): nat {
      Min(SectorCount(|content|), |FreeList(fat0)|)
    }

    ghost predicate At(fat: Fat, ch: seq<nat>, n: nat, data: seq<Sector>, w: nat) {
      && |data0| == |fat0| - 2
      && Growing(fat0, ch0, Limit(), fat, ch, n)
      && w <= n
      && Clusters(FreeList(fat0)[..w], data0)
      && data == Stored(data0, FreeList(fat0)[..w], content)
    }

    lemma Start()
      requires |data0| == |fat0| - 2 && GrowsFrom(fat0, ch0)
      ensures At(fat0, ch0, 0, data0, 0)
    {
      GrowingStart(fat0, ch0, Limit());
    }

    lemma Link(fat: Fat, ch: seq<nat>, n: nat, data: seq<Sector>, w: nat)
      requires At(fat, ch, n, data, w) && n < Limit()
      ensures FreeList(fat) != [] && GrowsFrom(fat, ch)
      ensures var c := FreeList(fat)[0];
              && 2 <= c < |fat| && c == FreeList(fat0)[n]
              && At(Push(fat, ch, c), ch + [c], n + 1, data, w)
    {
      GrowingStep(fat0, ch0, Limit(), fat, ch, n);
    }

    lemma Copy(fat: Fat, ch: seq<nat>, n: nat, data: seq<Sector>, w: nat)
      requires At(fat, ch, n, data, w) && w < n
      ensures n <= Limit() && SECTOR * w < |content| && |data| == |data0| == |fat| - 2
      ensures var c := FreeList(fat0)[w];
              && 2 <= c < |data| + 2 && |ch| == |ch0| + n && c == ch[|ch0| + w]
              && At(fat, ch, n, data[c - 2 := SectorAt(content, w)], w + 1)
    {
      var free := FreeList(fat0);
      FreshClusters(fat0, data0, w + 1);
      assert free[..w + 1][..w] == free[..w];
      assert free[..w + 1][w] == free[w];
    }

    /** While content is left, the loop stops short of the limit exactly when a cluster is free. */
    lemma More(fat: Fat, ch: seq<nat>, n: nat, data: seq<Sector>, w: nat)
      requires At(fat, ch, n, data, w) && SECTOR * n < |content|
      ensures n <= Limit() && SECTOR * Limit() < |content| + SECTOR
      ensures FreeList(fat) != [] <==> n < Limit()
    {
      assert |FreeList(fat)| == |FreeList(fat0)| - n;
    }

    lemma Enough(fat: Fat, ch: seq<nat>, n: nat, data: seq<Sector>, w: nat)
      requires At(fat, ch, n, data, w) && |content| <= SECTOR * n
      ensures n == Limit() && SECTOR * n < |content| + SECTOR
    {
    }

    lemma Tail(fat: Fat, ch: seq<nat>, n: nat, data: seq<Sector>, w: nat)
      requires At(fat, ch, n, data, w) && ch != []
      ensures ch[|ch| - 1] < |fat|
    {
    }

    lemma Done(fat: Fat, ch: seq<nat>, data: seq<Sector>)
      requires At(fat, ch, Limit(), data, Limit())
      ensures GrowsFrom(fat0, ch0)
      ensures (fat, ch) == Grow(fat0, ch0, Limit())
      ensures ch == ch0 + FreeList(fat0)[..Limit()]
      ensures Clusters(FreeList(fat0)[..Limit()], data0)
      ensures data == Stored(data0, FreeList(fat0)[..Limit()], content)
    {
    }
  }

  /** The parts of a finished write make up the volume that WriteSlot describes. */
  lemma WriteParts(d: Disk, i: nat, content: seq<Byte>, fat: Fat, cs: seq<nat>, data: seq<Sector>, e: DirEntry)
    requires Sized(d) && i < |d.root|
    requires var fill := Fill(Cleared(d.fat, d.chains[i]), [], d.data, content);
             fill.At(fat, cs, fill.Limit(), data, fill.Limit())
    requires e == WrittenEntry(d.root[i], cs, content)
    ensures WriteSlot(d, i, content).0 == Disk(fat, d.root[i := e], data, d.chains[i := cs])
  {
    var fill := Fill(Cleared(d.fat, d.chains[i]), [], d.data, content);
    fill.Done(fat, cs, data);
    assert cs == FreeList(fill.fat0)[..fill.Limit()];
  }

  lemma AppendParts(d: Disk, i: nat, content: seq<Byte>, fat: Fat, ch: seq<nat>, data: seq<Sector>)
    requires Sized(d) && i < |d.root| && GrowsFrom(d.fat, d.chains[i])
    requires var fill := Fill(d.fat, d.chains[i], d.data, content);
             fill.At(fat, ch, fill.Limit(), data, fill.Limit())
    ensures var full := SectorCount(|content|) <= FreeCount(d);
            var e := if full then d.root[i].(size := d.root[i].size + |content|) else d.root[i];
            AppendSlot(d, i, content)
              == (Disk(fat, d.root[i := e], data, d.chains[i := ch]), if full then Success else DiskFull)
  {
    var fill := Fill(d.fat, d.chains[i], d.data, content);
    fill.Done(fat, ch, data);
  }
}
