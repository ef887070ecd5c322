/** kmalloc and kfree on block headers kept at their addresses in memory. */
module KernelHeap {
  import opened HeapBlocks

  const NULL: nat := 0

  datatype Header = Header(size: nat, isFree: bool, next: nat)

  /** The headers in memory, followed from the head, are the blocks bs. */
  ghost predicate Holds(mem: map<nat, Header>, bs: seq<Block>) {
    bs != [] && forall i :: 0 <= i < |bs| ==> HoldsAt(mem, bs[i], Next(bs, i))
  }

  ghost predicate HoldsAt(mem: map<nat, Header>, b: Block, next: nat) {
    b.addr in mem && mem[b.addr] == Header(b.size, b.free, next)
  }

  function Next(bs: seq<Block>, i: nat): nat {
    if i + 1 < |bs| then bs[i + 1].addr else NULL
  }

  class Heap {
    var mem: map<nat, Header>
    ghost var blocks: seq<Block>

    ghost predicate Valid()
      reads this
    {
      Holds(mem, blocks) && Tiles(blocks, HEAP_START, HEAP_END)
    }

    constructor Init()
      ensures Valid() && blocks == FRESH
    {
      mem := map[HEAP_START := Header(HEAP_SIZE - HEADER, true, NULL)];
      blocks := FRESH;
      FreshTiles();
    }

    method Kmalloc(size: nat) returns (p: nat)
      requires Valid() && size < WORD_RANGE
      modifies this
      ensures Valid() && blocks == Malloc(old(blocks), size) && p == Pointer(old(blocks), size)
    {
      hide Holds, Tiles, Carved, Rounded;
      var n := Rounded(size);
      var current := HEAP_START;
      ghost var i: nat := 0;
      ghost var bs := blocks;
      SomeBlock(bs);
      HeaderAt(mem, bs, 0);
      while current != NULL
        invariant 0 <= i <= |bs| && i <= Fit(bs, n)
        invariant current == (if i < |bs| then bs[i].addr else NULL)
        invariant current == NULL ==> i == |bs|
        invariant Valid() && mem == old(mem) && blocks == bs
        decreases |bs| - i
      {
        HeaderAt(mem, bs, i);
        if mem[current].isFree && mem[current].size >= n {
          p := Take(current, n, i);
          MallocTiles(bs, HEAP_START, HEAP_END, size);
          return;
        }
        current := mem[current].next;
        i := i + 1;
        if i < |bs| { HeaderAt(mem, bs, i); }
      }
      return NULL;
    }

    /** The found block: split off the rest if that is worth a header, mark it used. */
    method Take(current: nat, n: nat, ghost i: nat) returns (p: nat)
      requires Valid() && i < |blocks| && current == blocks[i].addr && n <= blocks[i].size
      modifies this
      ensures p == current + HEADER
      ensures blocks == old(blocks)[..i] + Carved(old(blocks[i]), n) + old(blocks)[i + 1..]
      ensures Holds(mem, blocks)
    {
      hide Holds, Tiles;
      HeaderAt(mem, blocks, i);
      if mem[current].size > n + HEADER + 16 {
        var rest := current + HEADER + n;
        RestIsNew(blocks, i, rest);
        mem := mem[rest := Header(mem[current].size - n - HEADER, true, mem[current].next)];
        mem := mem[current := mem[current].(size := n)];
        mem := mem[current := mem[current].(next := rest)];
        mem := mem[current := mem[current].(isFree := false)];
        SplitHolds(old(mem), mem, blocks, i, n);
      } else {
        mem := mem[current := mem[current].(isFree := false)];
        WholeHolds(old(mem), mem, blocks, i, false);
        assert blocks[i := Block(blocks[i].addr, blocks[i].size, false)]
            == blocks[..i] + Carved(blocks[i], n) + blocks[i + 1..];
      }
      blocks := blocks[..i] + Carved(blocks[i], n) + blocks[i + 1..];
      p := current + HEADER;
    }

    method Kfree(p: nat)
      requires Valid() && (p != NULL ==> exists i: nat :: LiveAt(blocks, p, i))
      modifies this
      ensures Valid() && blocks == Release(old(blocks), p)
    {
      hide Holds, Tiles;
      if p == NULL {
        return;
      }
      ghost var bs := blocks;
      ghost var i: nat :| LiveAt(bs, p, i);
      ReleaseAt(bs, HEAP_START, HEAP_END, p, i, 0);
      FreedTiles(bs, HEAP_START, HEAP_END, i);
      HeaderAt(mem, bs, i);
      Apart(bs, i);
      if i + 1 < |bs| { HeaderAt(mem, bs, i + 1); }
      var block := p - HEADER;
      mem := mem[block := mem[block].(isFree := true)];
      var next := mem[block].next;
      if next != NULL && mem[next].isFree {
        mem := mem[block := mem[block].(size := mem[block].size + HEADER + mem[next].size)];
        mem := mem[block := mem[block].(next := mem[next].next)];
        MergedHolds(old(mem), mem, bs, i);
      } else {
        WholeHolds(old(mem), mem, bs, i, true);
      }
      blocks := Freed(bs, i);
    }
  }

  lemma SomeBlock(bs: seq<Block>)
    requires Tiles(bs, HEAP_START, HEAP_END)
    ensures bs != [] && bs[0].addr == HEAP_START
  {
  }

  lemma HeaderAt(mem: map<nat, Header>, bs: seq<Block>, i: nat)
    requires Holds(mem, bs) && Tiles(bs, HEAP_START, HEAP_END) && i < |bs|
    ensures bs[i].addr in mem && HEAP_START <= bs[i].addr && (i == 0 ==> bs[i].addr == HEAP_START)
    ensures mem[bs[i].addr] == Header(bs[i].size, bs[i].free, Next(bs, i))
  {
    TilesAt(bs, HEAP_START, HEAP_END, i);
  }

  /** The header of the split-off rest lies inside the old block. */
  lemma RestIsNew(bs: seq<Block>, i: nat, rest: nat)
    requires Tiles(bs, HEAP_START, HEAP_END) && i < |bs| && bs[i].addr < rest < bs[i].End()
    ensures forall j :: 0 <= j < |bs| ==> bs[j].addr != rest
  {
    forall j | 0 <= j < |bs|
      ensures bs[j].addr != rest
    {
      if j < i { Ordered(bs, HEAP_START, HEAP_END, j, i); }
      if i < j { Ordered(bs, HEAP_START, HEAP_END, i, j); }
    }
  }

  lemma Apart(bs: seq<Block>, i: nat)
    requires Tiles(bs, HEAP_START, HEAP_END) && i < |bs|
    ensures forall j :: 0 <= j < |bs| && j != i ==> bs[j].addr != bs[i].addr
  {
    forall j | 0 <= j < |bs| && j != i
      ensures bs[j].addr != bs[i].addr
    {
      if bs[j].addr == bs[i].addr { SameAddr(bs, HEAP_START, HEAP_END, j, i); }
    }
  }

  /** A split: one header rewritten, one created, all others where they were. */
  lemma SplitHolds(mem: map<nat, Header>, mem': map<nat, Header>, bs: seq<Block>, i: nat, n: nat)
    requires Holds(mem, bs) && Tiles(bs, HEAP_START, HEAP_END) && i < |bs| && Splits(bs[i], n)
    requires var a := bs[i].addr;
             var rest := a + HEADER + n;
             mem' == mem[rest := Header(bs[i].size - n - HEADER, true, mem[a].next)][a := Header(n, false, rest)]
    ensures Holds(mem', bs[..i] + Carved(bs[i], n) + bs[i + 1..])
  {
    hide Tiles;
    var c := Carved(bs[i], n);
    var bs' := bs[..i] + c + bs[i + 1..];
    Apart(bs, i);
    RestIsNew(bs, i, c[1].addr);
    assert HoldsAt(mem, bs[i], Next(bs, i));
    forall j | 0 <= j < |bs'|
      ensures HoldsAt(mem', bs'[j], Next(bs', j))
    {
      SplitNext(bs, i, c[0], c[1], j);
      if j < i {
        assert HoldsAt(mem, bs[j], Next(bs, j));
      } else if j > i + 1 {
        assert HoldsAt(mem, bs[j - 1], Next(bs, j - 1));
      }
    }
  }

  lemma SplitNext(bs: seq<Block>, i: nat, b: Block, c: Block, j: nat)
    requires i < |bs| && b.addr == bs[i].addr && j <= |bs|
    ensures var bs' := bs[..i] + [b, c] + bs[i + 1..];
            && bs'[j] == (if j < i then bs[j] else if j == i then b else if j == i + 1 then c else bs[j - 1])
            && Next(bs', j) == (if j < i then Next(bs, j) else if j == i then c.addr else Next(bs, j - 1))
  {
  }

  lemma WholeHolds(mem: map<nat, Header>, mem': map<nat, Header>, bs: seq<Block>, i: nat, free: bool)
    requires Holds(mem, bs) && Tiles(bs, HEAP_START, HEAP_END) && i < |bs|
    requires mem' == mem[bs[i].addr := mem[bs[i].addr].(isFree := free)]
    ensures Holds(mem', bs[i := Block(bs[i].addr, bs[i].size, free)])
  {
    Apart(bs, i);
  }

  lemma MergedHolds(mem: map<nat, Header>, mem': map<nat, Header>, bs: seq<Block>, i: nat)
    requires Holds(mem, bs) && Tiles(bs, HEAP_START, HEAP_END) && i + 1 < |bs| && bs[i + 1].free
    requires mem' == mem[bs[i].addr := Header(bs[i].size + HEADER + bs[i + 1].size, true, mem[bs[i + 1].addr].next)]
    ensures Holds(mem', Freed(bs, i))
  {
    var bs' := Freed(bs, i);
    Apart(bs, i);
    forall j | 0 <= j < |bs'|
      ensures HoldsAt(mem', bs'[j], Next(bs', j))
    {
      if j < i {
        assert bs'[j] == bs[j] && Next(bs', j) == Next(bs, j);
      } else {
        assert Next(bs', j) == Next(bs, j + 1) && (j > i ==> bs'[j] == bs[j + 1]);
      }
    }
  }
}
