/** A slab cache over the kernel heap, which holds the descriptors, and the page allocator,
    which supplies the pages of objects. */
module SlabCache {
  import opened Bytes
  import opened Sequences
  import opened SlabPages
  import opened SlabLists
  import opened SlabSizes
  import opened SlabNeighbours
  import opened HeapBlocks
  import KernelHeap
  import PageAllocator
  import PageBitmap

  class Cache {
    const heap: KernelHeap.Heap
    const pmm: PageAllocator.Pmm
    const ram: array<Byte>
    const size: nat
    var slabs: Slabs
    var lists: Lists
    var numObjs: nat
    var numActive: nat
    var numSlabs: nat
    /** The free slots of each slab in list order. */
    ghost var free: FreeLists

    ghost predicate Valid()
      reads this, ram, heap, pmm, pmm.bitmap
    {
      Solid() && Counted()
    }

    ghost predicate Solid()
      reads this, ram, heap, pmm, pmm.bitmap
    {
      && heap.Valid() && pmm.Valid() && pmm.Guarded() && (ram as object) != pmm.bitmap
      && pmm.totalBlocks * PAGE <= ram.Length && 4 <= size <= PAGE - DESCRIPTOR
      && Stores(ram[..], size, slabs, free)
      && Backed(heap.blocks, pmm.given, slabs)
    }

    /** Every slab is on the list that its counters call for; the totals are exact. */
    ghost predicate Counted()
      reads this
    {
      Listed(slabs, lists) && numSlabs == lists.Count() && numActive == lists.Active(slabs)
    }

    /** a is an object that has been handed out and not yet taken back. */
    ghost predicate Live(a: nat)
      requires free.Keys == slabs.Keys
      reads this
    {
      HeldIn(size, slabs, free, a)
    }

    /** What the cache shares with others. */
    ghost function Around(): World
      reads ram, heap, pmm
    {
      World(heap.blocks, pmm.given, ram[..])
    }

    /** Another cache over the same memory, with descriptors and pages of its own, is intact
        after any operation of this one, and still has them to itself. */
    twostate lemma Beside(other: Cache)
      requires other != this && other.heap == heap && other.pmm == pmm && other.ram == ram
      requires old(other.Valid()) && unchanged(other) && old(Separate(slabs, other.slabs))
      requires Valid() && Private(old(Around()), old(slabs), Around(), slabs)
      requires pmm.totalBlocks == old(pmm.totalBlocks)
      ensures other.Valid() && Separate(slabs, other.slabs)
    {
      hide Stores, Backed, Private, PagesOf, Listed;
      NeighbourKept(old(Around()), old(slabs), Around(), slabs, other.size, other.slabs, other.free);
    }

    constructor Create(heap: KernelHeap.Heap, pmm: PageAllocator.Pmm, ram: array<Byte>, size: nat, align: nat)
      requires heap.Valid() && pmm.Valid() && pmm.Guarded() && pmm.totalBlocks * PAGE <= ram.Length && (ram as object) != pmm.bitmap
      ensures Valid() <==> ObjectSize(size, align) <= PAGE - DESCRIPTOR
      ensures this.heap == heap && this.pmm == pmm && this.ram == ram
      ensures this.size == ObjectSize(size, align) && lists == Lists([], [], []) && numActive == numObjs == 0
      ensures slabs == map[] && free == map[] && forall a: nat :: !Live(a)
    {
      this.heap := heap;
      this.pmm := pmm;
      this.ram := ram;
      this.size := ObjectSize(size, align);
      slabs := map[];
      lists := Lists([], [], []);
      numObjs, numActive, numSlabs := 0, 0, 0;
      free := map[];
    }

    ghost predicate SameSlabs(m: Slabs, f: FreeLists, n: nat)
      reads this
    {
      slabs == m && free == f && numSlabs == n
    }

    /** d is a slab without objects in use, added to those before, in a page that was not
        handed out then. */
    ghost predicate IsNew(m: Slabs, f: FreeLists, d: Ref, given: set<nat>)
      requires d in slabs && 0 < size
      reads this, pmm
    {
      var n := ObjectsPerSlab(size);
      && slabs == m[d := Slab(slabs[d].mem, 0, n, slabs[d].mem)] && free == f[d := Counting(n)]
      && slabs[d].mem / PAGE !in given && pmm.given == given + {slabs[d].mem / PAGE}
    }

    // ---- memory -------------------------------------------------------------------------

    method StoreWord(a: nat, v: nat)
      requires a + 4 <= ram.Length && v < SlabPages.WORD_RANGE
      modifies ram
      ensures ram[..] == Stored(old(ram[..]), a, v)
    {
      Digits(v);
      ram[a] := v % 256;
      ram[a + 1] := v / 256 % 256;
      ram[a + 2] := v / 0x1_0000 % 256;
      ram[a + 3] := v / 0x100_0000;
    }

    method LoadWord(a: nat) returns (v: nat)
      requires a + 4 <= ram.Length
      ensures v == Load(ram[..], a)
    {
      v := ram[a] as int + 256 * ram[a + 1] as int + 0x1_0000 * ram[a + 2] as int + 0x100_0000 * ram[a + 3] as int;
    }

    method Zero(a: nat, n: nat)
      requires a + n <= ram.Length
      modifies ram
      ensures Agree(old(ram[..]), ram[..], a, a + n) && forall k :: a <= k < a + n ==> ram[k] == 0
    {
      var i := 0;
      while i < n
        invariant 0 <= i <= n
        invariant Agree(old(ram[..]), ram[..], a, a + n) && forall k :: a <= k < a + i ==> ram[k] == 0
      {
        ram[a + i] := 0;
        i := i + 1;
      }
    }

    /** Threads the free list through the slots of a new page, first to last. */
    method LinkSlots(mem: nat, objects: nat)
      requires 4 <= size && 0 < objects == ObjectsPerSlab(size)
      requires mem + PAGE <= ram.Length && mem + PAGE <= SlabPages.WORD_RANGE
      modifies ram
      ensures Agree(old(ram[..]), ram[..], mem, mem + PAGE)
      ensures forall k :: 0 <= k < objects ==> HoldsLink(ram[..], mem, size, Counting(objects), k)
    {
      hide ObjectsPerSlab, Load, Stored;
      ghost var before := ram[..];
      var obj := mem;
      var i := 0;
      FirstSlot(mem, size);
      while i < objects - 1
        invariant 0 <= i <= objects - 1 && obj == Addr(mem, size, i)
        invariant Agree(before, ram[..], mem, mem + PAGE)
        invariant forall k :: 0 <= k < i ==> HoldsLink(ram[..], mem, size, Counting(objects), k)
      {
        var next := obj + size;
        LinkStep(before, ram[..], mem, size, objects, i);
        StoreWord(obj, next);
        obj := next;
        i := i + 1;
      }
      LinkStep(before, ram[..], mem, size, objects, i);
      StoreWord(obj, NULL);
    }

    // ---- slabs ----------------------------------------------------------------------------

    /** A descriptor from the heap and a page from the page allocator, or nothing of either. */
    method TakeMemory() returns (d: Ref, page: nat)
      requires Valid()
      modifies heap, pmm`usedBlocks, pmm`given, pmm.bitmap
      ensures Solid() && pmm.totalBlocks == old(pmm.totalBlocks)
      ensures d == NULL <==> NoRoom(old(heap.blocks), old(pmm.bitmap[..]), pmm.totalBlocks)
      ensures d == NULL ==> pmm.given == old(pmm.given) && Pointers(heap.blocks) == Pointers(old(heap.blocks))
      ensures d != NULL ==>
                && Pointers(heap.blocks) == Pointers(old(heap.blocks)) + {d} && d !in Pointers(old(heap.blocks))
                && pmm.given == old(pmm.given) + {page / PAGE} && page / PAGE !in old(pmm.given)
                && 0 < page && page % PAGE == 0 && page + PAGE <= ram.Length && page + PAGE <= SlabPages.WORD_RANGE
    {
      hide Stores, Backed, Listed, Pointers, HeldIn;
      hide PageBitmap.Marked, PageBitmap.FirstFree, PageBitmap.UsedSet, PageBitmap.Guard, PageBitmap.Used;
      hide Tiles, KernelHeap.Holds, Malloc, Release, Lists.Active, Lists.Count;
      ghost var bs := heap.blocks;
      d := heap.Kmalloc(DESCRIPTOR);
      if d == NULL {
        MallocFails(bs, DESCRIPTOR);
        return NULL, 0;
      }
      MallocPointers(bs, HEAP_START, HEAP_END, DESCRIPTOR);
      BackedMore(bs, pmm.given, slabs, heap.blocks, pmm.given);
      page := pmm.AllocBlock();
      if page == 0 {
        ghost var held := heap.blocks;
        HeldPointer(held, d);
        FreedPointers(held, HEAP_START, HEAP_END, d);
        heap.Kfree(d);
        assert Pointers(heap.blocks) == Pointers(bs);
        BackedMore(bs, pmm.given, slabs, heap.blocks, pmm.given);
        return NULL, 0;
      }
      PageAllocator.TakenBelow(pmm.bitmap[..], pmm.totalBlocks);
      BackedMore(heap.blocks, old(pmm.given), slabs, heap.blocks, pmm.given);
    }

    method NewSlab() returns (d: Ref)
      requires Valid()
      modifies `slabs, `free, `numSlabs, ram, heap, pmm`usedBlocks, pmm`given, pmm.bitmap
      ensures Solid() && pmm.totalBlocks == old(pmm.totalBlocks)
      ensures d == NULL <==> NoRoom(old(heap.blocks), old(pmm.bitmap[..]), pmm.totalBlocks)
      ensures d == NULL ==> SameSlabs(old(slabs), old(free), old(numSlabs)) && ram[..] == old(ram[..])
                            && pmm.given == old(pmm.given) && Pointers(heap.blocks) == Pointers(old(heap.blocks))
      ensures d != NULL ==>
                && d !in old(slabs) && d in slabs && numSlabs == old(numSlabs) + 1
                && Pointers(heap.blocks) == Pointers(old(heap.blocks)) + {d} && d !in Pointers(old(heap.blocks))
                && IsNew(old(slabs), old(free), d, old(pmm.given))
                && slabs[d].objects * size <= 4072 < (slabs[d].objects + 1) * size
                && Agree(old(ram[..]), ram[..], slabs[d].mem, slabs[d].mem + PAGE)
    {
      hide Stores, Backed, Listed, Pointers, HeldIn, PageBitmap.FirstFree, PageBitmap.UsedSet, PageBitmap.Guard, PageBitmap.Used;
      hide Tiles, KernelHeap.Holds, ObjectsPerSlab, Lists.Active, Lists.Count, SlabOk, HoldsLink;
      var page;
      d, page := TakeMemory();
      assert ram[..] == old(ram[..]);
      if d == NULL {
        return;
      }
      var objects := CalculateObjects();
      LinkSlots(page, objects);
      var s := Slab(page, 0, objects, page);
      FreshOk(ram[..], size, page);
      NotBacked(old(heap.blocks), old(pmm.given), slabs, d);
      FreshPage(old(heap.blocks), old(pmm.given), slabs, s);
      StoresAdd(old(ram[..]), ram[..], size, slabs, free, d, s, Counting(objects));
      BackedNew(old(heap.blocks), old(pmm.given), slabs, heap.blocks, pmm.given, d, s);
      slabs := slabs[d := s];
      free := free[d := Counting(objects)];
      numSlabs := numSlabs + 1;
    }

    method CalculateObjects() returns (n: nat)
      requires 0 < size <= PAGE - DESCRIPTOR
      ensures n == ObjectsPerSlab(size) && 0 < n && n * size <= 4072 < (n + 1) * size
    {
      OnePerSlab(size);
      ObjectsFill(size);
      n := (PAGE - DESCRIPTOR) / size;
    }

    // ---- allocation -----------------------------------------------------------------------

    /** A slab with a free slot: the first partly used one, else the first unused one, else
        a new one. */
    method Pick() returns (d: Ref)
      requires Valid()
      modifies `slabs, `free, `numSlabs, `lists, ram, heap, pmm`usedBlocks, pmm`given, pmm.bitmap
      ensures Valid() && numActive == old(numActive) && old(pmm.given) <= pmm.given
      ensures d == NULL <==> old(lists).partial == [] && old(lists).empty == []
                             && NoRoom(old(heap.blocks), old(pmm.bitmap[..]), old(pmm.totalBlocks))
      ensures d == NULL ==> SameSlabs(old(slabs), old(free), old(numSlabs)) && lists == old(lists)
                            && ram[..] == old(ram[..]) && pmm.given == old(pmm.given)
      ensures d != NULL ==> d in slabs && slabs[d].inuse < slabs[d].objects
      ensures old(lists).partial != [] ==> d == old(lists).partial[0] && SameSlabs(old(slabs), old(free), old(numSlabs))
      ensures old(lists).partial == [] && old(lists).empty != [] ==>
                d == old(lists).empty[0] && SameSlabs(old(slabs), old(free), old(numSlabs))
      ensures Private(old(Around()), old(slabs), Around(), slabs) && pmm.totalBlocks == old(pmm.totalBlocks)
      ensures d == NULL ==> Pointers(heap.blocks) == Pointers(old(heap.blocks))
      ensures forall a: nat :: Live(a) <==> old(Live(a))
      ensures Untouched(old(ram[..]), ram[..], pmm.given - old(pmm.given), 0, 0)
    {
      hide Stores, Backed, ListedAs, Pointers, HeldIn, PageBitmap.UsedSet, PageBitmap.Guard, PageBitmap.Used, NoRoom;
      hide Tiles, KernelHeap.Holds, ObjectsPerSlab, Lists.Active, Lists.Count, Lists.With, Private;
      NotNull(heap.blocks, pmm.given, slabs);
      SameKeys(ram[..], size, slabs, free);
      OnLists(ram[..], size, slabs, free, lists);
      PrivateSame(Around(), slabs, Around());
      if lists.partial != [] {
        d := lists.partial[0];
        return;
      }
      if lists.empty != [] {
        d := lists.empty[0];
        return;
      }
      d := NewSlab();
      if d == NULL {
        PrivateSame(old(Around()), slabs, Around());
        return;
      }
      With(old(slabs), lists, d, slabs[d]);
      NewUnused(ram[..], size, old(slabs), old(free), slabs, free, lists, d);
      BackedAt(heap.blocks, pmm.given, slabs, d);
      AgreeKept(old(ram[..]), ram[..], slabs[d].mem, old(pmm.given), pmm.given);
      PrivateNew(old(Around()), old(slabs), Around(), d, slabs[d]);
      lists := lists.(empty := [d] + lists.empty);
    }

    /** Hands out the first free slot of a slab, zeroed. */
    method Take(d: Ref) returns (obj: nat)
      requires Valid() && d in slabs && slabs[d].inuse < slabs[d].objects
      modifies `slabs, `free, `lists, `numActive, `numObjs, ram
      ensures Valid() && numActive == old(numActive) + 1 && numObjs == old(numObjs) + 1
      ensures slabs.Keys == old(slabs).Keys && lists == old(lists).Without(d).With(d, slabs[d])
      ensures obj == old(slabs)[d].freelist != NULL && obj + size <= ram.Length && !old(Live(obj))
      ensures forall a: nat :: Live(a) <==> old(Live(a)) || a == obj
      ensures Private(old(Around()), old(slabs), Around(), slabs) && PagesOf(slabs) == old(PagesOf(slabs))
      ensures Agree(old(ram[..]), ram[..], obj, obj + size) && forall k :: obj <= k < obj + size ==> ram[k] == 0
    {
      hide Stores, Backed, Listed, Pointers, HeldIn, PageBitmap.UsedSet, PageBitmap.Guard, PageBitmap.Used;
      hide Tiles, KernelHeap.Holds, ObjectsPerSlab, Lists.Active, Lists.Count, Lists.Without, HoldsLink, Load, Private, PagesOf, SlabOk, Addr, Agree;
      ghost var m, f, words := slabs, free, ram[..];
      FirstFree(words, size, m, f, d);
      obj := slabs[d].freelist;
      if obj == NULL {
        assert false;
        return;
      }
      var next := LoadWord(obj);
      var s := slabs[d].(freelist := next, inuse := slabs[d].inuse + 1);
      Moved(slabs, lists, d, s);
      slabs := slabs[d := s];
      lists := lists.Without(d);
      if s.inuse == s.objects {
        lists := lists.(full := [d] + lists.full);
      } else {
        lists := lists.(partial := [d] + lists.partial);
      }
      numActive := numActive + 1;
      numObjs := numObjs + 1;
      Zero(obj, size);
      free := free[d := f[d][1..]];
      TakeKeeps(old(Around()), ram[..], size, m, f, d);
    }

    method Alloc() returns (obj: nat)
      requires Valid()
      modifies this, ram, heap, pmm`usedBlocks, pmm`given, pmm.bitmap
      ensures Valid() && old(pmm.given) <= pmm.given
      ensures obj == NULL <==> old(lists).partial == [] && old(lists).empty == []
                               && NoRoom(old(heap.blocks), old(pmm.bitmap[..]), old(pmm.totalBlocks))
      ensures old(lists).partial == [] && old(lists).empty == [] <==> Crammed(size, old(slabs))
      ensures obj == NULL ==> SameSlabs(old(slabs), old(free), old(numSlabs)) && lists == old(lists)
                              && numActive == old(numActive) && numObjs == old(numObjs)
                              && ram[..] == old(ram[..]) && pmm.given == old(pmm.given)
      ensures Private(old(Around()), old(slabs), Around(), slabs) && pmm.totalBlocks == old(pmm.totalBlocks)
      ensures obj == NULL ==> Pointers(heap.blocks) == Pointers(old(heap.blocks))
      ensures old(lists).partial != [] ==>
                old(lists).partial[0] in old(slabs) && obj == old(slabs)[old(lists).partial[0]].freelist
      ensures old(lists).partial == [] && old(lists).empty != [] ==>
                old(lists).empty[0] in old(slabs) && obj == old(slabs)[old(lists).empty[0]].freelist
      ensures obj != NULL ==> numActive == old(numActive) + 1 && numObjs == old(numObjs) + 1
      ensures obj != NULL ==> !old(Live(obj)) && forall a: nat :: Live(a) <==> old(Live(a)) || a == obj
      ensures obj != NULL ==> obj + size <= ram.Length && forall k :: obj <= k < obj + size ==> ram[k] == 0
      ensures Untouched(old(ram[..]), ram[..], pmm.given - old(pmm.given), obj, obj + size)
      ensures forall a: nat :: old(Live(a)) ==> SameBytes(old(ram[..]), ram[..], a, size)
    {
      hide Stores, Backed, HeldIn, Listed, NoRoom, Untouched, SameBytes, Crammed;
      hide KernelHeap.Holds, Tiles, PageBitmap.Guard, PageBitmap.Used, PageBitmap.UsedSet, Lists.Active, Lists.Count;
      SameKeys(ram[..], size, slabs, free);
      ghost var m, f, bs, given, before := slabs, free, heap.blocks, pmm.given, ram[..];
      hide Private, PagesOf;
      NoneLeft(before, size, m, f, lists);
      var d := Pick();
      ghost var w1, m1 := Around(), slabs;
      if d == NULL {
        AllSame(before, ram[..], size, m, f, bs, given);
        assert pmm.given - given == {};
        return NULL;
      }
      ghost var between := ram[..];
      SameKeys(between, size, slabs, free);
      obj := Take(d);
      SameKeys(ram[..], size, slabs, free);
      assert Live(obj);
      forall a: nat | HeldIn(size, m, f, a)
        ensures HeldIn(size, slabs, free, a)
      {
        assert Live(a);
      }
      PrivateThen(old(Around()), m, w1, m1, Around(), slabs);
      UntouchedThen(before, between, ram[..], pmm.given - given, obj, obj + size);
      OthersSame(before, ram[..], size, m, f, bs, given, slabs, free, pmm.given - given, obj);
    }

    // ---- release --------------------------------------------------------------------------

    /** The slab on the list whose page the address lies in. */
    method Search(list: seq<Ref>, obj: nat) returns (d: Ref)
      requires forall e: Ref :: e in list ==> e in slabs && e != NULL
      ensures d != NULL ==> d in list && InPage(slabs[d], obj)
      ensures d == NULL ==> forall e: Ref :: e in list ==> !InPage(slabs[e], obj)
    {
      var i := 0;
      while i < |list|
        invariant 0 <= i <= |list| && forall k :: 0 <= k < i ==> !InPage(slabs[list[k]], obj)
      {
        var pos := list[i];
        if slabs[pos].mem <= obj && obj < slabs[pos].mem + PAGE {
          return pos;
        }
        i := i + 1;
      }
      d := NULL;
    }

    /** Takes back an object in use; an address in no page with objects in use is ignored. */
    method Free(obj: nat)
      requires Valid() && (Live(obj) || Foreign(slabs, obj))
      modifies `slabs, `free, `lists, `numActive, ram
      ensures Valid()
      ensures old(Foreign(slabs, obj)) ==>
                && slabs == old(slabs) && free == old(free) && lists == old(lists)
                && numActive == old(numActive) && ram[..] == old(ram[..])
      ensures Private(old(Around()), old(slabs), Around(), slabs)
      ensures !old(Foreign(slabs, obj)) ==>
                && numActive == old(numActive) - 1 && Agree(old(ram[..]), ram[..], obj, obj + 4)
                && (forall a: nat :: Live(a) <==> old(Live(a)) && a != obj)
                && (Offers(slabs, lists.partial, obj) || Offers(slabs, lists.empty, obj))
      ensures forall a: nat :: Live(a) ==> SameBytes(old(ram[..]), ram[..], a, size)
    {
      hide Stores, Backed, HeldIn, Listed, Foreign, Untouched, SameBytes, Private;
      hide KernelHeap.Holds, Tiles, PageBitmap.Guard, PageBitmap.Used, PageBitmap.UsedSet, Lists.Active, Lists.Count;
      ghost var m, f, before := slabs, free, ram[..];
      SameKeys(before, size, m, f);
      NotNull(heap.blocks, pmm.given, slabs);
      OnFullOrPartial(before, size, m, f, lists);
      var d := Search(lists.full, obj);
      if d == NULL {
        d := Search(lists.partial, obj);
      }
      if d == NULL {
        Searched(m, lists, obj);
        PrivateSame(old(Around()), m, Around());
        AllSame(before, ram[..], size, m, f, heap.blocks, pmm.given);
        return;
      }
      NotForeign(m, d, obj);
      Owner(before, size, m, f, d, obj);
      Put(d, obj);
      SameKeys(ram[..], size, slabs, free);
      forall a: nat | HeldIn(size, slabs, free, a)
        ensures HeldIn(size, m, f, a) && a != obj
      {
        assert Live(a);
      }
      RestSame(before, ram[..], size, m, f, heap.blocks, pmm.given, slabs, free, obj);
    }

    method Put(d: Ref, obj: nat)
      requires Valid() && d in slabs && free.Keys == slabs.Keys && Held(size, slabs[d], free[d], obj)
      modifies `slabs, `free, `lists, `numActive, ram
      ensures Valid() && numActive == old(numActive) - 1 && Agree(old(ram[..]), ram[..], obj, obj + 4)
      ensures slabs.Keys == old(slabs).Keys && lists == old(lists).Without(d).With(d, slabs[d])
      ensures Offers(slabs, lists.partial, obj) || Offers(slabs, lists.empty, obj)
      ensures Private(old(Around()), old(slabs), Around(), slabs)
      ensures forall a: nat :: Live(a) <==> old(Live(a)) && a != obj
    {
      hide Stores, Backed, Listed, Pointers, HeldIn, PageBitmap.UsedSet, PageBitmap.Guard, PageBitmap.Used;
      hide Tiles, KernelHeap.Holds, ObjectsPerSlab, Lists.Active, Lists.Count, Lists.Without, HoldsLink, Load, Stored, Held, SlabOk;
      hide Private, PagesOf;
      ghost var m, f, words := slabs, free, ram[..];
      ghost var j := SlotOf(size, m[d], f[d], obj);
      SlabAt(words, size, m, f, d);
      HeldInPage(words, size, m[d], f[d], obj);
      PushOk(words, size, m[d], f[d], j);
      LoadStored(words, obj, m[d].freelist);
      StoreWord(obj, slabs[d].freelist);
      var s := slabs[d].(freelist := obj, inuse := slabs[d].inuse - 1);
      Moved(slabs, lists, d, s);
      SlabCounts(words, size, m[d], f[d]);
      slabs := slabs[d := s];
      free := free[d := [j] + f[d]];
      lists := lists.Without(d);
      if s.inuse == 0 {
        lists := lists.(empty := [d] + lists.empty);
      } else {
        lists := lists.(partial := [d] + lists.partial);
      }
      numActive := numActive - 1;
      StoresUpdate(words, ram[..], size, m, f, d, s, [j] + f[d], obj, obj + 4);
      BackedAt(heap.blocks, pmm.given, m, d);
      PrivateWrite(old(Around()), m, d, s, ram[..], obj, obj + 4);
      BackedMoved(heap.blocks, pmm.given, m, d, s);
      forall a: nat
        ensures HeldIn(size, slabs, free, a) <==> HeldIn(size, m, f, a) && a != obj
      {
        GivenLive(words, size, m, f, d, s, j, a);
      }
    }

    // ---- giving memory back ------------------------------------------------------------------

    method Destroy(d: Ref)
      requires Valid() && d in slabs && slabs[d].inuse == 0
      modifies `slabs, `free, `lists, `numSlabs, heap, pmm`usedBlocks, pmm`given, pmm.bitmap
      ensures Valid() && numSlabs == old(numSlabs) - 1 && lists == old(lists).Without(d) && slabs == old(slabs) - {d}
      ensures Pointers(heap.blocks) == Pointers(old(heap.blocks)) - {d} && pmm.totalBlocks == old(pmm.totalBlocks)
      ensures Private(old(Around()), old(slabs), Around(), slabs) && PagesOf(slabs) <= old(PagesOf(slabs))
      ensures pmm.given == old(pmm.given) - {old(slabs)[d].mem / PAGE} && ram[..] == old(ram[..])
      ensures forall a: nat :: Live(a) <==> old(Live(a))
    {
      hide Stores, Backed, Listed, Pointers, HeldIn, PageBitmap.Unmarked, PageBitmap.UsedSet, PageBitmap.Used;
      hide Tiles, KernelHeap.Holds, Release, Lists.Active, Lists.Count, Lists.Without, Private, PagesOf;
      ghost var m, f, bs, given := slabs, free, heap.blocks, pmm.given;
      SlabAt(ram[..], size, m, f, d);
      BackedAt(bs, given, m, d);
      NotNull(bs, given, m);
      pmm.FreeBlock(slabs[d].mem);
      Without(m, lists, d);
      lists := lists.Without(d);
      HeldPointer(bs, d);
      FreedPointers(bs, HEAP_START, HEAP_END, d);
      heap.Kfree(d);
      slabs := slabs - {d};
      free := free - {d};
      numSlabs := numSlabs - 1;
      assert ram[..] == old(ram[..]);
      StoresLess(ram[..], size, m, f, d);
      OwnPages(ram[..], size, m, f, bs, given, d);
      PrivateDrop(old(Around()), m, Around(), d);
      BackedLess(bs, given, m, heap.blocks, pmm.given, d, ram[..], size, f);
      forall a: nat
        ensures HeldIn(size, slabs, free, a) <==> HeldIn(size, m, f, a)
      {
        UnusedLive(ram[..], size, m, f, d, a);
      }
    }

    /** Gives back the memory of all unused slabs but the last on their list. */
    method Shrink() returns (freed: nat)
      requires Valid()
      modifies `slabs, `free, `lists, `numSlabs, heap, pmm`usedBlocks, pmm`given, pmm.bitmap
      ensures Valid() && numSlabs == old(numSlabs) - freed && numActive == old(numActive)
      ensures freed == if old(lists).empty == [] then 0 else |old(lists).empty| - 1
      ensures lists == old(lists).(empty := old(lists).empty[freed..]) && ram[..] == old(ram[..])
      ensures pmm.given <= old(pmm.given) && |old(pmm.given)| == |pmm.given| + freed
      ensures Private(old(Around()), old(slabs), Around(), slabs) && pmm.totalBlocks == old(pmm.totalBlocks)
      ensures forall a: nat :: Live(a) <==> old(Live(a))
    {
      hide Stores, Backed, Listed, Pointers, HeldIn, PageBitmap.Marked, PageBitmap.UsedSet, PageBitmap.Guard, PageBitmap.Used;
      hide Tiles, KernelHeap.Holds, Lists.Active, Lists.Count, Lists.Without, Private, PagesOf;
      PrivateSame(Around(), slabs, Around());
      SameKeys(ram[..], size, slabs, free);
      var emptyCount := 0;
      for i := 0 to |lists.empty|
        invariant emptyCount == i
      {
        emptyCount := emptyCount + 1;
      }
      freed := 0;
      while emptyCount > 1
        invariant Valid() && emptyCount == |lists.empty| && numActive == old(numActive)
        invariant freed <= |old(lists).empty| && lists == old(lists).(empty := old(lists).empty[freed..])
        invariant emptyCount == 0 ==> freed == 0
        invariant numSlabs + freed == old(numSlabs) && ram[..] == old(ram[..])
        invariant pmm.given <= old(pmm.given) && |old(pmm.given)| == |pmm.given| + freed
        invariant Private(old(Around()), old(slabs), Around(), slabs) && PagesOf(slabs) <= old(PagesOf(slabs))
        invariant pmm.totalBlocks == old(pmm.totalBlocks)
        invariant free.Keys == slabs.Keys && forall a: nat :: Live(a) <==> old(Live(a))
      {
        var slab := lists.empty[0];
        WithoutFirst(slabs, lists);
        BackedAt(heap.blocks, pmm.given, slabs, slab);
        ghost var w1, m1 := Around(), slabs;
        Destroy(slab);
        PrivateThen(old(Around()), old(slabs), w1, m1, Around(), slabs);
        SameKeys(ram[..], size, slabs, free);
        freed := freed + 1;
        emptyCount := emptyCount - 1;
      }
    }
  }

  /** The next object that the first slab on the list gives out. */
  predicate Offers(m: Slabs, list: seq<Ref>, obj: nat) {
    list != [] && list[0] in m && m[list[0]].freelist == obj
  }

  lemma NotForeign(m: Slabs, d: Ref, a: nat)
    requires d in m && 0 < m[d].inuse && InPage(m[d], a)
    ensures !Foreign(m, a)
  {
  }

  lemma SlabCounts(ram: Ram, size: nat, s: Slab, fs: seq<nat>)
    requires SlabOk(ram, size, s, fs)
    ensures s.inuse <= s.objects && 0 < s.objects
  {
  }

  lemma RestSame(ram: Ram, ram': Ram, size: nat, m: Slabs, free: FreeLists, bs: seq<Block>, given: set<nat>,
                 m': Slabs, free': FreeLists, obj: nat)
    requires Stores(ram, size, m, free) && Backed(bs, given, m) && free.Keys == m.Keys && HeldIn(size, m, free, obj)
    requires free'.Keys == m'.Keys && forall a: nat :: HeldIn(size, m', free', a) ==> HeldIn(size, m, free, a) && a != obj
    requires Agree(ram, ram', obj, obj + 4) && 4 <= size
    ensures forall a: nat :: HeldIn(size, m', free', a) ==> SameBytes(ram, ram', a, size)
  {
    hide Stores, Backed, HeldIn, SameBytes;
    forall a: nat | HeldIn(size, m', free', a)
      ensures SameBytes(ram, ram', a, size)
    {
      if a < obj { LiveApart(ram, size, m, free, a, obj); } else { LiveApart(ram, size, m, free, obj, a); }
      Undisturbed(ram, size, m, free, bs, given, a, ram', {}, obj, obj + size);
    }
  }

  lemma UntouchedThen(ram: Ram, ram1: Ram, ram2: Ram, pages: set<nat>, lo: nat, hi: nat)
    requires Untouched(ram, ram1, pages, 0, 0) && Agree(ram1, ram2, lo, hi)
    ensures Untouched(ram, ram2, pages, lo, hi)
  {
  }

  lemma AllSame(ram: Ram, ram': Ram, size: nat, m: Slabs, free: FreeLists, bs: seq<Block>, given: set<nat>)
    requires Stores(ram, size, m, free) && Backed(bs, given, m) && ram' == ram && free.Keys == m.Keys
    ensures Untouched(ram, ram', {}, NULL, NULL + size)
    ensures forall a: nat :: HeldIn(size, m, free, a) ==> SameBytes(ram, ram', a, size)
  {
    hide Stores, Backed, HeldIn, SameBytes;
    forall a: nat | HeldIn(size, m, free, a)
      ensures SameBytes(ram, ram', a, size)
    {
      Undisturbed(ram, size, m, free, bs, given, a, ram', {}, 0, 0);
    }
  }

  lemma OthersSame(ram: Ram, ram': Ram, size: nat, m: Slabs, free: FreeLists, bs: seq<Block>, given: set<nat>,
                   m': Slabs, free': FreeLists, pages: set<nat>, obj: nat)
    requires Stores(ram, size, m, free) && Backed(bs, given, m) && free.Keys == m.Keys && pages !! given
    requires Stores(ram', size, m', free') && free'.Keys == m'.Keys && HeldIn(size, m', free', obj) && !HeldIn(size, m, free, obj)
    requires forall a: nat :: HeldIn(size, m, free, a) ==> HeldIn(size, m', free', a)
    requires Untouched(ram, ram', pages, obj, obj + size)
    ensures forall a: nat :: HeldIn(size, m, free, a) ==> SameBytes(ram, ram', a, size)
  {
    hide Stores, Backed, HeldIn, SameBytes, Untouched;
    forall a: nat | HeldIn(size, m, free, a)
      ensures SameBytes(ram, ram', a, size)
    {
      if a < obj { LiveApart(ram', size, m', free', a, obj); } else { LiveApart(ram', size, m', free', obj, a); }
      Undisturbed(ram, size, m, free, bs, given, a, ram', pages, obj, obj + size);
    }
  }

  lemma AgreeKept(ram: Ram, ram': Ram, mem: nat, given: set<nat>, given': set<nat>)
    requires Agree(ram, ram', mem, mem + PAGE) && mem % PAGE == 0 && mem / PAGE in given' - given
    ensures Untouched(ram, ram', given' - given, 0, 0)
  {
  }

  /** The slabs that allocation looks at have room. */
  lemma OnLists(ram: Ram, size: nat, m: Slabs, free: FreeLists, l: Lists)
    requires Listed(m, l) && Stores(ram, size, m, free)
    ensures l.partial != [] ==> l.partial[0] in m && m[l.partial[0]].inuse < m[l.partial[0]].objects
    ensures l.empty != [] ==> l.empty[0] in m && m[l.empty[0]].inuse < m[l.empty[0]].objects
  {
    hide HoldsLink, Link, ObjectsPerSlab, Distinct, PagesApart;
    assert ListedAs(m, l.Of(Full), Full) && ListedAs(m, l.Of(Partial), Partial) && ListedAs(m, l.Of(Empty), Empty);
  }

  /** The heap has no block for a descriptor, or there is no free page. */
  ghost predicate NoRoom(bs: seq<Block>, words: PageBitmap.Words, total: nat)
    requires total <= PageBitmap.MAX_BLOCKS
  {
    Pointer(bs, DESCRIPTOR) == 0 || PageBitmap.FirstFree(words, total, 0) == PageBitmap.NONE
  }

  lemma FirstSlot(mem: nat, size: nat)
    ensures Addr(mem, size, 0) == mem
  {
  }

  /** Writing the link of slot i leaves those before it as they are. */
  lemma LinkStep(before: Ram, ram: Ram, mem: nat, size: nat, objects: nat, i: nat)
    requires 4 <= size && i < objects == ObjectsPerSlab(size) && mem + PAGE <= |ram| && mem + PAGE <= SlabPages.WORD_RANGE
    requires Agree(before, ram, mem, mem + PAGE)
    requires forall k :: 0 <= k < i ==> HoldsLink(ram, mem, size, Counting(objects), k)
    ensures Addr(mem, size, i + 1) == Addr(mem, size, i) + size && Addr(mem, size, i) + size <= mem + PAGE
    ensures var v := if i + 1 < objects then Addr(mem, size, i + 1) else NULL;
            && v < SlabPages.WORD_RANGE
            && Agree(before, Stored(ram, Addr(mem, size, i), v), mem, mem + PAGE)
            && forall k :: 0 <= k < i + 1 ==> HoldsLink(Stored(ram, Addr(mem, size, i), v), mem, size, Counting(objects), k)
  {
    hide Stored, Load;
    var a := Addr(mem, size, i);
    NextSlot(mem, size, i);
    SlotInPage(mem, size, i);
    if i + 1 < objects { SlotInPage(mem, size, i + 1); }
    var v := if i + 1 < objects then Addr(mem, size, i + 1) else NULL;
    LoadStored(ram, a, v);
    var ram' := Stored(ram, a, v);
    var fs := Counting(objects);
    forall k | 0 <= k < i + 1
      ensures HoldsLink(ram', mem, size, fs, k)
    {
      if k < i {
        assert HoldsLink(ram, mem, size, fs, k);
        SlotApart(mem, size, k, i);
        LoadAgree(ram, ram', a, a + 4, Addr(mem, size, k));
      }
    }
  }

  lemma NextSlot(mem: nat, size: nat, i: nat)
    ensures Addr(mem, size, i + 1) == Addr(mem, size, i) + size
  {
  }

  lemma FirstFree(ram: Ram, size: nat, m: Slabs, f: FreeLists, d: Ref)
    requires Stores(ram, size, m, f) && d in m && m[d].inuse < m[d].objects
    ensures f.Keys == m.Keys && f[d] != [] && 0 < m[d].freelist
    ensures m[d].mem <= m[d].freelist && m[d].freelist + size <= m[d].mem + PAGE <= |ram| && m[d].freelist + 4 <= |ram|
  {
    SlabAt(ram, size, m, f, d);
    PopOk(ram, ram, size, m[d], f[d]);
  }

  /** What taking the first slot of d, and writing inside it, keeps. */
  lemma TakeKeeps(w: World, ram: Ram, size: nat, m: Slabs, f: FreeLists, d: Ref)
    requires Stores(w.ram, size, m, f) && Backed(w.bs, w.given, m) && d in m && m[d].inuse < m[d].objects
    requires m[d].freelist + 4 <= |w.ram| && d in f && f[d] != [] && f.Keys == m.Keys
    requires Agree(w.ram, ram, m[d].freelist, m[d].freelist + size)
    ensures var s := Popped(w.ram, m[d]);
            && Stores(ram, size, m[d := s], f[d := f[d][1..]]) && Backed(w.bs, w.given, m[d := s])
            && Private(w, m, w.(ram := ram), m[d := s]) && PagesOf(m[d := s]) == PagesOf(m)
            && (forall a: nat :: HeldIn(size, m[d := s], f[d := f[d][1..]], a) <==> HeldIn(size, m, f, a) || a == m[d].freelist)
            && !HeldIn(size, m, f, m[d].freelist)
  {
    hide Stores, Backed, HeldIn, Private, PagesOf, Agree, SlabOk, Addr, Load;
    SlabAt(w.ram, size, m, f, d);
    PopOk(w.ram, ram, size, m[d], f[d]);
    var s := Popped(w.ram, m[d]);
    StoresUpdate(w.ram, ram, size, m, f, d, s, f[d][1..], m[d].freelist, m[d].freelist + size);
    BackedAt(w.bs, w.given, m, d);
    PrivateWrite(w, m, d, s, ram, m[d].freelist, m[d].freelist + size);
    BackedMoved(w.bs, w.given, m, d, s);
    AllTaken(w.ram, size, m, f, d, s);
  }
}
