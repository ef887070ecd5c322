/** The process structures in the memory of their slab cache: what is in use there are exactly
    the processes of the ready queue. */
module ProcessSlab {
  import opened Bytes
  import opened Sequences
  import opened IntrusiveList
  import opened SchedSpec
  import opened Scheduler
  import opened SlabLists
  import SlabPages
  import SlabCache
  import SlabNeighbours
  import KernelHeap
  import HeapBlocks
  import PageBitmap

  // ---- the structure in memory --------------------------------------------------------------

  const PROCESS_BYTES: nat := 204
  const STACK_AT: nat := 8
  const STATE_AT: nat := 24
  const PRIORITY_AT: nat := 28
  const SLICE_AT: nat := 32
  const RUNTIME_AT: nat := 36
  const PENDING_AT: nat := 72
  const HANDLERS_AT: nat := 76

  function StateOf(code: nat): ProcState {
    if code == 0 then Ready else if code == 1 then Running else if code == 2 then Blocked else Terminated
  }

  function HandlerOf(word: nat): Handler {
    if word == 0 then Default else if word == 1 then Ignore else User(word)
  }

  predicate BitOf(word: nat, i: nat) {
    if i == 0 then word % 2 == 1 else BitOf(word / 2, i - 1)
  }

  /** The process that the bytes of a structure stand for. */
  function ProcOf(raw: seq<Byte>): Proc
    requires |raw| == PROCESS_BYTES
  {
    Proc(SlabPages.Load(raw, 4), StateOf(SlabPages.Load(raw, STATE_AT)), raw[PRIORITY_AT],
         SlabPages.Load(raw, SLICE_AT), SlabPages.Load(raw, RUNTIME_AT),
         set i: nat | i < NSIG && BitOf(SlabPages.Load(raw, PENDING_AT), i),
         seq(NSIG, i requires 0 <= i < NSIG => HandlerOf(SlabPages.Load(raw, HANDLERS_AT + 4 * i))),
         SlabPages.Load(raw, STACK_AT))
  }

  /** Where the fields of the structure lie, low bytes first. */
  lemma ProcExact(raw: seq<Byte>)
    requires |raw| == 204
    ensures var p := ProcOf(raw);
            && p.pid == raw[4] as int + 256 * raw[5] as int + 65536 * raw[6] as int + 16777216 * raw[7] as int
            && p.stackTop == raw[8] as int + 256 * raw[9] as int + 65536 * raw[10] as int + 16777216 * raw[11] as int
            && (raw[24..28] == [0, 0, 0, 0] ==> p.state == Ready) && (raw[24..28] == [1, 0, 0, 0] ==> p.state == Running)
            && (raw[24..28] == [2, 0, 0, 0] ==> p.state == Blocked) && p.priority == raw[28]
            && p.slice == raw[32] as int + 256 * raw[33] as int + 65536 * raw[34] as int + 16777216 * raw[35] as int
            && p.runtime == raw[36] as int + 256 * raw[37] as int + 65536 * raw[38] as int + 16777216 * raw[39] as int
            && (0 in p.pending <==> raw[72] % 2 == 1)
            && |p.handlers| == 32 && (raw[76..80] == [0, 0, 0, 0] ==> p.handlers[0] == Default)
  {
    assert raw[24] == raw[24..28][0] && raw[25] == raw[24..28][1] && raw[26] == raw[24..28][2] && raw[27] == raw[24..28][3];
    assert raw[76] == raw[76..80][0] && raw[77] == raw[76..80][1] && raw[78] == raw[76..80][2] && raw[79] == raw[76..80][3];
    var w := SlabPages.Load(raw, PENDING_AT);
    assert w == 2 * (raw[72] as int / 2 + 128 * raw[73] as int + 32768 * raw[74] as int + 8388608 * raw[75] as int) + raw[72] as int % 2;
  }

  lemma {:induction false} NoBits(i: nat)
    ensures !BitOf(0, i)
  {
    if i > 0 { NoBits(i - 1); }
  }

  /** What the slab cache hands out is a ready process of priority 0 with no time left, no
      signal pending and every handler at its default. */
  lemma ZeroedProc(raw: seq<Byte>)
    requires |raw| == PROCESS_BYTES && forall k :: 0 <= k < |raw| ==> raw[k] == 0
    ensures ProcOf(raw) == ZeroProc()
  {
    forall i: nat | i < NSIG
      ensures !BitOf(SlabPages.Load(raw, PENDING_AT), i)
    {
      NoBits(i);
    }
    assert ProcOf(raw).handlers == NoHandlers();
  }

  // ---- allocation and release ------------------------------------------------------------------

  /** Every object in use is a process and every process is an object in use. */
  ghost predicate Paired(kernel: Kernel, cache: SlabCache.Cache)
    reads kernel, cache, cache.ram, cache.heap, cache.pmm, cache.pmm.bitmap
  {
    && cache.Valid() && cache.size == PROCESS_BYTES
    && forall a: nat :: cache.Live(a) <==> a in kernel.queue
  }

  ghost predicate Owned(kernel: Kernel, cache: SlabCache.Cache)
    reads kernel, kernel.list, cache, cache.ram, cache.heap, cache.pmm, cache.pmm.bitmap
  {
    Paired(kernel, cache) && kernel.Valid()
  }

  /** No two processes share a byte. */
  lemma ProcessesApart(kernel: Kernel, cache: SlabCache.Cache, a: Ref, b: Ref)
    requires Owned(kernel, cache) && a in kernel.queue && b in kernel.queue && a < b
    ensures a + PROCESS_BYTES <= b
  {
    LiveApart(cache.ram[..], cache.size, cache.slabs, cache.free, a, b);
  }

  lemma LiveHigh(cache: SlabCache.Cache, a: nat)
    requires cache.Valid() && cache.Live(a)
    ensures a >= PageBitmap.LOW_BLOCKS * SlabPages.PAGE
  {
    hide Stores, Backed, Listed;
    SameKeys(cache.ram[..], cache.size, cache.slabs, cache.free);
    var d: Ref :| d in cache.slabs && Held(cache.size, cache.slabs[d], cache.free[d], a);
    SlabAt(cache.ram[..], cache.size, cache.slabs, cache.free, d);
    HeldInPage(cache.ram[..], cache.size, cache.slabs[d], cache.free[d], a);
    BackedAt(cache.heap.blocks, cache.pmm.given, cache.slabs, d);
    assert cache.slabs[d].mem / SlabPages.PAGE !in Interval(0, PageBitmap.LOW_BLOCKS);
  }

  /** An object in use is not one that Free would ignore. */
  lemma LiveKnown(cache: SlabCache.Cache, a: nat)
    requires cache.Valid() && cache.Live(a)
    ensures !Foreign(cache.slabs, a)
  {
    hide Stores, Backed, Listed;
    SameKeys(cache.ram[..], cache.size, cache.slabs, cache.free);
    var d: Ref :| d in cache.slabs && Held(cache.size, cache.slabs[d], cache.free[d], a);
    SlabAt(cache.ram[..], cache.size, cache.slabs, cache.free, d);
    HeldInPage(cache.ram[..], cache.size, cache.slabs[d], cache.free[d], a);
  }

  /** The cache has no unused object and cannot get a slab. */
  ghost predicate Starved(cache: SlabCache.Cache)
    requires cache.Valid()
    reads cache, cache.ram, cache.heap, cache.pmm, cache.pmm.bitmap
  {
    cache.lists.partial == [] && cache.lists.empty == []
    && SlabCache.NoRoom(cache.heap.blocks, cache.pmm.bitmap[..], cache.pmm.totalBlocks)
  }

  /** A structure for the kernel process, then the ready queue with that process alone. */
  method Init(cache: SlabCache.Cache, stackTop: nat) returns (kernel: Kernel)
    requires cache.Valid() && cache.size == PROCESS_BYTES && !Starved(cache) && forall a: nat :: !cache.Live(a)
    modifies cache, cache.ram, cache.heap, cache.pmm`usedBlocks, cache.pmm`given, cache.pmm.bitmap
    ensures Owned(kernel, cache) && |kernel.queue| == 1 && kernel.nextPid == 1
    ensures kernel.procs == map[kernel.current := Proc(0, Running, 128, 0, 0, {}, NoHandlers(), stackTop)]
  {
    hide Stores, Backed, Listed, HeldIn, SameBytes, Untouched, SlabNeighbours.Private, Ring, Almost, KernelHeap.Holds;
    hide PageBitmap.Guard, HeapBlocks.Tiles, PageBitmap.Used, SlabCache.NoRoom, HeapBlocks.Pointer, HeapBlocks.Pointers;
    var obj := cache.Alloc();
    LiveHigh(cache, obj);
    kernel := new Kernel.Init(obj, stackTop);
  }

  /** A stack from the heap, or null; the cache is not affected. */
  method Stack(cache: SlabCache.Cache) returns (stack: nat)
    requires cache.Valid()
    modifies cache.heap
    ensures cache.Valid()
    ensures stack == HeapBlocks.Pointer(old(cache.heap.blocks), STACK_BYTES)
    ensures HeapBlocks.Pointers(cache.heap.blocks) == HeapBlocks.Pointers(old(cache.heap.blocks)) + (if stack == NULL then {} else {stack})
  {
    hide Stores, Listed, HeldIn, Backed, KernelHeap.Holds, Lists.Active, Lists.Count;
    hide PageBitmap.Guard, PageBitmap.Used, PageBitmap.UsedSet, HeapBlocks.Pointers, HeapBlocks.Malloc, HeapBlocks.Tiles, HeapBlocks.Pointer;
    StackKeeps(cache);
    stack := cache.heap.Kmalloc(STACK_BYTES);
  }

  lemma StackKeeps(cache: SlabCache.Cache)
    requires cache.Valid()
    ensures var bs, p := HeapBlocks.Malloc(cache.heap.blocks, STACK_BYTES), HeapBlocks.Pointer(cache.heap.blocks, STACK_BYTES);
            && HeapBlocks.Pointers(bs) == HeapBlocks.Pointers(cache.heap.blocks) + (if p == NULL then {} else {p})
            && Backed(bs, cache.pmm.given, cache.slabs)
  {
    hide Stores, Listed, HeapBlocks.Pointers;
    var bs := cache.heap.blocks;
    if HeapBlocks.Pointer(bs, STACK_BYTES) == 0 {
      HeapBlocks.MallocFails(bs, STACK_BYTES);
    } else {
      HeapBlocks.MallocPointers(bs, HeapBlocks.HEAP_START, HeapBlocks.HEAP_END, STACK_BYTES);
    }
  }

  /** A user process from a zeroed object. Its stack comes from the heap and may be missing. */
  method StartUser(kernel: Kernel, cache: SlabCache.Cache) returns (obj: Ref, stack: nat)
    requires Owned(kernel, cache) && !Starved(cache)
    modifies kernel`procs, kernel`queue, kernel`nextPid, kernel.list
    modifies cache, cache.ram, cache.heap, cache.pmm`usedBlocks, cache.pmm`given, cache.pmm.bitmap
    ensures Paired(kernel, cache) && obj !in old(kernel.queue)
    ensures Owned(kernel, cache) <==> old(kernel.nextPid) + 1 < PID_RANGE
    ensures kernel.St() == Joined(old(kernel.St()), obj, UserTask(old(kernel.nextPid), stack))
    ensures forall a :: a in old(kernel.queue) ==> SameBytes(old(cache.ram[..]), cache.ram[..], a, PROCESS_BYTES)
  {
    hide Stores, Backed, Listed, HeldIn, SameBytes, Untouched, Foreign, SlabNeighbours.Private, Ring, Almost, KernelHeap.Holds;
    hide PageBitmap.Guard, HeapBlocks.Tiles, PageBitmap.Used, SlabCache.NoRoom, HeapBlocks.Pointer, HeapBlocks.Pointers;
    obj := cache.Alloc();
    LiveHigh(cache, obj);
    var raw := cache.ram[obj..obj + PROCESS_BYTES];
    ZeroedProc(raw);
    stack := Stack(cache);
    kernel.CreateUser(obj, ProcOf(raw), stack);
  }

  method Start(kernel: Kernel, cache: SlabCache.Cache) returns (obj: Ref, stack: nat)
    requires Owned(kernel, cache) && !Starved(cache)
    modifies kernel`procs, kernel`queue, kernel`nextPid, kernel.list
    modifies cache, cache.ram, cache.heap, cache.pmm`usedBlocks, cache.pmm`given, cache.pmm.bitmap
    ensures Paired(kernel, cache) && obj !in old(kernel.queue)
    ensures Owned(kernel, cache) <==> old(kernel.nextPid) + 1 < PID_RANGE
    ensures kernel.St() == Joined(old(kernel.St()), obj, KernelTask(old(kernel.nextPid), stack))
  {
    hide Stores, Backed, Listed, HeldIn, SameBytes, Untouched, Foreign, SlabNeighbours.Private, Ring, Almost, KernelHeap.Holds;
    hide PageBitmap.Guard, HeapBlocks.Tiles, PageBitmap.Used, SlabCache.NoRoom, HeapBlocks.Pointer, HeapBlocks.Pointers;
    obj := cache.Alloc();
    LiveHigh(cache, obj);
    stack := Stack(cache);
    kernel.Create(obj, stack);
  }

  /** The structure goes back to the cache when the page directory cannot be copied. A stack
      that cannot be allocated is not noticed: the pid is returned all the same. */
  method Fork(kernel: Kernel, cache: SlabCache.Cache, directory: nat) returns (r: int, stack: nat)
    requires Owned(kernel, cache)
    modifies kernel`procs, kernel`queue, kernel`nextPid, kernel.list
    modifies cache, cache.ram, cache.heap, cache.pmm`usedBlocks, cache.pmm`given, cache.pmm.bitmap
    ensures Paired(kernel, cache)
    ensures Owned(kernel, cache) <==> old(Starved(cache)) || old(kernel.nextPid) + 1 < PID_RANGE
    ensures old(Starved(cache)) || directory == NULL ==>
              r == -1 && kernel.queue == old(kernel.queue) && kernel.procs == old(kernel.procs)
    ensures !old(Starved(cache)) && directory != NULL ==>
              && r == Signed(old(kernel.nextPid)) && kernel.queue != [] && kernel.queue[..|kernel.queue| - 1] == old(kernel.queue)
              && kernel.St() == Joined(old(kernel.St()), kernel.queue[|kernel.queue| - 1],
                                       ForkOf(old(kernel.procs)[kernel.current], old(kernel.nextPid), stack))
  {
    hide Stores, Backed, Listed, HeldIn, SameBytes, Untouched, Foreign, SlabNeighbours.Private, Ring, Almost, KernelHeap.Holds;
    hide PageBitmap.Guard, HeapBlocks.Tiles, PageBitmap.Used, SlabCache.NoRoom, HeapBlocks.Pointer, HeapBlocks.Pointers;
    stack := NULL;
    var obj := cache.Alloc();
    if obj != NULL {
      LiveHigh(cache, obj);
      if directory != NULL { stack := Stack(cache); }
    }
    r := kernel.Fork(obj, directory, stack);
    if obj != NULL && directory == NULL {
      LiveKnown(cache, obj);
      cache.Free(obj);
    }
  }

  lemma KilledMembers(s: Sched, pid: nat)
    requires Inv(s) && pid != 0 && FindPid(s.queue, s.procs, pid) < |s.queue|
    ensures forall r :: r in SchedSpec.Kill(s, pid).queue <==> r in s.queue && r != s.queue[FindPid(s.queue, s.procs, pid)]
  {
    RemovedMembers(s.queue, FindPid(s.queue, s.procs, pid));
  }

  /** The structure of the process found goes back, no other. */
  method Kill(kernel: Kernel, cache: SlabCache.Cache, pid: nat) returns (killed: bool)
    requires Owned(kernel, cache) && (pid == 0 || pid != kernel.procs[kernel.current].pid)
    modifies kernel`procs, kernel`queue, kernel.list
    modifies cache`slabs, cache`free, cache`lists, cache`numActive, cache.ram
    ensures Owned(kernel, cache)
    ensures kernel.St() == SchedSpec.Kill(old(kernel.St()), pid)
    ensures killed == (pid != 0 && exists r :: r in old(kernel.queue) && old(kernel.procs)[r].pid == pid)
  {
    hide Stores, Backed, Listed, HeldIn, SameBytes, Untouched, Foreign, SlabNeighbours.Private, Ring, Almost, KernelHeap.Holds;
    hide PageBitmap.Guard, HeapBlocks.Tiles, PageBitmap.Used, SlabCache.NoRoom;
    var obj := kernel.FindByPid(pid);
    ghost var st := kernel.St();
    PidIndex(st, pid);
    killed := kernel.Kill(pid);
    if killed {
      KilledMembers(st, pid);
      LiveKnown(cache, obj);
      cache.Free(obj);
    }
  }
}
