/** The scheduler as a step machine on values: every call is one step. */
module SchedSpec {
  import opened IntrusiveList
  import opened Sequences

  datatype ProcState = Ready | Running | Blocked | Terminated

  datatype Handler = Default | Ignore | User(address: nat)

  const NSIG: nat := 32
  const SIGKILL: nat := 9
  const SIGCONT: nat := 18
  const SIGSTOP: nat := 19

  /** SIGINT, SIGQUIT, SIGABRT, SIGKILL, SIGSEGV, SIGTERM end a process by default. */
  predicate Terminating(sig: nat) {
    sig == 2 || sig == 3 || sig == 6 || sig == SIGKILL || sig == 11 || sig == 15
  }

  const DEFAULT_TIME_SLICE: nat := 10
  const MAX_SLICE: nat := 13
  const PID_RANGE: nat := 0x1_0000_0000
  const STACK_BYTES: nat := 4096

  datatype Proc = Proc(
    pid: nat, state: ProcState, priority: nat, slice: nat, runtime: nat, pending: set<nat>, handlers: seq<Handler>,
    stackTop: nat)

  /** The ready queue by address, the process structures, the current process, the next pid. */
  datatype Sched = Sched(queue: seq<Ref>, procs: map<Ref, Proc>, current: Ref, nextPid: nat)

  function TimeSlice(priority: nat): (r: nat)
    ensures priority < 256 ==> 10 <= r <= MAX_SLICE
  {
    DEFAULT_TIME_SLICE + priority / 64
  }

  predicate Runnable(p: Proc) {
    p.state == Ready || p.state == Running
  }

  ghost predicate Sane(p: Proc) {
    && p.state != Terminated && p.priority < 256 && p.slice <= MAX_SLICE
    && |p.handlers| == NSIG && p.handlers[SIGKILL] == Default && p.handlers[SIGSTOP] == Default
    && (forall sig :: sig in p.pending ==> 1 <= sig < NSIG && !Terminating(sig))
  }

  ghost predicate Formed(s: Sched) {
    && Distinct(s.queue) && s.current in s.queue
    && (forall r :: r in s.queue ==> r in s.procs)
  }

  /** No process but the current one is running. */
  ghost predicate Almost(s: Sched) {
    && Formed(s)
    && (forall r :: r in s.queue ==> Sane(s.procs[r]) && s.procs[r].pid < s.nextPid)
    && (forall r :: r in s.queue && s.procs[r].state == Running ==> r == s.current)
    && (forall q, r :: q in s.queue && r in s.queue && s.procs[q].pid == s.procs[r].pid ==> q == r)
    && s.nextPid < PID_RANGE
  }

  /** What holds between calls: the current process, and no other, is running. */
  ghost predicate Inv(s: Sched) {
    Almost(s) && s.procs[s.current].state == Running
  }

  function Put(s: Sched, r: Ref, p: Proc): Sched {
    s.(procs := s.procs[r := p])
  }

  // ---- signals -------------------------------------------------------------------------

  /** The delivery of one pending signal that does not terminate. */
  function Deliver(p: Proc, sig: nat): Proc
    requires |p.handlers| == NSIG && sig < NSIG
  {
    if sig !in p.pending then p
    else
      var q := p.(pending := p.pending - {sig});
      if q.handlers[sig] != Default then q
      else if sig == SIGSTOP then q.(state := Blocked)
      else if sig == SIGCONT && q.state == Blocked then q.(state := Ready)
      else q
  }

  /** Delivery of the signals from sig upwards. */
  function DeliverFrom(p: Proc, sig: nat): (q: Proc)
    requires |p.handlers| == NSIG && sig <= NSIG
    ensures q.handlers == p.handlers && q.pid == p.pid && q.priority == p.priority && q.slice == p.slice && q.runtime == p.runtime
    ensures q.pending <= p.pending
    ensures p.state != Running && p.state != Terminated ==> q.state != Running && q.state != Terminated
    decreases NSIG - sig
  {
    if sig == NSIG then p else DeliverFrom(Deliver(p, sig), sig + 1)
  }

  /** A blocked process is still blocked after delivery exactly when it is not continued
      without being stopped again: the stop signal has the larger number. */
  lemma {:induction false} DeliverBlocked(p: Proc, sig: nat)
    requires |p.handlers| == NSIG && 1 <= sig <= NSIG && p.handlers[SIGSTOP] == Default
    ensures p.state == Blocked || p.state == Ready ==>
              (DeliverFrom(p, sig).state == Blocked <==>
                 if sig <= SIGSTOP && SIGSTOP in p.pending then true
                 else if sig <= SIGCONT && SIGCONT in p.pending && p.handlers[SIGCONT] == Default then false
                 else p.state == Blocked)
    decreases NSIG - sig
  {
    if sig < NSIG {
      DeliverBlocked(Deliver(p, sig), sig + 1);
    }
  }

  // ---- schedule ------------------------------------------------------------------------

  function IndexOf(s: seq<Ref>, r: Ref): (i: nat)
    requires r in s
    ensures i < |s| && s[i] == r
  {
    if s[0] == r then 0 else 1 + IndexOf(s[1..], r)
  }

  /** The queue behind position i, then from its start up to position i. */
  function Rotation(queue: seq<Ref>, i: nat): seq<Ref>
    requires i < |queue|
  {
    queue[i + 1..] + queue[..i]
  }

  /** Position of the first runnable process of a list, or its length. */
  function FirstRunnable(order: seq<Ref>, procs: map<Ref, Proc>): (k: nat)
    ensures k <= |order|
    ensures k < |order| ==> order[k] in procs && Runnable(procs[order[k]])
    ensures forall j :: 0 <= j < k ==> !(order[j] in procs && Runnable(procs[order[j]]))
  {
    if order == [] || (order[0] in procs && Runnable(procs[order[0]])) then 0
    else 1 + FirstRunnable(order[1..], procs)
  }

  function Charged(p: Proc): Proc {
    if p.slice > 0 then p.(slice := p.slice - 1, runtime := (p.runtime + 1) % PID_RANGE) else p
  }

  predicate Expired(p: Proc) {
    p.slice == 0 || p.state == Blocked
  }

  /** A process whose turn is over: back to the ready state with a new slice, unless blocked. */
  function Parked(p: Proc): Proc {
    if Runnable(p) then p.(slice := TimeSlice(p.priority), state := Ready) else p
  }

  function Dispatched(p: Proc): Proc {
    p.(state := Running, slice := TimeSlice(p.priority))
  }

  datatype Choice = NoOne | Another(r: Ref)

  /** Who runs next: the first runnable process in queue order behind the current one. */
  function Candidate(s: Sched): Choice
    requires s.current in s.queue
  {
    var order := Rotation(s.queue, IndexOf(s.queue, s.current));
    var k := FirstRunnable(order, s.procs);
    if k == |order| then NoOne else Another(order[k])
  }

  function Schedule(s: Sched): Sched
    requires s.current in s.queue && s.current in s.procs && |s.procs[s.current].handlers| == NSIG
  {
    var c := Charged(s.procs[s.current]);
    if !Expired(c) then Put(s, s.current, c.(state := Running))
    else
      match Candidate(s)
      case NoOne => Put(s, s.current, Parked(c).(state := Running))
      case Another(next) =>
        if next !in s.procs then s
        else
          Put(Put(s, s.current, DeliverFrom(Parked(c), 1)), next, Dispatched(s.procs[next])).(current := next)
  }

  function Yield(s: Sched): Sched
    requires s.current in s.queue && s.current in s.procs && |s.procs[s.current].handlers| == NSIG
  {
    Schedule(Put(s, s.current, s.procs[s.current].(slice := 0)))
  }

  // ---- processes by pid ------------------------------------------------------------------

  /** The first process of the queue with the given pid, or the queue's length. */
  function FindPid(queue: seq<Ref>, procs: map<Ref, Proc>, pid: nat): (k: nat)
    ensures k <= |queue|
    ensures k < |queue| ==> queue[k] in procs && procs[queue[k]].pid == pid
    ensures forall j :: 0 <= j < k ==> !(queue[j] in procs && procs[queue[j]].pid == pid)
  {
    if queue == [] || (queue[0] in procs && procs[queue[0]].pid == pid) then 0 else 1 + FindPid(queue[1..], procs, pid)
  }

  function Block(s: Sched, pid: nat): Sched
    requires s.current in s.queue && s.current in s.procs && |s.procs[s.current].handlers| == NSIG
  {
    var k := FindPid(s.queue, s.procs, pid);
    if k == |s.queue| then s
    else
      var r := s.queue[k];
      var s1 := Put(s, r, s.procs[r].(state := Blocked));
      if r == s.current then Schedule(s1) else s1
  }

  /** Only blocked processes match; the first one with the pid becomes ready. */
  function Unblock(s: Sched, pid: nat): Sched {
    var k := FindPid(s.queue, s.procs, pid);
    if k == |s.queue| || s.procs[s.queue[k]].state != Blocked then s
    else Put(s, s.queue[k], s.procs[s.queue[k]].(state := Ready))
  }

  function Kill(s: Sched, pid: nat): Sched {
    var k := FindPid(s.queue, s.procs, pid);
    if pid == 0 || k == |s.queue| then s
    else Sched(Removed(s.queue, k), s.procs - {s.queue[k]}, s.current, s.nextPid)
  }

  function SetPriority(s: Sched, pid: nat, priority: nat): Sched {
    var k := FindPid(s.queue, s.procs, pid);
    if k == |s.queue| then s
    else Put(s, s.queue[k], s.procs[s.queue[k]].(priority := priority, slice := TimeSlice(priority)))
  }

  function Send(s: Sched, pid: nat, sig: int): Sched {
    var k := FindPid(s.queue, s.procs, pid);
    if sig < 1 || sig >= NSIG || k == |s.queue| then s
    else Put(s, s.queue[k], s.procs[s.queue[k]].(pending := s.procs[s.queue[k]].pending + {sig}))
  }

  function SetHandler(s: Sched, sig: int, h: Handler): Sched
    requires s.current in s.procs && |s.procs[s.current].handlers| == NSIG
  {
    if sig < 1 || sig >= NSIG || sig == SIGKILL || sig == SIGSTOP then s
    else Put(s, s.current, s.procs[s.current].(handlers := s.procs[s.current].handlers[sig := h]))
  }

  // ---- new processes -----------------------------------------------------------------------

  function NoHandlers(): (h: seq<Handler>)
    ensures |h| == NSIG && forall i :: 0 <= i < NSIG ==> h[i] == Default
  {
    seq(NSIG, _ => Default)
  }

  /** A structure as the slab cache hands it out: every byte zero. */
  function ZeroProc(): Proc {
    Proc(0, Ready, 0, 0, 0, {}, NoHandlers(), 0)
  }

  function Joined(s: Sched, r: Ref, p: Proc): Sched {
    Sched(s.queue + [r], s.procs[r := p], s.current, (s.nextPid + 1) % PID_RANGE)
  }

  /** The end of the stack at an address; the allocation is not checked, so this may be 4096. */
  function TopOf(stack: nat): nat {
    (stack + STACK_BYTES) % PID_RANGE
  }

  function KernelTask(pid: nat, stack: nat): Proc {
    Proc(pid, Ready, 100, TimeSlice(100), 0, {}, NoHandlers(), TopOf(stack))
  }

  /** Only the pid and the stack are set; everything else, handlers included, is what the slab zeroed. */
  function UserTask(pid: nat, stack: nat): Proc {
    ZeroProc().(pid := pid, stackTop := TopOf(stack))
  }

  function ForkOf(p: Proc, pid: nat, stack: nat): Proc {
    p.(pid := pid, state := Ready, slice := TimeSlice(p.priority), runtime := 0, pending := {}, stackTop := TopOf(stack))
  }

  // ---- the invariant is kept ----------------------------------------------------------------

  lemma RotationMembers(queue: seq<Ref>, i: nat)
    requires Distinct(queue) && i < |queue|
    ensures forall r :: r in Rotation(queue, i) <==> r in queue && r != queue[i]
  {
    assert Rotation(queue, i) == queue[i + 1..] + queue[..i];
    forall r
      ensures r in Rotation(queue, i) <==> r in queue && r != queue[i]
    {
      if r in queue && r != queue[i] {
        var j :| 0 <= j < |queue| && queue[j] == r;
        if j < i { assert queue[..i][j] == r; } else { assert queue[i + 1..][j - i - 1] == r; }
      }
    }
  }

  lemma PutRunning(s: Sched, p: Proc)
    requires Almost(s) && Sane(p) && p.pid == s.procs[s.current].pid && p.state == Running
    ensures Inv(Put(s, s.current, p))
  {
  }

  lemma SwitchInv(s: Sched, p: Proc, next: Ref, q: Proc)
    requires Almost(s) && next in s.queue && next != s.current
    requires Sane(p) && p.pid == s.procs[s.current].pid && p.state != Running
    requires Sane(q) && q.pid == s.procs[next].pid && q.state == Running
    ensures Inv(Put(Put(s, s.current, p), next, q).(current := next))
  {
  }

  /** The candidate is another runnable process; there is none exactly when no other process
      is runnable. */
  lemma CandidateIs(s: Sched)
    requires Formed(s)
    ensures Candidate(s).Another? ==>
              var r := Candidate(s).r;
              r in s.queue && r in s.procs && r != s.current && Runnable(s.procs[r])
    ensures Candidate(s).NoOne? <==> forall r :: r in s.queue && r != s.current ==> !Runnable(s.procs[r])
  {
    var i := IndexOf(s.queue, s.current);
    RotationMembers(s.queue, i);
    var order := Rotation(s.queue, i);
    var k := FirstRunnable(order, s.procs);
    if k < |order| { assert order[k] in order; }
    forall r | r in s.queue && r != s.current
      ensures r in order
    {
    }
  }

  /** The three outcomes of a scheduling call. */
  lemma ScheduleCases(s: Sched)
    requires Almost(s)
    ensures s.current in s.queue && Sane(s.procs[s.current])
    ensures var c := Charged(s.procs[s.current]);
            && (!Expired(c) ==> Schedule(s) == Put(s, s.current, c.(state := Running)))
            && (Expired(c) && Candidate(s).NoOne? ==> Schedule(s) == Put(s, s.current, Parked(c).(state := Running)))
            && (Expired(c) && Candidate(s).Another? ==>
                  var next := Candidate(s).r;
                  && next in s.queue && next in s.procs && next != s.current
                  && Schedule(s) ==
                     Put(Put(s, s.current, DeliverFrom(Parked(c), 1)), next, Dispatched(s.procs[next])).(current := next))
  {
    assert Sane(s.procs[s.current]);
    CandidateIs(s);
  }

  lemma ChargedSane(p: Proc)
    requires Sane(p)
    ensures Sane(Charged(p)) && Sane(Parked(Charged(p))) && Parked(Charged(p)).state != Running
    ensures Sane(DeliverFrom(Parked(Charged(p)), 1)) && DeliverFrom(Parked(Charged(p)), 1).state != Running
    ensures Sane(Dispatched(p))
  {
  }

  lemma ScheduleInv(s: Sched)
    requires Almost(s)
    ensures Sane(s.procs[s.current])
    ensures Inv(Schedule(s)) && Schedule(s).queue == s.queue
  {
    ScheduleCases(s);
    ChargedSane(s.procs[s.current]);
    hide Schedule, Candidate, DeliverFrom;
    var c := Charged(s.procs[s.current]);
    if !Expired(c) {
      PutRunning(s, c.(state := Running));
    } else if Candidate(s).NoOne? {
      PutRunning(s, Parked(c).(state := Running));
    } else {
      var next := Candidate(s).r;
      assert Sane(s.procs[next]);
      SwitchInv(s, DeliverFrom(Parked(c), 1), next, Dispatched(s.procs[next]));
    }
  }

  lemma PidIndex(s: Sched, pid: nat)
    requires Inv(s)
    ensures var k := FindPid(s.queue, s.procs, pid);
            && (k < |s.queue| ==> s.queue[k] in s.queue)
            && (k == |s.queue| <==> forall r :: r in s.queue ==> s.procs[r].pid != pid)
  {
    var k := FindPid(s.queue, s.procs, pid);
    if k < |s.queue| { assert s.queue[k] in s.queue; }
  }

  lemma YieldInv(s: Sched)
    requires Inv(s)
    ensures Inv(Yield(s)) && Yield(s).queue == s.queue
  {
    ScheduleInv(Put(s, s.current, s.procs[s.current].(slice := 0)));
  }

  lemma BlockInv(s: Sched, pid: nat)
    requires Inv(s)
    ensures Inv(Block(s, pid)) && Block(s, pid).queue == s.queue
  {
    hide Schedule, Almost, Formed;
    BlockedAlmost(s);
    PidIndex(s, pid);
    var k := FindPid(s.queue, s.procs, pid);
    if k < |s.queue| {
      if s.queue[k] == s.current {
        ScheduleInv(Put(s, s.current, s.procs[s.current].(state := Blocked)));
      } else {
        BlockOther(s, s.queue[k]);
      }
    }
  }

  lemma BlockOther(s: Sched, r: Ref)
    requires Inv(s) && r in s.queue && r != s.current
    ensures r in s.procs && Inv(Put(s, r, s.procs[r].(state := Blocked)))
  {
    assert Sane(s.procs[r]);
    UpdateInv(s, r, s.procs[r].(state := Blocked));
  }

  lemma UpdateInv(s: Sched, r: Ref, p: Proc)
    requires Inv(s) && r in s.queue && Sane(p) && p.pid == s.procs[r].pid
    requires p.state == Running <==> s.procs[r].state == Running
    ensures Inv(Put(s, r, p))
  {
  }

  lemma UnblockInv(s: Sched, pid: nat)
    requires Inv(s)
    ensures Inv(Unblock(s, pid)) && Unblock(s, pid).queue == s.queue && Unblock(s, pid).current == s.current
  {
    PidIndex(s, pid);
    var k := FindPid(s.queue, s.procs, pid);
    if k < |s.queue| && s.procs[s.queue[k]].state == Blocked {
      UpdateInv(s, s.queue[k], s.procs[s.queue[k]].(state := Ready));
    }
  }

  lemma PriorityInv(s: Sched, pid: nat, priority: nat)
    requires Inv(s) && priority < 256
    ensures Inv(SetPriority(s, pid, priority))
  {
    PidIndex(s, pid);
    var k := FindPid(s.queue, s.procs, pid);
    if k < |s.queue| {
      UpdateInv(s, s.queue[k], s.procs[s.queue[k]].(priority := priority, slice := TimeSlice(priority)));
    }
  }

  lemma SendInv(s: Sched, pid: nat, sig: int)
    requires Inv(s) && (sig >= 0 ==> !Terminating(sig))
    ensures Inv(Send(s, pid, sig))
  {
    PidIndex(s, pid);
    var k := FindPid(s.queue, s.procs, pid);
    if k < |s.queue| && 1 <= sig < NSIG {
      UpdateInv(s, s.queue[k], s.procs[s.queue[k]].(pending := s.procs[s.queue[k]].pending + {sig}));
    }
  }

  lemma HandlerInv(s: Sched, sig: int, h: Handler)
    requires Inv(s)
    ensures |s.procs[s.current].handlers| == NSIG && Inv(SetHandler(s, sig, h))
  {
    assert Sane(s.procs[s.current]);
    if 1 <= sig < NSIG && sig != SIGKILL && sig != SIGSTOP {
      UpdateInv(s, s.current, s.procs[s.current].(handlers := s.procs[s.current].handlers[sig := h]));
    }
  }

  lemma KillInv(s: Sched, pid: nat)
    requires Inv(s) && (pid == 0 || pid != s.procs[s.current].pid)
    ensures Inv(Kill(s, pid))
  {
    var k := FindPid(s.queue, s.procs, pid);
    if k < |s.queue| { RemovedMembers(s.queue, k); }
  }

  lemma JoinedInv(s: Sched, r: Ref, p: Proc)
    requires Inv(s) && r !in s.queue && Sane(p) && p.state != Running && p.pid == s.nextPid && s.nextPid + 1 < PID_RANGE
    ensures Inv(Joined(s, r, p))
  {
    var t := s.queue + [r];
    assert forall x :: x in t <==> x in s.queue || x == r;
  }

  // ---- runs ------------------------------------------------------------------------------------

  datatype Event =
    | Tick
    | YieldCall
    | BlockCall(pid: nat)
    | UnblockCall(pid: nat)
    | KillCall(pid: nat)
    | PriorityCall(pid: nat, priority: nat)
    | SignalCall(pid: nat, sig: int)
    | HandlerCall(sig: int, handler: Handler)
    | CreateCall(slot: Ref, stack: nat)
    | CreateUserCall(slot: Ref, stack: nat)
    | ForkCall(slot: Ref, stack: nat)

  /** Calls the model covers: the current process is not killed, no terminating signal is
      sent, new structures lie at fresh addresses, and pids have not run out. */
  ghost predicate Allowed(s: Sched, e: Event)
    requires Inv(s)
  {
    match e
    case KillCall(pid) => pid == 0 || pid != s.procs[s.current].pid
    case PriorityCall(_, priority) => priority < 256
    case SignalCall(_, sig) => sig >= 0 ==> !Terminating(sig)
    case CreateCall(slot, _) => slot !in s.queue && s.nextPid + 1 < PID_RANGE
    case CreateUserCall(slot, _) => slot !in s.queue && s.nextPid + 1 < PID_RANGE
    case ForkCall(slot, _) => slot !in s.queue && s.nextPid + 1 < PID_RANGE
    case _ => true
  }

  function Step(s: Sched, e: Event): Sched
    requires s.current in s.queue && s.current in s.procs && |s.procs[s.current].handlers| == NSIG
  {
    match e
    case Tick => Schedule(s)
    case YieldCall => Yield(s)
    case BlockCall(pid) => Block(s, pid)
    case UnblockCall(pid) => Unblock(s, pid)
    case KillCall(pid) => Kill(s, pid)
    case PriorityCall(pid, priority) => SetPriority(s, pid, priority)
    case SignalCall(pid, sig) => Send(s, pid, sig)
    case HandlerCall(sig, handler) => SetHandler(s, sig, handler)
    case CreateCall(slot, stack) => Joined(s, slot, KernelTask(s.nextPid, stack))
    case CreateUserCall(slot, stack) => Joined(s, slot, UserTask(s.nextPid, stack))
    case ForkCall(slot, stack) => Joined(s, slot, ForkOf(s.procs[s.current], s.nextPid, stack))
  }

  /** Every call keeps the invariant. */
  lemma StepInv(s: Sched, e: Event)
    requires Inv(s) && Allowed(s, e)
    ensures Inv(Step(s, e))
  {
    hide Schedule, Yield, Block, DeliverFrom, Kill, SetPriority, Send, SetHandler, Unblock, Joined;
    match e
    case Tick => ScheduleInv(s);
    case YieldCall => YieldInv(s);
    case BlockCall(pid) => BlockInv(s, pid);
    case UnblockCall(pid) => UnblockInv(s, pid);
    case KillCall(pid) => KillInv(s, pid);
    case PriorityCall(pid, priority) => PriorityInv(s, pid, priority);
    case SignalCall(pid, sig) => SendInv(s, pid, sig);
    case HandlerCall(sig, handler) => HandlerInv(s, sig, handler);
    case CreateCall(slot, stack) => JoinedInv(s, slot, KernelTask(s.nextPid, stack));
    case CreateUserCall(slot, stack) => JoinedInv(s, slot, UserTask(s.nextPid, stack));
    case ForkCall(slot, stack) => JoinedInv(s, slot, ForkOf(s.procs[s.current], s.nextPid, stack));
  }

  ghost predicate AllowedRun(s: Sched, es: seq<Event>)
    requires Inv(s)
    decreases |es|
  {
    es == [] || (Allowed(s, es[0]) && (StepInv(s, es[0]); AllowedRun(Step(s, es[0]), es[1..])))
  }

  ghost function Run(s: Sched, es: seq<Event>): Sched
    requires Inv(s) && AllowedRun(s, es)
    decreases |es|
  {
    if es == [] then s else StepInv(s, es[0]); Run(Step(s, es[0]), es[1..])
  }

  /** Over any interleaving of calls exactly one process is running, it is the current one,
      pids stay unique, slices stay small, and SIGKILL and SIGSTOP cannot be caught. */
  lemma {:induction false} RunInv(s: Sched, es: seq<Event>)
    requires Inv(s) && AllowedRun(s, es)
    ensures Inv(Run(s, es))
    decreases |es|
  {
    if es != [] {
      StepInv(s, es[0]);
      RunInv(Step(s, es[0]), es[1..]);
    }
  }

  /** Blocking takes hold exactly when the process is not current, or someone else can run
      and the process is not continued by a pending signal on the way out. */
  lemma BlockTakesHold(s: Sched, k: nat)
    requires Inv(s) && k < |s.queue|
    ensures s.queue[k] in s.queue && Sane(s.procs[s.current])
    ensures var r := s.queue[k];
            var p := s.procs[r];
            Block(s, p.pid).procs[r].state == Blocked <==>
              r != s.current ||
              ((exists q :: q in s.queue && q != r && Runnable(s.procs[q]))
               && (SIGSTOP in p.pending || !(SIGCONT in p.pending && p.handlers[SIGCONT] == Default)))
  {
    var r := s.queue[k];
    var p := s.procs[r];
    assert r in s.queue;
    PidIndex(s, p.pid);
    var f := FindPid(s.queue, s.procs, p.pid);
    assert s.queue[f] == r;
    if r == s.current {
      BlockCurrent(s);
    }
  }

  lemma BlockCurrent(s: Sched)
    requires Inv(s)
    ensures Sane(s.procs[s.current])
    ensures var p := s.procs[s.current];
            Schedule(Put(s, s.current, p.(state := Blocked))).procs[s.current].state == Blocked <==>
              ((exists q :: q in s.queue && q != s.current && Runnable(s.procs[q]))
               && (SIGSTOP in p.pending || !(SIGCONT in p.pending && p.handlers[SIGCONT] == Default)))
  {
    hide Candidate, Schedule, DeliverFrom, Almost, Inv, FirstRunnable, Rotation, Formed;
    BlockedAlmost(s);
    var p := s.procs[s.current];
    var s1 := Put(s, s.current, p.(state := Blocked));
    ScheduleCases(s1);
    BlockedCandidate(s);
    DeliverBlocked(Charged(p.(state := Blocked)), 1);
  }

  lemma BlockedAlmost(s: Sched)
    requires Inv(s)
    ensures s.current in s.procs && Sane(s.procs[s.current]) && s.current in s.queue
    ensures Formed(s) && Almost(Put(s, s.current, s.procs[s.current].(state := Blocked)))
  {
    assert Sane(s.procs[s.current]);
  }

  lemma BlockedCandidate(s: Sched)
    requires Inv(s)
    ensures Candidate(Put(s, s.current, s.procs[s.current].(state := Blocked))).NoOne?
            <==> !exists q :: q in s.queue && q != s.current && Runnable(s.procs[q])
  {
    CandidateIs(Put(s, s.current, s.procs[s.current].(state := Blocked)));
  }
}
