/** What wakes a blocked process: signals are delivered only to the process that is switched
    out, so none reaches one that is not current. */
module SchedAsleep {
  import opened IntrusiveList
  import opened Sequences
  import opened SchedSpec

  /** No process with this pid is current or runnable. */
  ghost predicate Asleep(s: Sched, pid: nat)
    requires Formed(s)
  {
    && pid < s.nextPid
    && forall r :: r in s.queue && s.procs[r].pid == pid ==> r != s.current && s.procs[r].state == Blocked
  }

  lemma ScheduleAsleep(s: Sched, pid: nat)
    requires Almost(s) && Asleep(s, pid)
    ensures s.current in s.procs && Sane(s.procs[s.current]) && Formed(Schedule(s)) && Asleep(Schedule(s), pid)
  {
    hide Schedule, Candidate, DeliverFrom, FirstRunnable, Rotation;
    ScheduleCases(s);
    ScheduleInv(s);
    CandidateIs(s);
  }

  lemma PutAsleep(s: Sched, r: Ref, p: Proc, pid: nat)
    requires Almost(s) && r in s.queue && p.pid == s.procs[r].pid
    requires p.pid == pid ==> p.state == Blocked && r != s.current
    requires Asleep(s, pid)
    ensures Formed(Put(s, r, p)) && Asleep(Put(s, r, p), pid)
  {
  }

  lemma BlockAsleep(s: Sched, of: nat, pid: nat)
    requires Inv(s) && Asleep(s, pid)
    ensures Formed(Block(s, of)) && Asleep(Block(s, of), pid)
  {
    hide Schedule;
    PidIndex(s, of);
    BlockInv(s, of);
    var k := FindPid(s.queue, s.procs, of);
    if k < |s.queue| {
      var r := s.queue[k];
      var p := s.procs[r].(state := Blocked);
      PutAsleep(s, r, p, pid);
      if r == s.current {
        BlockedAlmost(s);
        ScheduleAsleep(Put(s, r, p), pid);
      }
    }
  }

  lemma UnblockAsleep(s: Sched, of: nat, pid: nat)
    requires Inv(s) && Asleep(s, pid)
    ensures Formed(Unblock(s, of))
    ensures Asleep(Unblock(s, of), pid) <==> of != pid || forall r :: r in s.queue ==> s.procs[r].pid != pid
  {
    PidIndex(s, of);
    UnblockInv(s, of);
    var k := FindPid(s.queue, s.procs, of);
    if k < |s.queue| {
      var r := s.queue[k];
      if of == pid {
        assert Unblock(s, of).procs[r].state == Ready;
      } else if s.procs[r].state == Blocked {
        PutAsleep(s, r, s.procs[r].(state := Ready), pid);
      }
    }
  }

  lemma KillAsleep(s: Sched, of: nat, pid: nat)
    requires Inv(s) && Asleep(s, pid) && (of == 0 || of != s.procs[s.current].pid)
    ensures Formed(Kill(s, of)) && Asleep(Kill(s, of), pid)
  {
    KillInv(s, of);
    var k := FindPid(s.queue, s.procs, of);
    if k < |s.queue| { RemovedMembers(s.queue, k); }
  }

  lemma OthersAsleep(s: Sched, e: Event, pid: nat)
    requires Inv(s) && Allowed(s, e) && Asleep(s, pid)
    requires e.PriorityCall? || e.SignalCall? || e.HandlerCall?
    ensures Formed(Step(s, e)) && Asleep(Step(s, e), pid)
  {
    StepInv(s, e);
    match e
    case PriorityCall(of, _) => PidIndex(s, of);
    case SignalCall(of, _) => PidIndex(s, of);
    case HandlerCall(_, _) =>
  }

  lemma JoinedAsleep(s: Sched, r: Ref, p: Proc, pid: nat)
    requires Inv(s) && Asleep(s, pid) && r !in s.queue && p.pid == s.nextPid && s.nextPid + 1 < PID_RANGE
    ensures Formed(Joined(s, r, p)) && Asleep(Joined(s, r, p), pid)
  {
  }

  /** One call: a blocked process that is not current stays so, whatever signals are sent to it,
      unless the call unblocks just this process. */
  lemma StepAsleep(s: Sched, e: Event, pid: nat)
    requires Inv(s) && Allowed(s, e) && Asleep(s, pid)
    ensures Inv(Step(s, e))
    ensures Asleep(Step(s, e), pid) <==> e != UnblockCall(pid) || forall r :: r in s.queue ==> s.procs[r].pid != pid
  {
    StepInv(s, e);
    hide Asleep, Schedule, Yield, Block, Unblock, Kill, Joined, DeliverFrom, SetPriority, Send, SetHandler;
    match e
    case Tick => ScheduleAsleep(s, pid);
    case YieldCall => YieldAsleep(s, pid);
    case BlockCall(of) => BlockAsleep(s, of, pid);
    case UnblockCall(of) => UnblockAsleep(s, of, pid);
    case KillCall(of) => KillAsleep(s, of, pid);
    case PriorityCall(_, _) => OthersAsleep(s, e, pid);
    case SignalCall(_, _) => OthersAsleep(s, e, pid);
    case HandlerCall(_, _) => OthersAsleep(s, e, pid);
    case CreateCall(slot, stack) => JoinedAsleep(s, slot, KernelTask(s.nextPid, stack), pid);
    case CreateUserCall(slot, stack) => JoinedAsleep(s, slot, UserTask(s.nextPid, stack), pid);
    case ForkCall(slot, stack) => JoinedAsleep(s, slot, ForkOf(s.procs[s.current], s.nextPid, stack), pid);
  }

  lemma YieldAsleep(s: Sched, pid: nat)
    requires Inv(s) && Asleep(s, pid)
    ensures s.current in s.procs && Sane(s.procs[s.current]) && Formed(Yield(s)) && Asleep(Yield(s), pid)
  {
    ScheduleAsleep(Put(s, s.current, s.procs[s.current].(slice := 0)), pid);
  }

  /** Over every run without a call that unblocks it: continue signals sent to a blocked process
      that is not current never take effect. */
  lemma {:induction false} NeverContinued(s: Sched, es: seq<Event>, pid: nat)
    requires Inv(s) && AllowedRun(s, es) && Asleep(s, pid)
    requires UnblockCall(pid) !in es
    ensures Formed(Run(s, es)) && Asleep(Run(s, es), pid)
    decreases |es|
  {
    hide Asleep, Step, Allowed;
    if es != [] {
      assert es[0] in es;
      StepAsleep(s, es[0], pid);
      NeverContinued(Step(s, es[0]), es[1..], pid);
    }
  }
}
