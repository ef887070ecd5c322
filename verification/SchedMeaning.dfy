/** What each scheduler call changes, process by process, and that it changes nothing else. */
module SchedMeaning {
  import opened IntrusiveList
  import opened Sequences
  import opened SchedSpec

  /** Only the structure at r may differ. */
  ghost predicate OnlyProc(s: Sched, s': Sched, r: Ref) {
    && s'.queue == s.queue && s'.current == s.current && s'.nextPid == s.nextPid
    && s'.procs.Keys == s.procs.Keys && forall q :: q in s.procs && q != r ==> s'.procs[q] == s.procs[q]
  }

  // ---- who is next -----------------------------------------------------------------------

  /** The position e places behind position i, going round. */
  function Around(i: nat, e: nat, n: nat): nat {
    if i + e < n then i + e else i + e - n
  }

  /** r is at e places behind the current process, runnable, and none in between is. */
  ghost predicate NextAt(s: Sched, r: Ref, i: nat, e: nat) {
    var n := |s.queue|;
    && i < n && s.queue[i] == s.current && 1 <= e < n && s.queue[Around(i, e, n)] == r
    && r in s.procs && (s.procs[r].state == Ready || s.procs[r].state == Running)
    && forall f :: 1 <= f < e ==> var q := s.queue[Around(i, f, n)];
                   q in s.procs ==> s.procs[q].state != Ready && s.procs[q].state != Running
  }

  ghost predicate Next(s: Sched, r: Ref) {
    exists i: nat, e: nat :: NextAt(s, r, i, e)
  }

  ghost predicate NobodyElse(s: Sched)
    requires Formed(s)
  {
    forall r :: r in s.queue && r != s.current ==> s.procs[r].state != Ready && s.procs[r].state != Running
  }

  /** The two searches find exactly that process, if there is one. */
  lemma CandidateNext(s: Sched)
    requires Formed(s)
    ensures Candidate(s).NoOne? <==> NobodyElse(s)
    ensures Candidate(s).Another? ==> Next(s, Candidate(s).r)
    ensures forall r :: Next(s, r) ==> Candidate(s) == Another(r)
  {
    CandidateIs(s);
    var n, i := |s.queue|, IndexOf(s.queue, s.current);
    var order := Rotation(s.queue, i);
    var k := FirstRunnable(order, s.procs);
    assert forall f :: 1 <= f < n ==> order[f - 1] == s.queue[Around(i, f, n)];
    if k < |order| { assert NextAt(s, order[k], i, k + 1); }
    forall r | Next(s, r)
      ensures Candidate(s) == Another(r)
    {
      var j: nat, e: nat :| NextAt(s, r, j, e);
      assert j == i;
      assert order[e - 1] == r;
    }
  }

  // ---- ticks -------------------------------------------------------------------------------

  /** While more than one tick is left, the tick is counted, and that is all. */
  lemma TickCounts(s: Sched)
    requires Inv(s) && s.procs[s.current].slice >= 2
    ensures s.current in s.queue && |s.procs[s.current].handlers| == NSIG
    ensures var p := s.procs[s.current];
            && OnlyProc(s, Schedule(s), s.current)
            && Schedule(s).procs[s.current] == p.(slice := p.slice - 1, runtime := (p.runtime + 1) % 0x1_0000_0000)
  {
    hide Candidate, DeliverFrom;
    ScheduleCases(s);
  }

  /** The slice of a process that starts running. */
  lemma SliceExact(priority: nat)
    requires priority < 256
    ensures TimeSlice(priority)
            == if priority < 64 then 10 else if priority < 128 then 11 else if priority < 192 then 12 else 13
  {
  }

  /** When the last tick is used up, the next process runs with a new slice, and the old one
      waits with its signals delivered: stopped or ready. */
  lemma TickSwitches(s: Sched, r: Ref)
    requires Inv(s) && s.procs[s.current].slice <= 1 && Next(s, r)
    ensures s.current in s.queue && |s.procs[s.current].handlers| == NSIG && r in s.procs && r != s.current
    ensures var s', p, next := Schedule(s), s.procs[s.current], s.procs[r];
            && s'.queue == s.queue && s'.nextPid == s.nextPid && s'.current == r && s'.procs.Keys == s.procs.Keys
            && (forall q :: q in s.procs && q != r && q != s.current ==> s'.procs[q] == s.procs[q])
            && s'.procs[r] == next.(state := Running, slice := TimeSlice(next.priority))
            && s'.procs[s.current].state == (if SIGSTOP in p.pending then Blocked else Ready)
            && s'.procs[s.current].pending == {} && s'.procs[s.current].slice == TimeSlice(p.priority)
            && s'.procs[s.current].pid == p.pid && s'.procs[s.current].priority == p.priority
            && s'.procs[s.current].handlers == p.handlers
            && s'.procs[s.current].runtime == (if p.slice == 0 then p.runtime else (p.runtime + 1) % 0x1_0000_0000)
  {
    hide Candidate, DeliverFrom, Rotation, FirstRunnable;
    ScheduleCases(s);
    CandidateNext(s);
    var c := Parked(Charged(s.procs[s.current]));
    ChargedSane(s.procs[s.current]);
    DeliverClears(c, 1);
    DeliverBlocked(c, 1);
    DeliverReady(c, 1);
  }

  /** With nobody else to run, the current process goes on with a new slice. */
  lemma TickAlone(s: Sched)
    requires Inv(s) && s.procs[s.current].slice <= 1 && NobodyElse(s)
    ensures s.current in s.queue && |s.procs[s.current].handlers| == NSIG
    ensures var p := s.procs[s.current];
            && OnlyProc(s, Schedule(s), s.current) && Schedule(s).procs[s.current].state == Running
            && Schedule(s).procs[s.current].slice == TimeSlice(p.priority)
            && Schedule(s).procs[s.current].pending == p.pending && Schedule(s).procs[s.current].handlers == p.handlers
            && Schedule(s).procs[s.current].pid == p.pid && Schedule(s).procs[s.current].priority == p.priority
            && Schedule(s).procs[s.current].runtime == (if p.slice == 0 then p.runtime else (p.runtime + 1) % 0x1_0000_0000)
  {
    hide Candidate, DeliverFrom;
    ScheduleCases(s);
    CandidateNext(s);
  }

  /** Delivery leaves no signal pending. */
  lemma {:induction false} DeliverClears(p: Proc, sig: nat)
    requires |p.handlers| == NSIG && sig <= NSIG
    requires forall t :: t in p.pending ==> sig <= t < NSIG
    ensures DeliverFrom(p, sig).pending == {} && DeliverFrom(p, sig).stackTop == p.stackTop
    decreases NSIG - sig
  {
    if sig < NSIG {
      DeliverClears(Deliver(p, sig), sig + 1);
    }
  }

  /** A ready or blocked process is ready or blocked after delivery. */
  lemma {:induction false} DeliverReady(p: Proc, sig: nat)
    requires |p.handlers| == NSIG && sig <= NSIG && (p.state == Ready || p.state == Blocked)
    ensures DeliverFrom(p, sig).state == Ready || DeliverFrom(p, sig).state == Blocked
    decreases NSIG - sig
  {
    if sig < NSIG {
      DeliverReady(Deliver(p, sig), sig + 1);
    }
  }

  /** Yield gives up what is left of the slice, however much that is: the caller stays current
      if and only if nobody else can run, and otherwise the next process does. */
  lemma YieldGives(s: Sched)
    requires Inv(s)
    ensures s.current in s.queue && |s.procs[s.current].handlers| == NSIG
    ensures Yield(s).current == s.current <==> NobodyElse(s)
    ensures forall r :: Next(s, r) ==> Yield(s).current == r
    ensures Yield(s).procs[s.current].runtime == s.procs[s.current].runtime
  {
    hide Candidate, DeliverFrom, Schedule, FirstRunnable, Rotation, Next, NobodyElse;
    SpentSame(s);
    var s0 := Put(s, s.current, s.procs[s.current].(slice := 0));
    ScheduleCases(s0);
    CandidateNext(s0);
  }

  /** Giving up the slice changes nothing for the search. */
  lemma SpentSame(s: Sched)
    requires Inv(s)
    ensures s.current in s.queue && |s.procs[s.current].handlers| == NSIG
    ensures var s0 := Put(s, s.current, s.procs[s.current].(slice := 0));
            && Almost(s0) && (NobodyElse(s0) <==> NobodyElse(s)) && forall r :: Next(s, r) ==> Next(s0, r)
  {
    assert Sane(s.procs[s.current]);
    var s0 := Put(s, s.current, s.procs[s.current].(slice := 0));
    forall r | Next(s, r)
      ensures Next(s0, r)
    {
      var i: nat, e: nat :| NextAt(s, r, i, e);
      NextSpent(s, r, i, e);
    }
  }

  lemma NextSpent(s: Sched, r: Ref, i: nat, e: nat)
    requires s.current in s.procs && NextAt(s, r, i, e)
    ensures NextAt(Put(s, s.current, s.procs[s.current].(slice := 0)), r, i, e)
  {
  }

  // ---- calls by pid --------------------------------------------------------------------------

  ghost predicate HasPid(s: Sched, r: Ref, pid: nat) {
    r in s.queue && r in s.procs && s.procs[r].pid == pid
  }

  /** The search finds the one process with the pid. */
  lemma FoundPid(s: Sched, r: Ref, pid: nat)
    requires Inv(s) && HasPid(s, r, pid)
    ensures var k := FindPid(s.queue, s.procs, pid); k < |s.queue| && s.queue[k] == r
  {
    PidIndex(s, pid);
  }

  lemma NoPid(s: Sched, pid: nat)
    requires Inv(s) && forall r :: !HasPid(s, r, pid)
    ensures FindPid(s.queue, s.procs, pid) == |s.queue|
  {
    assert forall r :: r in s.queue ==> !HasPid(s, r, pid);
    PidIndex(s, pid);
  }

  lemma PriorityMeans(s: Sched, r: Ref, pid: nat, priority: nat)
    requires Inv(s) && HasPid(s, r, pid) && priority < 256
    ensures OnlyProc(s, SetPriority(s, pid, priority), r)
    ensures SetPriority(s, pid, priority).procs[r] == s.procs[r].(priority := priority, slice := TimeSlice(priority))
  {
    FoundPid(s, r, pid);
  }

  /** Blocking the current process switches as yielding does. */
  lemma BlockGives(s: Sched, pid: nat)
    requires Inv(s) && s.procs[s.current].pid == pid
    ensures s.current in s.queue && |s.procs[s.current].handlers| == NSIG
    ensures Block(s, pid).current == s.current <==> NobodyElse(s)
    ensures forall r :: Next(s, r) ==> Block(s, pid).current == r
  {
    hide Candidate, DeliverFrom, Schedule, FirstRunnable, Rotation, Next, NobodyElse;
    FoundPid(s, s.current, pid);
    BlockedSame(s);
    var s0 := Put(s, s.current, s.procs[s.current].(state := Blocked));
    ScheduleCases(s0);
    CandidateNext(s0);
  }

  lemma BlockedSame(s: Sched)
    requires Inv(s)
    ensures s.current in s.queue && |s.procs[s.current].handlers| == NSIG
    ensures var s0 := Put(s, s.current, s.procs[s.current].(state := Blocked));
            && Almost(s0) && (NobodyElse(s0) <==> NobodyElse(s)) && forall r :: Next(s, r) ==> Next(s0, r)
  {
    BlockedAlmost(s);
    var s0 := Put(s, s.current, s.procs[s.current].(state := Blocked));
    forall r | Next(s, r)
      ensures Next(s0, r)
    {
      var i: nat, e: nat :| NextAt(s, r, i, e);
      NextBlocked(s, r, i, e);
    }
  }

  lemma NextBlocked(s: Sched, r: Ref, i: nat, e: nat)
    requires Inv(s) && NextAt(s, r, i, e)
    ensures s.current in s.procs && NextAt(Put(s, s.current, s.procs[s.current].(state := Blocked)), r, i, e)
  {
    assert s.queue[Around(i, e, |s.queue|)] != s.queue[i];
  }

  lemma UnblockMeans(s: Sched, r: Ref, pid: nat)
    requires Inv(s) && HasPid(s, r, pid)
    ensures OnlyProc(s, Unblock(s, pid), r)
    ensures Unblock(s, pid).procs[r] == s.procs[r].(state := if s.procs[r].state == Blocked then Ready else s.procs[r].state)
  {
    FoundPid(s, r, pid);
  }

  lemma BlockMeans(s: Sched, r: Ref, pid: nat)
    requires Inv(s) && HasPid(s, r, pid) && r != s.current
    ensures s.current in s.queue && s.current in s.procs && |s.procs[s.current].handlers| == NSIG
    ensures OnlyProc(s, Block(s, pid), r) && Block(s, pid).procs[r] == s.procs[r].(state := Blocked)
  {
    assert Sane(s.procs[s.current]);
    FoundPid(s, r, pid);
  }

  /** A valid number becomes pending for the process, others are refused. */
  lemma SendMeans(s: Sched, r: Ref, pid: nat, sig: int)
    requires Inv(s) && HasPid(s, r, pid)
    ensures OnlyProc(s, Send(s, pid, sig), r)
    ensures Send(s, pid, sig).procs[r]
            == s.procs[r].(pending := if 1 <= sig <= 31 then s.procs[r].pending + {sig} else s.procs[r].pending)
  {
    FoundPid(s, r, pid);
  }

  /** The process is gone, the others are in their old order, and no one else changes. */
  lemma KillMeans(s: Sched, r: Ref, pid: nat, k: nat)
    requires Inv(s) && HasPid(s, r, pid) && pid != 0 && k < |s.queue| && s.queue[k] == r
    ensures var s' := Kill(s, pid);
            && s'.queue == s.queue[..k] + s.queue[k + 1..] && r !in s'.queue
            && s'.current == s.current && s'.nextPid == s.nextPid && s'.procs.Keys == s.procs.Keys - {r}
            && forall q :: q in s.procs && q != r ==> s'.procs[q] == s.procs[q]
  {
    FoundPid(s, r, pid);
    assert forall j :: 0 <= j < |s.queue| && j != k ==> s.queue[j] != r;
  }

  /** Calls with a pid that no process has change nothing. */
  lemma UnknownPid(s: Sched, pid: nat, priority: nat, sig: int)
    requires Inv(s) && forall r :: !HasPid(s, r, pid)
    ensures s.current in s.queue && s.current in s.procs && |s.procs[s.current].handlers| == NSIG
    ensures SetPriority(s, pid, priority) == Unblock(s, pid) == Block(s, pid) == Send(s, pid, sig) == Kill(s, pid) == s
  {
    assert Sane(s.procs[s.current]);
    NoPid(s, pid);
  }

  /** The handler is set for the current process, except for the two fixed signals. */
  lemma HandlerMeans(s: Sched, sig: int, h: Handler)
    requires Inv(s)
    ensures s.current in s.procs && |s.procs[s.current].handlers| == NSIG
    ensures var s', p := SetHandler(s, sig, h), s.procs[s.current];
            && OnlyProc(s, s', s.current) && s'.procs[s.current] == p.(handlers := s'.procs[s.current].handlers)
            && |s'.procs[s.current].handlers| == NSIG
            && forall t :: 0 <= t < NSIG ==>
                 s'.procs[s.current].handlers[t] == if t == sig && t != 0 && t != 9 && t != 19 then h else p.handlers[t]
  {
    assert Sane(s.procs[s.current]);
  }

  // ---- new processes ---------------------------------------------------------------------------

  /** A new process comes last, with the next pid. */
  lemma JoinedLast(s: Sched, r: Ref, p: Proc)
    requires Inv(s) && r !in s.queue
    ensures var s' := Joined(s, r, p);
            && |s'.queue| == |s.queue| + 1 && s'.queue[|s.queue|] == r && s'.queue[..|s.queue|] == s.queue
            && s'.current == s.current && s'.nextPid == (if s.nextPid == 0xFFFF_FFFF then 0 else s.nextPid + 1)
            && r in s'.procs && s'.procs[r] == p && forall q :: q in s.queue ==> s'.procs[q] == s.procs[q]
  {
  }

  /** A kernel task has priority 100, a user task 0 and no slice yet; both start ready, without
      signals, on a stack that ends 4096 bytes above its address. */
  lemma TasksStart(pid: nat, stack: nat)
    requires stack + 4096 < 0x1_0000_0000
    ensures var k, u := KernelTask(pid, stack), UserTask(pid, stack);
            && k.pid == u.pid == pid && k.stackTop == u.stackTop == stack + 4096
            && k.state == u.state == Ready && k.pending == u.pending == {} && k.runtime == u.runtime == 0
            && k.priority == 100 && k.slice == 11 && u.priority == 0 && u.slice == 0
            && |k.handlers| == |u.handlers| == 32
            && forall t :: 0 <= t < 32 ==> k.handlers[t] == Default && u.handlers[t] == Default
  {
  }

  /** A forked child has its parent's priority and handlers, a new slice, and nothing else of
      its history: no run time and no pending signal. */
  lemma ForkStarts(p: Proc, pid: nat, stack: nat)
    requires stack + 4096 < 0x1_0000_0000
    ensures var c := ForkOf(p, pid, stack);
            && c.pid == pid && c.stackTop == stack + 4096 && c.state == Ready && c.pending == {} && c.runtime == 0
            && c.priority == p.priority && c.handlers == p.handlers && c.slice == TimeSlice(p.priority)
  {
  }
}
