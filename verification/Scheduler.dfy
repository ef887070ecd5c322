/** The scheduler on the ready queue in memory: processes found by following list pointers. */
module Scheduler {
  import opened IntrusiveList
  import opened Sequences
  import opened SchedSpec

  /** The address of the ready queue's head. */
  const READY_QUEUE: Ref := 2

  class Kernel {
    const list: ListMemory
    var procs: map<Ref, Proc>
    var current: Ref
    var nextPid: nat
    ghost var queue: seq<Ref>

    ghost function St(): Sched
      reads this
    {
      Sched(queue, procs, current, nextPid)
    }

    ghost predicate Linked()
      reads this, list
    {
      Ring(list.nodes, [READY_QUEUE] + queue) && NULL !in queue
    }

    ghost predicate Valid()
      reads this, list
    {
      Inv(St()) && Linked()
    }

    /** The kernel process, in a structure the slab cache handed out, is the only one. */
    constructor Init(slot: Ref, stackTop: nat)
      requires slot != NULL && slot != READY_QUEUE
      ensures Valid() && fresh(list) && queue == [slot] && current == slot && nextPid == 1
      ensures procs == map[slot := Proc(0, Running, 128, 0, 0, {}, NoHandlers(), stackTop)]
    {
      var l := new ListMemory();
      list := l;
      procs := map[slot := Proc(0, Running, 128, 0, 0, {}, NoHandlers(), stackTop)];
      current := slot;
      nextPid := 1;
      queue := [slot];
      new;
      list.nodes := map[READY_QUEUE := Node(slot, slot), slot := Node(READY_QUEUE, READY_QUEUE)];
    }

    /** Search from the node behind the current process to the end of the list. */
    method SearchBehind(ghost i: nat) returns (next: Ref)
      requires Formed(St()) && Linked() && i < |queue| && queue[i] == current
      ensures var k := FirstRunnable(queue[i + 1..], procs);
              next == if k < |queue| - i - 1 then queue[i + 1 + k] else NULL
    {
      hide Ring;
      NextIs(list.nodes, READY_QUEUE, queue, i);
      var pos := list.nodes[current].next;
      ghost var j: nat := i + 1;
      ghost var order := queue[i + 1..];
      while pos != READY_QUEUE
        invariant i < j <= |queue| && pos == Cursor(READY_QUEUE, queue, j)
        invariant forall m :: 0 <= m < j - i - 1 ==> !(order[m] in procs && Runnable(procs[order[m]]))
        decreases |queue| - j
      {
        NextIs(list.nodes, READY_QUEUE, queue, j);
        assert pos in queue && order[j - i - 1] == pos;
        if pos != current && Runnable(procs[pos]) {
          FirstIs(order, procs, j - i - 1);
          return pos;
        }
        pos := list.nodes[pos].next;
        j := j + 1;
      }
      EndReached(READY_QUEUE, queue, list.nodes, j);
      FirstIs(order, procs, |order|);
      return NULL;
    }

    /** Search from the start of the list up to the current process. */
    method SearchBefore(ghost i: nat) returns (next: Ref)
      requires Formed(St()) && Linked() && i < |queue| && queue[i] == current
      ensures var k := FirstRunnable(queue[..i], procs);
              next == if k < i then queue[k] else NULL
    {
      hide Ring;
      NextIs(list.nodes, READY_QUEUE, queue, 0);
      var pos := list.nodes[READY_QUEUE].next;
      ghost var j: nat := 0;
      ghost var order := queue[..i];
      while pos != READY_QUEUE && pos != current
        invariant 0 <= j <= i && pos == Cursor(READY_QUEUE, queue, j)
        invariant forall m :: 0 <= m < j ==> !(order[m] in procs && Runnable(procs[order[m]]))
        decreases |queue| - j
      {
        NextIs(list.nodes, READY_QUEUE, queue, j);
        assert pos in queue && order[j] == pos;
        if Runnable(procs[pos]) {
          FirstIs(order, procs, j);
          return pos;
        }
        pos := list.nodes[pos].next;
        j := j + 1;
      }
      NextIs(list.nodes, READY_QUEUE, queue, j);
      FirstIs(order, procs, |order|);
      return NULL;
    }

    /** The first runnable process behind the current one, then from the start of the queue;
        NULL if there is none. */
    method FindNext() returns (next: Ref)
      requires Formed(St()) && Linked()
      ensures if Candidate(St()).NoOne? then next == NULL else Candidate(St()) == Another(next) && next != NULL
    {
      hide Ring, FirstRunnable, Distinct;
      ghost var i := IndexOf(queue, current);
      FirstOfTwo(queue[i + 1..], queue[..i], procs);
      next := SearchBehind(i);
      if next == NULL {
        next := SearchBefore(i);
      }
    }

    /** Deliver the pending signals of the current process. */
    method DoSignal()
      requires current in procs && |procs[current].handlers| == NSIG
      requires forall sig :: sig in procs[current].pending ==> !Terminating(sig)
      modifies this`procs
      ensures procs == old(procs)[current := DeliverFrom(old(procs)[current], 1)]
    {
      var sig: nat := 1;
      while sig < NSIG
        invariant 1 <= sig <= NSIG && current in procs && |procs[current].handlers| == NSIG
        invariant procs == old(procs)[current := procs[current]]
        invariant procs[current].pending <= old(procs)[current].pending
        invariant DeliverFrom(procs[current], sig) == DeliverFrom(old(procs)[current], 1)
      {
        hide DeliverFrom, Deliver;
        DeliverStep(procs[current], sig);
        DoSignalAt(sig);
        sig := sig + 1;
      }
    }

    method DoSignalAt(sig: nat)
      requires current in procs && |procs[current].handlers| == NSIG && sig < NSIG
      requires sig in procs[current].pending ==> !Terminating(sig)
      modifies this`procs
      ensures procs == old(procs)[current := Deliver(old(procs)[current], sig)]
    {
      if sig in procs[current].pending {
        procs := procs[current := procs[current].(pending := procs[current].pending - {sig})];
        if procs[current].handlers[sig] == Default {
          if sig == SIGSTOP {
            procs := procs[current := procs[current].(state := Blocked)];
          } else if sig == SIGCONT {
            if procs[current].state == Blocked {
              procs := procs[current := procs[current].(state := Ready)];
            }
          }
        }
      }
    }

    method Schedule()
      requires Almost(St()) && Linked()
      modifies this`procs, this`current
      ensures Valid() && Sane(old(procs)[old(current)]) && St() == SchedSpec.Schedule(old(St()))
    {
      ScheduleInv(St());
      ScheduleCases(St());
      SaneHere(St());
      hide Inv, Almost, Ring, DeliverFrom, Candidate, Sane, Distinct, Formed, SchedSpec.Schedule, Charged, Parked, Dispatched;
      var c := Charge(procs[current]);
      if c.slice == 0 || c.state == Blocked {
        c := Park(c);
        GiveWay(c);
      } else {
        procs := procs[current := c.(state := Running)];
      }
    }

    /** One tick of the slice is used up. */
    method Charge(p: Proc) returns (c: Proc)
      ensures c == Charged(p)
    {
      c := p;
      if c.slice > 0 {
        c := c.(slice := c.slice - 1);
        c := c.(runtime := (c.runtime + 1) % PID_RANGE);
      }
    }

    method Park(p: Proc) returns (c: Proc)
      ensures c == Parked(p)
    {
      c := p;
      if c.state == Ready || c.state == Running {
        c := c.(slice := TimeSlice(c.priority));
        c := c.(state := Ready);
      }
    }

    /** The turn of the current process, now c, is over: switch if anyone else can run. */
    method GiveWay(c: Proc)
      requires Formed(St()) && Linked() && |c.handlers| == NSIG
      requires forall sig :: sig in c.pending ==> !Terminating(sig)
      modifies this`procs, this`current
      ensures Candidate(old(St())).NoOne? ==> St() == Put(old(St()), old(current), c.(state := Running))
      ensures Candidate(old(St())).Another? ==>
                var next := Candidate(old(St())).r;
                && next in old(procs) && next != old(current)
                && St() == Put(Put(old(St()), old(current), DeliverFrom(c, 1)), next, Dispatched(old(procs)[next])).(current := next)
    {
      CandidateIs(St());
      hide Ring, DeliverFrom, Candidate, Distinct;
      ghost var s := St();
      var next := FindNext();
      if next == NULL {
        procs := procs[current := c.(state := Running)];
      } else {
        assert next in procs && next != current;
        SwitchTo(next, c);
      }
    }

    /** The switch: the old process is parked, the next one dispatched, and the signals of the
        old one are delivered before it stops being current. */
    method SwitchTo(next: Ref, c: Proc)
      requires current in procs && next in procs && next != current && |c.handlers| == NSIG
      requires forall sig :: sig in c.pending ==> !Terminating(sig)
      modifies this`procs, this`current
      ensures current == next
      ensures procs == old(procs)[old(current) := DeliverFrom(c, 1)][next := Dispatched(old(procs)[next])]
    {
      procs := procs[current := c];
      procs := procs[next := procs[next].(state := Running, slice := TimeSlice(procs[next].priority))];
      DoSignal();
      current := next;
    }

    method Yield()
      requires Valid()
      modifies this`procs, this`current
      ensures Valid() && Sane(old(procs)[old(current)]) && St() == SchedSpec.Yield(old(St()))
    {
      SaneHere(St());
      procs := procs[current := procs[current].(slice := 0)];
      Schedule();
    }

    /** Look a process up by pid; NULL if the queue has none. */
    method FindByPid(pid: nat) returns (r: Ref)
      requires Valid()
      ensures var k := FindPid(queue, procs, pid);
              if k == |queue| then r == NULL else r == queue[k] && r in queue
    {
      NextIs(list.nodes, READY_QUEUE, queue, 0);
      var pos := list.nodes[READY_QUEUE].next;
      ghost var j: nat := 0;
      while pos != READY_QUEUE
        invariant 0 <= j <= |queue| && pos == Cursor(READY_QUEUE, queue, j)
        invariant forall m :: 0 <= m < j ==> !(queue[m] in procs && procs[queue[m]].pid == pid)
        decreases |queue| - j
      {
        NextIs(list.nodes, READY_QUEUE, queue, j);
        assert pos in queue;
        if procs[pos].pid == pid {
          PidIs(queue, procs, pid, j);
          return pos;
        }
        pos := list.nodes[pos].next;
        j := j + 1;
      }
      EndReached(READY_QUEUE, queue, list.nodes, j);
      PidIs(queue, procs, pid, j);
      return NULL;
    }

    method Block(pid: nat)
      requires Valid()
      modifies this`procs, this`current
      ensures Valid() && Sane(old(procs)[old(current)]) && St() == SchedSpec.Block(old(St()), pid)
    {
      SaneHere(St());
      BlockInv(St(), pid);
      var r := FindByPid(pid);
      if r == NULL {
        return;
      }
      ghost var s := St();
      procs := procs[r := procs[r].(state := Blocked)];
      if r == current {
        BlockedAlmost(s);
        Schedule();
      }
    }

    method Unblock(pid: nat)
      requires Valid()
      modifies this`procs
      ensures Valid() && St() == SchedSpec.Unblock(old(St()), pid)
    {
      UnblockInv(St(), pid);
      var r := FindByPid(pid);
      if r != NULL && procs[r].state == Blocked {
        procs := procs[r := procs[r].(state := Ready)];
      }
    }

    /** Returns whether a process was removed; the current process is out of scope. */
    method Kill(pid: nat) returns (killed: bool)
      requires Valid() && (pid == 0 || pid != procs[current].pid)
      modifies this`procs, this`queue, list
      ensures Valid() && St() == SchedSpec.Kill(old(St()), pid)
      ensures killed == (pid != 0 && exists r :: r in old(queue) && old(procs)[r].pid == pid)
    {
      if pid == 0 {
        return false;
      }
      KillInv(St(), pid);
      PidIndex(St(), pid);
      var r := FindByPid(pid);
      if r == NULL {
        return false;
      }
      ghost var k := FindPid(queue, procs, pid);
      RemovedMembers(queue, k);
      BehindHead(READY_QUEUE, queue, k);
      list.Del(r, [READY_QUEUE] + queue, k + 1);
      procs := procs - {r};
      queue := Removed(queue, k);
      return true;
    }

    method SetPriority(pid: nat, priority: nat)
      requires Valid() && priority < 256
      modifies this`procs
      ensures Valid() && St() == SchedSpec.SetPriority(old(St()), pid, priority)
    {
      PriorityInv(St(), pid, priority);
      var r := FindByPid(pid);
      if r != NULL {
        procs := procs[r := procs[r].(priority := priority, slice := TimeSlice(priority))];
      }
    }

    /** Returns 0, or -1 for a bad signal number or an unknown pid. */
    method SendSignal(pid: nat, sig: int) returns (r: int)
      requires Valid() && (sig >= 0 ==> !Terminating(sig))
      modifies this`procs
      ensures Valid() && St() == Send(old(St()), pid, sig)
      ensures r == 0 <==> 1 <= sig < NSIG && exists q :: q in old(queue) && old(procs)[q].pid == pid
      ensures r == 0 || r == -1
    {
      if sig < 1 || sig >= NSIG {
        return -1;
      }
      SendInv(St(), pid, sig);
      PidIndex(St(), pid);
      var p := FindByPid(pid);
      if p != NULL {
        procs := procs[p := procs[p].(pending := procs[p].pending + {sig})];
        return 0;
      }
      return -1;
    }

    /** Returns the old handler, or the default for a number that cannot be set. */
    method SysSignal(sig: int, handler: Handler) returns (was: Handler)
      requires Valid()
      modifies this`procs
      ensures Valid() && Sane(old(procs)[old(current)]) && St() == SetHandler(old(St()), sig, handler)
      ensures was == if 1 <= sig < NSIG then old(procs)[current].handlers[sig] else Default
    {
      SaneHere(St());
      if sig < 1 || sig >= NSIG {
        return Default;
      }
      if sig == SIGKILL || sig == SIGSTOP {
        return Default;
      }
      HandlerInv(St(), sig, handler);
      was := procs[current].handlers[sig];
      procs := procs[current := procs[current].(handlers := procs[current].handlers[sig := handler])];
    }

    /** The same with an error result; act == None only reads the handler. */
    method SysSigaction(sig: int, act: SigAct) returns (r: int, was: Handler)
      requires Valid()
      modifies this`procs
      ensures Valid() && Sane(old(procs)[old(current)])
      ensures r == 0 <==> 1 <= sig < NSIG && sig != SIGKILL && sig != SIGSTOP
      ensures r == 0 ==> was == old(procs)[current].handlers[sig]
      ensures St() == if act.Set? then SetHandler(old(St()), sig, act.handler) else old(St())
    {
      SaneHere(St());
      if sig < 1 || sig >= NSIG {
        return -1, Default;
      }
      if sig == SIGKILL || sig == SIGSTOP {
        return -1, Default;
      }
      r, was := 0, procs[current].handlers[sig];
      if act.Set? {
        HandlerInv(St(), sig, act.handler);
        procs := procs[current := procs[current].(handlers := procs[current].handlers[sig := act.handler])];
      }
    }

    /** Put a filled-in structure at the end of the ready queue. The invariant is lost when the
        pids start again at 0. */
    method Enqueue(slot: Ref, p: Proc)
      requires Valid() && slot !in queue && slot != NULL && slot != READY_QUEUE
      requires Sane(p) && p.state != Running && p.pid == nextPid
      modifies this`procs, this`queue, this`nextPid, list
      ensures Linked() && St() == Joined(old(St()), slot, p)
      ensures Valid() <==> old(nextPid) + 1 < PID_RANGE
    {
      JoinedValid(St(), slot, p);
      hide Inv, Almost, Ring, Sane;
      nextPid := (nextPid + 1) % PID_RANGE;
      procs := procs[slot := p];
      LinkTail(slot);
    }

    method LinkTail(slot: Ref)
      requires Linked() && slot !in queue && slot != NULL && slot != READY_QUEUE
      modifies this`queue, list
      ensures Linked() && queue == old(queue) + [slot]
    {
      hide Ring;
      TailOf(READY_QUEUE, queue, slot);
      FreshNode(list.nodes, [READY_QUEUE] + queue, slot);
      list.InitListHead(slot);
      list.AddTail(slot, READY_QUEUE, [READY_QUEUE] + queue);
      queue := queue + [slot];
    }

    /** slot and stack are what the slab cache and the heap returned; only the slot must not be
        null for the code to go on. */
    method Create(slot: Ref, stack: nat)
      requires Valid() && slot !in queue && slot != NULL && slot != READY_QUEUE
      modifies this`procs, this`queue, this`nextPid, list
      ensures St() == Joined(old(St()), slot, KernelTask(old(nextPid), stack))
      ensures Valid() <==> old(nextPid) + 1 < PID_RANGE
    {
      Enqueue(slot, Proc(nextPid, Ready, 100, TimeSlice(100), 0, {}, NoHandlers(), TopOf(stack)));
    }

    /** zeroed is the structure as the slab cache returned it. */
    method CreateUser(slot: Ref, zeroed: Proc, stack: nat)
      requires Valid() && slot !in queue && slot != NULL && slot != READY_QUEUE
      requires zeroed == ZeroProc()
      modifies this`procs, this`queue, this`nextPid, list
      ensures St() == Joined(old(St()), slot, UserTask(old(nextPid), stack))
      ensures Valid() <==> old(nextPid) + 1 < PID_RANGE
    {
      Enqueue(slot, zeroed.(pid := nextPid, stackTop := TopOf(stack)));
    }

    /** slot, directory and stack are what the slab cache, the page-directory copy and the heap
        returned; NULL stands for failure, and is not looked at for the stack. Returns the pid of
        the child as a signed word, or -1. */
    method Fork(slot: Ref, directory: nat, stack: nat) returns (r: int)
      requires Valid() && slot !in queue && slot != READY_QUEUE
      modifies this`procs, this`queue, this`nextPid, list
      ensures Valid() <==> slot == NULL || old(nextPid) + 1 < PID_RANGE
      ensures slot == NULL ==> r == -1 && St() == old(St())
      ensures slot != NULL && directory == NULL ==>
                r == -1 && St() == old(St()).(nextPid := (old(nextPid) + 1) % PID_RANGE)
      ensures slot != NULL && directory != NULL ==>
                r == Signed(old(nextPid)) && St() == Joined(old(St()), slot, ForkOf(old(procs)[current], old(nextPid), stack))
    {
      SaneHere(St());
      if slot == NULL {
        return -1;
      }
      if directory == NULL {
        PidUsed(St());
        nextPid := (nextPid + 1) % PID_RANGE;
        return -1;
      }
      var child := procs[current];
      child := child.(pid := nextPid);
      child := child.(stackTop := TopOf(stack));
      child := child.(state := Ready, slice := TimeSlice(child.priority), runtime := 0);
      child := child.(pending := {});
      r := Signed(child.pid);
      Enqueue(slot, child);
    }
  }

  /** A 32-bit word taken as a signed number. */
  function Signed(w: nat): int {
    if w < PID_RANGE / 2 then w else w - PID_RANGE
  }

  /** The result is the word modulo 2^32, within the range of a signed word. */
  lemma SignedExact(w: nat)
    requires w < 0x1_0000_0000
    ensures -0x8000_0000 <= Signed(w) < 0x8000_0000 && (Signed(w) == w || Signed(w) + 0x1_0000_0000 == w)
  {
  }

  lemma JoinedValid(s: Sched, r: Ref, p: Proc)
    requires Inv(s) && r !in s.queue && Sane(p) && p.state != Running && p.pid == s.nextPid
    ensures Inv(Joined(s, r, p)) <==> s.nextPid + 1 < PID_RANGE
  {
    if s.nextPid + 1 < PID_RANGE {
      JoinedInv(s, r, p);
    } else {
      assert r in Joined(s, r, p).queue;
    }
  }

  lemma PidUsed(s: Sched)
    requires Inv(s)
    ensures Inv(s.(nextPid := (s.nextPid + 1) % PID_RANGE)) <==> s.nextPid + 1 < PID_RANGE
  {
  }

  datatype SigAct = Query | Set(handler: Handler)

  lemma SaneHere(s: Sched)
    requires Almost(s)
    ensures Formed(s) && |s.procs[s.current].handlers| == NSIG
    ensures forall sig :: sig in s.procs[s.current].pending ==> !Terminating(sig)
    ensures s.current in s.queue && s.current in s.procs && Sane(s.procs[s.current])
  {
    assert Sane(s.procs[s.current]);
  }

  lemma {:induction false} FirstOfTwo(a: seq<Ref>, b: seq<Ref>, procs: map<Ref, Proc>)
    ensures FirstRunnable(a + b, procs) == var k := FirstRunnable(a, procs); if k < |a| then k else |a| + FirstRunnable(b, procs)
  {
    var k := FirstRunnable(a, procs);
    FirstIs(a + b, procs, if k < |a| then k else |a| + FirstRunnable(b, procs));
  }

  lemma FirstIs(order: seq<Ref>, procs: map<Ref, Proc>, k: nat)
    requires k <= |order| && forall m :: 0 <= m < k ==> !(order[m] in procs && Runnable(procs[order[m]]))
    requires k < |order| ==> order[k] in procs && Runnable(procs[order[k]])
    ensures FirstRunnable(order, procs) == k
  {
  }

  lemma PidIs(queue: seq<Ref>, procs: map<Ref, Proc>, pid: nat, k: nat)
    requires k <= |queue| && forall m :: 0 <= m < k ==> !(queue[m] in procs && procs[queue[m]].pid == pid)
    requires k < |queue| ==> queue[k] in procs && procs[queue[k]].pid == pid
    ensures FindPid(queue, procs, pid) == k
  {
  }

  lemma EndReached(head: Ref, queue: seq<Ref>, m: Links, j: nat)
    requires Ring(m, [head] + queue) && j <= |queue| && Cursor(head, queue, j) == head
    ensures j == |queue|
  {
    NextIs(m, head, queue, j);
  }

  lemma DeliverStep(p: Proc, sig: nat)
    requires |p.handlers| == NSIG && sig < NSIG
    ensures DeliverFrom(p, sig) == DeliverFrom(Deliver(p, sig), sig + 1)
    ensures Deliver(p, sig).pending <= p.pending && Deliver(p, sig).handlers == p.handlers
  {
  }

  lemma BehindHead(head: Ref, queue: seq<Ref>, k: nat)
    requires k < |queue|
    ensures ([head] + queue)[k + 1] == queue[k] && Removed([head] + queue, k + 1) == [head] + Removed(queue, k)
  {
  }

  lemma TailOf(head: Ref, queue: seq<Ref>, n: Ref)
    requires n != head && n !in queue
    ensures n !in [head] + queue && [head] + queue + [n] == [head] + (queue + [n])
  {
  }

  /** Initialising a node outside a ring leaves the ring alone. */
  lemma FreshNode(m: Links, s: seq<Ref>, n: Ref)
    requires Ring(m, s) && n !in s
    ensures Ring(m[n := Node(n, n)], s)
  {
    assert forall k :: 0 <= k < |s| ==> s[k] in s;
  }
}
