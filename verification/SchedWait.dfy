/** Round robin is fair: a process that stays runnable runs soon, whatever the others do. */
module SchedWait {
  import opened IntrusiveList
  import opened Sequences
  import opened SchedSpec

  /** t is the d-th process behind the current one, in queue order with wrap-around. */
  ghost predicate Behind(s: Sched, t: Ref, d: nat)
    requires s.current in s.queue
  {
    var order := Rotation(s.queue, IndexOf(s.queue, s.current));
    0 < d <= |order| && order[d - 1] == t
  }

  function Left(p: Proc): nat {
    if p.slice == 0 then 1 else p.slice
  }

  /** Calls that may pass before t is reached: full slices for those in between, and what
      is left of the current one. */
  ghost function Potential(s: Sched, d: nat): nat
    requires s.current in s.procs && 0 < d
  {
    MAX_SLICE * (d - 1) + Left(s.procs[s.current])
  }

  // ---- rotations ---------------------------------------------------------------------------

  lemma {:induction false} IndexIs(s: seq<Ref>, i: nat)
    requires Distinct(s) && i < |s|
    ensures IndexOf(s, s[i]) == i
  {
    var k := IndexOf(s, s[i]);
    assert s[k] == s[i];
  }

  /** Rotating on by e + 1 places. */
  lemma RotateOn(queue: seq<Ref>, i: nat, e: nat)
    requires Distinct(queue) && i < |queue| && e < |Rotation(queue, i)|
    ensures var order := Rotation(queue, i);
            order[e] in queue && Rotation(queue, IndexOf(queue, order[e])) == order[e + 1..] + [queue[i]] + order[..e]
  {
    var order := Rotation(queue, i);
    var j := if i + 1 + e < |queue| then i + 1 + e else i + 1 + e - |queue|;
    assert order[e] == queue[j];
    IndexIs(queue, j);
    var a, b := Rotation(queue, j), order[e + 1..] + [queue[i]] + order[..e];
    assert |a| == |b|;
    if j > i { RotatePlain(queue, i, e); } else { RotateWrapped(queue, i, e, j); }
  }

  lemma RotatePlain(queue: seq<Ref>, i: nat, e: nat)
    requires i + 1 + e < |queue|
    ensures var order := Rotation(queue, i);
            Rotation(queue, i + 1 + e) == order[e + 1..] + [queue[i]] + order[..e]
  {
    var order := Rotation(queue, i);
    assert order[e + 1..] == queue[i + 2 + e..] + queue[..i];
    assert order[..e] == queue[i + 1..i + 1 + e];
    assert queue[..i + 1 + e] == queue[..i] + [queue[i]] + queue[i + 1..i + 1 + e];
  }

  lemma RotateWrapped(queue: seq<Ref>, i: nat, e: nat, j: nat)
    requires i < |queue| && j < i && j == i + 1 + e - |queue|
    ensures var order := Rotation(queue, i);
            e < |order| && Rotation(queue, j) == order[e + 1..] + [queue[i]] + order[..e]
  {
    var order := Rotation(queue, i);
    assert order[e + 1..] == queue[j + 1..i];
    assert order[..e] == queue[i + 1..] + queue[..j];
    assert queue[j + 1..] == queue[j + 1..i] + [queue[i]] + queue[i + 1..];
  }

  lemma HasDistance(s: Sched, t: Ref) returns (d: nat)
    requires Formed(s) && t in s.queue && t != s.current
    ensures Behind(s, t, d) && d < |s.queue|
  {
    var i := IndexOf(s.queue, s.current);
    RotationMembers(s.queue, i);
    var order := Rotation(s.queue, i);
    assert t in order;
    var k :| 0 <= k < |order| && order[k] == t;
    d := k + 1;
  }

  // ---- one scheduling call -------------------------------------------------------------------

  /** While t is runnable, a call of schedule makes t current or brings it closer. */
  lemma ScheduleCloser(s: Sched, t: Ref, d: nat) returns (d': nat)
    requires Almost(s) && Behind(s, t, d) && t in s.procs && Runnable(s.procs[t])
    requires Sane(s.procs[s.current])
    ensures var s' := Schedule(s);
            && s'.queue == s.queue && s'.current in s'.queue && s'.current in s'.procs
            && (s'.current == t || (0 < d' <= d && Behind(s', t, d') && Potential(s', d') < Potential(s, d)))
  {
    hide Schedule, DeliverFrom, FirstRunnable, Rotation;
    ScheduleCases(s);
    var i := IndexOf(s.queue, s.current);
    var order := Rotation(s.queue, i);
    var c := Charged(s.procs[s.current]);
    d' := d;
    if Expired(c) {
      BehindOther(s, t, d);
      var e := FirstRunnable(order, s.procs);
      assert e <= d - 1;
      if e < d - 1 {
        d' := d - 1 - e;
        var next := order[e];
        RotateOn(s.queue, i, e);
        TailIndex(order, s.queue[i], e, d);
        assert Sane(s.procs[next]);
      }
    }
  }

  lemma TailIndex(order: seq<Ref>, c: Ref, e: nat, d: nat)
    requires e + 1 < d <= |order|
    ensures (order[e + 1..] + [c] + order[..e])[d - 1 - e - 1] == order[d - 1]
  {
  }

  // ---- other events ------------------------------------------------------------------------------

  /** Calls that do not bring in new processes or change priorities. */
  ghost predicate Quiet(s: Sched, e: Event)
    requires Inv(s)
  {
    Allowed(s, e) && !e.PriorityCall? && !e.CreateCall? && !e.CreateUserCall? && !e.ForkCall?
  }

  /** The call runs schedule. */
  ghost predicate Schedules(s: Sched, e: Event)
    requires Inv(s)
  {
    e.Tick? || e.YieldCall? || (e.BlockCall? && e.pid == s.procs[s.current].pid)
  }

  /** Removing another process never moves t away. */
  lemma RemoveCloser(queue: seq<Ref>, i: nat, k: nat, d: nat) returns (d': nat)
    requires Distinct(queue) && i < |queue| && k < |queue| && k != i
    requires 0 < d <= |Rotation(queue, i)| && Rotation(queue, i)[d - 1] != queue[k]
    ensures queue[i] in Removed(queue, k)
    ensures var order' := Rotation(Removed(queue, k), IndexOf(Removed(queue, k), queue[i]));
            0 < d' <= d && d' <= |order'| && order'[d' - 1] == Rotation(queue, i)[d - 1]
  {
    RemovedMembers(queue, k);
    var q := Removed(queue, k);
    var i' := if k < i then i - 1 else i;
    assert q[i'] == queue[i];
    IndexIs(q, i');
    var p := if i + d < |queue| then i + d else i + d - |queue|;
    assert Rotation(queue, i)[d - 1] == queue[p] && p != k;
    var p' := if k < p then p - 1 else p;
    assert q[p'] == queue[p];
    d' := if p' > i' then p' - i' else p' + |q| - i';
    assert Rotation(q, i')[d' - 1] == q[p'];
  }

  lemma CurrentPid(s: Sched, pid: nat)
    requires Inv(s)
    ensures var k := FindPid(s.queue, s.procs, pid);
            (k < |s.queue| && s.queue[k] == s.current) <==> pid == s.procs[s.current].pid
  {
    PidIndex(s, pid);
    var k := FindPid(s.queue, s.procs, pid);
    if k < |s.queue| { assert s.queue[k] in s.queue; }
  }

  lemma KillCloser(s: Sched, pid: nat, t: Ref, d: nat) returns (d': nat)
    requires Inv(s) && (pid == 0 || pid != s.procs[s.current].pid) && Behind(s, t, d) && t in Kill(s, pid).queue
    ensures var s' := Kill(s, pid);
            && s'.current == s.current && s'.current in s'.queue && s'.current in s'.procs
            && s'.procs[s'.current] == s.procs[s.current]
            && 0 < d' <= d && Behind(s', t, d')
  {
    d' := d;
    var k := FindPid(s.queue, s.procs, pid);
    CurrentPid(s, pid);
    if pid != 0 && k < |s.queue| {
      RemovedMembers(s.queue, k);
      var i := IndexOf(s.queue, s.current);
      d' := RemoveCloser(s.queue, i, k, d);
    }
  }

  /** t is current, or no further away than before, and strictly nearer if cost is 1. */
  ghost predicate Closer(s: Sched, s': Sched, t: Ref, d: nat, d': nat, cost: nat)
    requires s.current in s.procs && s'.current in s'.procs && s'.current in s'.queue && 0 < d
  {
    s'.current == t || (0 < d' <= d && Behind(s', t, d') && Potential(s', d') + cost <= Potential(s, d))
  }

  /** Calls that leave queue, current process and its remaining slice alone. */
  lemma StillCloser(s: Sched, s': Sched, t: Ref, d: nat)
    requires Inv(s) && Behind(s, t, d) && s'.queue == s.queue && s'.current == s.current
    requires s'.current in s'.procs && s'.procs[s'.current].slice == s.procs[s.current].slice
    ensures Closer(s, s', t, d, d, 0)
  {
  }

  /** Calls that first change the current process, at most shortening its slice, and then
      run schedule. */
  lemma CallCloser(s: Sched, p: Proc, t: Ref, d: nat) returns (d': nat)
    requires Inv(s) && Behind(s, t, d) && t in s.queue && t != s.current && Runnable(s.procs[t])
    requires Almost(Put(s, s.current, p)) && Sane(p) && p.slice <= s.procs[s.current].slice
    ensures var s' := Schedule(Put(s, s.current, p));
            s'.current in s'.queue && s'.current in s'.procs && Closer(s, s', t, d, d', 1)
  {
    var s1 := Put(s, s.current, p);
    hide Schedule;
    d' := ScheduleCloser(s1, t, d);
    assert Potential(s1, d) <= Potential(s, d);
  }

  lemma BehindOther(s: Sched, t: Ref, d: nat)
    requires Formed(s) && Behind(s, t, d)
    ensures t in s.queue && t != s.current
  {
    var i := IndexOf(s.queue, s.current);
    RotationMembers(s.queue, i);
    assert Rotation(s.queue, i)[d - 1] in Rotation(s.queue, i);
  }

  lemma PutAlmost(s: Sched, p: Proc)
    requires Inv(s) && Sane(p) && p.pid == s.procs[s.current].pid
    ensures Almost(Put(s, s.current, p))
  {
  }

  /** One quiet call while t is runnable: t becomes current, or it is no further away, and
      strictly nearer if the call ran schedule. */
  lemma EventCloser(s: Sched, e: Event, t: Ref, d: nat) returns (d': nat)
    requires Inv(s) && Quiet(s, e) && Behind(s, t, d) && Runnable(s.procs[t])
    requires Sane(s.procs[s.current]) && t in Step(s, e).queue && Inv(Step(s, e))
    ensures Closer(s, Step(s, e), t, d, d', if Schedules(s, e) then 1 else 0)
  {
    BehindOther(s, t, d);
    var c := s.procs[s.current];
    assert Put(s, s.current, c) == s;
    if e.Tick? {
      d' := CallCloser(s, c, t, d);
    } else if e.YieldCall? {
      PutAlmost(s, c.(slice := 0));
      d' := CallCloser(s, c.(slice := 0), t, d);
    } else if Schedules(s, e) {
      CurrentPid(s, e.pid);
      PutAlmost(s, c.(state := Blocked));
      d' := CallCloser(s, c.(state := Blocked), t, d);
    } else if e.KillCall? {
      d' := KillCloser(s, e.pid, t, d);
    } else {
      d' := d;
      QuietKeeps(s, e);
      StillCloser(s, Step(s, e), t, d);
    }
  }

  lemma QuietKeeps(s: Sched, e: Event)
    requires Inv(s) && Quiet(s, e) && !Schedules(s, e) && !e.KillCall? && Sane(s.procs[s.current])
    ensures var s' := Step(s, e);
            && s'.queue == s.queue && s'.current == s.current && s.current in s'.procs
            && s'.procs[s.current].slice == s.procs[s.current].slice
  {
    if e.BlockCall? { CurrentPid(s, e.pid); }
  }

  // ---- traces --------------------------------------------------------------------------------------

  /** t is in the queue and runnable now and after every call, and all calls are quiet. */
  ghost predicate StaysRunnable(s: Sched, es: seq<Event>, t: Ref)
    requires Inv(s)
    decreases |es|
  {
    && t in s.queue && Runnable(s.procs[t])
    && (es == [] || (Quiet(s, es[0]) && (StepInv(s, es[0]); StaysRunnable(Step(s, es[0]), es[1..], t))))
  }

  ghost function Calls(s: Sched, es: seq<Event>, t: Ref): nat
    requires Inv(s) && StaysRunnable(s, es, t)
    decreases |es|
  {
    if es == [] then 0
    else
      StepInv(s, es[0]);
      (if Schedules(s, es[0]) then 1 else 0) + Calls(Step(s, es[0]), es[1..], t)
  }

  /** t is current now or after some call. */
  ghost predicate GetsTurn(s: Sched, es: seq<Event>, t: Ref)
    requires Inv(s) && StaysRunnable(s, es, t)
    decreases |es|
  {
    s.current == t || (es != [] && (StepInv(s, es[0]); GetsTurn(Step(s, es[0]), es[1..], t)))
  }

  lemma {:induction false} WaitPotential(s: Sched, es: seq<Event>, t: Ref, d: nat)
    requires Inv(s) && StaysRunnable(s, es, t) && t != s.current && Behind(s, t, d)
    requires Potential(s, d) <= Calls(s, es, t)
    ensures GetsTurn(s, es, t)
    decreases |es|
  {
    if es != [] {
      var s' := Step(s, es[0]);
      StepInv(s, es[0]);
      assert t in s'.queue && Runnable(s'.procs[t]) && Sane(s.procs[s.current]);
      hide Step, Schedule, Quiet;
      var d' := EventCloser(s, es[0], t, d);
      if s'.current != t {
        WaitPotential(s', es[1..], t, d');
      }
    }
  }

  /** Bounded waiting: a process that stays runnable at distance d behind the current one
      becomes current within 13 * d calls of schedule, whatever other processes block,
      unblock, yield, signal or die in between. */
  lemma BoundedWait(s: Sched, es: seq<Event>, t: Ref, d: nat)
    requires Inv(s) && StaysRunnable(s, es, t) && t != s.current && Behind(s, t, d)
    requires MAX_SLICE * d <= Calls(s, es, t)
    ensures GetsTurn(s, es, t)
  {
    assert Sane(s.procs[s.current]);
    WaitPotential(s, es, t, d);
  }

  /** So every other process that stays runnable becomes current within 13 calls of schedule
      for each process beside it on the queue. */
  lemma EveryoneGetsTurn(s: Sched, es: seq<Event>, t: Ref)
    requires Inv(s) && StaysRunnable(s, es, t) && t in s.queue && t != s.current
    requires MAX_SLICE * (|s.queue| - 1) <= Calls(s, es, t)
    ensures GetsTurn(s, es, t)
  {
    var d := HasDistance(s, t);
    BoundedWait(s, es, t, d);
  }
}
