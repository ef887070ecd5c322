/** The kernel timer list in memory, walked by pointers while callbacks change it. */
module KernelTimers {
  import opened IntrusiveList
  import opened Sequences
  import opened TimerSpec
  import opened TimerWalk

  const JIFFIES_RANGE: nat := 0x1_0000_0000

  class KTimers {
    const list: ListMemory
    var timers: map<Ref, Timer>
    var jiffies: nat
    var activeTimerCount: nat
    ghost var queue: seq<Ref>
    ghost var fired: seq<Ref>

    ghost function St(): State
      reads this
    {
      State(timers, queue, fired)
    }

    /** The ring in memory is the head followed by the queue, and the counter is its length. */
    ghost predicate Valid()
      reads this, list
    {
      && Ok(St())
      && TIMER_LIST !in timers && NULL !in timers
      && (forall t :: t in timers ==> t in list.nodes)
      && Ring(list.nodes, [TIMER_LIST] + queue)
      && activeTimerCount == |queue|
    }

    /** Timers initialised at the given addresses, none of them active. */
    constructor (initial: map<Ref, Callback>)
      requires TIMER_LIST !in initial && NULL !in initial
      ensures Valid() && fresh(list) && queue == [] && fired == [] && jiffies == 0
      ensures timers == map t | t in initial :: Timer(0, initial[t], false)
    {
      var l := new ListMemory();
      list := l;
      jiffies := 0;
      activeTimerCount := 0;
      timers := map t | t in initial :: Timer(0, initial[t], false);
      queue := [];
      fired := [];
      new;
      list.nodes := map t | t in initial.Keys + {TIMER_LIST} :: Node(t, t);
    }

    method Add(t: Ref)
      requires Valid() && t in timers
      modifies this, list
      ensures Valid() && St() == Added(old(St()), t) && jiffies == old(jiffies)
    {
      hide Ring, Ok, Distinct;
      if timers[t].callback == NoFunction {
        return;
      }
      if timers[t].active {
        return;
      }
      AddedOk(St(), t);
      HeadNotIn(timers, queue, t);
      list.AddTail(t, TIMER_LIST, [TIMER_LIST] + queue);
      timers := timers[t := timers[t].(active := true)];
      activeTimerCount := activeTimerCount + 1;
      queue := queue + [t];
    }

    method Del(t: Ref) returns (wasActive: bool)
      requires Valid() && t in timers
      modifies this, list
      ensures Valid() && St() == Deleted(old(St()), t) && jiffies == old(jiffies)
      ensures wasActive == old(timers[t].active)
    {
      if !timers[t].active {
        return false;
      }
      Unqueue(t);
      return true;
    }

    /** Take an active timer off the list. */
    method Unqueue(t: Ref)
      requires Valid() && t in timers && timers[t].active
      modifies this, list
      ensures Valid() && St() == Deleted(old(St()), t) && jiffies == old(jiffies) && fired == old(fired)
      ensures timers[t] == old(timers[t]).(active := false)
      ensures list.nodes[t] == Node(NULL, NULL)
    {
      hide Less, Ring, Removed, Ok, Distinct;
      ghost var k := Position(St(), t);
      DeletedAt(St(), k);
      HeadApart([TIMER_LIST], queue, k);
      list.Del(t, [TIMER_LIST] + queue, k + 1);
      timers := timers[t := timers[t].(active := false)];
      activeTimerCount := activeTimerCount - 1;
      queue := Removed(queue, k);
    }

    method Mod(t: Ref, expires: nat) returns (wasActive: bool)
      requires Valid() && t in timers
      modifies this, list
      ensures Valid() && St() == Modified(old(St()), t, expires) && jiffies == old(jiffies)
      ensures wasActive == old(timers[t].active)
    {
      wasActive := timers[t].active;
      if wasActive {
        var r := Del(t);
      }
      timers := timers[t := timers[t].(expires := expires)];
      Add(t);
    }

    /** A callback runs: its commands, one after the other. */
    method Call(cs: seq<Command>)
      requires Valid() && forall c :: c in cs ==> c.t in timers
      modifies this, list
      ensures Valid() && St() == PerformAll(old(St()), cs) && jiffies == old(jiffies) && timers.Keys == old(timers.Keys)
      decreases |cs|
    {
      if cs == [] {
        return;
      }
      ghost var before := St();
      PerformStanding(before, cs[0]);
      match cs[0] {
        case Start(t) => Add(t);
        case Rearm(t, expires) => var r := Mod(t, expires);
        case Cancel(t) => var r := Del(t);
      }
      assert St() == Perform(before, cs[0]);
      Call(cs[1..]);
    }

    /** The body of the expiry branch: off the list, inactive, then the callback. */
    method FireAt(t: Ref)
      requires Valid() && t in queue && t in timers && Closed(timers)
      modifies this, list
      ensures Valid() && St() == Fire(old(St()), t) && jiffies == old(jiffies)
    {
      Unqueue(t);
      fired := fired + [t];
      assert St() == Retired(old(St()), t);
      if timers[t].callback.Function? {
        Call(timers[t].callback.commands);
      }
    }

    /** One timer interrupt. The next pointer is fetched before the callback of the current
        timer runs. Unless the walk goes on for ever or comes to a null link, it ends in the
        specified state. If no callback touches the timer saved that way or arms one that is
        due, that is the pass over the timers present at the start, and none is due. */
    method Run()
      requires Valid() && Closed(timers)
      requires ComesToEnd(St(), (jiffies + 1) % JIFFIES_RANGE)
      modifies this, list
      ensures Valid() && jiffies == (old(jiffies) + 1) % JIFFIES_RANGE
      ensures exists n: nat :: Walk(old(St()), First(old(queue)), jiffies, n) == Ended(St())
      ensures SafePass(old(St()), old(queue), jiffies) ==>
                && St() == Pass(old(St()), old(queue), jiffies) && DueSet(St(), jiffies) == {}
                && forall t :: t in timers && timers[t].active ==> jiffies < timers[t].expires
      ensures PolitePass(old(St()), old(queue), jiffies) ==> Passed(old(St()), St(), 0, old(queue), jiffies)
    {
      hide Pass, Passed, PolitePass, SafePass, Fire, Ring, Ok, Retired, Commands, From, NextIn, DueSet, Closed, Walk;
      jiffies := (jiffies + 1) % JIFFIES_RANGE;
      ghost var st0, now := St(), jiffies;
      ghost var start := First(queue);
      ghost var n: nat :| Walk(st0, start, now, n).Ended?;
      ghost var last, all := Walk(st0, start, now, n), n;
      AllQueued(st0, now);
      if queue != [] { QueuedKnown(st0, queue[0]); }
      NextIs(list.nodes, TIMER_LIST, queue, 0);
      var timer := list.nodes[TIMER_LIST].next;
      var tmp := list.nodes[timer].next;
      SavedNext(list.nodes, queue, timer);
      while timer != TIMER_LIST
        invariant Valid() && jiffies == now && Closed(timers)
        invariant timer == TIMER_LIST || (timer in queue && timer in timers)
        invariant timer != TIMER_LIST ==> tmp == NextIn(queue, timer)
        invariant Walk(St(), timer, now, n) == last
        decreases n
      {
        ghost var st := St();
        WalkOn(st, timer, now, n);
        QueuedKnown(st, timer);
        if timers[timer].expires <= jiffies {
          FireAt(timer);
          FireCallbacks(st, timer);
        }
        timer := tmp;
        n := n - 1;
        AllQueued(St(), now);
        SavedNext(list.nodes, queue, timer);
        tmp := list.nodes[tmp].next;
      }
      WalkOver(St(), now, n);
      assert Walk(st0, start, now, all) == Ended(St());
      Outcome(st0, now, all);
      NoneDue(St(), now);
    }
  }

  lemma QueuedKnown(st: State, t: Ref)
    requires Ok(st) && t in st.queue
    ensures t in st.timers && st.timers[t].active
  {
  }

  lemma WalkOn(st: State, t: Ref, now: nat, n: nat)
    requires t != TIMER_LIST && t in st.queue && t in st.timers && Walk(st, t, now, n).Ended?
    ensures n > 0 && Walk(st, t, now, n) == Walk(Stepped(st, t, now), NextIn(st.queue, t), now, n - 1)
    ensures Listed(Stepped(st, t, now), NextIn(st.queue, t))
  {
    hide Stepped, NextIn;
  }

  lemma NoneDue(st: State, now: nat)
    ensures DueSet(st, now) == {} ==> forall t :: t in st.timers && st.timers[t].active ==> now < st.timers[t].expires
  {
    forall t | DueSet(st, now) == {} && t in st.timers && st.timers[t].active
      ensures now < st.timers[t].expires
    {
      assert t !in DueSet(st, now);
    }
  }

  lemma WalkOver(st: State, now: nat, n: nat)
    ensures Walk(st, TIMER_LIST, now, n) == Ended(st)
  {
  }

  /** What the end of the walk means when callbacks keep to the rules. */
  lemma Outcome(st: State, now: nat, n: nat)
    requires Standing(st) && Walk(st, First(st.queue), now, n).Ended?
    ensures SafePass(st, st.queue, now) ==>
              var end := Walk(st, First(st.queue), now, n).st; end == Pass(st, st.queue, now) && DueSet(end, now) == {}
    ensures PolitePass(st, st.queue, now) ==> Passed(st, Walk(st, First(st.queue), now, n).st, 0, st.queue, now)
  {
    hide Pass, Passed, PolitePass, SafePass, Walk, From, DueSet;
    AllQueued(st, now);
    HeadNotQueued(st);
    WalkStart(st.queue);
    if PolitePass(st, st.queue, now) {
      PoliteSafePass(st, st.queue, now);
      RunShape(st, now);
    }
    if SafePass(st, st.queue, now) {
      var m := SafeWalk(st, First(st.queue), now);
      EndsAgree(st, First(st.queue), now, m, n);
      PassClears(st, st.queue, now);
    }
  }

  lemma WalkStart(queue: seq<Ref>)
    requires Distinct(queue) && TIMER_LIST !in queue
    ensures From(queue, First(queue)) == queue
  {
    if queue != [] { FromIs(queue, 0); }
  }

  /** The successor in memory is the one the specification names. */
  lemma SavedNext(m: Links, queue: seq<Ref>, t: Ref)
    requires Ring(m, [TIMER_LIST] + queue) && Distinct(queue) && (t in queue || t == TIMER_LIST)
    ensures t in m && m[t].next in m && (t in queue ==> m[t].next == NextIn(queue, t))
  {
    NextIs(m, TIMER_LIST, queue, 0);
    if t in queue {
      var j :| 0 <= j < |queue| && queue[j] == t;
      NextIs(m, TIMER_LIST, queue, j);
      NextIs(m, TIMER_LIST, queue, j + 1);
      FromIs(queue, j);
    }
  }

  lemma HeadNotIn(timers: map<Ref, Timer>, queue: seq<Ref>, t: Ref)
    requires t in timers && TIMER_LIST !in timers && t !in queue
    ensures t !in [TIMER_LIST] + queue && ([TIMER_LIST] + queue) + [t] == [TIMER_LIST] + (queue + [t])
  {
  }

  lemma HeadApart(head: seq<Ref>, queue: seq<Ref>, k: nat)
    requires |head| == 1 && k < |queue|
    ensures Removed(head + queue, k + 1) == head + Removed(queue, k) && (head + queue)[k + 1] == queue[k]
    ensures |Removed(queue, k)| == |queue| - 1
  {
  }
}
