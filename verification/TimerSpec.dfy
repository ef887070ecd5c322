/** Kernel timers as a value: adding, deleting, re-arming, and one pass over the expired
    ones, with callbacks that themselves arm timers. */
module TimerSpec {
  import opened IntrusiveList
  import opened Sequences

  /** The address of the list head. */
  const TIMER_LIST: Ref := 1

  /** What a callback does: start a timer, set a timer's expiry and start it, delete one. */
  datatype Command = Start(t: Ref) | Rearm(t: Ref, expires: nat) | Cancel(t: Ref)

  datatype Callback = NoFunction | Function(commands: seq<Command>)

  datatype Timer = Timer(expires: nat, callback: Callback, active: bool)

  /** The timers by address and the queue of the active ones; fired logs the callbacks run. */
  datatype State = State(timers: map<Ref, Timer>, queue: seq<Ref>, fired: seq<Ref>)

  ghost predicate Ok(st: State) {
    && Distinct(st.queue)
    && (forall t :: t in st.queue ==> t in st.timers)
    && (forall t :: t in st.timers ==> (st.timers[t].active <==> t in st.queue))
  }

  function Added(st: State, t: Ref): State
    requires t in st.timers
  {
    if st.timers[t].callback == NoFunction || st.timers[t].active then st
    else st.(timers := st.timers[t := st.timers[t].(active := true)], queue := st.queue + [t])
  }

  function Deleted(st: State, t: Ref): State
    requires t in st.timers
  {
    if !st.timers[t].active then st
    else st.(timers := st.timers[t := st.timers[t].(active := false)], queue := Less(st.queue, t))
  }

  function Modified(st: State, t: Ref, expires: nat): State
    requires t in st.timers
  {
    var st1 := Deleted(st, t);
    Added(st1.(timers := st1.timers[t := st1.timers[t].(expires := expires)]), t)
  }

  function Perform(st: State, c: Command): State {
    if c.t !in st.timers then st
    else match c
      case Start(t) => Added(st, t)
      case Rearm(t, expires) => Modified(st, t, expires)
      case Cancel(t) => Deleted(st, t)
  }

  function PerformAll(st: State, cs: seq<Command>): State
    decreases |cs|
  {
    if cs == [] then st else PerformAll(Perform(st, cs[0]), cs[1..])
  }

  // ---- callbacks that only arm -------------------------------------------------------------

  /** Only inactive timers are re-armed, everything newly armed expires after now, and no
      active timer is deleted. */
  predicate Polite(st: State, c: Command, now: nat) {
    && c.t in st.timers
    && match c
       case Start(t) => st.timers[t].active || st.timers[t].callback == NoFunction || now < st.timers[t].expires
       case Rearm(t, expires) => !st.timers[t].active && now < expires
       case Cancel(t) => !st.timers[t].active
  }

  predicate AllPolite(st: State, cs: seq<Command>, now: nat)
    decreases |cs|
  {
    cs == [] || (Polite(st, cs[0], now) && AllPolite(Perform(st, cs[0]), cs[1..], now))
  }

  predicate Due(st: State, t: Ref, now: nat)
    requires t in st.timers
  {
    st.timers[t].active && st.timers[t].expires <= now
  }

  /** st' has the queue of st followed by timers that are not due; the timers in the queue of
      st are as they were. */
  ghost predicate Extends(st: State, st': State, now: nat) {
    && Ok(st) && Ok(st')
    && st'.fired == st.fired && st'.timers.Keys == st.timers.Keys
    && |st.queue| <= |st'.queue| && st'.queue[..|st.queue|] == st.queue
    && (forall t :: t in st.queue ==> st'.timers[t] == st.timers[t])
    && (forall k :: |st.queue| <= k < |st'.queue| ==> !Due(st', st'.queue[k], now))
  }

  lemma PerformExtends(st: State, c: Command, now: nat)
    requires Ok(st) && Polite(st, c, now)
    ensures Extends(st, Perform(st, c), now)
  {
    var st' := Perform(st, c);
    assert st.queue == st'.queue || st'.queue == st.queue + [c.t];
    assert c.t in st.queue <==> st.timers[c.t].active;
  }

  lemma ExtendsTransitive(a: State, b: State, c: State, now: nat)
    requires Extends(a, b, now) && Extends(b, c, now)
    ensures Extends(a, c, now)
  {
    var n := |a.queue|;
    assert forall k :: 0 <= k < n ==> c.queue[k] == c.queue[..|b.queue|][k] == b.queue[k] == b.queue[..n][k];
    assert c.queue[..n] == a.queue;
    assert forall t :: t in a.queue ==> t in b.queue by {
      forall t | t in a.queue
        ensures t in b.queue
      {
        var k :| 0 <= k < n && a.queue[k] == t;
        assert b.queue[k] == b.queue[..n][k];
      }
    }
    forall k | n <= k < |c.queue|
      ensures !Due(c, c.queue[k], now)
    {
      if k < |b.queue| {
        assert c.queue[k] == c.queue[..|b.queue|][k] == b.queue[k];
        assert b.queue[k] in b.queue;
      }
    }
  }

  lemma {:induction false} PerformAllExtends(st: State, cs: seq<Command>, now: nat)
    requires Ok(st) && AllPolite(st, cs, now)
    ensures Extends(st, PerformAll(st, cs), now)
    decreases |cs|
  {
    if cs == [] {
      assert st.queue[..|st.queue|] == st.queue;
    } else {
      PerformExtends(st, cs[0], now);
      PerformAllExtends(Perform(st, cs[0]), cs[1..], now);
      ExtendsTransitive(st, Perform(st, cs[0]), PerformAll(st, cs), now);
    }
  }

  // ---- one pass --------------------------------------------------------------------------

  /** t leaves the queue and is marked inactive, before its callback runs. */
  function Retired(st: State, t: Ref): State
    requires t in st.timers
  {
    State(st.timers[t := st.timers[t].(active := false)], Less(st.queue, t), st.fired + [t])
  }

  function Commands(f: Callback): seq<Command> {
    if f.Function? then f.commands else []
  }

  function Fire(st: State, t: Ref): State
    requires t in st.timers
  {
    PerformAll(Retired(st, t), Commands(st.timers[t].callback))
  }

  /** The pass over a fixed list of timers: each fires if it is still due at its turn. */
  function Pass(st: State, todo: seq<Ref>, now: nat): State
    decreases |todo|
  {
    if todo == [] || todo[0] !in st.timers then st
    else if Due(st, todo[0], now) then Pass(Fire(st, todo[0]), todo[1..], now)
    else Pass(st, todo[1..], now)
  }

  /** Every callback of the pass keeps to the rules when it runs. */
  predicate PolitePass(st: State, todo: seq<Ref>, now: nat)
    decreases |todo|
  {
    todo == [] ||
    (todo[0] in st.timers &&
     if Due(st, todo[0], now) then
       && AllPolite(Retired(st, todo[0]), Commands(st.timers[todo[0]].callback), now)
       && PolitePass(Fire(st, todo[0]), todo[1..], now)
     else PolitePass(st, todo[1..], now))
  }

  function DueOf(timers: map<Ref, Timer>, s: seq<Ref>, now: nat): seq<Ref> {
    if s == [] then []
    else (if s[0] in timers && timers[s[0]].active && timers[s[0]].expires <= now then [s[0]] else []) + DueOf(timers, s[1..], now)
  }

  function LaterOf(timers: map<Ref, Timer>, s: seq<Ref>, now: nat): seq<Ref> {
    if s == [] then []
    else (if s[0] in timers && timers[s[0]].active && timers[s[0]].expires <= now then [] else [s[0]]) + LaterOf(timers, s[1..], now)
  }

  lemma {:induction false} SameSplit(m: map<Ref, Timer>, m': map<Ref, Timer>, s: seq<Ref>, now: nat)
    requires forall t :: t in s ==> t in m && t in m' && m'[t] == m[t]
    ensures DueOf(m', s, now) == DueOf(m, s, now) && LaterOf(m', s, now) == LaterOf(m, s, now)
  {
    if s != [] {
      assert s[0] in s && forall t :: t in s[1..] ==> t in s;
      SameSplit(m, m', s[1..], now);
    }
  }

  lemma {:induction false} LessAt(s: seq<Ref>, k: nat)
    requires Distinct(s) && k < |s|
    ensures Less(s, s[k]) == Removed(s, k)
  {
    if k > 0 {
      assert s[1..][k - 1] == s[k];
      LessAt(s[1..], k - 1);
      assert Removed(s, k) == [s[0]] + Removed(s[1..], k - 1);
    } else {
      assert Removed(s, 0) == s[1..];
    }
  }

  lemma DeletedAt(st: State, k: nat)
    requires Ok(st) && k < |st.queue| && st.queue[k] in st.timers
    ensures Ok(Deleted(st, st.queue[k]))
    ensures Deleted(st, st.queue[k]).queue == Removed(st.queue, k)
    ensures Deleted(st, st.queue[k]).timers == st.timers[st.queue[k] := st.timers[st.queue[k]].(active := false)]
  {
    assert st.queue[k] in st.queue;
    LessAt(st.queue, k);
    RemovedMembers(st.queue, k);
  }

  ghost function Position(st: State, t: Ref): (k: nat)
    requires Ok(st) && t in st.timers && st.timers[t].active
    ensures k < |st.queue| && st.queue[k] == t
  {
    assert t in st.queue;
    var k :| 0 <= k < |st.queue| && st.queue[k] == t;
    k
  }

  lemma AddedOk(st: State, t: Ref)
    requires Ok(st) && t in st.timers
    ensures Ok(Added(st, t)) && (!st.timers[t].active ==> t !in st.queue)
  {
  }

  lemma RetiredOk(st: State, k: nat)
    requires Ok(st) && k < |st.queue|
    ensures st.queue[k] in st.timers && Ok(Retired(st, st.queue[k]))
    ensures Retired(st, st.queue[k]).queue == Removed(st.queue, k)
  {
    assert st.queue[k] in st.queue;
    LessAt(st.queue, k);
    RemovedMembers(st.queue, k);
  }

  /** One due timer at position k fires: it leaves, the others keep their places, and what
      its callback adds comes last and is not due. */
  lemma FireShape(st: State, k: nat, now: nat)
    requires Ok(st) && k < |st.queue| && st.queue[k] in st.timers
    requires AllPolite(Retired(st, st.queue[k]), Commands(st.timers[st.queue[k]].callback), now)
    ensures Ok(Retired(st, st.queue[k])) && Extends(Retired(st, st.queue[k]), Fire(st, st.queue[k]), now)
    ensures Retired(st, st.queue[k]).queue == Removed(st.queue, k)
  {
    RetiredOk(st, k);
    PerformAllExtends(Retired(st, st.queue[k]), Commands(st.timers[st.queue[k]].callback), now);
  }

  /** The due timers of todo have fired, once each and in order; in front of the queue are
      the first k timers and the others of todo, in order; behind them nothing is due. */
  ghost predicate Passed(st: State, st': State, k: nat, todo: seq<Ref>, now: nat)
    requires k <= |st.queue|
  {
    var kept := st.queue[..k] + LaterOf(st.timers, todo, now);
    && Ok(st') && st'.timers.Keys == st.timers.Keys
    && st'.fired == st.fired + DueOf(st.timers, todo, now)
    && |kept| <= |st'.queue| && st'.queue[..|kept|] == kept
    && forall j :: |kept| <= j < |st'.queue| ==> st'.queue[j] in st'.timers && !Due(st', st'.queue[j], now)
  }

  ghost predicate NoneDueFrom(st: State, k: nat, now: nat) {
    forall j :: k <= j < |st.queue| ==> st.queue[j] in st.timers && !Due(st, st.queue[j], now)
  }

  lemma PassStep(st: State, k: nat, n: nat, now: nat)
    requires Ok(st) && 0 < n && k + n <= |st.queue| && PolitePass(st, st.queue[k..k + n], now)
    requires NoneDueFrom(st, k + n, now) && Due(st, st.queue[k], now)
    ensures var next := Fire(st, st.queue[k]);
            var rest := st.queue[k..k + n][1..];
            && Ok(next) && k + n - 1 <= |next.queue| && next.queue[..k] == st.queue[..k]
            && next.queue[k..k + n - 1] == rest && PolitePass(next, rest, now) && NoneDueFrom(next, k + n - 1, now)
            && next.fired == st.fired + [st.queue[k]] && next.timers.Keys == st.timers.Keys
            && (forall u :: u in rest ==> u in st.timers && u in next.timers && next.timers[u] == st.timers[u])
  {
    assert st.queue[k..k + n][0] == st.queue[k];
    FireShape(st, k, now);
    FiredQueue(st, Retired(st, st.queue[k]), Fire(st, st.queue[k]), k, n, now);
  }

  /** A pass over n timers of the queue from position k on, behind which nothing is due. */
  lemma {:induction false} PassShape(st: State, k: nat, n: nat, now: nat)
    requires Ok(st) && k + n <= |st.queue| && PolitePass(st, st.queue[k..k + n], now)
    requires NoneDueFrom(st, k + n, now)
    ensures Passed(st, Pass(st, st.queue[k..k + n], now), k, st.queue[k..k + n], now)
    decreases n
  {
    hide Retired, Passed, NoneDueFrom, Extends, Fire, Ok, LaterOf, DueOf;
    var todo := st.queue[k..k + n];
    if n == 0 {
      PassedNone(st, k, now);
      assert todo == [];
    } else {
      TodoTail(st.queue, k, n);
      if Due(st, todo[0], now) {
        hide PolitePass;
        PassStep(st, k, n, now);
        var next := Fire(st, todo[0]);
        assert next.queue[k..k + (n - 1)] == todo[1..];
        PassShape(next, k, n - 1, now);
        PassedDue(st, next, Pass(st, todo, now), k, todo, now);
      } else {
        PassShape(st, k + 1, n - 1, now);
        PassedLater(st, Pass(st, todo, now), k, todo, now);
      }
    }
  }

  lemma TodoTail(s: seq<Ref>, k: nat, n: nat)
    requires 0 < n && k + n <= |s|
    ensures s[k..k + n][0] == s[k] && s[k..k + n][1..] == s[k + 1..(k + 1) + (n - 1)]
  {
  }

  lemma PassedNone(st: State, k: nat, now: nat)
    requires Ok(st) && k <= |st.queue| && NoneDueFrom(st, k, now)
    ensures Passed(st, st, k, [], now)
  {
    assert st.queue[..k] + LaterOf(st.timers, [], now) == st.queue[..k];
  }

  lemma PassedLater(st: State, st': State, k: nat, todo: seq<Ref>, now: nat)
    requires todo != [] && k < |st.queue| && st.queue[k] == todo[0]
    requires !(todo[0] in st.timers && Due(st, todo[0], now))
    requires Passed(st, st', k + 1, todo[1..], now)
    ensures Passed(st, st', k, todo, now)
  {
    hide Ok, Distinct;
    LaterHead(st.timers, todo, now);
    hide LaterOf, DueOf;
    assert st.queue[..k + 1] == st.queue[..k] + [todo[0]];
    assert (st.queue[..k] + [todo[0]]) + LaterOf(st.timers, todo[1..], now) == st.queue[..k] + LaterOf(st.timers, todo, now);
  }

  lemma LaterHead(timers: map<Ref, Timer>, s: seq<Ref>, now: nat)
    requires s != [] && !(s[0] in timers && timers[s[0]].active && timers[s[0]].expires <= now)
    ensures LaterOf(timers, s, now) == [s[0]] + LaterOf(timers, s[1..], now) && DueOf(timers, s, now) == DueOf(timers, s[1..], now)
  {
  }

  /** Where the rest of the work list is after position k has fired. */
  lemma FiredQueue(st: State, mid: State, next: State, k: nat, n: nat, now: nat)
    requires Ok(st) && 0 < n && k + n <= |st.queue| && st.queue[k] in st.timers
    requires mid == Retired(st, st.queue[k]) && mid.queue == Removed(st.queue, k) && Extends(mid, next, now)
    requires NoneDueFrom(st, k + n, now)
    ensures k + n - 1 <= |next.queue| && next.queue[..k] == st.queue[..k]
    ensures next.queue[k..k + n - 1] == st.queue[k..k + n][1..]
    ensures NoneDueFrom(next, k + n - 1, now)
    ensures forall j :: k <= j < |st.queue| - 1 ==> j < |next.queue| && next.queue[j] == st.queue[j + 1]
    ensures forall u :: u in st.queue[k..k + n][1..] ==> u in st.timers && u in next.timers && next.timers[u] == st.timers[u]
  {
    hide Less;
    var m := |mid.queue|;
    FrontOf(mid.queue, next.queue, st.queue, k);
    forall j | k + n - 1 <= j < |next.queue|
      ensures next.queue[j] in next.timers && !Due(next, next.queue[j], now)
    {
      assert next.queue[j] in next.queue;
      if j < m {
        assert next.queue[j] == st.queue[j + 1] && mid.queue[j] in mid.queue;
        assert st.queue[j + 1] != st.queue[k];
      }
    }
    forall u | u in st.queue[k..k + n][1..]
      ensures u in st.timers && u in next.timers && next.timers[u] == st.timers[u]
    {
      RestKept(st, mid, next, k, n, u, now);
    }
  }

  lemma RestKept(st: State, mid: State, next: State, k: nat, n: nat, u: Ref, now: nat)
    requires Ok(st) && 0 < n && k + n <= |st.queue| && st.queue[k] in st.timers && u in st.queue[k..k + n][1..]
    requires mid == Retired(st, st.queue[k]) && mid.queue == Removed(st.queue, k) && Extends(mid, next, now)
    ensures u in st.timers && u in next.timers && next.timers[u] == st.timers[u]
  {
    hide Less;
    var j :| 0 <= j < n - 1 && st.queue[k..k + n][1..][j] == u;
    assert mid.queue[k + j] == u && u in mid.queue;
    assert st.queue[k + j + 1] == u != st.queue[k] && u in st.queue;
  }

  lemma FrontOf(mid: seq<Ref>, next: seq<Ref>, s: seq<Ref>, k: nat)
    requires k < |s| && mid == Removed(s, k) && |mid| <= |next| && next[..|mid|] == mid
    ensures forall j :: 0 <= j < k ==> mid[j] == next[j] == s[j]
    ensures forall j :: k <= j < |mid| ==> mid[j] == next[j] == s[j + 1]
  {
    assert forall j :: 0 <= j < |mid| ==> next[j] == next[..|mid|][j];
  }

  lemma PassedDue(st: State, next: State, st': State, k: nat, todo: seq<Ref>, now: nat)
    requires todo != [] && k <= |st.queue| && k <= |next.queue| && next.queue[..k] == st.queue[..k]
    requires todo[0] in st.timers && Due(st, todo[0], now)
    requires next.fired == st.fired + [todo[0]] && next.timers.Keys == st.timers.Keys
    requires forall u :: u in todo[1..] ==> u in st.timers && u in next.timers && next.timers[u] == st.timers[u]
    requires Passed(next, st', k, todo[1..], now)
    ensures Passed(st, st', k, todo, now)
  {
    hide Ok;
    SameSplit(st.timers, next.timers, todo[1..], now);
    assert LaterOf(st.timers, todo, now) == LaterOf(st.timers, todo[1..], now);
    assert st.fired + DueOf(st.timers, todo, now) == next.fired + DueOf(st.timers, todo[1..], now);
  }

  /** The statement for one call of the timer interrupt: everything present at its start. */
  lemma RunShape(st: State, now: nat)
    requires Ok(st) && PolitePass(st, st.queue, now)
    ensures Passed(st, Pass(st, st.queue, now), 0, st.queue, now)
  {
    assert st.queue[0..0 + |st.queue|] == st.queue;
    PassShape(st, 0, |st.queue|, now);
  }

  /** No timer fires twice in one pass. */
  lemma {:induction false} FiredOnce(timers: map<Ref, Timer>, s: seq<Ref>, now: nat)
    requires Distinct(s)
    ensures Distinct(DueOf(timers, s, now)) && forall t :: t in DueOf(timers, s, now) ==> t in s
  {
    if s != [] {
      FiredOnce(timers, s[1..], now);
      assert s[0] !in s[1..];
    }
  }

  // ---- what the calls do --------------------------------------------------------------------

  /** The timers that a pass fires are those that are active and whose time has come, up to and
      including the current tick; the others are kept. */
  lemma {:induction false} DueOfExact(timers: map<Ref, Timer>, s: seq<Ref>, now: nat)
    ensures forall t :: t in DueOf(timers, s, now) <==> t in s && t in timers && timers[t].active && timers[t].expires <= now
    ensures forall t :: t in LaterOf(timers, s, now) <==> t in s && !(t in timers && timers[t].active && timers[t].expires <= now)
  {
    if s != [] { DueOfExact(timers, s[1..], now); }
  }

  /** An inactive timer with a function goes to the end of the list; otherwise nothing happens. */
  lemma AddedMeans(st: State, t: Ref)
    requires Ok(st) && t in st.timers
    ensures var st', p := Added(st, t), st.timers[t];
            if p.active || p.callback == NoFunction then st' == st
            else st' == State(st.timers[t := Timer(p.expires, p.callback, true)], st.queue + [t], st.fired)
  {
  }

  /** An active timer leaves the list, whose other members keep their order; otherwise nothing
      happens. */
  lemma DeletedMeans(st: State, t: Ref, k: nat)
    requires Ok(st) && t in st.timers && (st.timers[t].active ==> k < |st.queue| && st.queue[k] == t)
    ensures var st', p := Deleted(st, t), st.timers[t];
            if p.active
            then st' == State(st.timers[t := Timer(p.expires, p.callback, false)], st.queue[..k] + st.queue[k + 1..], st.fired)
            else st' == st
  {
    if st.timers[t].active { DeletedAt(st, k); }
  }

  /** Setting the expiry moves the timer, active before or not, to the end of the list. */
  lemma ModifiedMeans(st: State, t: Ref, expires: nat, k: nat)
    requires Ok(st) && t in st.timers && st.timers[t].callback != NoFunction
    requires st.timers[t].active ==> k < |st.queue| && st.queue[k] == t
    ensures Modified(st, t, expires)
            == State(st.timers[t := Timer(expires, st.timers[t].callback, true)],
                     (if st.timers[t].active then st.queue[..k] + st.queue[k + 1..] else st.queue) + [t], st.fired)
  {
    DeletedMeans(st, t, k);
  }
}
