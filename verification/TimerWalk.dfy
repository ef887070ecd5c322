/** The walk over the timer list when callbacks may also delete timers and re-arm active ones:
    it works as long as no callback touches the timer saved as the next one. */
module TimerWalk {
  import opened IntrusiveList
  import opened Sequences
  import opened TimerSpec
  import opened Bytes

  // ---- positions by name -------------------------------------------------------------------

  /** The part of s from u on; empty if u is not in s. */
  function From(s: seq<Ref>, u: Ref): seq<Ref> {
    if s == [] then [] else if s[0] == u then s else From(s[1..], u)
  }

  /** What the walk saves before it runs the callback of t. */
  function NextIn(s: seq<Ref>, t: Ref): Ref {
    var f := From(s, t);
    if |f| > 1 then f[1] else TIMER_LIST
  }

  function Filter(s: seq<Ref>, due: set<Ref>): seq<Ref> {
    if s == [] then [] else (if s[0] in due then [s[0]] else []) + Filter(s[1..], due)
  }

  ghost function DueSet(st: State, now: nat): set<Ref> {
    set t | t in st.timers && Due(st, t, now)
  }

  lemma {:induction false} FromIs(s: seq<Ref>, j: nat)
    requires Distinct(s) && j < |s|
    ensures From(s, s[j]) == s[j..]
  {
    if j > 0 {
      assert s[1..][j - 1] == s[j];
      FromIs(s[1..], j - 1);
    }
  }

  lemma {:induction false} FromAbsent(s: seq<Ref>, u: Ref)
    requires u !in s
    ensures From(s, u) == []
  {
    if s != [] { FromAbsent(s[1..], u); }
  }

  lemma {:induction false} FromMore(s: seq<Ref>, t: Ref, u: Ref)
    requires u in s
    ensures From(s + [t], u) == From(s, u) + [t]
  {
    if s[0] != u {
      assert (s + [t])[1..] == s[1..] + [t];
      FromMore(s[1..], t, u);
    }
  }

  lemma {:induction false} FromLess(s: seq<Ref>, t: Ref, u: Ref)
    requires Distinct(s) && t != u
    ensures From(Less(s, t), u) == Less(From(s, u), t)
  {
    if s != [] && s[0] != u {
      if s[0] == t {
        assert t !in s[1..];
        AbsentFrom(s[1..], u, t);
        LessAbsent(From(s[1..], u), t);
      } else {
        FromLess(s[1..], t, u);
        assert Less(s, t)[1..] == Less(s[1..], t);
      }
    }
  }

  lemma {:induction false} AbsentFrom(s: seq<Ref>, u: Ref, t: Ref)
    requires t !in s
    ensures t !in From(s, u)
  {
    if s != [] && s[0] != u { AbsentFrom(s[1..], u, t); }
  }

  // ---- filters -------------------------------------------------------------------------------

  lemma {:induction false} FilterMore(s: seq<Ref>, t: Ref, due: set<Ref>)
    requires t !in due
    ensures Filter(s + [t], due) == Filter(s, due)
  {
    if s != [] {
      assert (s + [t])[1..] == s[1..] + [t];
      FilterMore(s[1..], t, due);
    } else {
      assert [t][1..] == [];
    }
  }

  lemma {:induction false} FilterLess(s: seq<Ref>, t: Ref, due: set<Ref>)
    requires t !in due
    ensures Filter(Less(s, t), due) == Filter(s, due)
  {
    if s != [] && s[0] != t {
      FilterLess(s[1..], t, due);
      assert Less(s, t)[1..] == Less(s[1..], t);
    }
  }

  lemma {:induction false} FilterTwice(s: seq<Ref>, due: set<Ref>, fewer: set<Ref>)
    requires fewer <= due
    ensures Filter(Filter(s, due), fewer) == Filter(s, fewer)
  {
    if s != [] {
      var f := Filter(s[1..], due);
      FilterTwice(s[1..], due, fewer);
      assert ([s[0]] + f)[1..] == f && [] + f == f;
    }
  }

  /** Equal filters stay equal when fewer pass. */
  lemma FilterFewer(s: seq<Ref>, s': seq<Ref>, due: set<Ref>, fewer: set<Ref>)
    requires fewer <= due && Filter(s, due) == Filter(s', due)
    ensures Filter(s, fewer) == Filter(s', fewer)
  {
    FilterTwice(s, due, fewer);
    FilterTwice(s', due, fewer);
  }

  // ---- safe callbacks ---------------------------------------------------------------------------

  /** What is newly armed expires after now, and the timer u, saved as the next one, is neither
      deleted nor re-armed while it is active. */
  predicate Safe(st: State, c: Command, now: nat, u: Ref) {
    && c.t in st.timers
    && match c
       case Start(t) => st.timers[t].active || st.timers[t].callback == NoFunction || now < st.timers[t].expires
       case Rearm(t, expires) => now < expires && (st.timers[t].active ==> t != u)
       case Cancel(t) => st.timers[t].active ==> t != u
  }

  predicate AllSafe(st: State, cs: seq<Command>, now: nat, u: Ref)
    decreases |cs|
  {
    cs == [] || (Safe(st, cs[0], now, u) && AllSafe(Perform(st, cs[0]), cs[1..], now, u))
  }

  /** No timer becomes due, u stays on the list, and the due timers from u on are, in order,
      those that were there and still are due. */
  ghost predicate Keeps(st: State, st': State, u: Ref, now: nat) {
    && Ok(st) && Ok(st') && st'.timers.Keys == st.timers.Keys && st'.fired == st.fired
    && DueSet(st', now) <= DueSet(st, now)
    && (u in st.queue ==>
          u in st'.queue && Filter(From(st'.queue, u), DueSet(st', now)) == Filter(From(st.queue, u), DueSet(st', now)))
  }

  lemma KeepsThen(a: State, b: State, c: State, u: Ref, now: nat)
    requires Keeps(a, b, u, now) && Keeps(b, c, u, now)
    ensures Keeps(a, c, u, now)
  {
    hide DueSet, Ok;
    if u in a.queue {
      FilterFewer(From(b.queue, u), From(a.queue, u), DueSet(b, now), DueSet(c, now));
    }
  }

  lemma AddedKeeps(st: State, t: Ref, now: nat, u: Ref)
    requires Ok(st) && t in st.timers && (st.timers[t].active || st.timers[t].callback == NoFunction || now < st.timers[t].expires)
    ensures Keeps(st, Added(st, t), u, now)
  {
    AddedOk(st, t);
    var st' := Added(st, t);
    if st' != st {
      assert DueSet(st', now) == DueSet(st, now) && t !in DueSet(st', now);
      if u in st.queue {
        FromMore(st.queue, t, u);
        FilterMore(From(st.queue, u), t, DueSet(st', now));
      }
    }
  }

  lemma DeletedKeeps(st: State, t: Ref, now: nat, u: Ref)
    requires Ok(st) && t in st.timers && (st.timers[t].active ==> t != u)
    ensures Keeps(st, Deleted(st, t), u, now)
  {
    var st' := Deleted(st, t);
    if st.timers[t].active {
      var k := Position(st, t);
      DeletedAt(st, k);
      RemovedMembers(st.queue, k);
      assert DueSet(st', now) == DueSet(st, now) - {t};
      if u in st.queue {
        FromLess(st.queue, t, u);
        FilterLess(From(st.queue, u), t, DueSet(st', now));
      }
    }
  }

  /** Changing the expiry of an inactive timer changes nothing for the walk. */
  lemma ExpiryKeeps(st: State, t: Ref, expires: nat, now: nat, u: Ref)
    requires Ok(st) && t in st.timers && !st.timers[t].active
    ensures Keeps(st, st.(timers := st.timers[t := st.timers[t].(expires := expires)]), u, now)
  {
    var st' := st.(timers := st.timers[t := st.timers[t].(expires := expires)]);
    assert DueSet(st', now) == DueSet(st, now);
  }

  lemma SafeKeeps(st: State, c: Command, now: nat, u: Ref)
    requires Ok(st) && Safe(st, c, now, u)
    ensures Keeps(st, Perform(st, c), u, now)
  {
    hide Keeps;
    match c
    case Start(t) => AddedKeeps(st, t, now, u);
    case Cancel(t) => DeletedKeeps(st, t, now, u);
    case Rearm(t, expires) =>
      DeletedKeeps(st, t, now, u);
      var st1 := Deleted(st, t);
      KeepsOk(st, st1, u, now);
      DeletedInactive(st, t);
      ExpiryKeeps(st1, t, expires, now, u);
      var st2 := st1.(timers := st1.timers[t := st1.timers[t].(expires := expires)]);
      KeepsOk(st1, st2, u, now);
      AddedKeeps(st2, t, now, u);
      KeepsThen(st, st1, st2, u, now);
      KeepsThen(st, st2, Added(st2, t), u, now);
  }

  lemma KeepsOk(st: State, st': State, u: Ref, now: nat)
    requires Keeps(st, st', u, now)
    ensures Ok(st) && Ok(st') && st'.timers.Keys == st.timers.Keys
  {
  }

  lemma DeletedInactive(st: State, t: Ref)
    requires t in st.timers
    ensures t in Deleted(st, t).timers && !Deleted(st, t).timers[t].active
  {
  }

  lemma {:induction false} AllSafeKeeps(st: State, cs: seq<Command>, now: nat, u: Ref)
    requires Ok(st) && AllSafe(st, cs, now, u)
    ensures Keeps(st, PerformAll(st, cs), u, now)
    decreases |cs|
  {
    hide Perform, Ok;
    if cs == [] {
    } else {
      SafeKeeps(st, cs[0], now, u);
      AllSafeKeeps(Perform(st, cs[0]), cs[1..], now, u);
      KeepsThen(st, Perform(st, cs[0]), PerformAll(st, cs), u, now);
    }
  }

  // ---- firing one timer -----------------------------------------------------------------------

  /** Behind t the list goes on with the saved next one. */
  lemma NextOf(s: seq<Ref>, t: Ref)
    requires Distinct(s) && t in s && TIMER_LIST !in s
    ensures From(s, t) == [t] + From(s, NextIn(s, t)) && NextIn(s, t) != t
    ensures NextIn(s, t) in s || NextIn(s, t) == TIMER_LIST
  {
    var j :| 0 <= j < |s| && s[j] == t;
    FromIs(s, j);
    if j + 1 < |s| { FromIs(s, j + 1); } else { FromAbsent(s, TIMER_LIST); }
  }

  /** A due timer fires: it is not due any more, nothing else becomes due, and the due timers
      from the saved next one on are those that were there and still are due. */
  lemma FireKeeps(st: State, t: Ref, now: nat)
    requires Ok(st) && TIMER_LIST !in st.timers && t in st.queue && t in st.timers && Due(st, t, now)
    requires AllSafe(Retired(st, t), Commands(st.timers[t].callback), now, NextIn(st.queue, t))
    ensures var next, u := Fire(st, t), NextIn(st.queue, t);
            && Ok(next) && next.timers.Keys == st.timers.Keys && next.fired == st.fired + [t]
            && DueSet(next, now) <= DueSet(st, now) - {t}
            && (u in next.queue || u == TIMER_LIST)
            && Filter(From(next.queue, u), DueSet(next, now)) == Filter(From(st.queue, u), DueSet(next, now))
  {
    hide Ok, DueSet, AllSafe, Due, Commands, PerformAll, From, Filter, NextIn;
    var u, mid := NextIn(st.queue, t), Retired(st, t);
    RetiredHead(st, t, now);
    NextOf(st.queue, t);
    AllSafeKeeps(mid, Commands(st.timers[t].callback), now, u);
    FromLess(st.queue, t, u);
    NotBehind(st.queue, t, u);
    LessAbsent(From(st.queue, u), t);
    if u == TIMER_LIST {
      HeadNotQueued(Fire(st, t));
      FromAbsent(st.queue, u);
      FromAbsent(Fire(st, t).queue, u);
    }
  }

  lemma HeadNotQueued(st: State)
    requires Ok(st) && TIMER_LIST !in st.timers
    ensures TIMER_LIST !in st.queue
  {
  }

  lemma RetiredHead(st: State, t: Ref, now: nat)
    requires Ok(st) && TIMER_LIST !in st.timers && t in st.queue && t in st.timers
    ensures Ok(Retired(st, t)) && Retired(st, t).queue == Less(st.queue, t)
    ensures Retired(st, t).timers.Keys == st.timers.Keys && Retired(st, t).fired == st.fired + [t]
    ensures DueSet(Retired(st, t), now) == DueSet(st, now) - {t}
    ensures Distinct(st.queue) && TIMER_LIST !in st.queue
    ensures forall u :: u in st.queue && u != t ==> u in Retired(st, t).queue
  {
    var k :| 0 <= k < |st.queue| && st.queue[k] == t;
    RetiredOk(st, k);
    RemovedMembers(st.queue, k);
    RetiredDue(st, t, now);
  }

  lemma RetiredDue(st: State, t: Ref, now: nat)
    requires Ok(st) && t in st.timers
    ensures DueSet(Retired(st, t), now) == DueSet(st, now) - {t}
    ensures TIMER_LIST !in st.timers ==> TIMER_LIST !in st.queue
  {
  }

  lemma NotBehind(s: seq<Ref>, t: Ref, u: Ref)
    requires Distinct(s) && t in s && From(s, t) == [t] + From(s, u)
    ensures t !in From(s, u)
  {
    var j :| 0 <= j < |s| && s[j] == t;
    FromIs(s, j);
    assert From(s, u) == s[j + 1..];
  }

  // ---- the pass -------------------------------------------------------------------------------

  /** Every callback of the pass is safe when it runs. */
  predicate SafePass(st: State, todo: seq<Ref>, now: nat)
    decreases |todo|
  {
    todo == [] ||
    (todo[0] in st.timers &&
     if Due(st, todo[0], now) then
       && AllSafe(Retired(st, todo[0]), Commands(st.timers[todo[0]].callback), now, NextIn(st.queue, todo[0]))
       && SafePass(Fire(st, todo[0]), todo[1..], now)
     else SafePass(st, todo[1..], now))
  }

  ghost predicate Standing(st: State) {
    Ok(st) && TIMER_LIST !in st.timers
  }

  lemma DueQueued(st: State, t: Ref, now: nat)
    requires Ok(st) && t in st.timers && Due(st, t, now)
    ensures t in st.queue && t in DueSet(st, now)
  {
  }

  lemma FilterHead(s: seq<Ref>, due: set<Ref>)
    requires s != []
    ensures s[0] !in due ==> Filter(s, due) == Filter(s[1..], due)
    ensures s[0] in due ==> Filter(s, due) == [s[0]] + Filter(s[1..], due)
  {
  }

  /** Only the due timers of a list matter to the pass over it. */
  lemma {:induction false} PassSame(st: State, s: seq<Ref>, s': seq<Ref>, now: nat)
    requires Standing(st) && SafePass(st, s, now) && Filter(s, DueSet(st, now)) == Filter(s', DueSet(st, now))
    requires forall t :: t in s' ==> t in st.timers
    ensures Pass(st, s, now) == Pass(st, s', now) && SafePass(st, s', now)
    decreases |s| + |s'|
  {
    hide Ok, Fire, AllSafe, Filter, NextIn;
    var due := DueSet(st, now);
    if s != [] { FilterHead(s, due); }
    if s' != [] { FilterHead(s', due); }
    if s != [] && s[0] !in due {
      PassSame(st, s[1..], s', now);
    } else if s' != [] && s'[0] !in due {
      PassSame(st, s, s'[1..], now);
    } else if s == [] {
      FilterNone(due);
    } else {
      HeadsEqual(s, s', due);
      DueQueued(st, s[0], now);
      FireKeeps(st, s[0], now);
      FilterFewer(s[1..], s'[1..], due, DueSet(Fire(st, s[0]), now));
      PassSame(Fire(st, s[0]), s[1..], s'[1..], now);
    }
  }

  lemma FilterNone(due: set<Ref>)
    ensures Filter([], due) == []
  {
  }

  lemma HeadsEqual(s: seq<Ref>, s': seq<Ref>, due: set<Ref>)
    requires s != [] && s[0] in due && (s' != [] ==> s'[0] in due) && Filter(s, due) == Filter(s', due)
    ensures s' != [] && s'[0] == s[0] && Filter(s[1..], due) == Filter(s'[1..], due)
  {
    if s' != [] {
      assert Filter(s, due)[1..] == Filter(s[1..], due) && Filter(s', due)[1..] == Filter(s'[1..], due);
    }
  }

  /** A safe pass over all timers leaves none that is due: each of those due at its start has
      fired, once and in list order, unless an earlier callback deleted or re-armed it. */
  lemma {:induction false} PassClears(st: State, todo: seq<Ref>, now: nat)
    requires Standing(st) && SafePass(st, todo, now) && Distinct(todo) && forall t :: t in DueSet(st, now) ==> t in todo
    ensures Standing(Pass(st, todo, now)) && DueSet(Pass(st, todo, now), now) == {}
    ensures exists f: seq<Ref> :: Pass(st, todo, now).fired == st.fired + f && FiredFrom(st, f, todo, now)
    decreases |todo|
  {
    hide Ok, Fire, AllSafe, NextIn, DueSet, FiredFrom, Distinct;
    if todo == [] {
      NoneFired(st, now);
      assert DueSet(st, now) == {};
      assert st.fired + [] == st.fired;
    } else {
      FirstApart(todo);
      if Due(st, todo[0], now) {
        DueQueued(st, todo[0], now);
        FireKeeps(st, todo[0], now);
        PassClears(Fire(st, todo[0]), todo[1..], now);
        var f :| Pass(st, todo, now).fired == Fire(st, todo[0]).fired + f && FiredFrom(Fire(st, todo[0]), f, todo[1..], now);
        OneMore(st, Fire(st, todo[0]), todo, f, now);
        assert st.fired + ([todo[0]] + f) == st.fired + [todo[0]] + f;
      } else {
        NotDue(st, todo[0], now);
        PassClears(st, todo[1..], now);
        var f :| Pass(st, todo, now).fired == st.fired + f && FiredFrom(st, f, todo[1..], now);
        NoneMore(st, todo, f, now);
      }
    }
  }

  lemma FirstApart(s: seq<Ref>)
    requires Distinct(s) && s != []
    ensures s == [s[0]] + s[1..] && Distinct(s[1..]) && s[0] !in s[1..]
  {
  }

  /** Different timers, each due in st, in the order of todo. */
  ghost predicate FiredFrom(st: State, f: seq<Ref>, todo: seq<Ref>, now: nat) {
    Distinct(f) && Filter(todo, Elems(f)) == f && forall t :: t in f ==> t in DueSet(st, now)
  }

  lemma NoneFired(st: State, now: nat)
    ensures FiredFrom(st, [], [], now)
  {
  }

  lemma NotDue(st: State, t: Ref, now: nat)
    requires t in st.timers && !Due(st, t, now)
    ensures t !in DueSet(st, now)
  {
  }

  lemma {:induction false} FilterBeside(s: seq<Ref>, due: set<Ref>, t: Ref)
    requires t !in s
    ensures Filter(s, due + {t}) == Filter(s, due)
  {
    if s != [] { FilterBeside(s[1..], due, t); }
  }

  lemma OneMore(st: State, next: State, todo: seq<Ref>, f: seq<Ref>, now: nat)
    requires todo != [] && todo[0] !in todo[1..] && todo[0] in DueSet(st, now)
    requires FiredFrom(next, f, todo[1..], now) && DueSet(next, now) <= DueSet(st, now) - {todo[0]}
    ensures FiredFrom(st, [todo[0]] + f, todo, now)
  {
    var t := todo[0];
    assert Elems([t] + f) == Elems(f) + {t};
    FilterBeside(todo[1..], Elems(f), t);
    hide DueSet;
  }

  lemma NoneMore(st: State, todo: seq<Ref>, f: seq<Ref>, now: nat)
    requires todo != [] && todo[0] !in DueSet(st, now) && FiredFrom(st, f, todo[1..], now)
    ensures FiredFrom(st, f, todo, now)
  {
    hide DueSet;
  }

  /** Callbacks that only arm are safe. */
  lemma {:induction false} PoliteSafe(st: State, cs: seq<Command>, now: nat, u: Ref)
    requires AllPolite(st, cs, now)
    ensures AllSafe(st, cs, now, u)
    decreases |cs|
  {
    if cs != [] { PoliteSafe(Perform(st, cs[0]), cs[1..], now, u); }
  }

  lemma {:induction false} PoliteSafePass(st: State, todo: seq<Ref>, now: nat)
    requires PolitePass(st, todo, now)
    ensures SafePass(st, todo, now)
    decreases |todo|
  {
    if todo != [] {
      if Due(st, todo[0], now) {
        PoliteSafe(Retired(st, todo[0]), Commands(st.timers[todo[0]].callback), now, NextIn(st.queue, todo[0]));
        PoliteSafePass(Fire(st, todo[0]), todo[1..], now);
      } else {
        PoliteSafePass(st, todo[1..], now);
      }
    }
  }

  // ---- the walk itself, whatever callbacks do ---------------------------------------------------

  /** The walk is at a timer of the list, has come back to the head, or has followed the null
      link of a timer that is not on the list. */
  datatype Progress = Going(st: State, t: Ref) | Ended(st: State) | Lost

  function Stepped(st: State, t: Ref, now: nat): State
    requires t in st.timers
  {
    if Due(st, t, now) then Fire(st, t) else st
  }

  /** n steps from t on: the next timer is saved before the callback runs. */
  function Walk(st: State, t: Ref, now: nat, n: nat): (w: Progress)
    ensures w.Going? ==> w.t in w.st.timers && w.t in w.st.queue && w.t != TIMER_LIST
    decreases n
  {
    if t == TIMER_LIST then Ended(st)
    else if t !in st.queue || t !in st.timers then Lost
    else if n == 0 then Going(st, t)
    else Walk(Stepped(st, t, now), NextIn(st.queue, t), now, n - 1)
  }

  /** The callback of t leaves the saved next timer off the list. */
  predicate Drops(st: State, t: Ref, now: nat)
    requires t in st.timers
  {
    var u := NextIn(st.queue, t);
    Due(st, t, now) && u != TIMER_LIST && u !in Fire(st, t).queue
  }

  /** The timers that are due after the step and no longer ahead of the walk. */
  ghost function Missed(st: State, t: Ref, now: nat): set<Ref>
    requires t in st.timers
  {
    var next, u := Stepped(st, t, now), NextIn(st.queue, t);
    set x | x in DueSet(next, now) && x !in From(next.queue, u)
  }

  /** What is newly armed expires after now. */
  predicate Later(st: State, c: Command, now: nat) {
    c.t in st.timers ==>
      match c
      case Start(t) => st.timers[t].active || st.timers[t].callback == NoFunction || now < st.timers[t].expires
      case Rearm(t, expires) => now < expires
      case Cancel(t) => true
  }

  predicate AllLater(st: State, cs: seq<Command>, now: nat)
    decreases |cs|
  {
    cs == [] || (Later(st, cs[0], now) && AllLater(Perform(st, cs[0]), cs[1..], now))
  }

  /** Rules for a step: callbacks arm only for later; due timers that the walk has passed stay
      due; and the step neither drops the saved timer nor misses a due one. */
  datatype Rule = ArmsLater | Unaided | Sparing

  ghost predicate Follows(rule: Rule, st: State, t: Ref, now: nat)
    requires t in st.timers
  {
    match rule
    case ArmsLater => Due(st, t, now) ==> AllLater(Retired(st, t), Commands(st.timers[t].callback), now)
    case Unaided => forall x :: x in DueSet(st, now) && x !in From(st.queue, t) ==> x in DueSet(Stepped(st, t, now), now)
    case Sparing => !Drops(st, t, now) && Missed(st, t, now) == {}
  }

  /** Every step of the walk follows the rule. */
  ghost predicate Always(rule: Rule, st: State, t: Ref, now: nat) {
    forall i: nat :: Walk(st, t, now, i).Going? ==> Follows(rule, Walk(st, t, now, i).st, Walk(st, t, now, i).t, now)
  }

  /** On the list, or at its head. */
  predicate Listed(st: State, t: Ref) {
    t == TIMER_LIST || (t in st.queue && t in st.timers)
  }

  lemma AlwaysFirst(rule: Rule, st: State, t: Ref, now: nat)
    requires Always(rule, st, t, now) && t != TIMER_LIST && Listed(st, t)
    ensures Follows(rule, st, t, now)
    ensures Always(rule, Stepped(st, t, now), NextIn(st.queue, t), now)
  {
    hide Follows;
    assert Walk(st, t, now, 0) == Going(st, t);
    forall i: nat | Walk(Stepped(st, t, now), NextIn(st.queue, t), now, i).Going?
      ensures Walk(st, t, now, i + 1) == Walk(Stepped(st, t, now), NextIn(st.queue, t), now, i)
    {
    }
  }

  // ---- what every callback keeps ----------------------------------------------------------------

  lemma PerformStanding(st: State, c: Command)
    requires Standing(st)
    ensures Standing(Perform(st, c)) && Perform(st, c).timers.Keys == st.timers.Keys && Perform(st, c).fired == st.fired
  {
    if c.t in st.timers {
      if st.timers[c.t].active { DeletedAt(st, Position(st, c.t)); }
      match c
      case Start(t) => AddedOk(st, t);
      case Cancel(t) =>
      case Rearm(t, expires) =>
        var st1 := Deleted(st, t);
        ModifiedOk(st1, t, expires);
    }
  }

  lemma ModifiedOk(st: State, t: Ref, expires: nat)
    requires Ok(st) && t in st.timers && !st.timers[t].active
    ensures Ok(Added(st.(timers := st.timers[t := st.timers[t].(expires := expires)]), t))
  {
    AddedOk(st.(timers := st.timers[t := st.timers[t].(expires := expires)]), t);
  }

  lemma {:induction false} PerformAllStanding(st: State, cs: seq<Command>)
    requires Standing(st)
    ensures Standing(PerformAll(st, cs)) && PerformAll(st, cs).timers.Keys == st.timers.Keys && PerformAll(st, cs).fired == st.fired
    decreases |cs|
  {
    hide Perform, Standing;
    if cs != [] {
      PerformStanding(st, cs[0]);
      PerformAllStanding(Perform(st, cs[0]), cs[1..]);
    }
  }

  lemma SteppedStanding(st: State, t: Ref, now: nat)
    requires Standing(st) && t in st.queue
    ensures t in st.timers && Standing(Stepped(st, t, now)) && Stepped(st, t, now).timers.Keys == st.timers.Keys
    ensures var u := NextIn(st.queue, t); (u in st.queue || u == TIMER_LIST) && u != t
    ensures TIMER_LIST !in st.queue && Distinct(st.queue) && From(st.queue, t) == [t] + From(st.queue, NextIn(st.queue, t))
    ensures !Drops(st, t, now) ==> Listed(Stepped(st, t, now), NextIn(st.queue, t))
  {
    hide PerformAll, NextIn, From;
    RetiredHead(st, t, now);
    NextOf(st.queue, t);
    PerformAllStanding(Retired(st, t), Commands(st.timers[t].callback));
  }

  /** The walk comes to a null link if and only if, at some step, the callback leaves the saved
      next timer off the list. */
  lemma {:induction false} LostExact(st: State, t: Ref, now: nat, n: nat)
    requires Standing(st) && Listed(st, t)
    ensures Walk(st, t, now, n) == Lost
            <==> exists i: nat :: i < n && Walk(st, t, now, i).Going? && Drops(Walk(st, t, now, i).st, Walk(st, t, now, i).t, now)
    decreases n
  {
    hide Drops, Standing, NextIn, Stepped;
    if t != TIMER_LIST && n > 0 {
      var next, u := Stepped(st, t, now), NextIn(st.queue, t);
      SteppedStanding(st, t, now);
      assert Walk(st, t, now, 0) == Going(st, t);
      assert Walk(st, t, now, n) == Walk(next, u, now, n - 1);
      if Drops(st, t, now) {
        DroppedLost(st, t, now);
        assert Drops(Walk(st, t, now, 0).st, Walk(st, t, now, 0).t, now);
      } else {
        LostExact(next, u, now, n - 1);
        if Walk(st, t, now, n) == Lost {
          var i: nat :| i < n - 1 && Walk(next, u, now, i).Going? && Drops(Walk(next, u, now, i).st, Walk(next, u, now, i).t, now);
          var j: nat := i + 1;
          assert Walk(st, t, now, j) == Walk(next, u, now, i);
          assert Drops(Walk(st, t, now, j).st, Walk(st, t, now, j).t, now);
        } else {
          forall i: nat | i < n && Walk(st, t, now, i).Going?
            ensures !Drops(Walk(st, t, now, i).st, Walk(st, t, now, i).t, now)
          {
            if i > 0 {
              var j: nat := i - 1;
              assert Walk(st, t, now, i) == Walk(next, u, now, j);
              assert !(Walk(next, u, now, j).Going? && Drops(Walk(next, u, now, j).st, Walk(next, u, now, j).t, now));
            }
          }
        }
      }
    }
  }

  lemma DroppedLost(st: State, t: Ref, now: nat)
    requires t in st.timers && Drops(st, t, now)
    ensures forall m: nat :: Walk(Stepped(st, t, now), NextIn(st.queue, t), now, m) == Lost
  {
    hide NextIn, Fire;
  }

  // ---- arming only for later -------------------------------------------------------------------

  /** Nothing becomes due, and what is still due and was not ahead of u is not ahead now. */
  ghost predicate Fewer(st: State, st': State, now: nat, u: Ref) {
    && DueSet(st', now) <= DueSet(st, now)
    && forall x :: x in DueSet(st', now) && x !in From(st.queue, u) ==> x !in From(st'.queue, u)
  }

  lemma FewerThen(a: State, b: State, c: State, now: nat, u: Ref)
    requires Fewer(a, b, now, u) && Fewer(b, c, now, u)
    ensures Fewer(a, c, now, u)
  {
  }

  lemma {:induction false} FromNew(s: seq<Ref>, t: Ref, u: Ref)
    requires u !in s
    ensures From(s + [t], u) == if u == t then [t] else []
  {
    if s != [] {
      assert (s + [t])[1..] == s[1..] + [t];
      FromNew(s[1..], t, u);
    } else {
      assert [t][1..] == [];
    }
  }

  lemma AddedFewer(st: State, t: Ref, now: nat, u: Ref)
    requires Ok(st) && t in st.timers && (st.timers[t].active || st.timers[t].callback == NoFunction || now < st.timers[t].expires)
    ensures Fewer(st, Added(st, t), now, u)
  {
    if Added(st, t) != st {
      if u in st.queue { FromMore(st.queue, t, u); } else { FromNew(st.queue, t, u); }
    }
  }

  lemma DeletedFewer(st: State, t: Ref, now: nat, u: Ref)
    requires Ok(st) && t in st.timers
    ensures Ok(Deleted(st, t)) && Fewer(st, Deleted(st, t), now, u)
  {
    if st.timers[t].active {
      var k := Position(st, t);
      DeletedAt(st, k);
      RemovedMembers(st.queue, k);
      if u == t {
        FromAbsent(Less(st.queue, t), u);
      } else {
        FromLess(st.queue, t, u);
        LessWithin(From(st.queue, u), t);
      }
    }
  }

  lemma {:induction false} LessWithin(s: seq<Ref>, t: Ref)
    ensures forall x :: x in Less(s, t) ==> x in s
  {
    if s != [] && s[0] != t { LessWithin(s[1..], t); }
  }

  lemma PerformFewer(st: State, c: Command, now: nat, u: Ref)
    requires Standing(st) && Later(st, c, now)
    ensures Fewer(st, Perform(st, c), now, u)
  {
    if c.t in st.timers {
      hide Fewer;
      match c
      case Start(t) => AddedFewer(st, t, now, u);
      case Cancel(t) => DeletedFewer(st, t, now, u);
      case Rearm(t, expires) =>
        var st1 := Deleted(st, t);
        var st2 := st1.(timers := st1.timers[t := st1.timers[t].(expires := expires)]);
        DeletedFewer(st, t, now, u);
        DeletedInactive(st, t);
        ExpiryFewer(st1, t, expires, now, u);
        AddedFewer(st2, t, now, u);
        FewerThen(st, st1, st2, now, u);
        FewerThen(st, st2, Added(st2, t), now, u);
    } else {
      assert Perform(st, c) == st;
    }
  }

  lemma ExpiryFewer(st: State, t: Ref, expires: nat, now: nat, u: Ref)
    requires Ok(st) && t in st.timers && !st.timers[t].active
    ensures var st' := st.(timers := st.timers[t := st.timers[t].(expires := expires)]); Ok(st') && Fewer(st, st', now, u)
  {
  }

  lemma {:induction false} PerformAllFewer(st: State, cs: seq<Command>, now: nat, u: Ref)
    requires Standing(st) && AllLater(st, cs, now)
    ensures Fewer(st, PerformAll(st, cs), now, u)
    decreases |cs|
  {
    if cs != [] {
      hide Perform, Standing, Fewer, Later;
      PerformStanding(st, cs[0]);
      PerformFewer(st, cs[0], now, u);
      PerformAllFewer(Perform(st, cs[0]), cs[1..], now, u);
      FewerThen(st, Perform(st, cs[0]), PerformAll(st, cs), now, u);
    }
  }

  /** A step makes nothing due, and t itself is not due afterwards; a timer that is due
      afterwards and was not ahead of t is missed. */
  lemma SteppedFewer(st: State, t: Ref, now: nat)
    requires Standing(st) && t in st.queue && t in st.timers && Follows(ArmsLater, st, t, now)
    ensures DueSet(Stepped(st, t, now), now) <= DueSet(st, now) - {t}
    ensures forall x :: x in DueSet(Stepped(st, t, now), now) && x !in From(st.queue, t) ==> x in Missed(st, t, now)
  {
    hide PerformAll, AllLater, From, NextIn, Less;
    RetiredHead(st, t, now);
    NextOf(st.queue, t);
    var u, mid := NextIn(st.queue, t), Retired(st, t);
    if Due(st, t, now) {
      PerformAllFewer(mid, Commands(st.timers[t].callback), now, u);
      FromLess(st.queue, t, u);
      LessWithin(From(st.queue, u), t);
    }
  }

  // ---- the whole walk ---------------------------------------------------------------------------

  /** If callbacks arm only for later, the walk ends, or comes to a null link. */
  lemma {:induction false} WalkEnds(st: State, t: Ref, now: nat) returns (n: nat)
    requires Standing(st) && Listed(st, t) && Always(ArmsLater, st, t, now)
    ensures !Walk(st, t, now, n).Going?
    decreases DueSet(st, now), |From(st.queue, t)|
  {
    hide Standing, Always, Drops, DueSet, Missed, Follows, Fire, Due, From, NextIn;
    if t == TIMER_LIST {
      n := 0;
    } else {
      var next, u := Stepped(st, t, now), NextIn(st.queue, t);
      SteppedStanding(st, t, now);
      AlwaysFirst(ArmsLater, st, t, now);
      SteppedFewer(st, t, now);
      if Drops(st, t, now) {
        DroppedLost(st, t, now);
        n := 1;
      } else {
        StepShrinks(st, t, now);
        n := WalkEnds(next, u, now);
        n := n + 1;
      }
    }
  }

  /** What makes the walk end. */
  lemma StepShrinks(st: State, t: Ref, now: nat)
    requires Standing(st) && t in st.queue && t in st.timers && Follows(ArmsLater, st, t, now)
    ensures var next, u := Stepped(st, t, now), NextIn(st.queue, t);
            DueSet(next, now) < DueSet(st, now) || (next == st && |From(next.queue, u)| < |From(st.queue, t)|)
  {
    hide Follows, Fire, From, NextIn;
    SteppedStanding(st, t, now);
    SteppedFewer(st, t, now);
    if Due(st, t, now) { assert t in DueSet(st, now); }
  }

  /** A timer due at the end was behind from the start, or has been missed by a step. */
  lemma {:induction false} EndDue(st: State, t: Ref, now: nat, n: nat, x: Ref) returns (i: nat)
    requires Standing(st) && Listed(st, t) && Always(ArmsLater, st, t, now) && Walk(st, t, now, n).Ended?
    requires x in DueSet(Walk(st, t, now, n).st, now)
    ensures x in DueSet(st, now)
    ensures x in From(st.queue, t) ==> i < n && Walk(st, t, now, i).Going? && x in Missed(Walk(st, t, now, i).st, Walk(st, t, now, i).t, now)
    decreases n
  {
    hide Standing, Always, Drops, DueSet, Follows, Fire, Due, From, NextIn, Missed;
    i := 0;
    if t == TIMER_LIST {
      HeadBehind(st);
    } else {
      var next, u := Stepped(st, t, now), NextIn(st.queue, t);
      SteppedStanding(st, t, now);
      AlwaysFirst(ArmsLater, st, t, now);
      SteppedFewer(st, t, now);
      assert Walk(st, t, now, n) == Walk(next, u, now, n - 1);
      if Drops(st, t, now) {
        DroppedLost(st, t, now);
        assert false;
      } else {
        var j := EndDue(next, u, now, n - 1, x);
        MissedNow(st, t, now, x);
        if x in From(next.queue, u) {
          i := j + 1;
          assert Walk(st, t, now, i) == Walk(next, u, now, j);
        } else {
          assert Walk(st, t, now, 0) == Going(st, t);
        }
      }
    }
  }

  lemma HeadBehind(st: State)
    requires Standing(st)
    ensures From(st.queue, TIMER_LIST) == []
  {
    FromAbsent(st.queue, TIMER_LIST);
  }

  lemma MissedNow(st: State, t: Ref, now: nat, x: Ref)
    requires t in st.timers && x in DueSet(Stepped(st, t, now), now)
    ensures x in Missed(st, t, now) <==> x !in From(Stepped(st, t, now).queue, NextIn(st.queue, t))
  {
  }

  /** A due timer that is behind, and that no callback helps, is due at the end. */
  lemma {:induction false} StaysDue(st: State, t: Ref, now: nat, n: nat, x: Ref)
    requires Standing(st) && Listed(st, t) && Always(ArmsLater, st, t, now) && Always(Unaided, st, t, now)
    requires Walk(st, t, now, n).Ended? && x in DueSet(st, now) && x !in From(st.queue, t)
    ensures x in DueSet(Walk(st, t, now, n).st, now)
    decreases n
  {
    hide Standing, Always, Drops, DueSet, Fire, Due, From, NextIn, Missed;
    if t != TIMER_LIST {
      var next, u := Stepped(st, t, now), NextIn(st.queue, t);
      SteppedStanding(st, t, now);
      AlwaysFirst(ArmsLater, st, t, now);
      AlwaysFirst(Unaided, st, t, now);
      SteppedFewer(st, t, now);
      MissedNow(st, t, now, x);
      if Drops(st, t, now) {
        DroppedLost(st, t, now);
        assert false;
      } else {
        StaysDue(next, u, now, n - 1, x);
      }
    }
  }

  lemma {:induction false} MissedStays(st: State, t: Ref, now: nat, n: nat, i: nat, x: Ref)
    requires Standing(st) && Listed(st, t) && Always(ArmsLater, st, t, now) && Always(Unaided, st, t, now)
    requires Walk(st, t, now, n).Ended? && Walk(st, t, now, i).Going?
    requires x in Missed(Walk(st, t, now, i).st, Walk(st, t, now, i).t, now)
    ensures x in DueSet(Walk(st, t, now, n).st, now)
    decreases i
  {
    hide Standing, Always, Drops, DueSet, Fire, Due, From, NextIn;
    var next, u := Stepped(st, t, now), NextIn(st.queue, t);
    SteppedStanding(st, t, now);
    AlwaysFirst(ArmsLater, st, t, now);
    AlwaysFirst(Unaided, st, t, now);
    assert n > 0 && Walk(st, t, now, n) == Walk(next, u, now, n - 1);
    if Drops(st, t, now) {
      DroppedLost(st, t, now);
      assert false;
    } else if i == 0 {
      StaysDue(next, u, now, n - 1, x);
    } else {
      MissedStays(next, u, now, n - 1, i - 1, x);
    }
  }

  /** When callbacks arm only for later and leave timers that the walk has passed due, the walk
      ends with no timer due if and only if no step drops the saved timer or leaves a due one
      behind it. */
  lemma CleanExact(st: State, t: Ref, now: nat)
    requires Standing(st) && Listed(st, t) && Always(ArmsLater, st, t, now) && Always(Unaided, st, t, now)
    requires forall x :: x in DueSet(st, now) ==> x in From(st.queue, t)
    ensures (exists n: nat :: Walk(st, t, now, n).Ended? && DueSet(Walk(st, t, now, n).st, now) == {}) <==> Always(Sparing, st, t, now)
  {
    hide Standing, Drops, DueSet, Fire, Due, From, NextIn, Missed;
    if Always(Sparing, st, t, now) {
      SparingClean(st, t, now);
    } else {
      var i: nat :| Walk(st, t, now, i).Going? && !Follows(Sparing, Walk(st, t, now, i).st, Walk(st, t, now, i).t, now);
      forall n: nat | Walk(st, t, now, n).Ended?
        ensures DueSet(Walk(st, t, now, n).st, now) != {}
      {
        if Drops(Walk(st, t, now, i).st, Walk(st, t, now, i).t, now) {
          EndsOnce(st, t, now, i, n);
          LostExact(st, t, now, n);
        } else {
          var x :| x in Missed(Walk(st, t, now, i).st, Walk(st, t, now, i).t, now);
          MissedStays(st, t, now, n, i, x);
        }
      }
    }
  }

  /** That much is enough, also when callbacks help timers that were passed. */
  lemma SparingClean(st: State, t: Ref, now: nat)
    requires Standing(st) && Listed(st, t) && Always(ArmsLater, st, t, now) && Always(Sparing, st, t, now)
    requires forall x :: x in DueSet(st, now) ==> x in From(st.queue, t)
    ensures exists n: nat :: Walk(st, t, now, n).Ended? && DueSet(Walk(st, t, now, n).st, now) == {}
  {
    hide Standing, Drops, DueSet, Fire, Due, From, NextIn, Missed;
    var n := WalkEnds(st, t, now);
    LostExact(st, t, now, n);
    var end := Walk(st, t, now, n).st;
    forall x | x in DueSet(end, now)
      ensures false
    {
      var i := EndDue(st, t, now, n, x);
    }
    assert DueSet(end, now) == {};
  }

  lemma {:induction false} EndsOnce(st: State, t: Ref, now: nat, i: nat, n: nat)
    requires Walk(st, t, now, i).Going? && Walk(st, t, now, n).Ended?
    ensures i < n
    decreases i
  {
    if i > 0 && n > 0 { EndsOnce(Stepped(st, t, now), NextIn(st.queue, t), now, i - 1, n - 1); }
  }

  // ---- safe callbacks, and others -----------------------------------------------------------------

  lemma AllQueued(st: State, now: nat)
    requires Ok(st)
    ensures Distinct(st.queue) && forall t :: t in DueSet(st, now) ==> t in st.queue
  {
  }

  /** One step of the walk: the pass that remains is the one from the saved next timer on. */
  lemma WalkStep(st: State, t: Ref, now: nat)
    requires Standing(st) && t in st.queue && t in st.timers && SafePass(st, From(st.queue, t), now)
    ensures var u := NextIn(st.queue, t);
            && (u in st.queue || u == TIMER_LIST)
            && (Due(st, t, now) ==>
                  var next := Fire(st, t);
                  && AllSafe(Retired(st, t), Commands(st.timers[t].callback), now, u)
                  && (u in next.queue || u == TIMER_LIST) && SafePass(next, From(next.queue, u), now)
                  && Pass(next, From(next.queue, u), now) == Pass(st, From(st.queue, t), now)
                  && DueSet(next, now) < DueSet(st, now))
            && (!Due(st, t, now) ==>
                  && SafePass(st, From(st.queue, u), now)
                  && Pass(st, From(st.queue, u), now) == Pass(st, From(st.queue, t), now)
                  && |From(st.queue, u)| < |From(st.queue, t)|)
  {
    hide Ok, Fire, AllSafe, NextIn, From, Filter, DueSet;
    var u := NextIn(st.queue, t);
    AllQueued(st, now);
    HeadNotQueued(st);
    NextOf(st.queue, t);
    assert From(st.queue, t)[0] == t && From(st.queue, t)[1..] == From(st.queue, u);
    if Due(st, t, now) {
      DueQueued(st, t, now);
      FireKeeps(st, t, now);
      FromKnown(Fire(st, t), u);
      PassSame(Fire(st, t), From(st.queue, u), From(Fire(st, t).queue, u), now);
    }
  }

  lemma {:induction false} FromMembers(s: seq<Ref>, u: Ref)
    ensures forall t :: t in From(s, u) ==> t in s
  {
    if s != [] && s[0] != u { FromMembers(s[1..], u); }
  }

  lemma FromKnown(st: State, u: Ref)
    requires Ok(st)
    ensures forall t :: t in From(st.queue, u) ==> t in st.timers
  {
    FromMembers(st.queue, u);
  }

  lemma WalkDone(st: State, now: nat)
    requires Standing(st)
    ensures Pass(st, From(st.queue, TIMER_LIST), now) == st
  {
    FromAbsent(st.queue, TIMER_LIST);
  }

  /** Callbacks that touch no saved timer make the walk the pass over the timers from t on. */
  lemma {:induction false} SafeWalk(st: State, t: Ref, now: nat) returns (n: nat)
    requires Standing(st) && Listed(st, t) && SafePass(st, From(st.queue, t), now)
    ensures Walk(st, t, now, n) == Ended(Pass(st, From(st.queue, t), now))
    decreases DueSet(st, now), |From(st.queue, t)|
  {
    hide Standing, DueSet, Fire, From, NextIn, SafePass, Pass, AllSafe, Retired, Commands;
    if t == TIMER_LIST {
      WalkDone(st, now);
      n := 0;
    } else {
      WalkStep(st, t, now);
      SteppedStanding(st, t, now);
      n := SafeWalk(Stepped(st, t, now), NextIn(st.queue, t), now);
      n := n + 1;
    }
  }

  /** A callback that deletes the saved next timer sends the walk through a null link. */
  lemma DeletedNextDrops(st: State, t: Ref, now: nat)
    requires Standing(st) && t in st.queue && t in st.timers && Due(st, t, now) && NextIn(st.queue, t) != TIMER_LIST
    requires st.timers[t].callback == Function([Cancel(NextIn(st.queue, t))])
    ensures Drops(st, t, now) && Walk(st, t, now, 1) == Lost
  {
    var u, mid := NextIn(st.queue, t), Retired(st, t);
    SteppedStanding(st, t, now);
    RetiredHead(st, t, now);
    assert u in mid.queue && mid.timers[u].active;
    var k := Position(mid, u);
    DeletedAt(mid, k);
    RemovedMembers(mid.queue, k);
    OneCommand(mid, Cancel(u));
    DroppedLost(st, t, now);
  }

  /** One that re-arms it for later makes the walk miss every other timer that is due, so it
      does no harm if and only if there is none. */
  lemma RearmedNextMisses(st: State, t: Ref, now: nat, expires: nat)
    requires Standing(st) && t in st.queue && t in st.timers && Due(st, t, now) && now < expires
    requires var u := NextIn(st.queue, t);
             u in st.timers && st.timers[u].callback.Function? && st.timers[t].callback == Function([Rearm(u, expires)])
    ensures !Drops(st, t, now) && Missed(st, t, now) == DueSet(st, now) - {t, NextIn(st.queue, t)}
  {
    var u, mid := NextIn(st.queue, t), Retired(st, t);
    SteppedStanding(st, t, now);
    RetiredHead(st, t, now);
    assert u in mid.queue && mid.timers[u].active;
    OneCommand(mid, Rearm(u, expires));
    hide Due, NextIn, From, Less;
    assert Fire(st, t) == Modified(mid, u, expires);
    RearmedLast(mid, u, expires, now);
  }

  lemma RearmedLast(st: State, u: Ref, expires: nat, now: nat)
    requires Ok(st) && u in st.timers && st.timers[u].active && st.timers[u].callback.Function? && now < expires
    ensures var next := Modified(st, u, expires);
            u in next.queue && From(next.queue, u) == [u] && DueSet(next, now) == DueSet(st, now) - {u}
  {
    var k := Position(st, u);
    DeletedAt(st, k);
    RemovedMembers(st.queue, k);
    FromNew(Less(st.queue, u), u, u);
  }

  lemma OneCommand(st: State, c: Command)
    ensures PerformAll(st, [c]) == Perform(st, c)
  {
    assert PerformAll(st, [c]) == PerformAll(Perform(st, c), [c][1..]);
  }

  function First(queue: seq<Ref>): Ref {
    if queue == [] then TIMER_LIST else queue[0]
  }

  /** The walk over all timers comes back to the head. */
  ghost predicate ComesToEnd(st: State, now: nat) {
    exists n: nat :: Walk(st, First(st.queue), now, n).Ended?
  }

  /** If callbacks arm only for later, it does so if and only if no step drops the saved timer. */
  lemma EndExact(st: State, now: nat)
    requires Standing(st) && Always(ArmsLater, st, First(st.queue), now)
    ensures ComesToEnd(st, now) <==>
              forall i: nat :: var w := Walk(st, First(st.queue), now, i); w.Going? ==> !Drops(w.st, w.t, now)
  {
    hide Standing, Drops, Always, Walk;
    var t := First(st.queue);
    FirstListed(st);
    var n := WalkEnds(st, t, now);
    LostExact(st, t, now, n);
    if ComesToEnd(st, now) {
      var m: nat :| Walk(st, t, now, m).Ended?;
      forall i: nat | Walk(st, t, now, i).Going?
        ensures !Drops(Walk(st, t, now, i).st, Walk(st, t, now, i).t, now)
      {
        EndsOnce(st, t, now, i, m);
        LostExact(st, t, now, m);
      }
    }
  }

  lemma FirstListed(st: State)
    requires Standing(st)
    ensures Listed(st, First(st.queue))
  {
  }

  /** Callbacks that touch no saved timer let it come to its end. */
  lemma SafeEnds(st: State, now: nat)
    requires Standing(st) && SafePass(st, st.queue, now)
    ensures ComesToEnd(st, now)
  {
    hide SafePass;
    FirstListed(st);
    AllQueued(st, now);
    if st.queue != [] { FromIs(st.queue, 0); } else { FromAbsent(st.queue, TIMER_LIST); }
    var n := SafeWalk(st, First(st.queue), now);
  }

  /** Callbacks name only timers that exist. */
  ghost predicate Closed(timers: map<Ref, Timer>) {
    forall t, c :: t in timers && c in Commands(timers[t].callback) ==> c.t in timers
  }

  lemma PerformCallbacks(st: State, c: Command)
    ensures Perform(st, c).timers.Keys == st.timers.Keys
    ensures forall t :: t in st.timers ==> Perform(st, c).timers[t].callback == st.timers[t].callback
  {
  }

  lemma {:induction false} PerformAllCallbacks(st: State, cs: seq<Command>)
    ensures PerformAll(st, cs).timers.Keys == st.timers.Keys
    ensures forall t :: t in st.timers ==> PerformAll(st, cs).timers[t].callback == st.timers[t].callback
    decreases |cs|
  {
    hide Perform;
    if cs != [] {
      PerformCallbacks(st, cs[0]);
      PerformAllCallbacks(Perform(st, cs[0]), cs[1..]);
    }
  }

  lemma FireCallbacks(st: State, t: Ref)
    requires t in st.timers && Closed(st.timers)
    ensures Closed(Fire(st, t).timers) && Fire(st, t).timers.Keys == st.timers.Keys
  {
    hide PerformAll;
    PerformAllCallbacks(Retired(st, t), Commands(st.timers[t].callback));
  }

  /** However many steps are asked for, a walk that ends does so in one state. */
  lemma {:induction false} EndsAgree(st: State, t: Ref, now: nat, m: nat, n: nat)
    requires Walk(st, t, now, m).Ended? && Walk(st, t, now, n).Ended?
    ensures Walk(st, t, now, m) == Walk(st, t, now, n)
    decreases m
  {
    hide Stepped, NextIn;
    if t != TIMER_LIST { EndsAgree(Stepped(st, t, now), NextIn(st.queue, t), now, m - 1, n - 1); }
  }

  // ---- callbacks that arm a due timer --------------------------------------------------------------

  /** Two timers whose callbacks re-arm only themselves, to expire at once. */
  function Insistent(first: Ref, second: Ref, fired: seq<Ref>): State {
    State(map[2 := Timer(0, Function([Rearm(2, 0)]), true), 3 := Timer(0, Function([Rearm(3, 0)]), true)], [first, second], fired)
  }

  lemma InsistentStep(first: Ref, second: Ref, fired: seq<Ref>, now: nat)
    requires (first == 2 && second == 3) || (first == 3 && second == 2)
    ensures var st := Insistent(first, second, fired);
            && Stepped(st, first, now) == Insistent(second, first, fired + [first])
            && NextIn(st.queue, first) == second && !Drops(st, first, now) && st.fired == fired
            && first in st.queue && first in st.timers && first != TIMER_LIST
  {
    var st := Insistent(first, second, fired);
    var mid := Retired(st, first);
    assert mid.queue == [second];
    assert Modified(mid, first, 0) == Insistent(second, first, fired + [first]);
    OneCommand(mid, Rearm(first, 0));
  }

  /** No step touches the timer saved as the next one, and the walk never ends. */
  lemma {:induction false} NeverEnds(first: Ref, second: Ref, fired: seq<Ref>, now: nat, n: nat)
    requires (first == 2 && second == 3) || (first == 3 && second == 2)
    ensures var w := Walk(Insistent(first, second, fired), first, now, n);
            w.Going? && !Drops(w.st, w.t, now) && |w.st.fired| == |fired| + n
    decreases n
  {
    InsistentStep(first, second, fired, now);
    hide Stepped, NextIn, Drops, Insistent;
    if n > 0 { NeverEnds(second, first, fired + [first], now, n - 1); }
  }
}
