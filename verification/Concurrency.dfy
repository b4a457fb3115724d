/** The measured concurrency of aliases, as a step relation over routes and the handles of their calls.

    A route keeps weak references to its calls and prunes the dead ones only when it counts. Handles die
    outside the lock, also while a count is scanning, so a count is taken of a moving set; `deaths` gives,
    for each position of a scan, the handles dropped just before it is looked at.
  */
module Concurrency {
  import opened Common

  datatype Settled = Answered | RefusedForCapacity | Other

  datatype Route = Route(calls: seq<nat>, carried: Option<nat>, refusedBeside: Option<nat>)

  const NEW_ROUTE := Route([], None, None)

  // ---- One alias's measurement, as a fold over how its calls ended ----

  datatype Outcome = AnsweredWith(inFlight: nat) | RefusedWith(beside: nat) | Ended

  function Max(a: nat, b: nat): nat { if a < b then b else a }

  function Min(a: nat, b: nat): nat { if a < b then a else b }

  function Folded(route: Route, o: Outcome): Route {
    match o
    case AnsweredWith(n) =>
      route.(carried := Some(if route.carried.Some? then Max(route.carried.value, n) else n))
    case RefusedWith(n) =>
      route.(refusedBeside := Some(n), carried := Some(if route.carried.Some? then Min(route.carried.value, n) else n))
    case Ended => route
  }

  function Measured(outcomes: seq<Outcome>): Route {
    if outcomes == [] then NEW_ROUTE else Folded(Measured(outcomes[..|outcomes| - 1]), outcomes[|outcomes| - 1])
  }

  /** `from` is the position after the newest capacity refusal of `outcomes`, or 0 when there is none. */
  ghost predicate AfterNewestRefusal(outcomes: seq<Outcome>, from: nat) {
    && from <= |outcomes|
    && (0 < from ==> outcomes[from - 1].RefusedWith?)
    && forall i :: from <= i < |outcomes| ==> !outcomes[i].RefusedWith?
  }

  /** `best` is the largest of `floor`, if any, and the counts of the answers from `from` on. */
  ghost predicate IsLargest(outcomes: seq<Outcome>, from: nat, floor: Option<nat>, best: Option<nat>)
    requires from <= |outcomes|
  {
    && (best.None? <==> floor.None? && forall i :: from <= i < |outcomes| ==> !outcomes[i].AnsweredWith?)
    && (best.Some? ==>
          && (floor.Some? ==> floor.value <= best.value)
          && (forall i :: from <= i < |outcomes| && outcomes[i].AnsweredWith? ==> outcomes[i].inFlight <= best.value)
          && (|| floor == best
              || exists i :: from <= i < |outcomes| && outcomes[i] == AnsweredWith(best.value)))
  }

  /** What the newest capacity refusal left: the smaller of the value before it and the calls beside it. */
  function Lowered(outcomes: seq<Outcome>, from: nat): Option<nat>
    requires from <= |outcomes|
    requires 0 < from ==> outcomes[from - 1].RefusedWith?
  {
    if from == 0 then None
    else
      var beside := outcomes[from - 1].beside;
      var before := Measured(outcomes[..from - 1]).carried;
      Some(if before.Some? then Min(before.value, beside) else beside)
  }

  /** The closed form of the measurement, for every sequence of endings. */
  lemma {:induction false} ClosedForm(outcomes: seq<Outcome>, from: nat)
    requires AfterNewestRefusal(outcomes, from)
    ensures IsLargest(outcomes, from, Lowered(outcomes, from), Measured(outcomes).carried)
    ensures Measured(outcomes).refusedBeside == if from == 0 then None else Some(outcomes[from - 1].beside)
  {
    var n := |outcomes|;
    if from < n {
      var shorter := outcomes[..n - 1];
      assert AfterNewestRefusal(shorter, from);
      ClosedForm(shorter, from);
      assert 0 < from ==> shorter[..from - 1] == outcomes[..from - 1];
      var best := Measured(shorter).carried;
      if best.Some? && best != Lowered(shorter, from) {
        var i :| from <= i < |shorter| && shorter[i] == AnsweredWith(best.value);
        assert outcomes[i] == AnsweredWith(best.value);
      }
      if outcomes[n - 1].AnsweredWith? {
        assert outcomes[n - 1] == AnsweredWith(outcomes[n - 1].inFlight);
      }
    } else if n > 0 {
      assert Measured(outcomes) == Folded(Measured(outcomes[..n - 1]), outcomes[n - 1]);
    }
  }

  /** Every measurement was observed: some ending saw at least that many calls. */
  lemma {:induction false} CarriedWasObserved(outcomes: seq<Outcome>) returns (i: nat)
    requires Measured(outcomes).carried.Some?
    ensures i < |outcomes|
    ensures match outcomes[i]
            case AnsweredWith(n) => Measured(outcomes).carried.value <= n
            case RefusedWith(n) => Measured(outcomes).carried.value <= n
            case Ended => false
  {
    var n := |outcomes| - 1;
    var before := Measured(outcomes[..n]);
    if || outcomes[n].Ended?
       || (before.carried.Some? && outcomes[n].AnsweredWith? && outcomes[n].inFlight < before.carried.value) {
      i := CarriedWasObserved(outcomes[..n]);
    } else {
      i := n;
    }
  }

  lemma {:induction false} RefusalWasObserved(outcomes: seq<Outcome>) returns (i: nat)
    requires Measured(outcomes).refusedBeside.Some?
    ensures i < |outcomes| && outcomes[i] == RefusedWith(Measured(outcomes).refusedBeside.value)
  {
    var n := |outcomes| - 1;
    if outcomes[n].RefusedWith? {
      i := n;
    } else {
      i := RefusalWasObserved(outcomes[..n]);
    }
  }

  // ---- Counting a set that shrinks while it is counted ----

  type Deaths = seq<set<nat>>

  function DyingAt(deaths: Deaths, i: nat): set<nat> {
    if i < |deaths| then deaths[i] else {}
  }

  /** The handles alive when position `i` of a scan is about to be looked at, or at its end. */
  function LiveAt(live: set<nat>, deaths: Deaths, i: nat): (left: set<nat>)
    ensures left <= live
  {
    if i == 0 then live - DyingAt(deaths, 0) else LiveAt(live, deaths, i - 1) - DyingAt(deaths, i)
  }

  /** The first `i` references of `calls` that were alive when looked at, in order. */
  function KeptUpTo(calls: seq<nat>, live: set<nat>, deaths: Deaths, i: nat): seq<nat>
    requires i <= |calls|
  {
    if i == 0 then []
    else
      var before := KeptUpTo(calls, live, deaths, i - 1);
      if calls[i - 1] in LiveAt(live, deaths, i - 1) then before + [calls[i - 1]] else before
  }

  function Kept(calls: seq<nat>, live: set<nat>, deaths: Deaths): seq<nat> {
    KeptUpTo(calls, live, deaths, |calls|)
  }

  ghost predicate Distinct(calls: seq<nat>) {
    forall i, j :: 0 <= i < j < |calls| ==> calls[i] != calls[j]
  }

  ghost function Elements(calls: seq<nat>): set<nat> { set h | h in calls }

  lemma {:induction false} LiveShrinks(live: set<nat>, deaths: Deaths, i: nat, j: nat)
    requires i <= j
    ensures LiveAt(live, deaths, j) <= LiveAt(live, deaths, i)
    decreases j - i
  {
    if i < j { LiveShrinks(live, deaths, i, j - 1); }
  }

  lemma {:induction false} KeptIsBetween(calls: seq<nat>, live: set<nat>, deaths: Deaths, i: nat)
    requires i <= |calls| && Distinct(calls)
    ensures Distinct(KeptUpTo(calls, live, deaths, i))
    ensures forall h :: h in KeptUpTo(calls, live, deaths, i) ==> h in calls[..i] && h in live
    ensures forall h :: h in calls[..i] && h in LiveAt(live, deaths, |calls|) ==> h in KeptUpTo(calls, live, deaths, i)
  {
    if i > 0 {
      KeptIsBetween(calls, live, deaths, i - 1);
      LiveShrinks(live, deaths, i - 1, |calls|);
      assert calls[..i] == calls[..i - 1] + [calls[i - 1]];
    }
  }

  lemma {:induction false} DistinctCount(calls: seq<nat>)
    requires Distinct(calls)
    ensures |Elements(calls)| == |calls|
  {
    if calls != [] {
      var n := |calls| - 1;
      DistinctCount(calls[..n]);
      assert Elements(calls) == Elements(calls[..n]) + {calls[n]};
    }
  }

  lemma SubsetCount(a: set<nat>, b: set<nat>)
    requires a <= b
    ensures |a| <= |b|
  {
    assert b == a + (b - a);
  }

  /** A scan keeps every call alive at its end and none that was dead at its start, each once. */
  lemma ScanCounts(calls: seq<nat>, live: set<nat>, deaths: Deaths)
    requires Distinct(calls)
    ensures Distinct(Kept(calls, live, deaths))
    ensures LiveAt(live, deaths, |calls|) * Elements(calls) <= Elements(Kept(calls, live, deaths))
    ensures Elements(Kept(calls, live, deaths)) <= live * Elements(calls)
    ensures |LiveAt(live, deaths, |calls|) * Elements(calls)| <= |Kept(calls, live, deaths)| <= |live * Elements(calls)|
  {
    KeptIsBetween(calls, live, deaths, |calls|);
    assert calls[..|calls|] == calls;
    var kept := Kept(calls, live, deaths);
    DistinctCount(kept);
    SubsetCount(LiveAt(live, deaths, |calls|) * Elements(calls), Elements(kept));
    SubsetCount(Elements(kept), live * Elements(calls));
  }

  // ---- The tracker as a step relation ----

  /** `live` holds the handles admitted and neither settled nor dropped; `owner` and `log` are history. */
  datatype State = State(
    routes: map<string, Route>, live: set<nat>, owner: map<nat, string>, log: map<string, seq<Outcome>>)

  function RouteOf(routes: map<string, Route>, alias: string): Route {
    if alias in routes then routes[alias] else NEW_ROUTE
  }

  function LogOf(log: map<string, seq<Outcome>>, alias: string): seq<Outcome> {
    if alias in log then log[alias] else []
  }

  /** The calls of `alias` in flight. */
  ghost function InFlight(s: State, alias: string): set<nat> {
    set h | h in s.live && h in s.owner && s.owner[h] == alias
  }

  ghost predicate Admit(s: State, s': State, alias: string, h: nat) {
    && h !in s.owner
    && var route := RouteOf(s.routes, alias);
       s' == s.(routes := s.routes[alias := route.(calls := route.calls + [h])],
                live := s.live + {h}, owner := s.owner[h := alias])
  }

  /** The request is abandoned: its handle dies without the lock. */
  ghost predicate Drop(s: State, s': State, h: nat) {
    && h in s.live
    && s' == s.(live := s.live - {h})
  }

  /** One alias is counted for `current`. */
  ghost predicate Count(s: State, s': State, alias: string, deaths: Deaths, answer: nat) {
    && alias in s.routes
    && var calls := s.routes[alias].calls;
       var kept := Kept(calls, s.live, deaths);
       && answer == |kept|
       && s' == s.(routes := s.routes[alias := s.routes[alias].(calls := kept)],
                   live := LiveAt(s.live, deaths, |calls|))
  }

  function OutcomeOf(how: Settled, withThisOne: nat, beside: nat): Outcome {
    match how
    case Answered => AnsweredWith(withThisOne)
    case RefusedForCapacity => RefusedWith(beside)
    case Other => Ended
  }

  /** The handle being settled is held by the settling call, so only others die during its first count. */
  ghost predicate Spares(deaths: Deaths, h: nat) {
    forall i :: 0 <= i < |deaths| ==> h !in deaths[i]
  }

  ghost predicate Settle(
      s: State, s': State, h: nat, how: Settled, first: Deaths, second: Deaths, withThisOne: nat, beside: nat)
  {
    && h in s.live && h in s.owner && Spares(first, h)
    && var alias := s.owner[h];
       var route := RouteOf(s.routes, alias);
       var once := Kept(route.calls, s.live, first);
       var left := LiveAt(s.live, first, |route.calls|) - {h};
       var twice := Kept(once, left, second);
       && withThisOne == |once| && beside == |twice|
       && var outcome := OutcomeOf(how, withThisOne, beside);
          s' == s.(routes := s.routes[alias := Folded(route.(calls := twice), outcome)],
                   live := LiveAt(left, second, |once|),
                   log := s.log[alias := LogOf(s.log, alias) + [outcome]])
  }

  datatype Event =
    | Admitting(alias: string, h: nat)
    | Dropping(h: nat)
    | Counting(alias: string, deaths: Deaths, answer: nat)
    | Settling(h: nat, how: Settled, first: Deaths, second: Deaths, withThisOne: nat, beside: nat)

  ghost predicate Step(s: State, s': State, e: Event) {
    match e
    case Admitting(alias, h) => Admit(s, s', alias, h)
    case Dropping(h) => Drop(s, s', h)
    case Counting(alias, deaths, answer) => Count(s, s', alias, deaths, answer)
    case Settling(h, how, first, second, w, b) => Settle(s, s', h, how, first, second, w, b)
  }

  ghost predicate Run(states: seq<State>, events: seq<Event>) {
    && |states| == |events| + 1
    && states[0] == State(map[], {}, map[], map[])
    && forall i :: 0 <= i < |events| ==> Step(states[i], states[i + 1], events[i])
  }

  /** The weak references of each alias are distinct calls of that alias and miss no live one. */
  ghost predicate Tracked(s: State) {
    && (forall alias :: alias in s.routes ==> Distinct(s.routes[alias].calls))
    && (forall alias, h :: alias in s.routes && h in s.routes[alias].calls ==> h in s.owner && s.owner[h] == alias)
    && (forall h :: h in s.live ==> h in s.owner && h in RouteOf(s.routes, s.owner[h]).calls)
  }

  ghost predicate MeasuresLog(s: State) {
    forall alias :: MeasuresAlias(s, alias)
  }

  ghost predicate MeasuresAlias(s: State, alias: string) {
    var route, measured := RouteOf(s.routes, alias), Measured(LogOf(s.log, alias));
    route.carried == measured.carried && route.refusedBeside == measured.refusedBeside
  }

  lemma TrackedCounts(s: State, alias: string)
    requires Tracked(s)
    ensures InFlight(s, alias) == s.live * Elements(RouteOf(s.routes, alias).calls)
    ensures Distinct(RouteOf(s.routes, alias).calls)
  {
  }

  /** Forgetting references of one route is harmless when no live one is forgotten. */
  lemma ForgettingKeepsTracked(s: State, s': State, alias: string, kept: seq<nat>)
    requires Tracked(s)
    requires s'.owner == s.owner && s'.live <= s.live
    requires s'.routes.Keys == s.routes.Keys + {alias}
    requires forall other :: other in s.routes && other != alias ==> s'.routes[other] == s.routes[other]
    requires s'.routes[alias].calls == kept && Distinct(kept)
    requires forall h :: h in kept ==> h in RouteOf(s.routes, alias).calls
    requires forall h :: h in RouteOf(s.routes, alias).calls && h in s'.live ==> h in kept
    ensures Tracked(s')
  {
    forall h | h in s'.live ensures h in s'.owner && h in RouteOf(s'.routes, s'.owner[h]).calls {
      assert h in RouteOf(s.routes, s.owner[h]).calls;
      assert s.owner[h] in s.routes;
    }
    forall other, h | other in s'.routes && h in s'.routes[other].calls ensures h in s'.owner && s'.owner[h] == other {
      assert h in RouteOf(s.routes, other).calls;
      assert other in s.routes;
    }
  }

  lemma ScanForgetsNoLiveCall(calls: seq<nat>, live: set<nat>, deaths: Deaths)
    requires Distinct(calls)
    ensures Distinct(Kept(calls, live, deaths))
    ensures forall h :: h in Kept(calls, live, deaths) ==> h in calls
    ensures forall h :: h in calls && h in LiveAt(live, deaths, |calls|) ==> h in Kept(calls, live, deaths)
  {
    KeptIsBetween(calls, live, deaths, |calls|);
    assert calls[..|calls|] == calls;
  }

  /** The count answered lies between the calls in flight after it and before it, and is both when no
      handle dies meanwhile. */
  lemma CountIsInFlight(s: State, s': State, alias: string, deaths: Deaths, answer: nat)
    requires Tracked(s) && Count(s, s', alias, deaths, answer)
    ensures Tracked(s')
    ensures |InFlight(s', alias)| <= answer <= |InFlight(s, alias)|
    ensures s'.live == s.live ==> answer == |InFlight(s, alias)|
  {
    var calls := s.routes[alias].calls;
    var kept := Kept(calls, s.live, deaths);
    TrackedCounts(s, alias);
    ScanCounts(calls, s.live, deaths);
    ScanForgetsNoLiveCall(calls, s.live, deaths);
    ForgettingKeepsTracked(s, s', alias, kept);
    TrackedCounts(s', alias);
    DistinctCount(kept);
    SubsetCount(InFlight(s', alias), Elements(kept));
  }

  lemma {:induction false} SparedStaysLive(live: set<nat>, deaths: Deaths, h: nat, i: nat)
    requires h in live && Spares(deaths, h)
    ensures h in LiveAt(live, deaths, i)
  {
    if i > 0 { SparedStaysLive(live, deaths, h, i - 1); }
  }

  /** The first count of a settlement and the drop that follows it. */
  lemma FirstCount(s: State, dropped: State, h: nat, first: Deaths)
    requires Tracked(s) && h in s.live && Spares(first, h)
    requires var alias := s.owner[h];
             var route := RouteOf(s.routes, alias);
             dropped == s.(routes := s.routes[alias := route.(calls := Kept(route.calls, s.live, first))],
                           live := LiveAt(s.live, first, |route.calls|) - {h})
    ensures Tracked(dropped) && dropped.live <= s.live
    ensures h in dropped.routes[s.owner[h]].calls
    ensures |dropped.routes[s.owner[h]].calls| <= |InFlight(s, s.owner[h])|
  {
    var alias := s.owner[h];
    var calls := RouteOf(s.routes, alias).calls;
    TrackedCounts(s, alias);
    ScanCounts(calls, s.live, first);
    SparedStaysLive(s.live, first, h, |calls|);
    ScanForgetsNoLiveCall(calls, s.live, first);
    ForgettingKeepsTracked(s, dropped, alias, Kept(calls, s.live, first));
  }

  /** The two counts of one settlement: the first sees the call itself, the second is strictly smaller,
      and both are bounded by the calls in flight before and after, whatever else dies meanwhile. */
  lemma SettleCounts(
      s: State, s': State, h: nat, how: Settled, first: Deaths, second: Deaths, withThisOne: nat, beside: nat)
    requires Tracked(s) && Settle(s, s', h, how, first, second, withThisOne, beside)
    ensures Tracked(s')
    ensures 1 <= withThisOne <= |InFlight(s, s.owner[h])|
    ensures |InFlight(s', s.owner[h])| <= beside < withThisOne
    ensures h !in s'.live && s'.live <= s.live
  {
    var alias := s.owner[h];
    var route := RouteOf(s.routes, alias);
    var once := Kept(route.calls, s.live, first);
    var left := LiveAt(s.live, first, |route.calls|) - {h};
    var dropped := s.(routes := s.routes[alias := route.(calls := once)], live := left);
    FirstCount(s, dropped, h, first);
    ScanForgetsNoLiveCall(once, left, second);
    ForgettingKeepsTracked(dropped, s', alias, Kept(once, left, second));
    SecondCountSmaller(once, left, h, second);
    ScanCounts(once, left, second);
    TrackedCounts(s', alias);
    DistinctCount(Kept(once, left, second));
    SubsetCount(InFlight(s', alias), Elements(Kept(once, left, second)));
  }

  lemma SecondCountSmaller(once: seq<nat>, left: set<nat>, h: nat, second: Deaths)
    requires Distinct(once) && h in once && h !in left
    ensures |Kept(once, left, second)| < |once|
  {
    ScanCounts(once, left, second);
    DistinctCount(once);
    var seen := left * Elements(once);
    assert h in Elements(once) && h !in seen;
    SubsetCount(seen, Elements(once) - {h});
  }

  lemma StepKeepsTracked(s: State, s': State, e: Event)
    requires Tracked(s) && MeasuresLog(s) && Step(s, s', e)
    ensures Tracked(s') && MeasuresLog(s')
  {
    match e
    case Admitting(alias, h) =>
      AdmitKeepsTracked(s, s', alias, h);
      SameMeasures(s, s');
    case Dropping(h) =>
      SameMeasures(s, s');
    case Counting(alias, deaths, answer) =>
      CountIsInFlight(s, s', alias, deaths, answer);
      SameMeasures(s, s');
    case Settling(h, how, first, second, w, b) =>
      SettleCounts(s, s', h, how, first, second, w, b);
      SettleKeepsMeasure(s, s', h, how, first, second, w, b);
  }

  lemma SameMeasures(s: State, s': State)
    requires MeasuresLog(s) && s'.log == s.log
    requires forall alias ::
               RouteOf(s'.routes, alias) == RouteOf(s.routes, alias).(calls := RouteOf(s'.routes, alias).calls)
    ensures MeasuresLog(s')
  {
    forall alias ensures MeasuresAlias(s', alias) {
      assert MeasuresAlias(s, alias);
      assert RouteOf(s'.routes, alias) == RouteOf(s.routes, alias).(calls := RouteOf(s'.routes, alias).calls);
    }
  }

  lemma MeasuredAppended(log: seq<Outcome>, outcome: Outcome)
    ensures Measured(log + [outcome]) == Folded(Measured(log), outcome)
  {
    assert (log + [outcome])[..|log|] == log;
  }

  lemma SettleKeepsMeasure(s: State, s': State, h: nat, how: Settled, first: Deaths, second: Deaths, w: nat, b: nat)
    requires MeasuresLog(s) && Settle(s, s', h, how, first, second, w, b)
    ensures MeasuresLog(s')
  {
    var alias := s.owner[h];
    var outcome := OutcomeOf(how, w, b);
    MeasuredAppended(LogOf(s.log, alias), outcome);
    forall other ensures MeasuresAlias(s', other) {
      assert MeasuresAlias(s, other);
      if other == alias {
        assert RouteOf(s'.routes, alias) ==
            Folded(RouteOf(s.routes, alias).(calls := RouteOf(s'.routes, alias).calls), outcome);
        assert LogOf(s'.log, alias) == LogOf(s.log, alias) + [outcome];
      }
    }
  }

  lemma AdmitKeepsTracked(s: State, s': State, alias: string, h: nat)
    requires Tracked(s) && Admit(s, s', alias, h)
    ensures Tracked(s')
    ensures InFlight(s', alias) == InFlight(s, alias) + {h} && h !in InFlight(s, alias)
  {
    var calls := RouteOf(s.routes, alias).calls;
    assert h !in calls;
    forall g | g in s'.live ensures g in s'.owner && g in RouteOf(s'.routes, s'.owner[g]).calls {
      if g != h { assert g in RouteOf(s.routes, s.owner[g]).calls; }
    }
  }

  /** A dropped call is out of flight, and no other. */
  lemma DropTakesOut(s: State, s': State, h: nat)
    requires Tracked(s) && Drop(s, s', h)
    ensures h in s.owner && InFlight(s', s.owner[h]) == InFlight(s, s.owner[h]) - {h}
    ensures h in InFlight(s, s.owner[h])
    ensures forall alias :: alias != s.owner[h] ==> InFlight(s', alias) == InFlight(s, alias)
  {
  }

  lemma {:induction false} RunKeepsTracked(states: seq<State>, events: seq<Event>, i: nat)
    requires Run(states, events) && i <= |events|
    ensures Tracked(states[i]) && MeasuresLog(states[i])
  {
    if i > 0 {
      RunKeepsTracked(states, events, i - 1);
      StepKeepsTracked(states[i - 1], states[i], events[i - 1]);
    }
  }

  // ---- Theorems over every run ----

  /** Some moment up to `i` had at least `n` calls of `alias` in flight. */
  ghost predicate Reached(states: seq<State>, i: nat, alias: string, n: nat) {
    exists k :: 0 <= k <= i < |states| && n <= |InFlight(states[k], alias)|
  }

  /** Every ending on record saw no more calls than were in flight at some moment; a refusal saw fewer. */
  lemma {:induction false} OutcomesAreBounded(states: seq<State>, events: seq<Event>, i: nat, alias: string, o: Outcome)
    requires Run(states, events) && i <= |events|
    requires o in LogOf(states[i].log, alias)
    ensures match o
            case AnsweredWith(n) => 1 <= n && Reached(states, i, alias, n)
            case RefusedWith(n) => Reached(states, i, alias, n + 1)
            case Ended => true
  {
    if i > 0 {
      var s, s', e := states[i - 1], states[i], events[i - 1];
      if o in LogOf(s.log, alias) {
        OutcomesAreBounded(states, events, i - 1, alias, o);
      } else {
        RunKeepsTracked(states, events, i - 1);
        SettleCounts(s, s', e.h, e.how, e.first, e.second, e.withThisOne, e.beside);
        assert |InFlight(states[i - 1], alias)| >= e.withThisOne;
      }
    }
  }

  /** `carried` never exceeds the peak of simultaneous calls, and `refused_beside` is strictly below it. */
  lemma MeasurementNeverExceedsPeak(states: seq<State>, events: seq<Event>, i: nat, alias: string)
    requires Run(states, events) && i <= |events|
    ensures RouteOf(states[i].routes, alias).carried.Some? ==>
              Reached(states, i, alias, RouteOf(states[i].routes, alias).carried.value)
    ensures RouteOf(states[i].routes, alias).refusedBeside.Some? ==>
              Reached(states, i, alias, RouteOf(states[i].routes, alias).refusedBeside.value + 1)
  {
    RunKeepsTracked(states, events, i);
    assert MeasuresAlias(states[i], alias);
    var log := LogOf(states[i].log, alias);
    var route := RouteOf(states[i].routes, alias);
    if route.carried.Some? {
      var k := CarriedWasObserved(log);
      OutcomesAreBounded(states, events, i, alias, log[k]);
    }
    if route.refusedBeside.Some? {
      var k := RefusalWasObserved(log);
      OutcomesAreBounded(states, events, i, alias, log[k]);
    }
  }

  /** Every count `current` answers is the number of calls neither settled nor dropped, at every state of
      every run, up to the handles that die while it counts. */
  lemma PublishedInFlight(states: seq<State>, events: seq<Event>, i: nat)
    requires Run(states, events) && i < |events| && events[i].Counting?
    ensures |InFlight(states[i + 1], events[i].alias)| <= events[i].answer <= |InFlight(states[i], events[i].alias)|
    ensures states[i + 1].live == states[i].live ==> events[i].answer == |InFlight(states[i], events[i].alias)|
  {
    RunKeepsTracked(states, events, i);
    CountIsInFlight(states[i], states[i + 1], events[i].alias, events[i].deaths, events[i].answer);
  }
}
