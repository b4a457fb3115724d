/** The concurrency tracker as the gateway runs it: one shared map of routes, changed under its lock,
    and handles that die on their own. Each method is a step of the relation in `Concurrency`.
  */
module Tracker {
  import opened Common
  import opened Concurrency

  /** One alias's published measurement. */
  datatype Published = Published(carried: Option<nat>, refusedBeside: Option<nat>, inFlight: nat)

  class Routes {
    var routes: map<string, Route>
    var live: set<nat>
    var next: nat
    ghost var owner: map<nat, string>
    ghost var log: map<string, seq<Outcome>>

    ghost function Now(): State
      reads this
    {
      State(routes, live, owner, log)
    }

    ghost predicate Valid()
      reads this
    {
      && Tracked(Now()) && MeasuresLog(Now())
      && forall h :: h in owner ==> h < next
    }

    constructor ()
      ensures Valid() && Now() == State(map[], {}, map[], map[])
    {
      routes, live, next := map[], {}, 0;
      owner, log := map[], map[];
    }

    /** Scan one route's references while handles die; the dead ones met are pruned. */
    method CountInFlight(alias: string, deaths: Deaths) returns (n: nat)
      requires alias in routes
      modifies this`routes, this`live
      ensures n == |Kept(old(routes)[alias].calls, old(live), deaths)|
      ensures routes ==
                old(routes)[alias := old(routes)[alias].(calls := Kept(old(routes)[alias].calls, old(live), deaths))]
      ensures live == LiveAt(old(live), deaths, |old(routes)[alias].calls|)
    {
      var calls := routes[alias].calls;
      var kept := [];
      live := live - DyingAt(deaths, 0);
      var i := 0;
      while i < |calls|
        invariant 0 <= i <= |calls|
        invariant routes == old(routes)
        invariant live == LiveAt(old(live), deaths, i)
        invariant kept == KeptUpTo(calls, old(live), deaths, i)
      {
        if calls[i] in live {
          kept := kept + [calls[i]];
        }
        i := i + 1;
        live := live - DyingAt(deaths, i);
      }
      routes := routes[alias := routes[alias].(calls := kept)];
      n := |kept|;
    }

    /** A new handle of the alias, alive and referenced by its route. */
    method Admit(alias: string) returns (h: nat)
      requires Valid()
      modifies this
      ensures Valid() && Concurrency.Admit(old(Now()), Now(), alias, h)
    {
      h := next;
      next := next + 1;
      var route := RouteOf(routes, alias);
      routes := routes[alias := route.(calls := route.calls + [h])];
      live := live + {h};
      owner := owner[h := alias];
      StepKeepsTracked(old(Now()), Now(), Admitting(alias, h));
    }

    /** A call's handle is dropped without being settled. */
    method Drop(h: nat)
      requires Valid() && h in live
      modifies this`live
      ensures Valid() && Concurrency.Drop(old(Now()), Now(), h)
    {
      live := live - {h};
      StepKeepsTracked(old(Now()), Now(), Dropping(h));
    }

    /** Count the route with the call, drop the call's handle, and count the others. */
    method TakeOutOfFlight(alias: string, h: nat, first: Deaths, second: Deaths) returns (withThisOne: nat, beside: nat)
      requires alias in routes
      modifies this`routes, this`live
      ensures var calls := old(routes)[alias].calls;
              var once := Kept(calls, old(live), first);
              var left := LiveAt(old(live), first, |calls|) - {h};
              && withThisOne == |once| && beside == |Kept(once, left, second)|
              && routes == old(routes)[alias := old(routes)[alias].(calls := Kept(once, left, second))]
              && live == LiveAt(left, second, |once|)
    {
      withThisOne := CountInFlight(alias, first);
      live := live - {h};
      beside := CountInFlight(alias, second);
    }

    /** The settlement step: two counts around the handle's death, the first of them strictly larger. */
    method Settle(alias: string, h: nat, how: Settled, first: Deaths, second: Deaths)
        returns (withThisOne: nat, beside: nat)
      requires Valid() && h in live && owner[h] == alias && Spares(first, h)
      modifies this
      ensures Valid() && Concurrency.Settle(old(Now()), Now(), h, how, first, second, withThisOne, beside)
      ensures beside < withThisOne
      ensures alias in old(routes) && alias in routes
      ensures Measures(old(routes)[alias], how, withThisOne, beside, routes[alias])
    {
      assert h in RouteOf(routes, alias).calls;
      routes := routes[alias := RouteOf(routes, alias)];
      assert routes == old(routes);
      withThisOne, beside := TakeOutOfFlight(alias, h, first, second);
      var route := Fold(routes[alias], how, withThisOne, beside);
      routes := routes[alias := route];
      log := log[alias := LogOf(log, alias) + [OutcomeOf(how, withThisOne, beside)]];
      assert Concurrency.Settle(old(Now()), Now(), h, how, first, second, withThisOne, beside);
      SettleKeepsMeasure(old(Now()), Now(), h, how, first, second, withThisOne, beside);
      SettleCounts(old(Now()), Now(), h, how, first, second, withThisOne, beside);
    }

    /** How the call ended, folded into its route. */
    method Fold(was: Route, how: Settled, withThisOne: nat, beside: nat) returns (route: Route)
      ensures route == Folded(was, OutcomeOf(how, withThisOne, beside))
      ensures Measures(was, how, withThisOne, beside, route)
    {
      route := was;
      match how {
        case Answered =>
          route := route.(carried := Some(match route.carried
                                          case Some(carried) => Max(carried, withThisOne)
                                          case None => withThisOne));
        case RefusedForCapacity =>
          route := route.(refusedBeside := Some(beside));
          route := route.(carried := Some(match route.carried
                                          case Some(carried) => Min(carried, beside)
                                          case None => beside));
        case Other =>
      }
    }

    /** Publish one alias: its measurement as it stands, and a fresh count. */
    method MeasureOne(alias: string, deaths: Deaths) returns (measured: Published)
      requires Valid() && alias in routes
      modifies this`routes, this`live
      ensures Valid() && routes.Keys == old(routes).Keys && live <= old(live)
      ensures forall other :: other in routes ==>
                && routes[other].carried == old(routes)[other].carried
                && routes[other].refusedBeside == old(routes)[other].refusedBeside
      ensures measured.carried == old(routes)[alias].carried
      ensures measured.refusedBeside == old(routes)[alias].refusedBeside
      ensures |InFlight(Now(), alias)| <= measured.inFlight <= |InFlight(old(Now()), alias)|
      ensures forall other :: |InFlight(Now(), other)| <= |InFlight(old(Now()), other)|
    {
      var n := CountInFlight(alias, deaths);
      StepKeepsTracked(old(Now()), Now(), Counting(alias, deaths, n));
      CountIsInFlight(old(Now()), Now(), alias, deaths, n);
      ShrinkingLive(old(Now()), Now());
      measured := Published(routes[alias].carried, routes[alias].refusedBeside, n);
    }

    /** Publish every alias, one scan each. */
    method Current(deaths: map<string, Deaths>) returns (published: map<string, Published>)
      requires Valid()
      modifies this`routes, this`live
      ensures Valid() && routes.Keys == old(routes).Keys && live <= old(live)
      ensures published.Keys == routes.Keys
      ensures forall alias :: alias in published ==>
                && published[alias].carried == old(routes)[alias].carried == routes[alias].carried
                && published[alias].refusedBeside == old(routes)[alias].refusedBeside == routes[alias].refusedBeside
                && |InFlight(Now(), alias)| <= published[alias].inFlight <= |InFlight(old(Now()), alias)|
    {
      published := map[];
      var left := routes.Keys;
      while left != {}
        invariant Valid() && routes.Keys == old(routes).Keys && live <= old(live)
        invariant left <= routes.Keys && published.Keys == routes.Keys - left
        invariant forall alias :: alias in routes ==>
                    && routes[alias].carried == old(routes)[alias].carried
                    && routes[alias].refusedBeside == old(routes)[alias].refusedBeside
        invariant forall alias :: alias in published ==>
                    && published[alias].carried == old(routes)[alias].carried
                    && published[alias].refusedBeside == old(routes)[alias].refusedBeside
                    && |InFlight(Now(), alias)| <= published[alias].inFlight <= |InFlight(old(Now()), alias)|
        decreases left
      {
        var alias :| alias in left;
        ShrinkingLive(old(Now()), Now());
        var measured := MeasureOne(alias, if alias in deaths then deaths[alias] else []);
        published := published[alias := measured];
        left := left - {alias};
      }
    }
  }

  /** What one ending makes of a measurement: an answer can only raise it, a capacity refusal lowers it to the
      calls beside, and any other ending says nothing. */
  predicate Measures(before: Route, how: Settled, withThisOne: nat, beside: nat, after: Route) {
    match how
    case Answered =>
      && after.refusedBeside == before.refusedBeside
      && after.carried == Some(if before.carried.Some? && withThisOne < before.carried.value
                               then before.carried.value else withThisOne)
    case RefusedForCapacity =>
      && after.refusedBeside == Some(beside)
      && after.carried == Some(if before.carried.Some? && before.carried.value < beside
                               then before.carried.value else beside)
    case Other => after.refusedBeside == before.refusedBeside && after.carried == before.carried
  }

  lemma ShrinkingLive(s: State, s': State)
    requires s'.live <= s.live && s'.owner == s.owner
    ensures forall alias :: |InFlight(s', alias)| <= |InFlight(s, alias)|
  {
    forall alias ensures |InFlight(s', alias)| <= |InFlight(s, alias)| {
      SubsetCount(InFlight(s', alias), InFlight(s, alias));
    }
  }
}
