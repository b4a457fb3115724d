/** The published measurement of an alias, told from the settlements of a run and nothing else. */
module Measurement {
  import opened Common
  import opened Concurrency

  /** Event `k` settles a call of `alias`, which ended so. */
  ghost predicate SettlesAs(states: seq<State>, events: seq<Event>, k: int, alias: string, how: Settled)
    requires |states| == |events| + 1
  {
    && 0 <= k < |events| && events[k].Settling? && events[k].how == how
    && events[k].h in states[k].owner && states[k].owner[events[k].h] == alias
  }

  /** Event `from - 1` is the newest capacity refusal of `alias` among the first `i` events; none is when
      `from` is 0. */
  ghost predicate NewestRefusal(states: seq<State>, events: seq<Event>, i: nat, alias: string, from: nat)
    requires |states| == |events| + 1
  {
    && from <= i <= |events|
    && (0 < from ==> SettlesAs(states, events, from - 1, alias, RefusedForCapacity))
    && forall k :: from <= k < i ==> !SettlesAs(states, events, k, alias, RefusedForCapacity)
  }

  /** What the newest refusal left: the smaller of the value before it and the calls still beside it. */
  ghost function LeftBy(states: seq<State>, events: seq<Event>, alias: string, from: nat): Option<nat>
    requires |states| == |events| + 1 && from <= |events|
    requires 0 < from ==> events[from - 1].Settling?
  {
    if from == 0 then None
    else
      var before, beside := RouteOf(states[from - 1].routes, alias).carried, events[from - 1].beside;
      Some(if before.Some? && before.value < beside then before.value else beside)
  }

  /** `best` is the largest of `left`, if any, and the first counts of the alias's answered calls settled by
      the events from `from` to `i`. */
  ghost predicate LargestSettled(
      states: seq<State>, events: seq<Event>, from: nat, i: nat, alias: string, left: Option<nat>, best: Option<nat>)
    requires |states| == |events| + 1
  {
    && (best.None? <==> left.None? && forall k :: from <= k < i ==> !SettlesAs(states, events, k, alias, Answered))
    && (best.Some? ==>
          && (left.Some? ==> left.value <= best.value)
          && (forall k :: from <= k < i && SettlesAs(states, events, k, alias, Answered) ==>
                events[k].withThisOne <= best.value)
          && (|| left == best
              || exists k :: && from <= k < i && SettlesAs(states, events, k, alias, Answered)
                             && events[k].withThisOne == best.value))
  }

  /** An event that settles no answered or refused call of the alias leaves its measurement as it is: other
      endings, drops, counts and everything other aliases do change nothing. */
  lemma OthersChangeNothing(states: seq<State>, events: seq<Event>, k: nat, alias: string)
    requires Run(states, events) && k < |events|
    requires !SettlesAs(states, events, k, alias, Answered)
    requires !SettlesAs(states, events, k, alias, RefusedForCapacity)
    ensures RouteOf(states[k + 1].routes, alias).carried == RouteOf(states[k].routes, alias).carried
    ensures RouteOf(states[k + 1].routes, alias).refusedBeside == RouteOf(states[k].routes, alias).refusedBeside
  {
    assert Step(states[k], states[k + 1], events[k]);
  }

  /** What a settlement of the alias makes of its measurement. */
  lemma SettlementMeasures(states: seq<State>, events: seq<Event>, k: nat, alias: string)
    requires Run(states, events) && k < |events|
    ensures var before, after := RouteOf(states[k].routes, alias), RouteOf(states[k + 1].routes, alias);
            && (SettlesAs(states, events, k, alias, Answered) ==>
                  && after.refusedBeside == before.refusedBeside
                  && after.carried == Some(if before.carried.Some? && events[k].withThisOne < before.carried.value
                                           then before.carried.value else events[k].withThisOne))
            && (SettlesAs(states, events, k, alias, RefusedForCapacity) ==>
                  && after.refusedBeside == Some(events[k].beside)
                  && after.carried == Some(if before.carried.Some? && before.carried.value < events[k].beside
                                           then before.carried.value else events[k].beside))
  {
    assert Step(states[k], states[k + 1], events[k]);
  }

  /** The measurement of the alias before event `i` is the one its settlements tell. */
  ghost predicate ToldBySettlements(states: seq<State>, events: seq<Event>, i: nat, alias: string, from: nat)
    requires |states| == |events| + 1 && from <= i <= |events|
    requires 0 < from ==> events[from - 1].Settling?
  {
    var route := RouteOf(states[i].routes, alias);
    && LargestSettled(states, events, from, i, alias, LeftBy(states, events, alias, from), route.carried)
    && route.refusedBeside == if from == 0 then None else Some(events[from - 1].beside)
  }

  /** At every reachable state the published measurement is told by the settlements alone: `carried` is the
      largest of what the alias's newest capacity refusal left and the first counts of its answered calls
      since, and `refused_beside` is the second count of that refusal. */
  lemma {:induction false} PublishedMeasurement(
      states: seq<State>, events: seq<Event>, i: nat, alias: string, from: nat)
    requires Run(states, events) && NewestRefusal(states, events, i, alias, from)
    ensures ToldBySettlements(states, events, i, alias, from)
    decreases i
  {
    if from < i {
      PublishedMeasurement(states, events, i - 1, alias, from);
      OneEventTold(states, events, i - 1, alias, from);
    } else {
      ToldAtRefusal(states, events, alias, from);
    }
  }

  /** Right after a refusal, and before the first event. */
  lemma ToldAtRefusal(states: seq<State>, events: seq<Event>, alias: string, from: nat)
    requires Run(states, events) && from <= |events|
    requires 0 < from ==> SettlesAs(states, events, from - 1, alias, RefusedForCapacity)
    ensures ToldBySettlements(states, events, from, alias, from)
  {
    if 0 < from { SettlementMeasures(states, events, from - 1, alias); }
  }

  lemma OneEventTold(states: seq<State>, events: seq<Event>, i: nat, alias: string, from: nat)
    requires Run(states, events) && NewestRefusal(states, events, i, alias, from) && i < |events|
    requires !SettlesAs(states, events, i, alias, RefusedForCapacity)
    requires ToldBySettlements(states, events, i, alias, from)
    ensures ToldBySettlements(states, events, i + 1, alias, from)
  {
    if SettlesAs(states, events, i, alias, Answered) {
      AnsweredGrows(states, events, from, i, alias, LeftBy(states, events, alias, from));
      SettlementMeasures(states, events, i, alias);
    } else {
      OthersChangeNothing(states, events, i, alias);
      OneEventMore(states, events, from, i, alias, LeftBy(states, events, alias, from),
                   RouteOf(states[i].routes, alias).carried);
    }
  }

  lemma AnsweredGrows(
      states: seq<State>, events: seq<Event>, from: nat, i: nat, alias: string, left: Option<nat>)
    requires Run(states, events) && from <= i < |events| && SettlesAs(states, events, i, alias, Answered)
    requires LargestSettled(states, events, from, i, alias, left, RouteOf(states[i].routes, alias).carried)
    ensures LargestSettled(states, events, from, i + 1, alias, left, RouteOf(states[i + 1].routes, alias).carried)
  {
    SettlementMeasures(states, events, i, alias);
    var before, after := RouteOf(states[i].routes, alias).carried, RouteOf(states[i + 1].routes, alias).carried;
    if after == before && left != before {
      var k :| && from <= k < i && SettlesAs(states, events, k, alias, Answered)
               && events[k].withThisOne == before.value;
    }
  }

  lemma OneEventMore(
      states: seq<State>, events: seq<Event>, from: nat, i: nat, alias: string, left: Option<nat>, best: Option<nat>)
    requires Run(states, events) && from <= i < |events| && !SettlesAs(states, events, i, alias, Answered)
    requires LargestSettled(states, events, from, i, alias, left, best)
    ensures LargestSettled(states, events, from, i + 1, alias, left, best)
  {
    if best.Some? && left != best {
      var k :| && from <= k < i && SettlesAs(states, events, k, alias, Answered)
               && events[k].withThisOne == best.value;
    }
  }
}
