/** The stream pump: one committed provider body read to its end, and exactly one terminal item owed to
    the caller.
  */
module Pump {
  import opened Common
  import opened Framer
  import Utf8

  /** What the pump delivers; what a delta carries is not the pump's business. */
  datatype Item = Delta(piece: string) | Failed(message: string) | Done

  /** What one read of the body brings: framed events, a framing refusal, or a failed read. */
  datatype Arrival = Framed(events: seq<Event>) | FrameRefused(message: string) | ReadFailed(cause: string)

  const READ_FAILED := "provider stream read failed: "
  const ENDED_EARLY := "provider stream ended before a terminal event"

  /** A wire's rules: what one event means, and whether it was the provider's own last one. */
  type Translator<!St> = (St, Event) -> (St, seq<Item>, bool)

  ghost predicate NeverDone<St(!new)>(translate: Translator<St>) {
    forall st, e, i :: 0 <= i < |translate(st, e).1| ==> !translate(st, e).1[i].Done?
  }

  /** The events of a body, however its reads grouped them, and how it ended. */
  datatype Body = Body(events: seq<Event>, broken: Option<string>)

  function Flatten(arrivals: seq<Arrival>): Body {
    if arrivals == [] then Body([], None)
    else
      match arrivals[0]
      case Framed(events) =>
        var rest := Flatten(arrivals[1..]);
        Body(events + rest.events, rest.broken)
      case FrameRefused(message) => Body([], Some(message))
      case ReadFailed(cause) => Body([], Some(READ_FAILED + cause))
  }

  /** What a receiver that stays is owed: `items` up to a failure, then `rest`. */
  function OwedItems(items: seq<Item>, rest: seq<Item>): seq<Item> {
    if items == [] then rest
    else if items[0].Failed? then [items[0]]
    else [items[0]] + OwedItems(items[1..], rest)
  }

  function Owed<St>(translate: Translator<St>, st: St, terminal: bool, body: Body): seq<Item>
    decreases |body.events|
  {
    if body.events == [] then
      match body.broken
      case Some(message) => [Failed(message)]
      case None => [if terminal then Done else Failed(ENDED_EARLY)]
    else
      var (next, items, done) := translate(st, body.events[0]);
      OwedItems(items, Owed(translate, next, terminal || done, body.(events := body.events[1..])))
  }

  function Prefix(items: seq<Item>, n: nat): seq<Item> {
    if n < |items| then items[..n] else items
  }

  /** A receiver gets what it is owed, in order, until its patience or the items end. */
  lemma PrefixMeans(items: seq<Item>, n: nat)
    ensures Prefix(items, n) <= items && |Prefix(items, n)| <= n
    ensures |Prefix(items, n)| < n ==> Prefix(items, n) == items
  {
  }

  /** The pump's loop. The receiver takes `patience` items and then hangs up, which fails the next send. */
  method Run<St>(translate: Translator<St>, initial: St, arrivals: seq<Arrival>, patience: nat)
      returns (delivered: seq<Item>)
    ensures delivered == Prefix(Owed(translate, initial, false, Flatten(arrivals)), patience)
  {
    ghost var owed := Owed(translate, initial, false, Flatten(arrivals));
    delivered := [];
    var st, terminal := initial, false;
    var i := 0;
    while i < |arrivals|
      invariant 0 <= i <= |arrivals| && |delivered| <= patience
      invariant owed == delivered + Owed(translate, st, terminal, Flatten(arrivals[i..]))
    {
      assert arrivals[i..][0] == arrivals[i] && arrivals[i..][1..] == arrivals[i + 1..];
      ghost var rest := Flatten(arrivals[i + 1..]);
      match arrivals[i] {
        case ReadFailed(cause) =>
          delivered := Send(delivered, Failed(READ_FAILED + cause), patience, owed);
          return;
        case FrameRefused(message) =>
          delivered := Send(delivered, Failed(message), patience, owed);
          return;
        case Framed(events) =>
          var j := 0;
          assert events[0..] == events;
          while j < |events|
            invariant 0 <= j <= |events| && |delivered| <= patience
            invariant owed == delivered + Owed(translate, st, terminal, Body(events[j..] + rest.events, rest.broken))
          {
            var (next, items, done) := translate(st, events[j]);
            ghost var left := Body(events[j + 1..] + rest.events, rest.broken);
            assert (events[j..] + rest.events)[1..] == left.events;
            ghost var later := Owed(translate, next, terminal || done, left);
            assert owed == delivered + OwedItems(items, later);
            var stopped;
            delivered, stopped := SendEach(items, delivered, patience, later, owed);
            if stopped {
              return;
            }
            st := next;
            terminal := terminal || done;
            j := j + 1;
          }
          assert events[j..] + rest.events == rest.events;
      }
      i := i + 1;
    }
    assert arrivals[i..] == [];
    delivered := Send(delivered, if terminal then Done else Failed(ENDED_EARLY), patience, owed);
  }

  /** The items of one event, sent one by one; a failed item, or a receiver that hung up, stops the pump. */
  method SendEach(
      items: seq<Item>, delivered: seq<Item>, patience: nat, ghost later: seq<Item>, ghost owed: seq<Item>)
      returns (after: seq<Item>, stopped: bool)
    requires |delivered| <= patience && owed == delivered + OwedItems(items, later)
    ensures stopped ==> after == Prefix(owed, patience)
    ensures !stopped ==> |after| <= patience && owed == after + later
  {
    after := delivered;
    var k := 0;
    assert items[0..] == items;
    while k < |items|
      invariant 0 <= k <= |items| && |after| <= patience
      invariant owed == after + OwedItems(items[k..], later)
    {
      assert items[k..][1..] == items[k + 1..];
      if |after| == patience {
        return after, true;
      }
      after := after + [items[k]];
      if items[k].Failed? {
        return after, true;
      }
      k := k + 1;
    }
    return after, false;
  }

  /** The last send; a receiver that hung up needs none. */
  method Send(delivered: seq<Item>, item: Item, patience: nat, ghost owed: seq<Item>) returns (after: seq<Item>)
    requires |delivered| <= patience && owed == delivered + [item]
    ensures after == Prefix(owed, patience)
  {
    if |delivered| < patience {
      after := delivered + [item];
    } else {
      after := delivered;
    }
  }
}
