/** What a receiver of the pump is owed, told from the body alone: every item up to the first failure, and
    exactly one terminal item.
  */
module Owing {
  import opened Common
  import opened Framer
  import opened Pump
  import Utf8

  /** Each event's items and verdict, as the translator gives them along the body. */
  function Translated<St>(translate: Translator<St>, st: St, events: seq<Event>): seq<(seq<Item>, bool)>
    decreases |events|
  {
    if events == [] then []
    else
      var (next, items, done) := translate(st, events[0]);
      [(items, done)] + Translated(translate, next, events[1..])
  }

  predicate HasFailure(items: seq<Item>) { exists i :: 0 <= i < |items| && items[i].Failed? }

  predicate SomeTerminal(steps: seq<(seq<Item>, bool)>) { exists i :: 0 <= i < |steps| && steps[i].1 }

  function AllItems(steps: seq<(seq<Item>, bool)>): seq<Item> {
    if steps == [] then [] else steps[0].0 + AllItems(steps[1..])
  }

  predicate IsTerminal(item: Item) { item.Failed? || item.Done? }

  /** One terminal item, and it is the last. */
  predicate EndsOnce(items: seq<Item>) {
    && items != [] && IsTerminal(items[|items| - 1])
    && forall i :: 0 <= i < |items| - 1 ==> items[i].Delta?
  }

  /** Item `p` is the first that failed. */
  predicate FirstFails(items: seq<Item>, p: nat) {
    p < |items| && items[p].Failed? && forall i :: 0 <= i < p ==> !items[i].Failed?
  }

  lemma {:induction false} OwedItemsExactly(items: seq<Item>, rest: seq<Item>)
    ensures !HasFailure(items) ==> OwedItems(items, rest) == items + rest
    ensures forall p: nat :: FirstFails(items, p) ==> OwedItems(items, rest) == items[..p + 1]
  {
    if items == [] {
      assert items + rest == rest;
    } else if !items[0].Failed? {
      var later := items[1..];
      OwedItemsExactly(later, rest);
      assert items == [items[0]] + later;
      assert forall i :: 0 <= i < |later| ==> later[i] == items[i + 1];
      forall p: nat | FirstFails(items, p) ensures OwedItems(items, rest) == items[..p + 1] {
        assert FirstFails(later, p - 1) && items[..p + 1] == [items[0]] + later[..p];
      }
    } else {
      assert items[..1] == [items[0]];
    }
  }

  lemma {:induction false} SomeFirstFails(items: seq<Item>) returns (p: nat)
    requires HasFailure(items)
    ensures FirstFails(items, p)
  {
    if items[0].Failed? {
      p := 0;
    } else {
      var i :| 0 <= i < |items| && items[i].Failed?;
      assert items[1..][i - 1].Failed?;
      var q := SomeFirstFails(items[1..]);
      p := q + 1;
      assert forall j :: 0 < j < p ==> items[j] == items[1..][j - 1];
    }
  }

  /** How a body without a failed item ends. */
  function Ending(terminal: bool, broken: Option<string>): Item {
    match broken
    case Some(message) => Failed(message)
    case None => if terminal then Done else Failed("provider stream ended before a terminal event")
  }

  /** `owed` is what the translated `steps` of a body owe: all their items up to the first failed one, that one
      included, or all of them and the ending of the body. */
  ghost predicate IsOwed(owed: seq<Item>, terminal: bool, steps: seq<(seq<Item>, bool)>, broken: Option<string>) {
    var all := AllItems(steps);
    if HasFailure(all) then exists p: nat :: FirstFails(all, p) && owed == all[..p + 1]
    else owed == all + [Ending(terminal || SomeTerminal(steps), broken)]
  }

  lemma TerminalUnfolds(steps: seq<(seq<Item>, bool)>)
    requires steps != []
    ensures SomeTerminal(steps) <==> steps[0].1 || SomeTerminal(steps[1..])
  {
    assert forall i :: 0 <= i < |steps| - 1 ==> steps[1..][i] == steps[i + 1];
    if SomeTerminal(steps) && !steps[0].1 {
      var i :| 0 <= i < |steps| && steps[i].1;
      assert steps[1..][i - 1].1;
    }
  }

  lemma EventOwed(
      items: seq<Item>, done: bool, terminal: bool, later: seq<Item>, steps: seq<(seq<Item>, bool)>,
      broken: Option<string>)
    requires IsOwed(later, terminal || done, steps, broken)
    ensures IsOwed(OwedItems(items, later), terminal, [(items, done)] + steps, broken)
  {
    var whole, rest := [(items, done)] + steps, AllItems(steps);
    assert whole[1..] == steps;
    var all := AllItems(whole);
    assert all == items + rest;
    TerminalUnfolds(whole);
    OwedItemsExactly(items, later);
    if HasFailure(items) {
      var p := SomeFirstFails(items);
      FailsInFirst(items, rest, p);
    } else if HasFailure(rest) {
      var p: nat :| FirstFails(rest, p) && later == rest[..p + 1];
      FailsInRest(items, rest, p);
    } else {
      NoneFails(items, rest);
      assert items + (rest + [later[|later| - 1]]) == all + [later[|later| - 1]];
    }
  }

  lemma FailsInFirst(items: seq<Item>, rest: seq<Item>, p: nat)
    requires FirstFails(items, p)
    ensures FirstFails(items + rest, p) && (items + rest)[..p + 1] == items[..p + 1]
  {
    assert forall i :: 0 <= i < |items| ==> (items + rest)[i] == items[i];
  }

  lemma FailsInRest(items: seq<Item>, rest: seq<Item>, p: nat)
    requires !HasFailure(items) && FirstFails(rest, p)
    ensures FirstFails(items + rest, |items| + p) && (items + rest)[..|items| + p + 1] == items + rest[..p + 1]
  {
    assert (items + rest)[|items| + p] == rest[p];
    forall i | 0 <= i < |items| + p ensures !(items + rest)[i].Failed? {
      if i < |items| { assert !items[i].Failed?; } else { assert !rest[i - |items|].Failed?; }
    }
  }

  lemma NoneFails(items: seq<Item>, rest: seq<Item>)
    requires !HasFailure(items) && !HasFailure(rest)
    ensures !HasFailure(items + rest)
  {
    forall i | 0 <= i < |items + rest| ensures !(items + rest)[i].Failed? {
      if i < |items| { assert !items[i].Failed?; } else { assert !rest[i - |items|].Failed?; }
    }
  }

  /** Exactly what every body owes, for every translator: its translated items in order up to the first failed
      one, and without a failed one how it ended: with the cause when it broke, with Done when some event was
      terminal, and with the early end otherwise. */
  lemma {:induction false} OwedExactly<St>(translate: Translator<St>, st: St, terminal: bool, body: Body)
    ensures IsOwed(Owed(translate, st, terminal, body), terminal, Translated(translate, st, body.events), body.broken)
    decreases |body.events|
  {
    if body.events != [] {
      var (next, items, done) := translate(st, body.events[0]);
      var left := body.(events := body.events[1..]);
      OwedExactly(translate, next, terminal || done, left);
      EventOwed(items, done, terminal, Owed(translate, next, terminal || done, left),
                Translated(translate, next, left.events), body.broken);
    }
  }

  predicate NoDone(items: seq<Item>) { forall i :: 0 <= i < |items| ==> !items[i].Done? }

  lemma NoDoneJoined(a: seq<Item>, b: seq<Item>)
    requires NoDone(a) && NoDone(b)
    ensures NoDone(a + b)
  {
  }

  lemma {:induction false} NoDoneAmong<St(!new)>(translate: Translator<St>, st: St, events: seq<Event>)
    requires NeverDone(translate)
    ensures NoDone(AllItems(Translated(translate, st, events)))
    decreases |events|
  {
    if events != [] {
      var (next, items, done) := translate(st, events[0]);
      NoDoneAmong(translate, next, events[1..]);
      assert forall i :: 0 <= i < |items| ==> !translate(st, events[0]).1[i].Done?;
      var steps := Translated(translate, st, events);
      assert steps[1..] == Translated(translate, next, events[1..]) && steps[0] == (items, done);
      assert AllItems(steps) == items + AllItems(steps[1..]);
      NoDoneJoined(items, AllItems(steps[1..]));
    }
  }

  /** Exactly one terminal item, always last; it is Done exactly when the body ended cleanly, some event was
      terminal and no item failed. */
  lemma OwedEndsOnce<St(!new)>(translate: Translator<St>, st: St, body: Body)
    requires NeverDone(translate)
    ensures var owed, steps := Owed(translate, st, false, body), Translated(translate, st, body.events);
            && EndsOnce(owed)
            && (owed[|owed| - 1].Done? <==>
                  body.broken.None? && SomeTerminal(steps) && !HasFailure(AllItems(steps)))
  {
    OwedExactly(translate, st, false, body);
    NoDoneAmong(translate, st, body.events);
    EndingIsOne(Owed(translate, st, false, body), Translated(translate, st, body.events), body.broken);
  }

  lemma EndingIsOne(owed: seq<Item>, steps: seq<(seq<Item>, bool)>, broken: Option<string>)
    requires IsOwed(owed, false, steps, broken)
    requires NoDone(AllItems(steps))
    ensures EndsOnce(owed)
    ensures owed[|owed| - 1].Done? <==> broken.None? && SomeTerminal(steps) && !HasFailure(AllItems(steps))
  {
    var all := AllItems(steps);
    if HasFailure(all) {
      var p: nat :| FirstFails(all, p) && owed == all[..p + 1];
      assert |owed| == p + 1 && owed[p] == all[p];
      forall i | 0 <= i < p ensures owed[i].Delta? { assert owed[i] == all[i]; }
    } else {
      forall i | 0 <= i < |all| ensures owed[i].Delta? { assert owed[i] == all[i]; }
    }
  }

  /** The events of reads that brought some, one after the other. */
  function AllEvents(framed: seq<seq<Event>>): seq<Event> {
    if framed == [] then [] else framed[0] + AllEvents(framed[1..])
  }

  function Arrived(framed: seq<seq<Event>>): seq<Arrival> {
    if framed == [] then [] else [Framed(framed[0])] + Arrived(framed[1..])
  }

  lemma {:induction false} EventsFirst(framed: seq<seq<Event>>, end: seq<Arrival>)
    ensures Flatten(Arrived(framed) + end) == Body(AllEvents(framed) + Flatten(end).events, Flatten(end).broken)
  {
    var arrivals := Arrived(framed) + end;
    var last := Flatten(end).events;
    if framed == [] {
      assert arrivals == end && [] + last == last;
    } else {
      var later := framed[1..];
      EventsFirst(later, end);
      assert arrivals[0] == Framed(framed[0]) && arrivals[1..] == Arrived(later) + end;
      Regroup(framed[0], AllEvents(later), last);
    }
  }

  lemma Regroup(a: seq<Event>, b: seq<Event>, c: seq<Event>)
    ensures a + (b + c) == a + b + c
  {
  }

  /** What a body comes to: every event that arrived before the first read that failed or was refused, whatever
      would have come after it, and why that one ended the body. */
  lemma BodyOfArrivals(framed: seq<seq<Event>>, last: Arrival, ignored: seq<Arrival>)
    ensures Flatten(Arrived(framed)) == Body(AllEvents(framed), None)
    ensures !last.Framed? ==>
              Flatten(Arrived(framed) + ([last] + ignored)) ==
                Body(AllEvents(framed), Some(match last
                                             case FrameRefused(message) => message
                                             case ReadFailed(cause) => "provider stream read failed: " + cause
                                             case Framed(_) => ""))
  {
    EventsFirst(framed, []);
    EventsFirst(framed, [last] + ignored);
    assert Arrived(framed) + [] == Arrived(framed) && AllEvents(framed) + [] == AllEvents(framed);
    assert ([last] + ignored)[0] == last;
  }

  // ---- Bytes ----

  /** The arrivals of a body whose reads brought `chunks` and then ended, or broke. */
  function ArrivalsOf(s: Framer.State, chunks: seq<Bytes>, broken: Option<string>): seq<Arrival>
    decreases |chunks|
  {
    if chunks == [] then (if broken.Some? then [ReadFailed(broken.value)] else [])
    else
      var (next, events) := Frame(s, Utf8.Lossy(chunks[0]));
      [Framed(events)] + ArrivalsOf(next, chunks[1..], broken)
  }

  lemma {:induction false} ArrivalsFlatten(s: Framer.State, chunks: seq<Bytes>, broken: Option<string>)
    ensures Flatten(ArrivalsOf(s, chunks, broken)) ==
              Body(FrameChunks(s, chunks).1, if broken.Some? then Some(READ_FAILED + broken.value) else None)
    decreases |chunks|
  {
    if chunks == [] {
      if broken.Some? {
        assert [ReadFailed(broken.value)][0] == ReadFailed(broken.value);
      }
    } else {
      var (next, events) := Frame(s, Utf8.Lossy(chunks[0]));
      ArrivalsFlatten(next, chunks[1..], broken);
      var rest := ArrivalsOf(next, chunks[1..], broken);
      assert ([Framed(events)] + rest)[1..] == rest;
    }
  }

  /** Two chunkings of one body deliver the same items, when neither cuts a character. */
  lemma DeliveryIgnoresChunking<St>(
      translate: Translator<St>, initial: St, a: seq<Bytes>, b: seq<Bytes>, broken: Option<string>)
    requires Utf8.Flatten(a) == Utf8.Flatten(b)
    requires Utf8.CutBetweenCharacters(a) && Utf8.CutBetweenCharacters(b)
    ensures Owed(translate, initial, false, Flatten(ArrivalsOf(FRESH, a, broken))) ==
            Owed(translate, initial, false, Flatten(ArrivalsOf(FRESH, b, broken)))
  {
    ArrivalsFlatten(FRESH, a, broken);
    ArrivalsFlatten(FRESH, b, broken);
    EventsIgnoreChunking(FRESH, a);
    EventsIgnoreChunking(FRESH, b);
  }
}
