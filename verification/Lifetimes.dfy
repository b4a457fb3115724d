/** The last-answer record over many processes, one after the other: writes fail, processes end, and the next
    one loads what the file holds.
  */
module Lifetimes {
  import opened Common
  import opened Answers

  /** What happens to the gateway: an answer, or its process ends and another one loads the file. */
  datatype Event = Answered(answer: Answer) | Restarted

  function Stepped(b: Book, e: Event): Book {
    match e
    case Answered(a) => Recorded(b, a)
    case Restarted => Book(Loaded(b.disk), b.disk)
  }

  function Lived(b: Book, events: seq<Event>): Book {
    if events == [] then b else Stepped(Lived(b, events[..|events| - 1]), events[|events| - 1])
  }

  /** What two answers of one alias are compared by. */
  type Mark = (bool, Option<string>)

  function MarkOf(a: Answer): Mark {
    match a.refusal
    case None => (true, None)
    case Some(r) => (false, Some(r.code))
  }

  function MarkIn(record: Record, alias: string): Option<Mark> {
    if alias in record then Some((record[alias].answered, record[alias].refusal)) else None
  }

  /** What the gateway remembers of `alias` before event `i`, told from the events alone: its newest answer,
      but for answers a restart forgot, which go back to the last write that succeeded. */
  function Remembered(b: Book, events: seq<Event>, i: nat, alias: string): Option<Mark>
    requires i <= |events|
    decreases i, 0
  {
    if i == 0 then MarkIn(b.memory, alias)
    else
      match events[i - 1]
      case Answered(a) => if a.alias == alias then Some(MarkOf(a)) else Remembered(b, events, i - 1, alias)
      case Restarted =>
        var k := LastStored(b, events, i - 1);
        if 0 <= k then Remembered(b, events, k + 1, alias) else MarkIn(Loaded(b.disk), alias)
  }

  /** Event `i` is an answer of another class than the gateway remembers: a write is due. */
  predicate WriteDue(b: Book, events: seq<Event>, i: nat)
    requires i < |events|
    decreases i, 1
  {
    events[i].Answered? && Remembered(b, events, i, events[i].answer.alias) != Some(MarkOf(events[i].answer))
  }

  /** The newest due write before event `i` that succeeded, in whatever process, or -1. */
  function LastStored(b: Book, events: seq<Event>, i: nat): (k: int)
    requires i <= |events|
    ensures -1 <= k < i
    decreases i, 0
  {
    if i == 0 then -1
    else if WriteDue(b, events, i - 1) && events[i - 1].answer.stored then i - 1
    else LastStored(b, events, i - 1)
  }

  lemma LivedUnfolds(b: Book, events: seq<Event>, i: nat)
    requires 0 < i <= |events|
    ensures Lived(b, events[..i]) == Stepped(Lived(b, events[..i - 1]), events[i - 1])
  {
    assert events[..i][..i - 1] == events[..i - 1];
  }

  /** Over every run of answers, failed writes and restarts: the file is the whole record as of the last due
      write that succeeded, in this process or an earlier one, and what the gateway knows of each alias is
      what the events say. */
  lemma {:induction false} LivesFollowEvents(b: Book, events: seq<Event>, i: nat)
    requires i <= |events|
    ensures var k := LastStored(b, events, i);
            Lived(b, events[..i]).disk == if 0 <= k then Holds(Lived(b, events[..k + 1]).memory) else b.disk
    ensures forall alias :: MarkIn(Lived(b, events[..i]).memory, alias) == Remembered(b, events, i, alias)
    decreases i
  {
    if i > 0 {
      LivedUnfolds(b, events, i);
      LivesFollowEvents(b, events, i - 1);
      if events[i - 1].Restarted? {
        var k := LastStored(b, events, i - 1);
        if 0 <= k { LivesFollowEvents(b, events, k + 1); }
      } else {
        AnswerFollows(Lived(b, events[..i - 1]), b, events, i - 1);
      }
    }
  }

  lemma AnswerFollows(now: Book, b: Book, events: seq<Event>, i: nat)
    requires i < |events| && events[i].Answered?
    requires forall alias :: MarkIn(now.memory, alias) == Remembered(b, events, i, alias)
    ensures Known(now.memory, events[i].answer) <==> !WriteDue(b, events, i)
    ensures forall alias ::
              MarkIn(Recorded(now, events[i].answer).memory, alias) == Remembered(b, events, i + 1, alias)
  {
    var a := events[i].answer;
    assert MarkIn(now.memory, a.alias) == Remembered(b, events, i, a.alias);
  }

  /** What a restarted process loads, and which answers it then writes again: the record as of the last due
      write that succeeded, and exactly the answers of another class than that record or, once the alias
      was answered, than its newest answer. */
  lemma RestartLoadsLastStored(b: Book, events: seq<Event>, i: nat)
    requires i < |events|
    ensures var k := LastStored(b, events, i);
            events[i].Restarted? ==>
              Lived(b, events[..i + 1]).memory ==
                if 0 <= k then Lived(b, events[..k + 1]).memory else Loaded(b.disk)
    ensures events[i].Answered? ==>
              (!Known(Lived(b, events[..i]).memory, events[i].answer) <==> WriteDue(b, events, i))
  {
    LivesFollowEvents(b, events, i);
    LivedUnfolds(b, events, i + 1);
    if events[i].Answered? { AnswerFollows(Lived(b, events[..i]), b, events, i); }
  }

  /** When no due write failed since the last one that succeeded, a restart changes nothing. */
  lemma RestartIsInvisible(b: Book, events: seq<Event>)
    requires b.memory == Loaded(b.disk)
    requires forall i :: LastStored(b, events, |events|) < i < |events| ==> !WriteDue(b, events, i)
    ensures Stepped(Lived(b, events), Restarted) == Lived(b, events)
  {
    var k, n := LastStored(b, events, |events|), |events|;
    LivesFollowEvents(b, events, n);
    assert events[..n] == events;
    if 0 <= k {
      LastStoredIsDue(b, events, n);
      LastStoredHere(b, events, k);
      LivesFollowEvents(b, events, k + 1);
      QuietLife(b, events, k + 1, n);
    } else {
      QuietLife(b, events, 0, n);
    }
  }

  lemma {:induction false} LastStoredIsDue(b: Book, events: seq<Event>, i: nat)
    requires i <= |events| && 0 <= LastStored(b, events, i)
    ensures var k := LastStored(b, events, i); WriteDue(b, events, k) && events[k].answer.stored
  {
    if !(WriteDue(b, events, i - 1) && events[i - 1].answer.stored) { LastStoredIsDue(b, events, i - 1); }
  }

  lemma LastStoredHere(b: Book, events: seq<Event>, k: nat)
    requires k < |events| && WriteDue(b, events, k) && events[k].answer.stored
    ensures LastStored(b, events, k + 1) == k
  {
  }

  /** Events that make no write due leave a gateway in step with its file as it is. */
  lemma {:induction false} QuietLife(b: Book, events: seq<Event>, k: nat, i: nat)
    requires k <= i <= |events|
    requires forall j :: k <= j < i ==> !WriteDue(b, events, j)
    requires Lived(b, events[..k]).memory == Loaded(Lived(b, events[..k]).disk)
    ensures Lived(b, events[..i]) == Lived(b, events[..k])
    decreases i - k
  {
    if k < i {
      QuietLife(b, events, k, i - 1);
      LivedUnfolds(b, events, i);
      LivesFollowEvents(b, events, i - 1);
      if events[i - 1].Answered? { AnswerFollows(Lived(b, events[..i - 1]), b, events, i - 1); }
    }
  }
}
