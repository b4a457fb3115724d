/** The agent replay guard: one compact entry per agent, and the decision taken from it.

    The record keeps, per agent, the newest accepted timestamp and only the signatures accepted at that
    timestamp. The specification remembers every request ever accepted; the lemmas show that the two
    always decide alike.
  */
module Replay {
  import opened Common

  datatype Request = Request(agent: string, timestamp: I64, signature: string)

  datatype Accepted = Accepted(timestamp: I64, signatures: set<string>)

  type Record = map<string, Accepted>

  /** The entry an agent without one starts from. */
  const NOTHING_ACCEPTED := Accepted(0, {})

  datatype Verdict = Fresh(record: Record) | Replayed(newest: I64)

  function EntryOf(record: Record, agent: string): Accepted {
    if agent in record then record[agent] else NOTHING_ACCEPTED
  }

  /** The decision of `accept_once` on a record it has read: the record to write back, or a refusal. */
  function Decide(record: Record, r: Request): Verdict {
    var accepted := EntryOf(record, r.agent);
    if || r.timestamp < accepted.timestamp
       || (r.timestamp == accepted.timestamp && r.signature in accepted.signatures) then
      Replayed(accepted.timestamp)
    else
      var raised := if r.timestamp > accepted.timestamp then Accepted(r.timestamp, {}) else accepted;
      Fresh(record[r.agent := Accepted(raised.timestamp, raised.signatures + {r.signature})])
  }

  // ---- The full-history specification ----

  /** `r` is new to an agent whose accepted requests are all in `history`: it is signed no earlier than
      any of them, not before the epoch, and it is not one of them. */
  ghost predicate Unseen(history: seq<Request>, r: Request) {
    && 0 <= r.timestamp
    && forall e :: e in history && e.agent == r.agent ==>
         e.timestamp < r.timestamp || (e.timestamp == r.timestamp && e.signature != r.signature)
  }

  /** `newest` is the latest timestamp accepted for `agent`, or zero when there is none later. */
  ghost predicate IsNewest(history: seq<Request>, agent: string, newest: int) {
    && 0 <= newest
    && (forall e :: e in history && e.agent == agent ==> e.timestamp <= newest)
    && (0 < newest ==> exists e :: e in history && e.agent == agent && e.timestamp == newest)
  }

  /** `entry` is what the record must hold for `agent` after `history`. */
  ghost predicate Summarises(entry: Accepted, history: seq<Request>, agent: string) {
    && IsNewest(history, agent, entry.timestamp)
    && forall s :: s in entry.signatures <==> Request(agent, entry.timestamp, s) in history
  }

  ghost predicate Represents(record: Record, history: seq<Request>) {
    && (forall agent :: Summarises(EntryOf(record, agent), history, agent))
    && (forall agent :: agent in record ==> exists e :: e in history && e.agent == agent)
  }

  // ---- Refinement ----

  /** The compact decision is the full-history one, and it names the newest timestamp when it refuses. */
  lemma DecideRefinesHistory(record: Record, history: seq<Request>, r: Request)
    requires Represents(record, history)
    ensures Decide(record, r).Fresh? <==> Unseen(history, r)
    ensures Decide(record, r).Replayed? ==> IsNewest(history, r.agent, Decide(record, r).newest)
  {
    var entry := EntryOf(record, r.agent);
    assert Summarises(entry, history, r.agent);
    if r.timestamp == entry.timestamp && r.signature !in entry.signatures {
      assert Request(r.agent, entry.timestamp, r.signature) !in history;
      forall e | e in history && e.agent == r.agent
        ensures e.timestamp < r.timestamp || (e.timestamp == r.timestamp && e.signature != r.signature)
      {
        assert e == Request(e.agent, e.timestamp, e.signature);
      }
    }
  }

  /** An accepted request leaves the record representing the history with that request added. */
  lemma FreshKeepsRepresents(record: Record, history: seq<Request>, r: Request)
    requires Represents(record, history)
    requires Decide(record, r).Fresh?
    ensures Represents(Decide(record, r).record, history + [r])
  {
    var next := Decide(record, r).record;
    var longer := history + [r];
    forall agent
      ensures Summarises(EntryOf(next, agent), longer, agent)
      ensures agent in next ==> exists e :: e in longer && e.agent == agent
    {
      assert Summarises(EntryOf(record, agent), history, agent);
      assert r in longer;
      if agent == r.agent {
        RaisedSummarises(record, history, r);
      } else {
        OtherAgentSummarised(EntryOf(record, agent), history, r, agent);
        if agent in next {
          var e :| e in history && e.agent == agent;
          assert e in longer;
        }
      }
    }
  }

  lemma OtherAgentSummarised(entry: Accepted, history: seq<Request>, r: Request, agent: string)
    requires Summarises(entry, history, agent)
    requires agent != r.agent
    ensures Summarises(entry, history + [r], agent)
  {
    var longer := history + [r];
    if 0 < entry.timestamp {
      var e :| e in history && e.agent == agent && e.timestamp == entry.timestamp;
      assert e in longer;
    }
  }

  lemma RaisedSummarises(record: Record, history: seq<Request>, r: Request)
    requires Represents(record, history)
    requires Decide(record, r).Fresh?
    ensures Summarises(EntryOf(Decide(record, r).record, r.agent), history + [r], r.agent)
  {
    var before := EntryOf(record, r.agent);
    var after := EntryOf(Decide(record, r).record, r.agent);
    var longer := history + [r];
    assert Summarises(before, history, r.agent);
    assert r in longer;
    forall s
      ensures s in after.signatures <==> Request(r.agent, after.timestamp, s) in longer
    {
      var q := Request(r.agent, after.timestamp, s);
      assert q in longer <==> q in history || q == r;
    }
  }

  /** A history determines the record's answer to every agent: two records of one history decide alike. */
  lemma RepresentsDeterminesEntries(a: Record, b: Record, history: seq<Request>, agent: string)
    requires Represents(a, history) && Represents(b, history)
    ensures EntryOf(a, agent) == EntryOf(b, agent)
  {
    var x, y := EntryOf(a, agent), EntryOf(b, agent);
    assert Summarises(x, history, agent) && Summarises(y, history, agent);
    assert x.timestamp == y.timestamp;
    assert x.signatures == y.signatures by {
      forall s ensures s in x.signatures <==> s in y.signatures {
        assert s in x.signatures <==> Request(agent, x.timestamp, s) in history;
        assert s in y.signatures <==> Request(agent, y.timestamp, s) in history;
      }
    }
  }

  /** With nothing accepted, the empty record is right, and a request is new unless it is signed before the
      epoch. */
  lemma NothingAcceptedYet(r: Request)
    ensures Represents(map[], [])
    ensures Unseen([], r) <==> 0 <= r.timestamp
  {
  }

  // ---- Whole sequential runs of the specification ----

  datatype Answer = Admitted | Refused(newest: I64) | Failed

  /** One call that took effect, with what it answered. */
  datatype Effect = Effect(call: nat, request: Request, answer: Answer)

  /** What the full-history guard may answer: a failure to reach the record changes nothing. */
  ghost predicate Allowed(history: seq<Request>, e: Effect) {
    match e.answer
    case Admitted => Unseen(history, e.request)
    case Refused(newest) => !Unseen(history, e.request) && IsNewest(history, e.request.agent, newest)
    case Failed => true
  }

  /** Everything accepted once `effects` have happened after `history`. */
  function After(history: seq<Request>, effects: seq<Effect>): (h: seq<Request>)
    ensures history <= h
    ensures forall r :: r in h ==> r in history || exists e :: e in effects && e.request == r && e.answer.Admitted?
  {
    if effects == [] then history
    else
      var last := effects[|effects| - 1];
      var before := After(history, effects[..|effects| - 1]);
      if last.answer.Admitted? then before + [last.request] else before
  }

  ghost predicate SequentialRun(history: seq<Request>, effects: seq<Effect>) {
    effects == [] ||
    (var n := |effects| - 1;
     SequentialRun(history, effects[..n]) && Allowed(After(history, effects[..n]), effects[n]))
  }

  lemma {:induction false} AdmittedIsRemembered(history: seq<Request>, effects: seq<Effect>, i: nat)
    requires i < |effects| && effects[i].answer.Admitted?
    ensures effects[i].request in After(history, effects)
  {
    var n := |effects| - 1;
    if i < n {
      AdmittedIsRemembered(history, effects[..n], i);
    }
  }

  /** No sequential run admits one request twice, nor one admitted before it began. */
  lemma {:induction false} NoRequestAdmittedTwice(history: seq<Request>, effects: seq<Effect>, i: nat, j: nat)
    requires SequentialRun(history, effects)
    requires i < j < |effects| && effects[i].answer.Admitted? && effects[j].answer.Admitted?
    ensures effects[i].request != effects[j].request
    ensures effects[i].request !in history
    ensures effects[i].request.agent == effects[j].request.agent ==>
              effects[i].request.timestamp <= effects[j].request.timestamp
    decreases |effects|
  {
    var n := |effects| - 1;
    if j < n {
      NoRequestAdmittedTwice(history, effects[..n], i, j);
    } else {
      AdmittedIsRemembered(history, effects[..n], i);
      AdmittedWasUnseen(history, effects, i);
    }
  }

  lemma {:induction false} AdmittedWasUnseen(history: seq<Request>, effects: seq<Effect>, i: nat)
    requires SequentialRun(history, effects)
    requires i < |effects| && effects[i].answer.Admitted?
    ensures effects[i].request !in history
  {
    var n := |effects| - 1;
    if i < n {
      AdmittedWasUnseen(history, effects[..n], i);
    } else {
      var before := After(history, effects[..n]);
      assert forall e :: e in history ==> e in before;
    }
  }

  lemma {:induction false} AfterGrows(history: seq<Request>, effects: seq<Effect>, n: nat)
    requires n <= |effects|
    ensures After(history, effects[..n]) <= After(history, effects)
  {
    var m := |effects| - 1;
    if n <= m {
      AfterGrows(history, effects[..m], n);
      assert effects[..m][..n] == effects[..n];
    } else {
      assert effects[..n] == effects;
    }
  }
}
