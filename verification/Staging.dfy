/** The shared state directory as one caller changes it: the lock beside a record, the private
    whole-file replace, and `accept_once` on top of them, each system call able to fail.
  */
module Staging {
  import opened Common
  import opened Replay
  import opened ReplayProtocol

  /** Which system calls fail during one call, and how much of a failing write reaches the file. */
  datatype Faults = Faults(
    lock: bool, read: bool, encode: bool, open: bool, write: bool, kept: nat, sync: bool, rename: bool, remove: bool)

  predicate NoFault(f: Faults) {
    !f.lock && !f.read && !f.encode && !f.open && !f.write && !f.sync && !f.rename
  }

  /** How a whole-file replace ended; a failure says whether its staging file is still there. */
  datatype Replaced = Done | NotDone(leftBehind: bool)

  /** What one whole call leaves: its answer, the record and the staging file. */
  datatype Outcome = Outcome(answer: Answer, record: Option<Bytes>, staging: Option<Bytes>)

  /** How many of the bytes reach the staging file. */
  function Reached(bytes: Bytes, faults: Faults): (n: nat)
    ensures n <= |bytes|
  {
    if faults.write && faults.kept < |bytes| then faults.kept else |bytes|
  }

  predicate Replaces(faults: Faults) { !faults.open && !faults.write && !faults.sync && !faults.rename }

  /** The staging file once a replace has failed: what it got to hold, or nothing when it could be removed. */
  function LeftOver(bytes: Bytes, staging: Option<Bytes>, faults: Faults): Option<Bytes> {
    if !faults.remove then None
    else if faults.open then staging
    else Some(bytes[..Reached(bytes, faults)])
  }

  /** What a call of `accept_once` nobody disturbs comes to. */
  function Undisturbed(
      codec: Codec, r: Request, record: Option<Bytes>, staging: Option<Bytes>, faults: Faults): Outcome
  {
    var nothing := Outcome(Failed, record, staging);
    if faults.lock || faults.read || ReadRecord(codec, record).None? then nothing
    else
      match Decide(ReadRecord(codec, record).value, r)
      case Replayed(newest) => Outcome(Refused(newest), record, staging)
      case Fresh(next) =>
        var bytes := codec.encode(next);
        if faults.encode then nothing
        else if Replaces(faults) then Outcome(Admitted, Some(bytes), None)
        else Outcome(Failed, record, LeftOver(bytes, staging, faults))
  }

  class StateDirectory {
    var record: Option<Bytes>
    var staging: Option<Bytes>
    var locked: bool

    constructor ()
      ensures record == None && staging == None && !locked
    {
      record, staging, locked := None, None, false;
    }

    /** Take the exclusive lock of the record, which is free when this caller gets it. */
    method HeldBeside(faults: Faults) returns (held: bool)
      requires !locked
      modifies this`locked
      ensures held == !faults.lock && locked == held
    {
      held := !faults.lock;
      locked := held;
    }

    /** Remove the staging file; the answer says whether it is still there. */
    method Remove(faults: Faults) returns (left: bool)
      modifies this`staging
      ensures left == staging.Some?
      ensures left == (old(staging).Some? && faults.remove)
      ensures left ==> staging == old(staging)
    {
      left := staging.Some? && faults.remove;
      if !left {
        staging := None;
      }
    }

    /** `bytes` as the whole of the record, through the staging file, or the record as it was. */
    method ReplacePrivate(bytes: Bytes, faults: Faults) returns (outcome: Replaced)
      modifies this`record, this`staging
      ensures outcome.Done? ==> record == Some(bytes) && staging == None
      ensures outcome.NotDone? ==> record == old(record) && outcome.leftBehind == staging.Some?
      ensures outcome.NotDone? ==> staging == LeftOver(bytes, old(staging), faults)
      ensures outcome.Done? <==> Replaces(faults)
    {
      var written := false;
      if !faults.open {
        staging := Some([]);
        var reached := Reached(bytes, faults);
        var k := 0;
        while k < reached
          invariant 0 <= k <= reached <= |bytes|
          invariant staging == Some(bytes[..k]) && record == old(record)
        {
          assert bytes[..k + 1] == bytes[..k] + [bytes[k]];
          staging := Some(staging.value + [bytes[k]]);
          k := k + 1;
        }
        if !faults.write && !faults.sync && !faults.rename {
          assert bytes[..|bytes|] == bytes;
          record, staging := staging, None;
          written := true;
        }
      }
      if written {
        return Done;
      }
      var left := Remove(faults);
      return NotDone(left);
    }

    /** Accept `r` once, or say why not. */
    method AcceptOnce(codec: Codec, r: Request, faults: Faults) returns (answer: Answer)
      requires !locked
      modifies this
      ensures !locked
      ensures Outcome(answer, record, staging) == Undisturbed(codec, r, old(record), old(staging), faults)
      ensures answer.Admitted? ==>
                && ReadRecord(codec, old(record)).Some?
                && Decide(ReadRecord(codec, old(record)).value, r).Fresh?
                && record == Some(codec.encode(Decide(ReadRecord(codec, old(record)).value, r).record))
      ensures !answer.Admitted? ==> record == old(record)
      ensures answer.Refused? ==>
                && ReadRecord(codec, old(record)).Some?
                && Decide(ReadRecord(codec, old(record)).value, r) == Replayed(answer.newest)
      ensures NoFault(faults) && ReadRecord(codec, old(record)).Some? ==> !answer.Failed?
      ensures answer.Admitted? ==> NoFault(faults)
      ensures NoFault(faults) && old(record) == None ==>
                answer == (if 0 <= r.timestamp then Admitted else Refused(0))
      ensures Lawful(codec) && answer.Admitted? && old(record) == None ==>
                record.Some? && codec.decode(record.value) == Some(map[r.agent := Accepted(r.timestamp, {r.signature})])
    {
      var held := HeldBeside(faults);
      if !held {
        return Failed;
      }
      var read := if faults.read then None else ReadRecord(codec, record);
      if read == None {
        locked := false;
        return Failed;
      }
      var accepted := EntryOf(read.value, r.agent);
      if r.timestamp < accepted.timestamp || (r.timestamp == accepted.timestamp && r.signature in accepted.signatures) {
        locked := false;
        return Refused(accepted.timestamp);
      }
      if r.timestamp > accepted.timestamp {
        accepted := accepted.(timestamp := r.timestamp);
        accepted := accepted.(signatures := {});
      }
      accepted := accepted.(signatures := accepted.signatures + {r.signature});
      var next := read.value[r.agent := accepted];
      assert {} + {r.signature} == {r.signature};
      assert old(record) == None ==> next == map[r.agent := Accepted(r.timestamp, {r.signature})];
      if faults.encode {
        locked := false;
        return Failed;
      }
      var outcome := ReplacePrivate(codec.encode(next), faults);
      locked := false;
      return if outcome.Done? then Admitted else Failed;
    }
  }

  // ---- The method and the step relation describe one thing ----

  /** Caller `id` takes every step from the first state to the last, alone, and does not die. */
  ghost predicate Alone(codec: Codec, states: seq<System>, id: nat) {
    && 0 < |states|
    && forall i :: 0 < i < |states| ==> MovesAlone(codec, states[i - 1], states[i], id)
  }

  ghost predicate MovesAlone(codec: Codec, s: System, s': System, id: nat) {
    exists action: Action :: !action.DoBegin? && !action.DoCrash? && Step(codec, s, s', id, action)
  }

  lemma OneMore(codec: Codec, states: seq<System>, s': System, id: nat, action: Action)
      returns (more: seq<System>)
    requires Alone(codec, states, id) && !action.DoBegin? && !action.DoCrash?
    requires Step(codec, states[|states| - 1], s', id, action)
    ensures Alone(codec, more, id) && states <= more && more[|more| - 1] == s'
  {
    more := states + [s'];
    forall i | 0 < i < |more| ensures MovesAlone(codec, more[i - 1], more[i], id) {
      if i < |states| { assert MovesAlone(codec, states[i - 1], states[i], id); }
    }
  }

  /** The caller has its answer, with the files as given. */
  predicate Answered(s: System, id: nat, o: Outcome) {
    At(s, id, Leaving(o.answer)) && s.record == o.record && s.staging == o.staging
  }

  /** The caller has returned, with the files as given and the lock free. */
  predicate Finished(s: System, id: nat, o: Outcome) {
    At(s, id, Returned(o.answer)) && s.record == o.record && s.staging == o.staging && s.lock == None
  }

  /** A failed replace, from the step that failed. */
  lemma CleanUpRuns(codec: Codec, states: seq<System>, id: nat, faults: Faults) returns (more: seq<System>)
    requires Alone(codec, states, id) && At(states[|states| - 1], id, Failing)
    ensures Alone(codec, more, id) && states <= more
    ensures var s := states[|states| - 1];
            Answered(more[|more| - 1], id, Outcome(Failed, s.record, if faults.remove then s.staging else None))
  {
    var s := states[|states| - 1];
    var settled := Settled(s, id, Failed);
    more := OneMore(codec, states, if faults.remove then settled else settled.(staging := None), id, DoCleanUp);
  }

  /** The write, whole or cut short, from an empty staging file. */
  lemma WriteRuns(codec: Codec, states: seq<System>, id: nat, next: Record, faults: Faults)
      returns (more: seq<System>)
    requires Alone(codec, states, id) && At(states[|states| - 1], id, Writing(next, 0))
    requires states[|states| - 1].staging == Some([])
    ensures Alone(codec, more, id) && states <= more
    ensures var s, bytes := states[|states| - 1], codec.encode(next);
            Answered(more[|more| - 1], id,
                     if !faults.write && !faults.sync && !faults.rename then Outcome(Admitted, Some(bytes), None)
                     else Outcome(Failed, s.record,
                                  if faults.remove then Some(bytes[..Reached(bytes, faults)]) else None))
  {
    var s, bytes := states[|states| - 1], codec.encode(next);
    var n := Reached(bytes, faults);
    var longer := s.(staging := Some([] + bytes[0..n]));
    assert [] + bytes[0..n] == bytes[..n] && bytes[..|bytes|] == bytes;
    if faults.write {
      var failing := OneMore(codec, states, Moved(longer, id, Failing), id, DoWrite(n));
      more := CleanUpRuns(codec, failing, id, faults);
    } else {
      var written := Moved(longer, id, Writing(next, n));
      more := OneMore(codec, states, written, id, DoWrite(n));
      more := PublishRuns(codec, more, id, next, faults);
    }
  }

  /** Sync and rename of a whole staging file. */
  lemma PublishRuns(codec: Codec, states: seq<System>, id: nat, next: Record, faults: Faults)
      returns (more: seq<System>)
    requires Alone(codec, states, id) && At(states[|states| - 1], id, Writing(next, |codec.encode(next)|))
    requires states[|states| - 1].staging == Some(codec.encode(next))
    ensures Alone(codec, more, id) && states <= more
    ensures var s, bytes := states[|states| - 1], codec.encode(next);
            Answered(more[|more| - 1], id,
                     if !faults.sync && !faults.rename then Outcome(Admitted, Some(bytes), None)
                     else Outcome(Failed, s.record, if faults.remove then Some(bytes) else None))
  {
    var s := states[|states| - 1];
    if faults.sync {
      more := OneMore(codec, states, Moved(s, id, Failing), id, DoSync);
      more := CleanUpRuns(codec, more, id, faults);
    } else {
      var synced := Moved(s, id, Synced(next));
      more := OneMore(codec, states, synced, id, DoSync);
      if faults.rename {
        more := OneMore(codec, more, Moved(synced, id, Failing), id, DoRename);
        more := CleanUpRuns(codec, more, id, faults);
      } else {
        var renamed := Settled(synced, id, Admitted).(record := synced.staging, staging := None);
        more := OneMore(codec, more, renamed, id, DoRename);
      }
    }
  }

  /** The whole-file replace. */
  lemma ReplaceRuns(codec: Codec, states: seq<System>, id: nat, next: Record, faults: Faults)
      returns (more: seq<System>)
    requires Alone(codec, states, id) && At(states[|states| - 1], id, Opening(next))
    ensures Alone(codec, more, id) && states <= more
    ensures var s, bytes := states[|states| - 1], codec.encode(next);
            Answered(more[|more| - 1], id,
                     if Replaces(faults) then Outcome(Admitted, Some(bytes), None)
                     else Outcome(Failed, s.record, LeftOver(bytes, s.staging, faults)))
  {
    var s := states[|states| - 1];
    if faults.open {
      more := OneMore(codec, states, Moved(s, id, Failing), id, DoOpen);
      more := CleanUpRuns(codec, more, id, faults);
    } else {
      more := OneMore(codec, states, Moved(s, id, Writing(next, 0)).(staging := Some([])), id, DoOpen);
      more := WriteRuns(codec, more, id, next, faults);
    }
  }

  /** From the decision to an answer. */
  lemma JudgeRuns(codec: Codec, states: seq<System>, id: nat, record: Record, faults: Faults)
      returns (more: seq<System>)
    requires Alone(codec, states, id) && At(states[|states| - 1], id, Loaded(record))
    requires ReadRecord(codec, states[|states| - 1].record) == Some(record) && !faults.lock && !faults.read
    ensures Alone(codec, more, id) && states <= more
    ensures var s := states[|states| - 1];
            Answered(more[|more| - 1], id, Undisturbed(codec, s.calls[id].request, s.record, s.staging, faults))
  {
    var s := states[|states| - 1];
    match Decide(record, s.calls[id].request)
    case Replayed(newest) =>
      more := OneMore(codec, states, Settled(s, id, Refused(newest)), id, DoJudge);
    case Fresh(next) =>
      if faults.encode {
        more := OneMore(codec, states, Settled(s, id, Failed), id, DoJudge);
      } else {
        more := OneMore(codec, states, Moved(s, id, Opening(next)), id, DoJudge);
        more := ReplaceRuns(codec, more, id, next, faults);
      }
  }

  /** Under every combination of faults, a call that meets a free lock and is not disturbed is a run of the
      step relation that returns what the method answers and leaves the files as the method leaves them. */
  lemma CallIsRun(codec: Codec, s: System, id: nat, faults: Faults) returns (states: seq<System>)
    requires At(s, id, Waiting) && s.lock == None
    ensures Alone(codec, states, id) && states[0] == s
    ensures Finished(states[|states| - 1], id, Undisturbed(codec, s.calls[id].request, s.record, s.staging, faults))
  {
    states := [s];
    if faults.lock {
      var refused := s.(
        calls := s.calls[id := s.calls[id].(stage := Returned(Failed), returnedAt := Some(s.now))],
        now := s.now + 1,
        effects := s.effects + [Effect(id, s.calls[id].request, Failed)]);
      states := OneMore(codec, states, refused, id, DoRefuseLock);
    } else {
      var held := Moved(s, id, Holding).(lock := Some(id));
      states := OneMore(codec, states, held, id, DoTakeLock);
      if faults.read || ReadRecord(codec, s.record).None? {
        states := OneMore(codec, states, Settled(held, id, Failed), id, DoLoad);
      } else {
        var record := ReadRecord(codec, s.record).value;
        states := OneMore(codec, states, Moved(held, id, Loaded(record)), id, DoLoad);
        states := JudgeRuns(codec, states, id, record, faults);
      }
      states := LeaveRuns(codec, states, id, Undisturbed(codec, s.calls[id].request, s.record, s.staging, faults));
    }
  }

  lemma LeaveRuns(codec: Codec, states: seq<System>, id: nat, o: Outcome) returns (more: seq<System>)
    requires Alone(codec, states, id) && Answered(states[|states| - 1], id, o)
    ensures Alone(codec, more, id) && states <= more && Finished(more[|more| - 1], id, o)
  {
    var s := states[|states| - 1];
    var left := s.(
      calls := s.calls[id := s.calls[id].(stage := Returned(o.answer), returnedAt := Some(s.now))],
      lock := None,
      now := s.now + 1);
    more := OneMore(codec, states, left, id, DoLeave);
  }
}
