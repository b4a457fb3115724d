/** Any number of callers of `accept_once`, in any number of processes, sharing one state directory.

    Every system call of the caller is one step; steps of different callers interleave freely, each may
    fail, and a caller may die between any two of them, when the operating system frees its lock. The
    main theorem is that what the callers are answered is linearizable against the full-history guard.
  */
module ReplayProtocol {
  import opened Common
  import opened Replay

  /** The JSON encoding of the record, as the serializer is used: reading back what was written. */
  datatype Codec = Codec(encode: Record -> Bytes, decode: Bytes -> Option<Record>)

  ghost predicate Lawful(codec: Codec) {
    forall r: Record :: codec.decode(codec.encode(r)) == Some(r)
  }

  /** What a caller learns from the record file: an absent file is an empty record. */
  function ReadRecord(codec: Codec, file: Option<Bytes>): Option<Record> {
    match file
    case None => Some(map[])
    case Some(bytes) => codec.decode(bytes)
  }

  /** Where one caller stands. From `Holding` to `Leaving` it owns the lock. */
  datatype Stage =
    | Waiting
    | Holding
    | Loaded(record: Record)
    | Opening(next: Record)
    | Writing(next: Record, written: nat)
    | Synced(next: Record)
    | Failing
    | Leaving(answer: Answer)
    | Returned(answer: Answer)
    | Dead

  datatype Call = Call(request: Request, stage: Stage, calledAt: nat, returnedAt: Option<nat>)

  /** The directory, the callers, and the order in which their effects happened. */
  datatype System = System(
    calls: map<nat, Call>,
    lock: Option<nat>,
    record: Option<Bytes>,
    staging: Option<Bytes>,
    now: nat,
    effects: seq<Effect>)

  predicate OwnsLock(stage: Stage) {
    !stage.Waiting? && !stage.Returned? && !stage.Dead?
  }

  // ---- Steps ----

  predicate At(s: System, id: nat, stage: Stage) {
    id in s.calls && s.calls[id].stage == stage
  }

  /** `s` after caller `id` moved to `stage`; the clock ticks at every step. */
  function Moved(s: System, id: nat, stage: Stage): System
    requires id in s.calls
  {
    s.(calls := s.calls[id := s.calls[id].(stage := stage)], now := s.now + 1)
  }

  /** `Moved`, answering: this is the moment the call takes effect. */
  function Settled(s: System, id: nat, answer: Answer): System
    requires id in s.calls
  {
    Moved(s, id, Leaving(answer)).(effects := s.effects + [Effect(id, s.calls[id].request, answer)])
  }

  /** The call as it has returned now. */
  function Gone(s: System, id: nat, answer: Answer): Call
    requires id in s.calls
  {
    s.calls[id].(stage := Returned(answer), returnedAt := Some(s.now))
  }

  /** A new call starts. */
  ghost predicate Begin(s: System, s': System, id: nat, r: Request) {
    && id !in s.calls
    && s' == s.(calls := s.calls[id := Call(r, Waiting, s.now, None)], now := s.now + 1)
  }

  /** The directory or the lock file cannot be opened, or the lock cannot be taken. */
  ghost predicate RefuseLock(s: System, s': System, id: nat) {
    && At(s, id, Waiting)
    && s' == s.(calls := s.calls[id := Gone(s, id, Failed)],
                now := s.now + 1,
                effects := s.effects + [Effect(id, s.calls[id].request, Failed)])
  }

  ghost predicate TakeLock(s: System, s': System, id: nat) {
    && At(s, id, Waiting) && s.lock == None
    && s' == Moved(s, id, Holding).(lock := Some(id))
  }

  /** The record is read whole; unreadable bytes or a refused read answer a failure. */
  ghost predicate Load(codec: Codec, s: System, s': System, id: nat) {
    && At(s, id, Holding)
    && (|| s' == Settled(s, id, Failed)
        || (&& ReadRecord(codec, s.record).Some?
            && s' == Moved(s, id, Loaded(ReadRecord(codec, s.record).value))))
  }

  /** The decision. A fresh request goes on to write; the new record may also fail to encode. */
  ghost predicate Judge(s: System, s': System, id: nat) {
    && id in s.calls && s.calls[id].stage.Loaded?
    && match Decide(s.calls[id].stage.record, s.calls[id].request)
       case Replayed(newest) => s' == Settled(s, id, Refused(newest))
       case Fresh(next) => s' == Moved(s, id, Opening(next)) || s' == Settled(s, id, Failed)
  }

  /** The staging file is created or truncated. */
  ghost predicate OpenStaging(s: System, s': System, id: nat) {
    && id in s.calls && s.calls[id].stage.Opening?
    && (|| s' == Moved(s, id, Failing)
        || s' == Moved(s, id, Writing(s.calls[id].stage.next, 0)).(staging := Some([])))
  }

  /** The bytes up to `upTo` have reached the staging file. */
  ghost predicate WriteStaging(codec: Codec, s: System, s': System, id: nat, upTo: nat) {
    && id in s.calls && s.calls[id].stage.Writing? && s.staging.Some?
    && var next, written := s.calls[id].stage.next, s.calls[id].stage.written;
       var bytes := codec.encode(next);
       && written <= upTo <= |bytes|
       && var longer := s.(staging := Some(s.staging.value + bytes[written..upTo]));
          s' == Moved(longer, id, Writing(next, upTo)) || s' == Moved(longer, id, Failing)
  }

  ghost predicate SyncStaging(codec: Codec, s: System, s': System, id: nat) {
    && id in s.calls && s.calls[id].stage.Writing?
    && s.calls[id].stage.written == |codec.encode(s.calls[id].stage.next)|
    && (s' == Moved(s, id, Synced(s.calls[id].stage.next)) || s' == Moved(s, id, Failing))
  }

  /** Whatever the staging file holds becomes the record in one step, or nothing changes. */
  ghost predicate Rename(s: System, s': System, id: nat) {
    && id in s.calls && s.calls[id].stage.Synced? && s.staging.Some?
    && (s' == Settled(s, id, Admitted).(record := s.staging, staging := None) || s' == Moved(s, id, Failing))
  }

  /** A failed replace removes its staging file, or leaves it and says so. */
  ghost predicate CleanUp(s: System, s': System, id: nat) {
    && At(s, id, Failing)
    && (s' == Settled(s, id, Failed) || s' == Settled(s, id, Failed).(staging := None))
  }

  /** The answer is returned and the lock file closed. */
  ghost predicate Leave(s: System, s': System, id: nat) {
    && id in s.calls && s.calls[id].stage.Leaving?
    && s' == s.(calls := s.calls[id := Gone(s, id, s.calls[id].stage.answer)],
                lock := None,
                now := s.now + 1)
  }

  /** A caller dies wherever it stands; the operating system frees its lock and keeps the files. */
  ghost predicate Crash(s: System, s': System, id: nat) {
    && id in s.calls && !s.calls[id].stage.Returned? && !s.calls[id].stage.Dead?
    && s' == Moved(s, id, Dead).(lock := if s.lock == Some(id) then None else s.lock)
  }

  datatype Action =
    | DoBegin(r: Request) | DoRefuseLock | DoTakeLock | DoLoad | DoJudge | DoOpen | DoWrite(upTo: nat)
    | DoSync | DoRename | DoCleanUp | DoLeave | DoCrash

  ghost predicate Step(codec: Codec, s: System, s': System, id: nat, action: Action) {
    match action
    case DoBegin(r) => Begin(s, s', id, r)
    case DoRefuseLock => RefuseLock(s, s', id)
    case DoTakeLock => TakeLock(s, s', id)
    case DoLoad => Load(codec, s, s', id)
    case DoJudge => Judge(s, s', id)
    case DoOpen => OpenStaging(s, s', id)
    case DoWrite(upTo) => WriteStaging(codec, s, s', id, upTo)
    case DoSync => SyncStaging(codec, s, s', id)
    case DoRename => Rename(s, s', id)
    case DoCleanUp => CleanUp(s, s', id)
    case DoLeave => Leave(s, s', id)
    case DoCrash => Crash(s, s', id)
  }

  ghost predicate Next(codec: Codec, s: System, s': System) {
    exists id, action :: Step(codec, s, s', id, action)
  }

  /** No calls yet; the file holds what `history` left (nothing at all when it does not exist), and
      any debris may be in the staging file. */
  ghost predicate Init(codec: Codec, history: seq<Request>, s: System) {
    && s.calls == map[] && s.lock == None && s.effects == []
    && ReadRecord(codec, s.record).Some?
    && Represents(ReadRecord(codec, s.record).value, history)
  }

  ghost predicate Run(codec: Codec, history: seq<Request>, states: seq<System>) {
    && 0 < |states|
    && Init(codec, history, states[0])
    && forall i :: 0 < i < |states| ==> Next(codec, states[i - 1], states[i])
  }

  // ---- The invariant ----

  /** The disk record, when every reachable state keeps it readable. */
  ghost predicate DiskHolds(codec: Codec, s: System, record: Record) {
    ReadRecord(codec, s.record) == Some(record)
  }

  /** What a caller inside the lock knows about the files. */
  ghost predicate StageKnows(codec: Codec, s: System, call: Call) {
    match call.stage
    case Loaded(record) => DiskHolds(codec, s, record)
    case Opening(next) => WillWrite(codec, s, call.request, next)
    case Writing(next, written) =>
      && WillWrite(codec, s, call.request, next)
      && written <= |codec.encode(next)| && s.staging == Some(codec.encode(next)[..written])
    case Synced(next) => WillWrite(codec, s, call.request, next) && s.staging == Some(codec.encode(next))
    case _ => true
  }

  ghost predicate WillWrite(codec: Codec, s: System, r: Request, next: Record) {
    && ReadRecord(codec, s.record).Some?
    && Decide(ReadRecord(codec, s.record).value, r) == Fresh(next)
  }

  /** One owner at a time, and only owners are between taking and freeing the lock. */
  ghost predicate Exclusive(s: System) {
    && (forall id :: id in s.calls && OwnsLock(s.calls[id].stage) ==> s.lock == Some(id))
    && (s.lock.Some? ==> s.lock.value in s.calls && OwnsLock(s.calls[s.lock.value].stage))
  }

  ghost predicate FilesAgree(codec: Codec, history: seq<Request>, s: System) {
    && ReadRecord(codec, s.record).Some?
    && Represents(ReadRecord(codec, s.record).value, After(history, s.effects))
    && forall id :: id in s.calls ==> StageKnows(codec, s, s.calls[id])
  }

  /** A call has its effect exactly once, with the answer it goes on to return. */
  ghost predicate EffectsMatch(s: System) {
    && (forall i, j :: 0 <= i < j < |s.effects| ==> s.effects[i].call != s.effects[j].call)
    && (forall i :: 0 <= i < |s.effects| ==> EffectOf(s, s.effects[i]))
    && (forall id :: id in s.calls ==> AnswerKept(s, id))
  }

  ghost predicate EffectOf(s: System, e: Effect) {
    && e.call in s.calls && s.calls[e.call].request == e.request
    && (match s.calls[e.call].stage
        case Leaving(a) => a == e.answer
        case Returned(a) => a == e.answer
        case Dead => true
        case _ => false)
  }

  ghost predicate AnswerKept(s: System, id: nat)
    requires id in s.calls
  {
    var call := s.calls[id];
    && (call.stage.Leaving? || call.stage.Returned? ==> Effect(id, call.request, call.stage.answer) in s.effects)
    && (call.stage.Returned? <==> call.returnedAt.Some?)
  }

  /** Effects keep the real-time order of calls that do not overlap. */
  ghost predicate InRealTime(calls: map<nat, Call>, effects: seq<Effect>) {
    forall i, j :: 0 <= i < j < |effects| ==> KeepsOrder(calls, effects[i].call, effects[j].call)
  }

  /** The second call did not return before the first was made. */
  predicate KeepsOrder(calls: map<nat, Call>, first: nat, second: nat) {
    first in calls && second in calls && !ReturnedBefore(calls[second], calls[first])
  }

  predicate ReturnedBefore(x: Call, y: Call) {
    x.returnedAt.Some? && x.returnedAt.value < y.calledAt
  }

  ghost predicate Clocked(s: System) {
    forall id :: id in s.calls ==> s.calls[id].calledAt <= s.now
  }

  ghost predicate Inv(codec: Codec, history: seq<Request>, s: System) {
    && Exclusive(s)
    && FilesAgree(codec, history, s)
    && EffectsMatch(s)
    && InRealTime(s.calls, s.effects)
    && Clocked(s)
    && SequentialRun(history, s.effects)
  }

  // ---- Preservation ----

  lemma EffectAppended(history: seq<Request>, effects: seq<Effect>, e: Effect)
    ensures After(history, effects + [e]) ==
              if e.answer.Admitted? then After(history, effects) + [e.request] else After(history, effects)
    ensures SequentialRun(history, effects) && Allowed(After(history, effects), e) ==>
              SequentialRun(history, effects + [e])
  {
    assert (effects + [e])[..|effects|] == effects;
  }

  predicate Undecided(stage: Stage) { !stage.Leaving? && !stage.Returned? && !stage.Dead? }

  ghost predicate SameButFor(calls: map<nat, Call>, calls': map<nat, Call>, id: nat) {
    && id in calls && calls'.Keys == calls.Keys
    && calls'[id].request == calls[id].request && calls'[id].calledAt == calls[id].calledAt
    && forall other :: other in calls && other != id ==> calls'[other] == calls[other]
  }

  lemma MoveKeepsEffects(s: System, s': System, id: nat)
    requires EffectsMatch(s) && SameButFor(s.calls, s'.calls, id) && s'.effects == s.effects
    requires Undecided(s.calls[id].stage) && Undecided(s'.calls[id].stage)
    requires s'.calls[id].returnedAt == s.calls[id].returnedAt
    ensures EffectsMatch(s')
  {
    forall other | other in s'.calls ensures AnswerKept(s', other) { assert AnswerKept(s, other); }
    forall i | 0 <= i < |s'.effects| ensures EffectOf(s', s'.effects[i]) { assert EffectOf(s, s.effects[i]); }
  }

  lemma AnswerKeepsEffects(s: System, s': System, id: nat, answer: Answer)
    requires EffectsMatch(s) && SameButFor(s.calls, s'.calls, id)
    requires s'.effects == s.effects + [Effect(id, s.calls[id].request, answer)]
    requires Undecided(s.calls[id].stage)
    requires s'.calls[id].stage == Leaving(answer) || s'.calls[id].stage == Returned(answer)
    requires s'.calls[id].stage.Returned? <==> s'.calls[id].returnedAt.Some?
    ensures EffectsMatch(s')
  {
    forall other | other in s'.calls ensures AnswerKept(s', other) { assert AnswerKept(s, other); }
    forall i | 0 <= i < |s'.effects| ensures EffectOf(s', s'.effects[i]) {
      if i < |s.effects| { assert EffectOf(s, s.effects[i]); }
    }
    forall i | 0 <= i < |s.effects| ensures s.effects[i].call != id { assert EffectOf(s, s.effects[i]); }
  }

  /** A call returning now cannot have returned before any call whose effect is on record. */
  lemma ReturnKeepsRealTime(s: System, calls: map<nat, Call>)
    requires InRealTime(s.calls, s.effects) && Clocked(s)
    requires calls.Keys == s.calls.Keys
    requires forall id :: id in calls ==>
               && calls[id].calledAt == s.calls[id].calledAt
               && (calls[id].returnedAt == s.calls[id].returnedAt || calls[id].returnedAt == Some(s.now))
    ensures InRealTime(calls, s.effects)
  {
    forall i, j | 0 <= i < j < |s.effects| ensures KeepsOrder(calls, s.effects[i].call, s.effects[j].call) {
      assert KeepsOrder(s.calls, s.effects[i].call, s.effects[j].call);
    }
  }

  lemma AnswerKeepsRealTime(s: System, calls: map<nat, Call>, e: Effect)
    requires InRealTime(s.calls, s.effects) && Clocked(s) && EffectsMatch(s)
    requires SameButFor(s.calls, calls, e.call)
    requires s.calls[e.call].returnedAt == None
    requires calls[e.call].returnedAt == None || calls[e.call].returnedAt == Some(s.now)
    ensures InRealTime(calls, s.effects + [e])
  {
    ReturnKeepsRealTime(s, calls);
    var longer := s.effects + [e];
    forall i, j | 0 <= i < j < |longer| ensures KeepsOrder(calls, longer[i].call, longer[j].call) {
      if j == |s.effects| {
        assert EffectOf(s, s.effects[i]);
      } else {
        assert KeepsOrder(calls, s.effects[i].call, s.effects[j].call);
      }
    }
  }

  /** Files the lock owner did not touch, or touched alone, are still what every caller thinks. */
  lemma OwnerKeepsFiles(codec: Codec, history: seq<Request>, s: System, s': System, id: nat)
    requires Exclusive(s) && FilesAgree(codec, history, s) && SameButFor(s.calls, s'.calls, id)
    requires OwnsLock(s.calls[id].stage)
    requires ReadRecord(codec, s'.record).Some?
    requires Represents(ReadRecord(codec, s'.record).value, After(history, s'.effects))
    requires StageKnows(codec, s', s'.calls[id])
    ensures FilesAgree(codec, history, s')
  {
    forall other | other in s'.calls ensures StageKnows(codec, s', s'.calls[other]) {
      if other != id { assert !OwnsLock(s.calls[other].stage); }
    }
  }

  /** Steps that move one caller and leave the record, the lock and the effects alone. */
  lemma QuietStep(codec: Codec, history: seq<Request>, s: System, s': System, id: nat)
    requires Inv(codec, history, s)
    requires id in s.calls && OwnsLock(s.calls[id].stage) && Undecided(s.calls[id].stage)
    requires id in s'.calls && s' == Moved(s, id, s'.calls[id].stage).(staging := s'.staging)
    requires OwnsLock(s'.calls[id].stage) && Undecided(s'.calls[id].stage)
    requires StageKnows(codec, s', s'.calls[id])
    ensures Inv(codec, history, s')
  {
    MoveKeepsEffects(s, s', id);
    ReturnKeepsRealTime(s, s'.calls);
    OwnerKeepsFiles(codec, history, s, s', id);
  }

  /** An effect of the lock owner, with the record left representing the history it makes. */
  lemma EffectStep(codec: Codec, history: seq<Request>, s: System, s': System, id: nat, answer: Answer)
    requires Inv(codec, history, s)
    requires id in s.calls && OwnsLock(s.calls[id].stage) && Undecided(s.calls[id].stage)
    requires s' == Settled(s, id, answer).(record := s'.record, staging := s'.staging)
    requires Allowed(After(history, s.effects), Effect(id, s.calls[id].request, answer))
    requires ReadRecord(codec, s'.record).Some?
    requires Represents(ReadRecord(codec, s'.record).value, After(history, s'.effects))
    ensures Inv(codec, history, s')
  {
    var e := Effect(id, s.calls[id].request, answer);
    assert AnswerKept(s, id);
    EffectAppended(history, s.effects, e);
    AnswerKeepsEffects(s, s', id, answer);
    AnswerKeepsRealTime(s, s'.calls, e);
    OwnerKeepsFiles(codec, history, s, s', id);
  }

  /** A failure inside the lock changes nothing on record. */
  lemma FailureStep(codec: Codec, history: seq<Request>, s: System, s': System, id: nat)
    requires Inv(codec, history, s)
    requires id in s.calls && OwnsLock(s.calls[id].stage) && Undecided(s.calls[id].stage)
    requires s' == Settled(s, id, Failed).(staging := s'.staging)
    ensures Inv(codec, history, s')
  {
    EffectAppended(history, s.effects, Effect(id, s.calls[id].request, Failed));
    EffectStep(codec, history, s, s', id, Failed);
  }

  lemma LoadKeepsInv(codec: Codec, history: seq<Request>, s: System, s': System, id: nat)
    requires Inv(codec, history, s) && Load(codec, s, s', id)
    ensures Inv(codec, history, s')
  {
    if s' == Settled(s, id, Failed) {
      FailureStep(codec, history, s, s', id);
    } else {
      QuietStep(codec, history, s, s', id);
    }
  }

  lemma OpenKeepsInv(codec: Codec, history: seq<Request>, s: System, s': System, id: nat)
    requires Inv(codec, history, s) && OpenStaging(s, s', id)
    ensures Inv(codec, history, s')
  {
    assert StageKnows(codec, s, s.calls[id]);
    QuietStep(codec, history, s, s', id);
  }

  lemma JudgeKeepsInv(codec: Codec, history: seq<Request>, s: System, s': System, id: nat)
    requires Inv(codec, history, s) && Judge(s, s', id)
    ensures Inv(codec, history, s')
  {
    var call := s.calls[id];
    assert StageKnows(codec, s, call);
    DecideRefinesHistory(call.stage.record, After(history, s.effects), call.request);
    match Decide(call.stage.record, call.request)
    case Replayed(newest) =>
      EffectAppended(history, s.effects, Effect(id, call.request, Refused(newest)));
      EffectStep(codec, history, s, s', id, Refused(newest));
    case Fresh(next) =>
      if s' == Settled(s, id, Failed) {
        FailureStep(codec, history, s, s', id);
      } else {
        QuietStep(codec, history, s, s', id);
      }
  }

  lemma WriteKeepsInv(codec: Codec, history: seq<Request>, s: System, s': System, id: nat, upTo: nat)
    requires Inv(codec, history, s) && WriteStaging(codec, s, s', id, upTo)
    ensures Inv(codec, history, s')
  {
    assert StageKnows(codec, s, s.calls[id]);
    var bytes, written := codec.encode(s.calls[id].stage.next), s.calls[id].stage.written;
    assert bytes[..written] + bytes[written..upTo] == bytes[..upTo];
    QuietStep(codec, history, s, s', id);
  }

  lemma SyncKeepsInv(codec: Codec, history: seq<Request>, s: System, s': System, id: nat)
    requires Inv(codec, history, s) && SyncStaging(codec, s, s', id)
    ensures Inv(codec, history, s')
  {
    assert StageKnows(codec, s, s.calls[id]);
    var bytes := codec.encode(s.calls[id].stage.next);
    assert bytes[..|bytes|] == bytes;
    QuietStep(codec, history, s, s', id);
  }

  /** The renamed staging file is the whole new record, because nobody else could touch it. */
  lemma RenameKeepsInv(codec: Codec, history: seq<Request>, s: System, s': System, id: nat)
    requires Lawful(codec) && Inv(codec, history, s) && Rename(s, s', id)
    ensures Inv(codec, history, s')
  {
    var call := s.calls[id];
    assert StageKnows(codec, s, call);
    if s' == Moved(s, id, Failing) {
      QuietStep(codec, history, s, s', id);
    } else {
      var before := ReadRecord(codec, s.record).value;
      DecideRefinesHistory(before, After(history, s.effects), call.request);
      FreshKeepsRepresents(before, After(history, s.effects), call.request);
      EffectAppended(history, s.effects, Effect(id, call.request, Admitted));
      EffectStep(codec, history, s, s', id, Admitted);
    }
  }

  lemma TakeLockKeepsInv(codec: Codec, history: seq<Request>, s: System, s': System, id: nat)
    requires Inv(codec, history, s) && TakeLock(s, s', id)
    ensures Inv(codec, history, s')
  {
    MoveKeepsEffects(s, s', id);
    ReturnKeepsRealTime(s, s'.calls);
    StagesStillKnow(codec, s, s', id);
  }

  /** A caller that leaves, or dies, keeps the answer its effect has on record. */
  lemma LeavingKeepsEffects(s: System, s': System, id: nat)
    requires EffectsMatch(s) && (Leave(s, s', id) || Crash(s, s', id))
    ensures EffectsMatch(s')
  {
    forall other | other in s'.calls ensures AnswerKept(s', other) { assert AnswerKept(s, other); }
    forall i | 0 <= i < |s'.effects| ensures EffectOf(s', s'.effects[i]) { assert EffectOf(s, s.effects[i]); }
  }

  /** Callers other than `id` know what they knew, when the files did not change. */
  lemma StagesStillKnow(codec: Codec, s: System, s': System, id: nat)
    requires forall other :: other in s.calls ==> StageKnows(codec, s, s.calls[other])
    requires s'.record == s.record && s'.staging == s.staging && SameButFor(s.calls, s'.calls, id)
    requires StageKnows(codec, s', s'.calls[id])
    ensures forall other :: other in s'.calls ==> StageKnows(codec, s', s'.calls[other])
  {
    forall other | other in s'.calls ensures StageKnows(codec, s', s'.calls[other]) {
      if other != id { assert StageKnows(codec, s, s.calls[other]); }
    }
  }

  lemma LeaveKeepsInv(codec: Codec, history: seq<Request>, s: System, s': System, id: nat)
    requires Inv(codec, history, s) && Leave(s, s', id)
    ensures Inv(codec, history, s')
  {
    LeavingKeepsEffects(s, s', id);
    ReturnKeepsRealTime(s, s'.calls);
    StagesStillKnow(codec, s, s', id);
  }

  lemma CrashKeepsInv(codec: Codec, history: seq<Request>, s: System, s': System, id: nat)
    requires Inv(codec, history, s) && Crash(s, s', id)
    ensures Inv(codec, history, s')
  {
    LeavingKeepsEffects(s, s', id);
    ReturnKeepsRealTime(s, s'.calls);
    StagesStillKnow(codec, s, s', id);
  }

  lemma BeginKeepsInv(codec: Codec, history: seq<Request>, s: System, s': System, id: nat, r: Request)
    requires Inv(codec, history, s) && Begin(s, s', id, r)
    ensures Inv(codec, history, s')
  {
    forall other | other in s'.calls ensures AnswerKept(s', other) {
      if other != id { assert AnswerKept(s, other); }
    }
    forall i | 0 <= i < |s'.effects| ensures EffectOf(s', s'.effects[i]) { assert EffectOf(s, s.effects[i]); }
    forall other | other in s'.calls ensures StageKnows(codec, s', s'.calls[other]) {
      if other != id { assert StageKnows(codec, s, s.calls[other]); }
    }
  }

  lemma RefuseLockKeepsInv(codec: Codec, history: seq<Request>, s: System, s': System, id: nat)
    requires Inv(codec, history, s) && RefuseLock(s, s', id)
    ensures Inv(codec, history, s')
  {
    var e := Effect(id, s.calls[id].request, Failed);
    assert AnswerKept(s, id);
    EffectAppended(history, s.effects, e);
    AnswerKeepsEffects(s, s', id, Failed);
    AnswerKeepsRealTime(s, s'.calls, e);
    StagesStillKnow(codec, s, s', id);
  }

  /** Every step of every caller keeps the invariant. */
  lemma NextKeepsInv(codec: Codec, history: seq<Request>, s: System, s': System)
    requires Lawful(codec) && Inv(codec, history, s) && Next(codec, s, s')
    ensures Inv(codec, history, s')
  {
    var id, action :| Step(codec, s, s', id, action);
    match action
    case DoBegin(r) => BeginKeepsInv(codec, history, s, s', id, r);
    case DoRefuseLock => RefuseLockKeepsInv(codec, history, s, s', id);
    case DoTakeLock => TakeLockKeepsInv(codec, history, s, s', id);
    case DoLoad => LoadKeepsInv(codec, history, s, s', id);
    case DoJudge => JudgeKeepsInv(codec, history, s, s', id);
    case DoOpen => OpenKeepsInv(codec, history, s, s', id);
    case DoWrite(upTo) => WriteKeepsInv(codec, history, s, s', id, upTo);
    case DoSync => SyncKeepsInv(codec, history, s, s', id);
    case DoRename => RenameKeepsInv(codec, history, s, s', id);
    case DoCleanUp => FailureStep(codec, history, s, s', id);
    case DoLeave => LeaveKeepsInv(codec, history, s, s', id);
    case DoCrash => CrashKeepsInv(codec, history, s, s', id);
  }

  lemma {:induction false} RunKeepsInv(codec: Codec, history: seq<Request>, states: seq<System>, i: nat)
    requires Lawful(codec) && Run(codec, history, states) && i < |states|
    ensures Inv(codec, history, states[i])
  {
    if i > 0 {
      RunKeepsInv(codec, history, states, i - 1);
      NextKeepsInv(codec, history, states[i - 1], states[i]);
    }
  }

  // ---- Theorems ----

  /** `order` explains what the callers were answered: it is a sequential run of the full-history guard
      after `history`, holds each call at most once, holds every call that returned with the answer it
      returned, invents no call, and keeps the order of calls that did not overlap. */
  ghost predicate Explains(history: seq<Request>, calls: map<nat, Call>, order: seq<Effect>) {
    && SequentialRun(history, order)
    && (forall i, j :: 0 <= i < j < |order| ==> order[i].call != order[j].call)
    && (forall id :: id in calls && calls[id].stage.Returned? ==>
          Effect(id, calls[id].request, calls[id].stage.answer) in order)
    && (forall i :: 0 <= i < |order| ==> order[i].call in calls && calls[order[i].call].request == order[i].request)
    && InRealTime(calls, order)
  }

  ghost predicate Linearizable(history: seq<Request>, calls: map<nat, Call>) {
    exists order :: Explains(history, calls, order)
  }

  /** Linearizability of every run, crashes and failed system calls included. */
  lemma EveryRunLinearizable(codec: Codec, history: seq<Request>, states: seq<System>)
    requires Lawful(codec) && Run(codec, history, states)
    ensures Linearizable(history, states[|states| - 1].calls)
  {
    var s := states[|states| - 1];
    RunKeepsInv(codec, history, states, |states| - 1);
    forall id | id in s.calls && s.calls[id].stage.Returned?
      ensures Effect(id, s.calls[id].request, s.calls[id].stage.answer) in s.effects
    {
      assert AnswerKept(s, id);
    }
    forall i | 0 <= i < |s.effects|
      ensures s.effects[i].call in s.calls && s.calls[s.effects[i].call].request == s.effects[i].request
    {
      assert EffectOf(s, s.effects[i]);
    }
    assert Explains(history, s.calls, s.effects);
  }

  predicate AnsweredOk(calls: map<nat, Call>, id: nat) {
    id in calls && calls[id].stage == Returned(Admitted)
  }

  /** No request is answered Ok to two calls of one run, nor one accepted before the run began. */
  lemma AnsweredOkOnce(codec: Codec, history: seq<Request>, states: seq<System>, a: nat, b: nat)
    requires Lawful(codec) && Run(codec, history, states)
    requires AnsweredOk(states[|states| - 1].calls, a) && AnsweredOk(states[|states| - 1].calls, b)
    ensures states[|states| - 1].calls[a].request !in history
    ensures a != b ==> states[|states| - 1].calls[a].request != states[|states| - 1].calls[b].request
  {
    var calls := states[|states| - 1].calls;
    EveryRunLinearizable(codec, history, states);
    var order :| Explains(history, calls, order);
    var i :| 0 <= i < |order| && order[i] == Effect(a, calls[a].request, Admitted);
    var j :| 0 <= j < |order| && order[j] == Effect(b, calls[b].request, Admitted);
    AdmittedWasUnseen(history, order, i);
    if i < j {
      NoRequestAdmittedTwice(history, order, i, j);
    } else if j < i {
      NoRequestAdmittedTwice(history, order, j, i);
    }
  }

  /** Two callers are never between taking and freeing the lock at once, in any state of any run. */
  lemma MutualExclusion(codec: Codec, history: seq<Request>, states: seq<System>, k: nat, a: nat, b: nat)
    requires Lawful(codec) && Run(codec, history, states) && k < |states|
    requires a in states[k].calls && OwnsLock(states[k].calls[a].stage)
    requires b in states[k].calls && OwnsLock(states[k].calls[b].stage)
    ensures a == b
  {
    RunKeepsInv(codec, history, states, k);
  }

  /** At every moment the record file is absent or one whole record, and what it holds is exactly the
      summary of everything accepted by then, whatever debris crashes left beside it. */
  lemma RecordAlwaysWhole(codec: Codec, history: seq<Request>, states: seq<System>, k: nat)
    requires Lawful(codec) && Run(codec, history, states) && k < |states|
    ensures ReadRecord(codec, states[k].record).Some?
    ensures Represents(ReadRecord(codec, states[k].record).value, After(history, states[k].effects))
  {
    RunKeepsInv(codec, history, states, k);
  }

  lemma OnlyRenameWrites(codec: Codec, s: System, s': System) returns (id: nat)
    requires Next(codec, s, s') && s'.record != s.record
    ensures Rename(s, s', id) && s' == Settled(s, id, Admitted).(record := s.staging, staging := None)
  {
    var i, action :| Step(codec, s, s', i, action);
    assert action.DoRename?;
    id := i;
  }

  /** The record file changes only at the moment a call is admitted, and then only its agent's entry. */
  lemma OnlyAdmissionWrites(codec: Codec, history: seq<Request>, states: seq<System>, k: nat) returns (id: nat)
    requires Lawful(codec) && Run(codec, history, states) && k + 1 < |states|
    requires states[k + 1].record != states[k].record
    ensures AdmitsAlone(codec, states[k], states[k + 1], id)
  {
    RunKeepsInv(codec, history, states, k);
    assert Next(codec, states[k], states[k + 1]);
    id := OnlyRenameWrites(codec, states[k], states[k + 1]);
    assert StageKnows(codec, states[k], states[k].calls[id]);
  }

  ghost predicate AdmitsAlone(codec: Codec, s: System, s': System, id: nat) {
    && id in s.calls && s'.effects == s.effects + [Effect(id, s.calls[id].request, Admitted)]
    && ReadRecord(codec, s.record).Some? && ReadRecord(codec, s'.record).Some?
    && forall agent :: agent != s.calls[id].request.agent ==>
         EntryOf(ReadRecord(codec, s'.record).value, agent) == EntryOf(ReadRecord(codec, s.record).value, agent)
  }

  lemma StepOnlyAdds(codec: Codec, s: System, s': System)
    requires Next(codec, s, s')
    ensures s.effects <= s'.effects
  {
    var id, action :| Step(codec, s, s', id, action);
  }

  lemma {:induction false} EffectsOnlyGrow(codec: Codec, history: seq<Request>, states: seq<System>, j: nat, k: nat)
    requires Run(codec, history, states) && j <= k < |states|
    ensures states[j].effects <= states[k].effects
    decreases k - j
  {
    if j < k {
      EffectsOnlyGrow(codec, history, states, j, k - 1);
      StepOnlyAdds(codec, states[k - 1], states[k]);
    }
  }

  /** No agent's newest accepted timestamp ever goes back, across crashes and failures. */
  lemma RecordNeverGoesBack(codec: Codec, history: seq<Request>, states: seq<System>, j: nat, k: nat, agent: string)
    requires Lawful(codec) && Run(codec, history, states) && j <= k < |states|
    ensures ReadRecord(codec, states[j].record).Some? && ReadRecord(codec, states[k].record).Some?
    ensures EntryOf(ReadRecord(codec, states[j].record).value, agent).timestamp
              <= EntryOf(ReadRecord(codec, states[k].record).value, agent).timestamp
  {
    RecordAlwaysWhole(codec, history, states, j);
    RecordAlwaysWhole(codec, history, states, k);
    EffectsOnlyGrow(codec, history, states, j, k);
    var n := |states[j].effects|;
    assert states[k].effects[..n] == states[j].effects;
    AfterGrows(history, states[k].effects, n);
    var early, late := After(history, states[j].effects), After(history, states[k].effects);
    var entry := EntryOf(ReadRecord(codec, states[j].record).value, agent);
    assert Summarises(entry, early, agent);
    assert Summarises(EntryOf(ReadRecord(codec, states[k].record).value, agent), late, agent);
    if 0 < entry.timestamp {
      var e :| e in early && e.agent == agent && e.timestamp == entry.timestamp;
      assert e in late;
    }
  }

  /** A run goes on. */
  lemma Extended(codec: Codec, history: seq<Request>, states: seq<System>, s': System)
    requires Run(codec, history, states) && Next(codec, states[|states| - 1], s')
    ensures Run(codec, history, states + [s'])
  {
    var longer := states + [s'];
    forall i | 0 < i < |longer| ensures Next(codec, longer[i - 1], longer[i]) {
      if i < |states| { assert Next(codec, states[i - 1], states[i]); }
    }
  }

  /** Nothing that crashed or failed earlier blocks the guard: when the lock is free, a waiting call that
      meets no fault and no interference can be answered, Ok exactly when its request is unseen. */
  lemma UndisturbedCallIsAnswered(codec: Codec, history: seq<Request>, states: seq<System>, id: nat)
      returns (more: seq<System>)
    requires Lawful(codec) && Run(codec, history, states)
    requires At(states[|states| - 1], id, Waiting) && states[|states| - 1].lock == None
    ensures states <= more && Run(codec, history, more)
    ensures id in more[|more| - 1].calls && more[|more| - 1].calls[id].stage.Returned?
    ensures AnsweredOk(more[|more| - 1].calls, id)
            <==> Unseen(After(history, states[|states| - 1].effects), states[|states| - 1].calls[id].request)
  {
    var s0 := states[|states| - 1];
    RunKeepsInv(codec, history, states, |states| - 1);
    var record := ReadRecord(codec, s0.record).value;
    DecideRefinesHistory(record, After(history, s0.effects), s0.calls[id].request);
    var loaded := LoadUp(codec, history, states, id);
    more := JudgeAndWrite(codec, history, loaded, id);
  }

  /** A directory nobody has used: no record file, no calls, the lock free, and any debris beside it. */
  ghost predicate Unused(s: System) {
    s.calls == map[] && s.lock == None && s.record == None && s.effects == []
  }

  lemma UnusedIsInitial(codec: Codec, s: System)
    requires Unused(s)
    ensures Init(codec, [], s) && Run(codec, [], [s])
  {
    NothingAcceptedYet(Request("", 0, ""));
  }

  /** The first request ever: from an unused directory a call nobody disturbs is answered, Ok exactly when it
      is not signed before the epoch. */
  lemma FirstRequestEver(codec: Codec, s: System, id: nat, r: Request) returns (states: seq<System>)
    requires Lawful(codec) && Unused(s)
    ensures Run(codec, [], states) && states[0] == s
    ensures id in states[|states| - 1].calls && states[|states| - 1].calls[id].stage.Returned?
    ensures 1 < |states| && Begin(s, states[1], id, r)
    ensures AnsweredOk(states[|states| - 1].calls, id) <==> 0 <= r.timestamp
  {
    UnusedIsInitial(codec, s);
    var begun := s.(calls := s.calls[id := Call(r, Waiting, s.now, None)], now := s.now + 1);
    assert Step(codec, s, begun, id, DoBegin(r));
    Extended(codec, [], [s], begun);
    assert After([], []) == [];
    NothingAcceptedYet(r);
    states := UndisturbedCallIsAnswered(codec, [], [s] + [begun], id);
    assert states[1] == ([s] + [begun])[1];
  }

  /** A caller can die anywhere between its call and its return: its lock is freed, and the files, the other
      callers and the effects stay as they are. */
  lemma CanDieAnywhere(codec: Codec, s: System, id: nat) returns (s': System)
    requires id in s.calls && !s.calls[id].stage.Returned? && !s.calls[id].stage.Dead?
    ensures Next(codec, s, s') && At(s', id, Dead) && s'.lock != Some(id)
    ensures s.lock != Some(id) ==> s'.lock == s.lock
    ensures s'.record == s.record && s'.staging == s.staging && s'.effects == s.effects
    ensures SameButFor(s.calls, s'.calls, id)
  {
    s' := Moved(s, id, Dead).(lock := if s.lock == Some(id) then None else s.lock);
    assert Step(codec, s, s', id, DoCrash);
  }

  lemma LoadUp(codec: Codec, history: seq<Request>, states: seq<System>, id: nat) returns (more: seq<System>)
    requires Run(codec, history, states)
    requires At(states[|states| - 1], id, Waiting) && states[|states| - 1].lock == None
    requires ReadRecord(codec, states[|states| - 1].record).Some?
    ensures states <= more && Run(codec, history, more)
    ensures At(more[|more| - 1], id, Loaded(ReadRecord(codec, states[|states| - 1].record).value))
    ensures more[|more| - 1].calls[id].request == states[|states| - 1].calls[id].request
  {
    var s0 := states[|states| - 1];
    var s1 := Moved(s0, id, Holding).(lock := Some(id));
    assert Step(codec, s0, s1, id, DoTakeLock);
    Extended(codec, history, states, s1);
    var s2 := Moved(s1, id, Loaded(ReadRecord(codec, s0.record).value));
    assert Step(codec, s1, s2, id, DoLoad);
    Extended(codec, history, states + [s1], s2);
    more := states + [s1] + [s2];
  }

  lemma JudgeAndWrite(codec: Codec, history: seq<Request>, states: seq<System>, id: nat) returns (more: seq<System>)
    requires Run(codec, history, states)
    requires id in states[|states| - 1].calls && states[|states| - 1].calls[id].stage.Loaded?
    ensures states <= more && Run(codec, history, more)
    ensures id in more[|more| - 1].calls && more[|more| - 1].calls[id].stage.Returned?
    ensures AnsweredOk(more[|more| - 1].calls, id) <==>
              Decide(states[|states| - 1].calls[id].stage.record, states[|states| - 1].calls[id].request).Fresh?
  {
    var s2 := states[|states| - 1];
    match Decide(s2.calls[id].stage.record, s2.calls[id].request)
    case Replayed(newest) =>
      more := LeaveWith(codec, history, states, Settled(s2, id, Refused(newest)), id, DoJudge);
    case Fresh(next) =>
      var s3 := Moved(s2, id, Opening(next));
      assert Step(codec, s2, s3, id, DoJudge);
      Extended(codec, history, states, s3);
      more := WriteOut(codec, history, states + [s3], id);
  }

  lemma WriteOut(codec: Codec, history: seq<Request>, states: seq<System>, id: nat) returns (more: seq<System>)
    requires Run(codec, history, states)
    requires id in states[|states| - 1].calls && states[|states| - 1].calls[id].stage.Opening?
    ensures states <= more && Run(codec, history, more)
    ensures At(more[|more| - 1], id, Returned(Admitted))
  {
    var s3 := states[|states| - 1];
    var next := s3.calls[id].stage.next;
    var bytes := codec.encode(next);
    var s4 := Moved(s3, id, Writing(next, 0)).(staging := Some([]));
    assert Step(codec, s3, s4, id, DoOpen);
    Extended(codec, history, states, s4);
    var s5 := Moved(s4.(staging := Some([] + bytes[0..|bytes|])), id, Writing(next, |bytes|));
    assert Step(codec, s4, s5, id, DoWrite(|bytes|));
    Extended(codec, history, states + [s4], s5);
    var s6 := Moved(s5, id, Synced(next));
    assert Step(codec, s5, s6, id, DoSync);
    Extended(codec, history, states + [s4] + [s5], s6);
    var s7 := Settled(s6, id, Admitted).(record := s6.staging, staging := None);
    more := LeaveWith(codec, history, states + [s4] + [s5] + [s6], s7, id, DoRename);
  }

  lemma LeaveWith(codec: Codec, history: seq<Request>, states: seq<System>, s: System, id: nat, action: Action)
      returns (more: seq<System>)
    requires Run(codec, history, states) && Step(codec, states[|states| - 1], s, id, action)
    requires id in s.calls && s.calls[id].stage.Leaving?
    ensures states <= more && Run(codec, history, more)
    ensures At(more[|more| - 1], id, Returned(s.calls[id].stage.answer))
  {
    Extended(codec, history, states, s);
    var left := s.(calls := s.calls[id := Gone(s, id, s.calls[id].stage.answer)],
                   lock := None, now := s.now + 1);
    assert Step(codec, s, left, id, DoLeave);
    Extended(codec, history, states + [s], left);
    more := states + [s] + [left];
  }
}
