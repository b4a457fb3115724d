/** When the gateway drives another browser sign-in: a failed attempt stands in the way of its repetition,
    for good when the refusal was final and for the cooldown otherwise. Nothing else waits.
  */
module SignInGate {
  import opened Common
  import Decimal
  import opened Json
  import opened Pieces
  import opened Storable
  import opened Journal
  import opened Membership
  import opened Subscriptions
  import opened Cooldown

  /** The declared cooldown: none, a length, or a declaration that is refused. */
  datatype Pace = Unset | Declared(ms: nat) | Unreadable

  /** An attempt runs, or the recorded verdict is handed back in its place, or the journal is refused. */
  datatype Gate = Runs | Replays(previous: Value) | Refuses

  /** A member of the record's `failure` object. */
  function Failure(record: Value, key: string): Option<Value> {
    match Get(record, "failure")
    case Some(failure) => Get(failure, key)
    case None => None
  }

  predicate EffectUnknown(code: string) {
    || code == "weles_unreachable" || code == "weles_execution_unconfirmed"
    || code == "authentication_response_invalid" || code == "run_cancelled"
  }

  predicate CredentialRejected(code: string) {
    || code == "provider_challenge_refused" || code == "GOOGLE_PASSWORD_REJECTED"
    || code == "oauth_identity_mismatch"
  }

  function Code(record: Value): Option<string> {
    match Failure(record, "code")
    case Some(Str(code)) => Some(code)
    case _ => None
  }

  /** `stops_a_new_attempt`. */
  predicate Stops(previous: Value, sameAccount: bool, sameExecutor: bool, coolingDown: bool) {
    var failed := Field(previous, "result") == Some("failed");
    var rejected :=
      Failure(previous, "browser_started") != Some(Bool(false)) && Failure(previous, "retryable") == Some(Bool(false));
    var credentialRejected := Code(previous).Some? && CredentialRejected(Code(previous).value);
    var unknownEffect := Code(previous).Some? && EffectUnknown(Code(previous).value);
    && sameAccount && failed && !unknownEffect
    && ((rejected && (credentialRejected || sameExecutor)) || (coolingDown && sameExecutor))
  }

  /** `unchanged_failed_attempt`: the newest sign-in is read from `file`, and the cooldown from the journal
      as it is a moment `later`. */
  function AskGate(
      parse: string -> Option<Value>, file: File, later: File, id: string, account: string, executor: string,
      pace: Pace, now: I64): Gate
  {
    match ReadAll(parse, file)
    case None => Refuses
    case Some(records) =>
      match LatestSignIn(records, id)
      case None => Runs
      case Some(previous) =>
        var coolingDown :=
          match pace
          case Unset => Some(false)
          case Unreadable => Some(true)
          case Declared(ms) =>
            match Due(parse, later, id, now, ms)
            case Some(due) => Some(!due)
            case None => None;
        if coolingDown.None? then Refuses
        else if Stops(previous, Field(previous, "account_revision") == Some(account),
                      Field(previous, "source_revision") == Some(executor), coolingDown.value) then Replays(previous)
        else Runs
  }

  // ---- What a recorded attempt says ----

  /** The failure codes that say nothing about what the provider did. */
  const UNKNOWN_EFFECTS := {
    "weles_unreachable", "weles_execution_unconfirmed", "authentication_response_invalid", "run_cancelled"}

  /** The failure codes with which the provider refused the credential itself. */
  const REJECTIONS := {"provider_challenge_refused", "GOOGLE_PASSWORD_REJECTED", "oauth_identity_mismatch"}

  /** The record's failure has one of the codes. */
  predicate FailedWith(record: Value, codes: set<string>) {
    match Get(record, "failure")
    case Some(failure) => Field(failure, "code").Some? && Field(failure, "code").value in codes
    case None => false
  }

  /** The provider is known to have refused this account. */
  predicate KnownFailure(record: Value, account: string) {
    && Field(record, "account_revision") == Some(account) && Field(record, "result") == Some("failed")
    && !FailedWith(record, UNKNOWN_EFFECTS)
  }

  /** The refusal was final, of the credential itself or as far as this executor goes. */
  predicate FinalRefusal(record: Value, executor: string) {
    && Failure(record, "browser_started") != Some(Bool(false)) && Failure(record, "retryable") == Some(Bool(false))
    && (FailedWith(record, REJECTIONS) || Field(record, "source_revision") == Some(executor))
  }

  lemma CodesAgree(record: Value)
    ensures FailedWith(record, UNKNOWN_EFFECTS) <==> Code(record).Some? && EffectUnknown(Code(record).value)
    ensures FailedWith(record, REJECTIONS) <==> Code(record).Some? && CredentialRejected(Code(record).value)
  {
  }

  /** A declared cooldown that cannot be compared with the record stops the attempt with an error. */
  predicate Comparable(record: Value, pace: Pace) {
    pace.Declared? ==> AtMs(record).Some? && pace.ms <= I64_MAX
  }

  /** The two newest sign-ins the gate reads stand in no way of an attempt: what failed is judged from the
      first, `previous`, and whether the cooldown is over from the second, `newest`. */
  predicate MayRun(previous: Value, newest: Value, account: string, executor: string, pace: Pace, now: int) {
    && Comparable(newest, pace)
    && (KnownFailure(previous, account) ==>
          && !FinalRefusal(previous, executor)
          && (Field(previous, "source_revision") == Some(executor) ==>
                pace.Unset? || (pace.Declared? && Rested(newest, now, pace.ms))))
  }

  /** Exactly when an attempt runs: the journal reads back, and its newest sign-in of the subscription, if
      there is one, stands in no way of it. The cooldown is read again, from a journal that may have grown by
      any appends since, sign-ins of the subscription included. */
  lemma GateExactly(
      parse: string -> Option<Value>, seen: seq<Append>, grown: seq<Append>, id: string, account: string,
      executor: string, pace: Pace, now: I64)
    requires seen <= grown && Reads(parse, grown) && AllPossible(grown)
    ensures AskGate(parse, Written(seen), Written(grown), id, account, executor, pace, now) == Runs <==>
              && Clean(seen)
              && forall k: nat, l: nat :: NewestSignIn(seen, k, id) && NewestSignIn(grown, l, id) ==>
                   && (pace.Declared? ==> Clean(grown))
                   && MayRun(seen[k].record, grown[l].record, account, executor, pace, now)
  {
    var newest := LatestIsNewest(seen, id);
    if newest.None? || !Clean(seen) {
      WithoutNewest(parse, seen, grown, id, account, executor, pace, now);
    } else {
      var i := newest.value;
      var l := NewestLater(seen, grown, id, i);
      NewestDecide(parse, seen, grown, id, account, executor, pace, now, i, l);
      OneNewest(seen, id, i);
      OneNewest(grown, id, l);
    }
  }

  /** Exactly when the gate refuses to answer: the journal does not read back, or a declared cooldown cannot be
      compared with the newest sign-in of the second read; and what it hands back in place of an attempt, when
      it neither refuses nor lets it run, is the newest sign-in of the first read. */
  lemma GateAnswersExactly(
      parse: string -> Option<Value>, seen: seq<Append>, grown: seq<Append>, id: string, account: string,
      executor: string, pace: Pace, now: I64)
    requires seen <= grown && Reads(parse, grown) && AllPossible(grown)
    ensures AskGate(parse, Written(seen), Written(grown), id, account, executor, pace, now) == Refuses <==>
              || !Clean(seen)
              || exists k: nat, l: nat ::
                   && NewestSignIn(seen, k, id) && NewestSignIn(grown, l, id)
                   && pace.Declared? && !(Clean(grown) && Comparable(grown[l].record, pace))
    ensures var answer := AskGate(parse, Written(seen), Written(grown), id, account, executor, pace, now);
            answer.Replays? ==> exists k: nat :: NewestSignIn(seen, k, id) && answer.previous == seen[k].record
  {
    var newest := LatestIsNewest(seen, id);
    if newest.None? || !Clean(seen) {
      WithoutNewest(parse, seen, grown, id, account, executor, pace, now);
    } else {
      var i := newest.value;
      var l := NewestLater(seen, grown, id, i);
      NewestAnswers(parse, seen, grown, id, account, executor, pace, now, i, l);
      OneNewest(seen, id, i);
      OneNewest(grown, id, l);
    }
  }

  /** With no sign-in to ask about, or a journal that does not read back. */
  lemma WithoutNewest(
      parse: string -> Option<Value>, seen: seq<Append>, grown: seq<Append>, id: string, account: string,
      executor: string, pace: Pace, now: I64)
    requires Reads(parse, seen) && AllPossible(seen) && AllPossible(grown)
    requires !Clean(seen) || forall k: nat :: !SignInAt(seen, k, id)
    ensures AskGate(parse, Written(seen), Written(grown), id, account, executor, pace, now) ==
              if Clean(seen) then Runs else Refuses
  {
    TornAppendsNeverMisread(parse, seen);
    var newest := LatestIsNewest(seen, id);
  }

  lemma NewestDecide(
      parse: string -> Option<Value>, seen: seq<Append>, grown: seq<Append>, id: string, account: string,
      executor: string, pace: Pace, now: I64, i: nat, l: nat)
    requires Reads(parse, seen) && AllPossible(seen) && Reads(parse, grown) && AllPossible(grown)
    requires Clean(seen) && NewestSignIn(seen, i, id) && NewestSignIn(grown, l, id)
    ensures AskGate(parse, Written(seen), Written(grown), id, account, executor, pace, now) == Runs <==>
              && (pace.Declared? ==> Clean(grown))
              && MayRun(seen[i].record, grown[l].record, account, executor, pace, now)
  {
    TornAppendsNeverMisread(parse, seen);
    var newest := LatestIsNewest(seen, id);
    OneNewest(seen, id, i);
    assert SignInAt(seen, i, id);
    if pace.Declared? { DueIs(parse, grown, id, pace.ms, now, l); }
    AskedAbout(seen[i].record, grown[l].record, parse, Written(seen), Written(grown), Clean(grown), id, account,
               executor, pace, now);
  }

  lemma NewestAnswers(
      parse: string -> Option<Value>, seen: seq<Append>, grown: seq<Append>, id: string, account: string,
      executor: string, pace: Pace, now: I64, i: nat, l: nat)
    requires Reads(parse, seen) && AllPossible(seen) && Reads(parse, grown) && AllPossible(grown)
    requires Clean(seen) && NewestSignIn(seen, i, id) && NewestSignIn(grown, l, id)
    ensures AskGate(parse, Written(seen), Written(grown), id, account, executor, pace, now) == Refuses <==>
              pace.Declared? && !(Clean(grown) && Comparable(grown[l].record, pace))
    ensures AskGate(parse, Written(seen), Written(grown), id, account, executor, pace, now).Replays? ==>
              AskGate(parse, Written(seen), Written(grown), id, account, executor, pace, now).previous == seen[i].record
  {
    TornAppendsNeverMisread(parse, seen);
    var newest := LatestIsNewest(seen, id);
    OneNewest(seen, id, i);
    assert SignInAt(seen, i, id);
    if pace.Declared? { DueIs(parse, grown, id, pace.ms, now, l); }
    AskedAbout(seen[i].record, grown[l].record, parse, Written(seen), Written(grown), Clean(grown), id, account,
               executor, pace, now);
  }

  /** The gate's answer once the newest sign-in of each read is known. */
  lemma AskedAbout(
      previous: Value, newest: Value, parse: string -> Option<Value>, file: File, later: File, laterReads: bool,
      id: string, account: string, executor: string, pace: Pace, now: I64)
    requires ReadAll(parse, file).Some? && LatestSignIn(ReadAll(parse, file).value, id) == Some(previous)
    requires pace.Declared? ==>
               Due(parse, later, id, now, pace.ms) ==
                 if laterReads && Comparable(newest, pace) then Some(Rested(newest, now, pace.ms)) else None
    ensures AskGate(parse, file, later, id, account, executor, pace, now) == Runs <==>
              && (pace.Declared? ==> laterReads)
              && MayRun(previous, newest, account, executor, pace, now)
    ensures AskGate(parse, file, later, id, account, executor, pace, now) == Refuses <==>
              pace.Declared? && !(laterReads && Comparable(newest, pace))
    ensures AskGate(parse, file, later, id, account, executor, pace, now).Replays? ==>
              AskGate(parse, file, later, id, account, executor, pace, now).previous == previous
  {
    CodesAgree(previous);
  }

  lemma OneNewest(log: seq<Append>, id: string, i: nat)
    requires NewestSignIn(log, i, id)
    ensures forall k: nat :: NewestSignIn(log, k, id) ==> k == i
  {
  }

  /** A journal that has grown still has a newest sign-in. */
  lemma NewestLater(seen: seq<Append>, grown: seq<Append>, id: string, i: nat) returns (l: nat)
    requires seen <= grown && NewestSignIn(seen, i, id)
    ensures NewestSignIn(grown, l, id) && i <= l
    ensures (forall k: nat :: |seen| <= k < |grown| ==> !SignInAt(grown, k, id)) ==> l == i
  {
    assert SignInAt(grown, i, id);
    var newest := LatestIsNewest(grown, id);
    l := newest.value;
    if i < l < |seen| { assert SignInAt(seen, l, id); }
  }

  /** What the guard of the cooldown answers, from the newest sign-in of the journal it reads. */
  lemma DueIs(parse: string -> Option<Value>, log: seq<Append>, id: string, ms: nat, now: I64, l: nat)
    requires Reads(parse, log) && AllPossible(log) && NewestSignIn(log, l, id)
    ensures Due(parse, Written(log), id, now, ms) ==
              if Clean(log) && Comparable(log[l].record, Declared(ms)) then Some(Rested(log[l].record, now, ms))
              else None
  {
    TornAppendsNeverMisread(parse, log);
    var newest := LatestIsNewest(log, id);
    assert SignInAt(log, l, id);
    if AtMs(log[l].record).Some? && ms <= I64_MAX {
      SaturationIsExact(now, AtMs(log[l].record).value, ms);
    }
  }

  /** When no sign-in is recorded between the two reads, one record decides. */
  lemma GateUnraced(
      parse: string -> Option<Value>, seen: seq<Append>, grown: seq<Append>, id: string, account: string,
      executor: string, pace: Pace, now: I64)
    requires seen <= grown && Reads(parse, grown) && AllPossible(grown)
    requires forall k: nat :: |seen| <= k < |grown| ==> !SignInAt(grown, k, id)
    ensures AskGate(parse, Written(seen), Written(grown), id, account, executor, pace, now) == Runs <==>
              && Clean(seen)
              && forall k: nat :: NewestSignIn(seen, k, id) ==>
                   && (pace.Declared? ==> Clean(grown))
                   && MayRun(seen[k].record, seen[k].record, account, executor, pace, now)
  {
    GateExactly(parse, seen, grown, id, account, executor, pace, now);
    var newest := LatestIsNewest(seen, id);
    if newest.Some? {
      var l := NewestLater(seen, grown, id, newest.value);
      OneNewest(seen, id, newest.value);
      OneNewest(grown, id, l);
    }
  }

  // ---- Verdicts as they are journaled ----

  /** The fields of a verdict that the gate looks at. */
  function Verdict(id: string, account: string, executor: string, result: string, failure: Value, at: I64): Value {
    SignInRecord(Outcome(id, account, executor, result, failure), "", at)
  }

  function SignedIn(id: string, account: string, executor: string, at: I64): Value {
    Verdict(id, account, executor, "signed_in", Null, at)
  }

  /** A refusal by the provider, final unless it may be retried. */
  function Refusal(id: string, account: string, executor: string, retryable: bool, at: I64): Value {
    Verdict(id, account, executor, "failed", Object([Member("retryable", Bool(retryable))]), at)
  }

  function Outcome(id: string, account: string, executor: string, result: string, failure: Value): seq<Member> {
    [Member("account_revision", Str(account)), Member("failure", failure), Member("result", Str(result)),
     Member("source_revision", Str(executor)), Member("subscription_id", Str(id))]
  }

  lemma VerdictIsSlot(id: string, account: string, executor: string, result: string, failure: Value, at: I64)
    requires Kept(failure, NESTING - 1)
    ensures Slot(Verdict(id, account, executor, result, failure, at), true, id, at)
  {
    var outcome := Outcome(id, account, executor, result, failure);
    OutcomeFields(outcome);
    OutcomeIsKept(id, account, executor, result, failure);
    SignInRecordReadsBack(outcome, "", at, id);
    SignInRecordIsStorable(outcome, "", at);
  }

  lemma OutcomeIsKept(id: string, account: string, executor: string, result: string, failure: Value)
    requires Kept(failure, NESTING - 1)
    ensures RecordMembers(Outcome(id, account, executor, result, failure))
  {
    NamesOfVerdict(Outcome(id, account, executor, result, failure));
  }

  lemma VerdictFields(id: string, account: string, executor: string, result: string, failure: Value, at: I64)
    ensures var r := Verdict(id, account, executor, result, failure, at);
            && Field(r, "result") == Some(result) && Get(r, "failure") == Some(failure)
            && Field(r, "account_revision") == Some(account) && Field(r, "source_revision") == Some(executor)
  {
    var outcome := Outcome(id, account, executor, result, failure);
    OutcomeFields(outcome);
    KeepsOtherField(outcome, "", at, "result");
    KeepsOtherField(outcome, "", at, "failure");
    KeepsOtherField(outcome, "", at, "account_revision");
    KeepsOtherField(outcome, "", at, "source_revision");
  }

  /** The names of a verdict's fields, in order. */
  predicate Named(outcome: seq<Member>) {
    && |outcome| == 5 && outcome[0].key == "account_revision" && outcome[1].key == "failure"
    && outcome[2].key == "result" && outcome[3].key == "source_revision" && outcome[4].key == "subscription_id"
  }

  lemma OutcomeFields(outcome: seq<Member>)
    requires Named(outcome)
    ensures GetMember(outcome, "account_revision") == Some(outcome[0].value)
    ensures GetMember(outcome, "failure") == Some(outcome[1].value)
    ensures GetMember(outcome, "result") == Some(outcome[2].value)
    ensures GetMember(outcome, "source_revision") == Some(outcome[3].value)
    ensures GetMember(outcome, "subscription_id") == Some(outcome[4].value)
  {
    Looked(outcome, 0);
    Looked(outcome, 1);
    Looked(outcome, 2);
    Looked(outcome, 3);
    Looked(outcome, 4);
  }

  /** A name met for the first time is the one looked up. */
  lemma {:induction false} Looked(members: seq<Member>, i: nat)
    requires i < |members| && forall j :: 0 <= j < i ==> members[j].key != members[i].key
    ensures GetMember(members, members[i].key) == Some(members[i].value)
  {
    if i > 0 { Looked(members[1..], i - 1); }
  }

  lemma NamesOfVerdict(outcome: seq<Member>)
    requires Named(outcome)
    ensures NamesInOrder(outcome)
  {
    var a, b := "source_revision", "subscription_id";
    assert a[0] == b[0] && a[1..][0] == 'o' && b[1..][0] == 'u';
    assert Before(a[1..], b[1..]);
    assert Before(a, b);
    assert NamesInOrder(outcome[4..]) && outcome[3..][1..] == outcome[4..];
    assert NamesInOrder(outcome[3..]) && outcome[2..][1..] == outcome[3..];
    assert NamesInOrder(outcome[2..]) && outcome[1..][1..] == outcome[2..];
    assert NamesInOrder(outcome[1..]);
  }

  lemma SuccessRead(id: string, account: string, executor: string, at: I64)
    ensures var r := SignedIn(id, account, executor, at); Slot(r, true, id, at) && !KnownFailure(r, account)
  {
    VerdictIsSlot(id, account, executor, "signed_in", Null, at);
    VerdictFields(id, account, executor, "signed_in", Null, at);
  }

  lemma RefusalRead(id: string, account: string, executor: string, retryable: bool, at: I64)
    ensures var r := Refusal(id, account, executor, retryable, at);
            Slot(r, true, id, at) && Failed(r, account, executor) && (FinalRefusal(r, executor) <==> !retryable)
  {
    var failure := Object([Member("retryable", Bool(retryable))]);
    VerdictIsSlot(id, account, executor, "failed", failure, at);
    VerdictFields(id, account, executor, "failed", failure, at);
    assert Field(failure, "code") == None by { OneField("retryable", Bool(retryable), "code"); }
    OneField("retryable", Bool(retryable), "retryable");
    OneField("retryable", Bool(retryable), "code");
    OneField("retryable", Bool(retryable), "browser_started");
  }

  lemma OneField(name: string, value: Value, key: string)
    ensures Get(Object([Member(name, value)]), key) == if name == key then Some(value) else None
  {
    GetSkips(Member(name, value), [], key);
    assert [Member(name, value)] + [] == [Member(name, value)];
  }

  /** A known refusal of this account by this executor. */
  predicate Failed(record: Value, account: string, executor: string) {
    KnownFailure(record, account) && Field(record, "source_revision") == Some(executor)
  }

  // ---- What the cooldown does not hold back ----

  /** After a success the next attempt runs at once, though the guard of the cooldown says no: only a failed
      attempt is asked about. */
  lemma SuccessIsNotCooled(
      parse: string -> Option<Value>, id: string, account: string, executor: string, at: I64, ms: nat)
    requires KeepsRecords(parse) && 0 < ms <= I64_MAX
    ensures var log := WholeLog([SignedIn(id, account, executor, at)]);
            && AllPossible(log) && SignInAt(log, 0, id)
            && Due(parse, Written(log), id, at, ms) == Some(false)
            && AskGate(parse, Written(log), Written(log), id, account, executor, Declared(ms), at) == Runs
  {
    var r := SignedIn(id, account, executor, at);
    SuccessRead(id, account, executor, at);
    WholeLogReads(parse, [r]);
    var log := WholeLog([r]);
    assert log[..1] == log;
    LoneSuccess(parse, log, r, id, account, executor, at, ms);
  }

  /** A journal whose one record is a success. */
  lemma LoneSuccess(
      parse: string -> Option<Value>, log: seq<Append>, r: Value, id: string, account: string, executor: string,
      at: I64, ms: nat)
    requires |log| == 1 && log[0] == WholeAppend(r) && Clean(log) && Reads(parse, log) && AllPossible(log)
    requires IsSignIn(r, id) && AtMs(r) == Some(at) && !KnownFailure(r, account) && 0 < ms <= I64_MAX
    ensures SignInAt(log, 0, id) && Due(parse, Written(log), id, at, ms) == Some(false)
    ensures AskGate(parse, Written(log), Written(log), id, account, executor, Declared(ms), at) == Runs
  {
    assert NewestSignIn(log, 0, id);
    OneNewest(log, id, 0);
    DueIs(parse, log, id, ms, at, 0);
    NewestDecide(parse, log, log, id, account, executor, Declared(ms), at, 0, 0);
  }
}
