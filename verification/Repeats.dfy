/** Exactly which schedules of attempts keep the repetitions of a refused sign-in a cooldown apart and never
    repeat a final refusal.
  */
module Repeats {
  import opened Common
  import opened Json
  import opened Storable
  import opened Journal
  import opened Membership
  import opened Subscriptions
  import opened Cooldown
  import opened SignInGate

  /** How attempts and records of one subscription interleave: the journal's length, the places that record a
      sign-in, and for those recorded by an attempt the gate let run, how many appends each of its two reads
      saw. A sign-in that no attempt made asked no gate. */
  datatype Plan = Plan(length: nat, signIns: set<nat>, first: map<nat, nat>, second: map<nat, nat>)

  predicate Planned(plan: Plan) {
    && (forall k :: k in plan.signIns ==> k < plan.length)
    && plan.first.Keys == plan.second.Keys <= plan.signIns
    && forall k :: k in plan.first ==> plan.first[k] <= plan.second[k] <= k
  }

  /** Who is signed in, by what, under which cooldown: the same for every attempt. */
  datatype Terms = Terms(id: string, account: string, executor: string, pace: Pace)

  /** A journal, whole or torn, that follows the plan, with every attempt let run by the gate. */
  ghost predicate Ran(parse: string -> Option<Value>, log: seq<Append>, asked: map<nat, I64>, plan: Plan, t: Terms)
    requires Planned(plan)
  {
    && |log| == plan.length && AllPossible(log) && Reads(parse, log) && asked.Keys == plan.first.Keys
    && (forall k: nat :: k < |log| ==> (SignInAt(log, k, t.id) <==> k in plan.signIns))
    && forall k {:trigger LetRun(parse, log, plan.first[k], plan.second[k], asked[k], t)} ::
         k in plan.first ==> LetRun(parse, log, plan.first[k], plan.second[k], asked[k], t)
  }

  ghost predicate LetRun(
      parse: string -> Option<Value>, log: seq<Append>, first: nat, second: nat, now: I64, t: Terms)
    requires AllPossible(log) && first <= second <= |log|
  {
    AskGate(parse, Written(log[..first]), Written(log[..second]), t.id, t.account, t.executor, t.pace, now) == Runs
  }

  /** The newest of the sign-ins recorded before place `k` is at `i`. */
  predicate NewestIn(signIns: set<nat>, i: nat, k: nat) {
    i in signIns && i < k && forall j :: i < j < k ==> j !in signIns
  }

  /** The attempt recorded at `k` follows the sign-in recorded at `i`. */
  predicate Succeeds(plan: Plan, i: nat, k: nat) { k in plan.first && NewestIn(plan.signIns, i, k) }

  /** From the sign-in at `i` to the attempt at `j` a known failure of the account by the executor is only
      repeated. */
  predicate Streak(log: seq<Append>, plan: Plan, t: Terms, i: nat, j: nat)
    requires Planned(plan) && |log| == plan.length
  {
    && i in plan.signIns && j in plan.first && i < j
    && (forall k :: k in plan.signIns && i <= k < j ==> Failed(log[k].record, t.account, t.executor))
    && (forall k :: k in plan.signIns && i < k <= j ==> k in plan.first)
  }

  /** Repetitions of a known failure are at least `ms` apart. */
  ghost predicate RepeatsApart(log: seq<Append>, plan: Plan, t: Terms, ms: nat)
    requires Planned(plan) && |log| == plan.length
  {
    forall i: nat, j: nat :: Streak(log, plan, t, i, j) ==> FarApart(log, i, j, ms)
  }

  /** No attempt follows a final refusal of the account. */
  ghost predicate NoFinalRepeated(log: seq<Append>, plan: Plan, t: Terms)
    requires Planned(plan) && |log| == plan.length
  {
    forall i: nat, k: nat :: Succeeds(plan, i, k) ==>
      !(KnownFailure(log[i].record, t.account) && FinalRefusal(log[i].record, t.executor))
  }

  // ---- Without overlap both hold ----

  lemma PrefixReads(parse: string -> Option<Value>, log: seq<Append>, m: nat)
    requires AllPossible(log) && Reads(parse, log) && m <= |log|
    ensures AllPossible(log[..m]) && Reads(parse, log[..m])
  {
  }

  /** Where the sign-ins are, seen from a prefix of the journal. */
  lemma PrefixNewest(log: seq<Append>, signIns: set<nat>, id: string, m: nat, i: nat)
    requires m <= |log| && forall k: nat :: k < |log| ==> (SignInAt(log, k, id) <==> k in signIns)
    ensures NewestSignIn(log[..m], i, id) <==> NewestIn(signIns, i, m)
  {
    assert forall k: nat :: k < m ==> (SignInAt(log[..m], k, id) <==> SignInAt(log, k, id));
  }

  /** A gate that let an attempt run was asked about the newest sign-in of both reads. */
  lemma RanAbout(
      parse: string -> Option<Value>, log: seq<Append>, first: nat, second: nat, t: Terms, now: I64, i: nat)
    requires Reads(parse, log) && AllPossible(log) && first <= second <= |log|
    requires NewestSignIn(log[..first], i, t.id) && NewestSignIn(log[..second], i, t.id)
    requires LetRun(parse, log, first, second, now, t)
    ensures MayRun(log[i].record, log[i].record, t.account, t.executor, t.pace, now)
  {
    var seen, grown := log[..first], log[..second];
    PrefixReads(parse, log, second);
    assert seen <= grown && seen[i] == log[i] == grown[i];
    GateExactly(parse, seen, grown, t.id, t.account, t.executor, t.pace, now);
  }

  /** Without overlap both reads of an attempt find the sign-in it follows newest. */
  lemma BothReadsFind(log: seq<Append>, plan: Plan, id: string, i: nat, k: nat)
    requires Planned(plan) && |log| == plan.length && NoneBetween(plan.signIns, plan.first) && Succeeds(plan, i, k)
    requires forall j: nat :: j < |log| ==> (SignInAt(log, j, id) <==> j in plan.signIns)
    ensures NewestSignIn(log[..plan.first[k]], i, id) && NewestSignIn(log[..plan.second[k]], i, id)
  {
    PrefixNewest(log, plan.signIns, id, plan.first[k], i);
    PrefixNewest(log, plan.signIns, id, plan.second[k], i);
  }

  /** Without overlap the record an attempt follows is the one its gate was asked about. */
  lemma PreviousDecides(
      parse: string -> Option<Value>, log: seq<Append>, asked: map<nat, I64>, plan: Plan, t: Terms, i: nat, k: nat)
    requires Planned(plan) && NoneBetween(plan.signIns, plan.first) && Ran(parse, log, asked, plan, t)
    requires Succeeds(plan, i, k)
    ensures MayRun(log[i].record, log[i].record, t.account, t.executor, t.pace, asked[k])
  {
    BothReadsFind(log, plan, t.id, i, k);
    assert LetRun(parse, log, plan.first[k], plan.second[k], asked[k], t);
    RanAbout(parse, log, plan.first[k], plan.second[k], t, asked[k], i);
  }

  lemma FailureWaits(previous: Value, t: Terms, now: int)
    requires MayRun(previous, previous, t.account, t.executor, t.pace, now)
    ensures t.pace.Declared? ==> AtMs(previous).Some?
    ensures t.pace.Declared? && Failed(previous, t.account, t.executor) ==> Rested(previous, now, t.pace.ms)
    ensures !(KnownFailure(previous, t.account) && FinalRefusal(previous, t.executor))
  {
  }

  /** Waits from one repetition to the next add up over a streak. */
  lemma {:induction false} WaitsOverStreak(
      when: map<nat, int>, signIns: set<nat>, failed: set<nat>, ms: nat, i: nat, j: nat)
    requires signIns <= when.Keys && i in signIns && j in signIns && i < j
    requires forall k :: k in signIns && i <= k < j ==> k in failed
    requires forall k: nat, l: nat :: NewestIn(signIns, k, l) && l in signIns && i < l <= j && k in failed ==>
               when[l] - when[k] >= ms
    ensures when[j] - when[i] >= ms
    decreases j
  {
    var k := NewestBefore(signIns, i, j);
    assert NewestIn(signIns, k, j);
    if i < k { WaitsOverStreak(when, signIns, failed, ms, i, k); }
  }

  /** When each sign-in is stamped. */
  function Stamps(log: seq<Append>, plan: Plan): map<nat, int>
    requires Planned(plan) && |log| == plan.length
  {
    map k: nat | k in plan.signIns :: if AtMs(log[k].record).Some? then AtMs(log[k].record).value else 0
  }

  /** An attempt that repeats a known failure was stamped a cooldown after it. */
  lemma RepeatWaits(
      parse: string -> Option<Value>, log: seq<Append>, asked: map<nat, I64>, plan: Plan, t: Terms, i: nat, k: nat)
    requires Planned(plan) && NoneBetween(plan.signIns, plan.first) && Ran(parse, log, asked, plan, t)
    requires t.pace.Declared? && StampedInOrder(log, asked) && Succeeds(plan, i, k)
    ensures AtMs(log[i].record).Some? && AtMs(log[k].record).Some?
    ensures Failed(log[i].record, t.account, t.executor) ==>
              Stamps(log, plan)[k] - Stamps(log, plan)[i] >= t.pace.ms
  {
    PreviousDecides(parse, log, asked, plan, t, i, k);
    FailureWaits(log[i].record, t, asked[k]);
  }

  lemma StreakWaits(
      parse: string -> Option<Value>, log: seq<Append>, asked: map<nat, I64>, plan: Plan, t: Terms, i: nat, j: nat)
    requires Planned(plan) && NoneBetween(plan.signIns, plan.first) && Ran(parse, log, asked, plan, t)
    requires t.pace.Declared? && StampedInOrder(log, asked) && Streak(log, plan, t, i, j)
    ensures FarApart(log, i, j, t.pace.ms)
  {
    var failed := set k | k in plan.signIns && Failed(log[k].record, t.account, t.executor);
    forall k: nat, l: nat | NewestIn(plan.signIns, k, l) && l in plan.signIns && i < l <= j && k in failed
      ensures Stamps(log, plan)[l] - Stamps(log, plan)[k] >= t.pace.ms
    {
      RepeatWaits(parse, log, asked, plan, t, k, l);
    }
    WaitsOverStreak(Stamps(log, plan), plan.signIns, failed, t.pace.ms, i, j);
    StreakStamped(parse, log, asked, plan, t, i, j);
  }

  lemma StreakStamped(
      parse: string -> Option<Value>, log: seq<Append>, asked: map<nat, I64>, plan: Plan, t: Terms, i: nat, j: nat)
    requires Planned(plan) && NoneBetween(plan.signIns, plan.first) && Ran(parse, log, asked, plan, t)
    requires t.pace.Declared? && StampedInOrder(log, asked) && Streak(log, plan, t, i, j)
    ensures AtMs(log[i].record).Some? && AtMs(log[j].record).Some?
  {
    var next := OldestAfter(plan.signIns, i, j);
    RepeatWaits(parse, log, asked, plan, t, i, next);
  }

  lemma OldestAfter(signIns: set<nat>, i: nat, j: nat) returns (k: nat)
    requires i in signIns && j in signIns && i < j
    ensures k in signIns && k <= j && NewestIn(signIns, i, k)
  {
    k := i + 1;
    while k !in signIns
      decreases j - k
      invariant i < k <= j && forall l :: i < l < k ==> l !in signIns
    {
      k := k + 1;
    }
  }

  /** When no sign-in of the subscription is recorded between an attempt's first read and its own record, no
      attempt follows a final refusal, and, stamped no earlier than they were asked about, repetitions of a
      known failure are the cooldown apart. */
  lemma RepeatsHold(
      parse: string -> Option<Value>, log: seq<Append>, asked: map<nat, I64>, plan: Plan, t: Terms)
    requires Planned(plan) && NoneBetween(plan.signIns, plan.first) && Ran(parse, log, asked, plan, t)
    ensures NoFinalRepeated(log, plan, t)
    ensures t.pace.Declared? && StampedInOrder(log, asked) ==> RepeatsApart(log, plan, t, t.pace.ms)
  {
    forall i: nat, k: nat | Succeeds(plan, i, k)
      ensures !(KnownFailure(log[i].record, t.account) && FinalRefusal(log[i].record, t.executor))
    {
      PreviousDecides(parse, log, asked, plan, t, i, k);
      FailureWaits(log[i].record, t, asked[k]);
    }
    if t.pace.Declared? && StampedInOrder(log, asked) {
      forall i: nat, j: nat | Streak(log, plan, t, i, j) ensures FarApart(log, i, j, t.pace.ms) {
        StreakWaits(parse, log, asked, plan, t, i, j);
      }
    }
  }

  // ---- With overlap neither does ----

  /** The verdict recorded at one place of a plan. */
  function VerdictAt(plan: Plan, t: Terms, failing: set<nat>, retryable: bool, k: nat): Value {
    if k !in plan.signIns then Retire(t.id, "")
    else if k in failing then Refusal(t.id, t.account, t.executor, retryable, 0)
    else SignedIn(t.id, t.account, t.executor, 0)
  }

  /** A whole journal of the plan's shape, all of it stamped zero: the sign-ins in `failing` were refused, and
      the others succeeded. */
  ghost predicate Verdicts(
      parse: string -> Option<Value>, log: seq<Append>, plan: Plan, t: Terms, failing: set<nat>, retryable: bool)
  {
    && |log| == plan.length && AllPossible(log) && Reads(parse, log)
    && (forall m :: 0 <= m <= |log| ==> Clean(log[..m]))
    && (forall k: nat :: k < |log| ==> (SignInAt(log, k, t.id) <==> k in plan.signIns))
    && forall k: nat :: k < |log| ==> VerdictAs(log[k].record, t, k in plan.signIns, k in failing, retryable)
  }

  predicate VerdictAs(record: Value, t: Terms, isSignIn: bool, isFailing: bool, retryable: bool) {
    isSignIn ==>
      && AtMs(record) == Some(0)
      && (isFailing ==> Failed(record, t.account, t.executor) && (FinalRefusal(record, t.executor) <==> !retryable))
      && (!isFailing ==> !KnownFailure(record, t.account))
  }

  lemma VerdictLog(parse: string -> Option<Value>, plan: Plan, t: Terms, failing: set<nat>, retryable: bool)
      returns (log: seq<Append>)
    requires KeepsRecords(parse)
    ensures Verdicts(parse, log, plan, t, failing, retryable)
  {
    var clock: seq<I64> := seq(plan.length, _ => 0);
    var records := seq(plan.length, k requires 0 <= k < plan.length => VerdictAt(plan, t, failing, retryable, k));
    forall k | 0 <= k < |records|
      ensures Slot(records[k], k in plan.signIns, t.id, clock[k])
      ensures VerdictAs(records[k], t, k in plan.signIns, k in failing, retryable)
    {
      VerdictAtRead(plan, t, failing, retryable, k);
    }
    WholeLogIsStamped(parse, records, plan.signIns, t.id, clock);
    log := WholeLog(records);
  }

  lemma VerdictAtRead(plan: Plan, t: Terms, failing: set<nat>, retryable: bool, k: nat)
    ensures var r := VerdictAt(plan, t, failing, retryable, k);
            && Slot(r, k in plan.signIns, t.id, 0)
            && VerdictAs(r, t, k in plan.signIns, k in failing, retryable)
  {
    RetireIsSlot(t.id, 0);
    RefusalRead(t.id, t.account, t.executor, retryable, 0);
    SuccessRead(t.id, t.account, t.executor, 0);
  }

  /** The sign-in newest at the first read succeeded, or may be retried and the cooldown is over. */
  predicate Passes(plan: Plan, t: Terms, failing: set<nat>, retryable: bool, first: nat, now: I64) {
    forall i :: i in failing && NewestIn(plan.signIns, i, first) ==>
      retryable && t.pace.Declared? && now >= t.pace.ms
  }

  /** The gate lets an attempt run at `now` when the sign-in its first read finds newest succeeded, or was a
      refusal that may be retried and the cooldown is over. */
  lemma VerdictsLetRun(
      parse: string -> Option<Value>, log: seq<Append>, plan: Plan, t: Terms, failing: set<nat>, retryable: bool,
      first: nat, second: nat, now: I64)
    requires Verdicts(parse, log, plan, t, failing, retryable) && first <= second <= |log|
    requires t.pace.Declared? ==> t.pace.ms <= I64_MAX
    requires Passes(plan, t, failing, retryable, first, now)
    ensures LetRun(parse, log, first, second, now, t)
  {
    var seen, grown := log[..first], log[..second];
    forall k: nat, l: nat | NewestSignIn(seen, k, t.id) && NewestSignIn(grown, l, t.id)
      ensures MayRun(seen[k].record, grown[l].record, t.account, t.executor, t.pace, now)
    {
      assert seen[k] == log[k] && grown[l] == log[l];
      PrefixNewest(log, plan.signIns, t.id, first, k);
      PrefixNewest(log, plan.signIns, t.id, second, l);
      assert VerdictAs(log[k].record, t, true, k in failing, retryable);
      assert VerdictAs(log[l].record, t, true, l in failing, retryable);
    }
    assert seen <= grown;
    GateExactly(parse, seen, grown, t.id, t.account, t.executor, t.pace, now);
  }

  /** Whenever a sign-in is recorded between another attempt's first read and its record, a clock that stands
      still lets every attempt run, one of them at once after a final refusal it never saw. */
  lemma OverlapBreaksRepeats(parse: string -> Option<Value>, plan: Plan, t: Terms)
      returns (log: seq<Append>, asked: map<nat, I64>)
    requires KeepsRecords(parse) && Planned(plan) && !NoneBetween(plan.signIns, plan.first)
    requires t.pace.Declared? ==> t.pace.ms <= I64_MAX
    ensures Ran(parse, log, asked, plan, t) && StampedInOrder(log, asked)
    ensures !NoFinalRepeated(log, plan, t)
    ensures t.pace.Declared? && 0 < t.pace.ms ==> !RepeatsApart(log, plan, t, t.pace.ms)
    ensures forall k :: k in plan.first ==> asked[k] == 0
    ensures forall k :: k in plan.signIns ==> AtMs(log[k].record) == Some(0)
  {
    var i, k := HiddenSignIn(plan, t);
    log := VerdictLog(parse, plan, t, {i}, false);
    asked := map l: nat | l in plan.first :: 0;
    VerdictsRan(parse, log, asked, plan, t, {i}, false);
    RefusalRepeated(parse, log, plan, t, i, k);
  }

  lemma VerdictsRan(
      parse: string -> Option<Value>, log: seq<Append>, asked: map<nat, I64>, plan: Plan, t: Terms,
      failing: set<nat>, retryable: bool)
    requires Planned(plan) && Verdicts(parse, log, plan, t, failing, retryable) && asked.Keys == plan.first.Keys
    requires t.pace.Declared? ==> t.pace.ms <= I64_MAX
    requires forall l :: l in plan.first ==> Passes(plan, t, failing, retryable, plan.first[l], asked[l])
    ensures Ran(parse, log, asked, plan, t)
    ensures forall j :: j in plan.signIns ==> AtMs(log[j].record) == Some(0)
    ensures (forall l :: l in asked ==> asked[l] <= 0) ==> StampedInOrder(log, asked)
  {
    forall l | l in plan.first ensures LetRun(parse, log, plan.first[l], plan.second[l], asked[l], t) {
      VerdictsLetRun(parse, log, plan, t, failing, retryable, plan.first[l], plan.second[l], asked[l]);
    }
    forall j | j in plan.signIns ensures AtMs(log[j].record) == Some(0) {
      assert VerdictAs(log[j].record, t, true, j in failing, retryable);
    }
  }

  /** With overlap there is a sign-in that no attempt's first read finds newest and yet one follows. */
  lemma HiddenSignIn(plan: Plan, t: Terms) returns (i: nat, k: nat)
    requires Planned(plan) && !NoneBetween(plan.signIns, plan.first)
    ensures Succeeds(plan, i, k)
    ensures forall l :: l in plan.first ==> Passes(plan, t, {i}, false, plan.first[l], 0)
  {
    i, k := LastOverlap(plan.signIns, plan.first, plan.length);
    forall l | l in plan.first ensures !NewestIn(plan.signIns, i, plan.first[l]) {
      if NewestIn(plan.signIns, i, plan.first[l]) {
        assert Overlapped(plan.signIns, plan.first, l);
        assert false;
      }
    }
  }

  lemma RefusalRepeated(parse: string -> Option<Value>, log: seq<Append>, plan: Plan, t: Terms, i: nat, k: nat)
    requires Planned(plan) && Verdicts(parse, log, plan, t, {i}, false) && Succeeds(plan, i, k)
    ensures !NoFinalRepeated(log, plan, t)
    ensures t.pace.Declared? && 0 < t.pace.ms ==> !RepeatsApart(log, plan, t, t.pace.ms)
  {
    assert VerdictAs(log[i].record, t, true, true, false);
    assert !(!(KnownFailure(log[i].record, t.account) && FinalRefusal(log[i].record, t.executor)));
    if t.pace.Declared? && 0 < t.pace.ms {
      assert VerdictAs(log[k].record, t, true, k in {i}, false);
      OneRepetition(log, plan, t, t.pace.ms, i, k);
    }
  }

  /** One repetition at no distance. */
  lemma OneRepetition(log: seq<Append>, plan: Plan, t: Terms, ms: nat, i: nat, k: nat)
    requires Planned(plan) && |log| == plan.length && Succeeds(plan, i, k) && 0 < ms
    requires Failed(log[i].record, t.account, t.executor) && AtMs(log[i].record) == AtMs(log[k].record)
    ensures !RepeatsApart(log, plan, t, ms)
  {
    assert Streak(log, plan, t, i, k) && !FarApart(log, i, k, ms);
  }

  /** Exactly which plans never repeat a final refusal, and which keep repetitions the cooldown apart when
      every attempt is stamped no earlier than it was asked about: both times those that record no sign-in of
      the subscription between an attempt's first read and its own record. */
  lemma RepeatsExactly(parse: string -> Option<Value>, plan: Plan, t: Terms)
    requires KeepsRecords(parse) && Planned(plan) && (t.pace.Declared? ==> t.pace.ms <= I64_MAX)
    ensures (forall log, asked :: Ran(parse, log, asked, plan, t) ==> NoFinalRepeated(log, plan, t))
            <==> NoneBetween(plan.signIns, plan.first)
    ensures t.pace.Declared? && 0 < t.pace.ms ==>
              ((forall log, asked :: Ran(parse, log, asked, plan, t) && StampedInOrder(log, asked) ==>
                  RepeatsApart(log, plan, t, t.pace.ms))
               <==> NoneBetween(plan.signIns, plan.first))
  {
    if NoneBetween(plan.signIns, plan.first) {
      forall log, asked | Ran(parse, log, asked, plan, t)
        ensures NoFinalRepeated(log, plan, t)
        ensures t.pace.Declared? && StampedInOrder(log, asked) ==> RepeatsApart(log, plan, t, t.pace.ms)
      {
        RepeatsHold(parse, log, asked, plan, t);
      }
    } else {
      var log, asked := OverlapBreaksRepeats(parse, plan, t);
      assert Ran(parse, log, asked, plan, t);
    }
  }

  // ---- Without stamps in order, one repetition suffices ----

  /** When attempts may be stamped before they were asked about, the gate keeps repetitions apart only in
      plans without any: no attempt follows another sign-in. */
  lemma StampOrderNeededForRepeats(parse: string -> Option<Value>, plan: Plan, t: Terms)
    requires KeepsRecords(parse) && Planned(plan) && t.pace.Declared? && 0 < t.pace.ms <= I64_MAX
    ensures (forall log, asked :: Ran(parse, log, asked, plan, t) ==> RepeatsApart(log, plan, t, t.pace.ms))
            <==> forall i, k :: i in plan.signIns && k in plan.first ==> !(i < k)
  {
    if i, k :| i in plan.signIns && k in plan.first && i < k {
      var log, asked := StepBackBreaksRepeats(parse, plan, t, i, k);
      assert Ran(parse, log, asked, plan, t);
    }
  }

  lemma StepBackBreaksRepeats(parse: string -> Option<Value>, plan: Plan, t: Terms, i: nat, k: nat)
      returns (log: seq<Append>, asked: map<nat, I64>)
    requires KeepsRecords(parse) && Planned(plan) && t.pace.Declared? && 0 < t.pace.ms <= I64_MAX
    requires i in plan.signIns && k in plan.first && i < k
    ensures Ran(parse, log, asked, plan, t) && !RepeatsApart(log, plan, t, t.pace.ms)
  {
    log := VerdictLog(parse, plan, t, plan.signIns, true);
    asked := map l: nat | l in plan.first :: t.pace.ms;
    VerdictsRan(parse, log, asked, plan, t, plan.signIns, true);
    var j := NewestBefore(plan.signIns, i, k);
    assert VerdictAs(log[j].record, t, true, true, true);
    OneRepetition(log, plan, t, t.pace.ms, j, k);
  }

  // ---- The overlap, in one journal ----

  /** Two attempts both ask after one refusal, a cooldown later, before either is recorded: both run, and
      their records are no time apart. */
  lemma TwoAttemptsAtOnce(parse: string -> Option<Value>, t: Terms, ms: I64)
    requires KeepsRecords(parse) && 0 < ms && t.pace == Declared(ms)
    ensures var seen := WholeLog([RefusedAt(t, 0)]);
            var log := WholeLog([RefusedAt(t, 0), RefusedAt(t, ms), RefusedAt(t, ms)]);
            && AllPossible(seen) && LetRun(parse, seen, 1, 1, ms, t) && seen <= log
            && Failed(log[1].record, t.account, t.executor) && Failed(log[2].record, t.account, t.executor)
            && !FarApart(log, 1, 2, ms)
  {
    FirstRetryRuns(parse, t, ms);
    SameRefusals(RefusedAt(t, 0), RefusedAt(t, ms), ms);
    RefusalRead(t.id, t.account, t.executor, true, ms);
  }

  lemma SameRefusals(first: Value, again: Value, ms: nat)
    requires 0 < ms
    ensures var log := WholeLog([first, again, again]);
            WholeLog([first]) <= log && log[1].record == again && log[2].record == again && !FarApart(log, 1, 2, ms)
  {
  }

  function RefusedAt(t: Terms, at: I64): Value { Refusal(t.id, t.account, t.executor, true, at) }

  lemma FirstRetryRuns(parse: string -> Option<Value>, t: Terms, ms: I64)
    requires KeepsRecords(parse) && 0 < ms && t.pace == Declared(ms)
    ensures var seen := WholeLog([RefusedAt(t, 0)]);
            AllPossible(seen) && LetRun(parse, seen, 1, 1, ms, t)
  {
    RefusalRead(t.id, t.account, t.executor, true, 0);
    var seen := WholeLog([RefusedAt(t, 0)]);
    WholeLogIsStamped(parse, [RefusedAt(t, 0)], {0}, t.id, [0]);
    assert seen[0].record == RefusedAt(t, 0) && SignInAt(seen, 0, t.id) && seen[..1] == seen;
    OneNewest(seen, t.id, 0);
    GateExactly(parse, seen, seen, t.id, t.account, t.executor, t.pace, ms);
  }
}
