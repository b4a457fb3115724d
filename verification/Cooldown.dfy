/** Exactly which schedules of guards and records keep the sign-ins of a subscription a cooldown apart. */
module Cooldown {
  import opened Common
  import opened Json
  import opened Storable
  import opened Journal
  import opened Membership
  import opened Subscriptions

  /** No sign-in is recorded between the guard of another and its record: `guards` says, for places of the
      journal, how many appends were there when the guard of the sign-in recorded there was asked. */
  predicate NoneBetween(signIns: set<nat>, guards: map<nat, nat>) {
    forall i, k :: i in signIns && k in guards ==> !(guards[k] <= i < k)
  }

  /** Every guarded sign-in is stamped no earlier than its guard was asked: the clock has not stepped back
      between the two. */
  predicate StampedInOrder(log: seq<Append>, asked: map<nat, I64>) {
    forall k :: k in asked && k < |log| ==> AtMs(log[k].record).Some? && asked[k] <= AtMs(log[k].record).value
  }

  predicate FarApart(log: seq<Append>, i: nat, j: nat, cooldownMs: nat)
    requires i < |log| && j < |log|
  {
    && AtMs(log[i].record).Some? && AtMs(log[j].record).Some?
    && AtMs(log[j].record).value - AtMs(log[i].record).value >= cooldownMs
  }

  ghost predicate Overlapped(signIns: set<nat>, guards: map<nat, nat>, k: nat) {
    k in guards && exists i :: i in signIns && guards[k] <= i < k
  }

  /** The last sign-in recorded across another one, and the newest record before its own. */
  lemma LastOverlap(signIns: set<nat>, guards: map<nat, nat>, n: nat) returns (i: nat, k: nat)
    requires forall l :: n <= l ==> !Overlapped(signIns, guards, l)
    requires !NoneBetween(signIns, guards)
    ensures i in signIns && k in guards && guards[k] <= i < k
    ensures forall j :: i < j < k ==> j !in signIns
    ensures forall l :: k < l ==> !Overlapped(signIns, guards, l)
  {
    if n == 0 {
      var a, b :| a in signIns && b in guards && guards[b] <= a < b;
      assert Overlapped(signIns, guards, b);
      assert false;
    }
    if !Overlapped(signIns, guards, n - 1) {
      i, k := LastOverlap(signIns, guards, n - 1);
    } else {
      k := n - 1;
      i := NewestBefore(signIns, guards[k], k);
    }
  }

  lemma NewestBefore(signIns: set<nat>, from: nat, k: nat) returns (i: nat)
    requires exists j :: j in signIns && from <= j < k
    ensures i in signIns && from <= i < k && forall j :: i < j < k ==> j !in signIns
  {
    i := k - 1;
    while i !in signIns
      decreases i
      invariant from <= i < k
      invariant forall j :: i < j < k ==> j !in signIns
      invariant exists j :: j in signIns && from <= j <= i
    {
      i := i - 1;
    }
  }

  /** A whole journal with sign-ins at the given places, stamped by the clock there. */
  ghost predicate Stamped(
      parse: string -> Option<Value>, log: seq<Append>, signIns: set<nat>, id: string, clock: seq<I64>)
  {
    && |log| == |clock| && AllPossible(log) && Reads(parse, log)
    && (forall k: nat :: k < |log| ==> (SignInAt(log, k, id) <==> k in signIns))
    && (forall k: nat :: k < |log| && k in signIns ==> AtMs(log[k].record) == Some(clock[k]))
    && (forall m :: 0 <= m <= |log| ==> Clean(log[..m]))
  }

  /** A record that survives, and is a sign-in of `id` stamped `at` exactly when it should be. */
  ghost predicate Slot(r: Value, isSignIn: bool, id: string, at: I64) {
    StorableRecord(r) && (IsSignIn(r, id) <==> isSignIn) && (isSignIn ==> AtMs(r) == Some(at))
  }

  lemma WholeLogIsStamped(
      parse: string -> Option<Value>, records: seq<Value>, signIns: set<nat>, id: string, clock: seq<I64>)
    requires KeepsRecords(parse) && |records| == |clock|
    requires forall k :: 0 <= k < |records| ==> Slot(records[k], k in signIns, id, clock[k])
    ensures Stamped(parse, WholeLog(records), signIns, id, clock)
  {
    WholeLogReads(parse, records);
    var log := WholeLog(records);
    forall k: nat | k < |log|
      ensures SignInAt(log, k, id) <==> k in signIns
      ensures k in signIns ==> AtMs(log[k].record) == Some(clock[k])
    {
      assert Slot(records[k], k in signIns, id, clock[k]);
    }
  }

  lemma RetireIsSlot(id: string, at: I64)
    ensures Slot(Retire(id, ""), false, id, at)
  {
    MarkerIsMarker("retire", id, "");
  }

  // ---- The cooldown over every run and restart ----

  /** How guards and records of one subscription interleave when every sign-in is guarded: the journal's
      length, and for each place in it that records a sign-in, how many appends its guard saw. */
  datatype Schedule = Schedule(length: nat, guards: map<nat, nat>)

  predicate Orderly(plan: Schedule) {
    forall k :: k in plan.guards ==> plan.guards[k] <= k < plan.length
  }

  predicate OverlapFree(plan: Schedule) { NoneBetween(plan.guards.Keys, plan.guards) }

  /** A journal, whole or torn, that follows the schedule with every guard asked and answered yes, and every
      sign-in stamped. */
  ghost predicate Follows(
      parse: string -> Option<Value>, log: seq<Append>, asked: map<nat, I64>, plan: Schedule, id: string,
      cooldownMs: nat)
    requires Orderly(plan)
  {
    && |log| == plan.length && AllPossible(log) && Reads(parse, log) && asked.Keys == plan.guards.Keys
    && (forall k: nat :: k < |log| ==> (SignInAt(log, k, id) <==> k in plan.guards))
    && forall k {:trigger Guarded(parse, log, k, id, cooldownMs, plan.guards[k], asked[k])} ::
         k in plan.guards ==> Guarded(parse, log, k, id, cooldownMs, plan.guards[k], asked[k])
  }

  /** The guard asked at length `m` of the journal and time `now` said yes to the sign-in recorded at `k`. */
  ghost predicate Guarded(
      parse: string -> Option<Value>, log: seq<Append>, k: nat, id: string, cooldownMs: nat, m: nat, now: I64)
    requires AllPossible(log) && m <= k < |log|
  {
    Due(parse, Written(log[..m]), id, now, cooldownMs) == Some(true) && AtMs(log[k].record).Some?
  }

  /** Every two recorded sign-ins of the subscription are at least the cooldown apart. */
  ghost predicate Apart(log: seq<Append>, id: string, cooldownMs: nat) {
    forall i: nat, j: nat :: i < j < |log| && SignInAt(log, i, id) && SignInAt(log, j, id) ==>
      FarApart(log, i, j, cooldownMs)
  }

  /** A guard that said yes saw the newest sign-in there at least the cooldown before it was asked. */
  lemma GuardSaw(
      parse: string -> Option<Value>, log: seq<Append>, i: nat, j: nat, id: string, cooldownMs: nat, m: nat, now: I64)
      returns (newest: nat)
    requires Reads(parse, log) && AllPossible(log) && i < m <= j < |log| && SignInAt(log, i, id)
    requires Guarded(parse, log, j, id, cooldownMs, m, now)
    ensures i <= newest < m && SignInAt(log, newest, id) && Rested(log[newest].record, now, cooldownMs)
  {
    var seen := log[..m];
    assert SignInAt(seen, i, id);
    DueExactly(parse, seen, id, now, cooldownMs);
    var latest := LatestIsNewest(seen, id);
    newest := latest.value;
    assert seen[newest] == log[newest];
  }

  /** Between the moments at `i` and `j`, or at `i`, one is at least the cooldown before `j`. */
  ghost predicate Waited(when: map<nat, int>, cooldownMs: nat, i: nat, j: nat)
    requires j in when
  {
    exists k :: k in when && i <= k < j && when[j] - when[k] >= cooldownMs
  }

  lemma {:induction false} WaitsAddUp(when: map<nat, int>, cooldownMs: nat, i: nat, j: nat)
    requires forall p, q {:trigger Waited(when, cooldownMs, p, q)} ::
               p in when && q in when && p < q ==> Waited(when, cooldownMs, p, q)
    requires i in when && j in when && i < j
    ensures when[j] - when[i] >= cooldownMs
    decreases j
  {
    assert Waited(when, cooldownMs, i, j);
    var k :| k in when && i <= k < j && when[j] - when[k] >= cooldownMs;
    if i < k { WaitsAddUp(when, cooldownMs, i, k); }
  }

  /** When each sign-in of a journal that follows a schedule is stamped. */
  ghost function Moments(
      parse: string -> Option<Value>, log: seq<Append>, asked: map<nat, I64>, plan: Schedule, id: string,
      cooldownMs: nat): map<nat, int>
    requires Orderly(plan) && Follows(parse, log, asked, plan, id, cooldownMs)
  {
    map k: nat | k in plan.guards ::
      assert Guarded(parse, log, k, id, cooldownMs, plan.guards[k], asked[k]); AtMs(log[k].record).value
  }

  lemma MomentsWaited(
      parse: string -> Option<Value>, log: seq<Append>, asked: map<nat, I64>, plan: Schedule, id: string,
      cooldownMs: nat, i: nat, j: nat)
    requires Orderly(plan) && OverlapFree(plan) && Follows(parse, log, asked, plan, id, cooldownMs)
    requires StampedInOrder(log, asked) && i in plan.guards && j in plan.guards && i < j
    ensures Waited(Moments(parse, log, asked, plan, id, cooldownMs), cooldownMs, i, j)
  {
    var when := Moments(parse, log, asked, plan, id, cooldownMs);
    var m := plan.guards[j];
    assert i < m && SignInAt(log, i, id);
    assert Guarded(parse, log, j, id, cooldownMs, m, asked[j]);
    var k := GuardSaw(parse, log, i, j, id, cooldownMs, m, asked[j]);
    assert k in plan.guards;
    assert when[k] == AtMs(log[k].record).value && when[j] == AtMs(log[j].record).value;
  }

  /** When no sign-in is recorded between another's guard and record, and each is stamped no earlier than its
      guard was asked, the cooldown holds over all runs and restarts, whatever else the clock does and
      whatever else is appended or torn between the sign-ins. */
  lemma CooldownHolds(
      parse: string -> Option<Value>, log: seq<Append>, asked: map<nat, I64>, plan: Schedule, id: string,
      cooldownMs: nat)
    requires Orderly(plan) && OverlapFree(plan) && Follows(parse, log, asked, plan, id, cooldownMs)
    requires StampedInOrder(log, asked)
    ensures Apart(log, id, cooldownMs)
  {
    var when := Moments(parse, log, asked, plan, id, cooldownMs);
    forall i, j | i in when && j in when && i < j ensures Waited(when, cooldownMs, i, j) {
      MomentsWaited(parse, log, asked, plan, id, cooldownMs, i, j);
    }
    forall i: nat, j: nat | i < j < |log| && SignInAt(log, i, id) && SignInAt(log, j, id)
      ensures FarApart(log, i, j, cooldownMs)
    {
      MomentsAreStamps(parse, log, asked, plan, id, cooldownMs, i);
      MomentsAreStamps(parse, log, asked, plan, id, cooldownMs, j);
      WaitsAddUp(when, cooldownMs, i, j);
    }
  }

  lemma MomentsAreStamps(
      parse: string -> Option<Value>, log: seq<Append>, asked: map<nat, I64>, plan: Schedule, id: string,
      cooldownMs: nat, k: nat)
    requires Orderly(plan) && Follows(parse, log, asked, plan, id, cooldownMs)
    requires k < |log| && SignInAt(log, k, id)
    ensures var when := Moments(parse, log, asked, plan, id, cooldownMs);
            k in when && AtMs(log[k].record) == Some(when[k])
  {
    assert k in plan.guards;
    assert Guarded(parse, log, k, id, cooldownMs, plan.guards[k], asked[k]);
  }

  // ---- Logs that follow a schedule ----

  function SignInOf(id: string, atMs: I64): Value {
    SignInRecord([Member("subscription_id", Str(id))], "", atMs)
  }

  lemma SignInOfIsSlot(id: string, atMs: I64)
    ensures Slot(SignInOf(id, atMs), true, id, atMs)
  {
    var outcome := [Member("subscription_id", Str(id))];
    assert GetMember(outcome, "subscription_id") == Some(Str(id));
    SignInRecordReadsBack(outcome, "", atMs, id);
    SignInRecordIsStorable(outcome, "", atMs);
  }

  /** A journal of the schedule's shape, each sign-in stamped with the clock at its place. */
  lemma LogOf(parse: string -> Option<Value>, plan: Schedule, id: string, clock: seq<I64>)
      returns (log: seq<Append>)
    requires KeepsRecords(parse) && |clock| == plan.length
    ensures |log| == plan.length && Stamped(parse, log, plan.guards.Keys, id, clock)
  {
    var records := seq(plan.length, k requires 0 <= k < plan.length =>
      if k in plan.guards then SignInOf(id, clock[k]) else Retire(id, ""));
    forall k | 0 <= k < |records| ensures Slot(records[k], k in plan.guards.Keys, id, clock[k]) {
      if k in plan.guards { SignInOfIsSlot(id, clock[k]); } else { RetireIsSlot(id, clock[k]); }
    }
    WholeLogIsStamped(parse, records, plan.guards.Keys, id, clock);
    log := WholeLog(records);
  }

  lemma GuardSaysYes(
      parse: string -> Option<Value>, log: seq<Append>, plan: Schedule, id: string, cooldownMs: nat, clock: seq<I64>,
      l: nat, now: I64)
    requires Orderly(plan) && |log| == plan.length && Stamped(parse, log, plan.guards.Keys, id, clock)
    requires cooldownMs <= I64_MAX && l in plan.guards
    requires forall j :: 0 <= j < plan.guards[l] ==> now - clock[j] >= cooldownMs
    ensures Guarded(parse, log, l, id, cooldownMs, plan.guards[l], now)
  {
    var seen := log[..plan.guards[l]];
    forall j: nat | NewestSignIn(seen, j, id) ensures Rested(seen[j].record, now, cooldownMs) {
      assert SignInAt(log, j, id);
      assert seen[j] == log[j];
    }
    DueExactly(parse, seen, id, now, cooldownMs);
    assert SignInAt(log, l, id);
  }

  /** The sign-ins of the log are stamped by the clock at their places. */
  predicate Clocked(log: seq<Append>, plan: Schedule, clock: seq<I64>) {
    && |log| == |clock|
    && forall k: nat :: k in plan.guards && k < |log| ==> AtMs(log[k].record) == Some(clock[k])
  }

  /** A journal that follows the schedule with its sign-ins stamped by the clock, when whatever a guard sees
      is at least a cooldown older than the time the guard is asked. */
  lemma FollowingLog(
      parse: string -> Option<Value>, plan: Schedule, id: string, cooldownMs: nat, clock: seq<I64>,
      asked: map<nat, I64>)
      returns (log: seq<Append>)
    requires KeepsRecords(parse) && Orderly(plan) && |clock| == plan.length
    requires cooldownMs <= I64_MAX && asked.Keys == plan.guards.Keys
    requires forall l, j :: l in plan.guards && 0 <= j < plan.guards[l] ==> asked[l] - clock[j] >= cooldownMs
    ensures Follows(parse, log, asked, plan, id, cooldownMs) && Clocked(log, plan, clock)
  {
    log := LogOf(parse, plan, id, clock);
    forall l | l in plan.guards ensures Guarded(parse, log, l, id, cooldownMs, plan.guards[l], asked[l]) {
      GuardSaysYes(parse, log, plan, id, cooldownMs, clock, l, asked[l]);
    }
  }

  lemma TooClose(
      parse: string -> Option<Value>, log: seq<Append>, asked: map<nat, I64>, plan: Schedule, id: string,
      cooldownMs: nat, clock: seq<I64>, i: nat, k: nat)
    requires Orderly(plan) && Follows(parse, log, asked, plan, id, cooldownMs) && Clocked(log, plan, clock)
    requires i in plan.guards && k in plan.guards && i < k && clock[k] - clock[i] < cooldownMs
    ensures !Apart(log, id, cooldownMs)
  {
    assert SignInAt(log, i, id) && SignInAt(log, k, id) && !FarApart(log, i, k, cooldownMs);
  }

  // ---- With overlap, some clock breaks it ----

  /** A clock that moves one cooldown from place to place and stands still from `i` to `k`. */
  function Stalled(length: nat, cooldownMs: nat, i: nat, k: nat): (clock: seq<int>)
    ensures |clock| == length
  {
    seq(length, p requires 0 <= p < length => if i < p <= k then i * cooldownMs else p * cooldownMs)
  }

  lemma {:induction false} Steps(cooldownMs: nat, p: nat, q: nat)
    requires p <= q
    ensures p * cooldownMs <= q * cooldownMs
    ensures p < q ==> q * cooldownMs - p * cooldownMs >= cooldownMs
    decreases q - p
  {
    if p < q {
      Steps(cooldownMs, p, q - 1);
      assert q * cooldownMs == (q - 1) * cooldownMs + cooldownMs;
    }
  }

  lemma StalledMoves(length: nat, cooldownMs: nat, i: nat, k: nat, p: nat, q: nat)
    requires p < q < length
    ensures var clock := Stalled(length, cooldownMs, i, k);
            && 0 <= clock[p] <= clock[q] <= length * cooldownMs
            && (q <= i || k < q ==> clock[q] - clock[p] >= cooldownMs)
  {
    var from, to := if i < p <= k then i else p, if i < q <= k then i else q;
    Steps(cooldownMs, from, to);
    Steps(cooldownMs, to, length);
    Steps(cooldownMs, 0, from);
  }

  predicate NeverGoesBack(clock: seq<I64>) { forall p, q :: 0 <= p <= q < |clock| ==> clock[p] <= clock[q] }

  /** Each guard is asked at the time of the place it is asked at. */
  function AskedAt(plan: Schedule, clock: seq<I64>): map<nat, I64>
    requires Orderly(plan) && |clock| == plan.length
  {
    map l: nat | l in plan.guards :: clock[plan.guards[l]]
  }

  /** Whenever a sign-in is recorded between another's guard and record, a clock that never goes back lets
      every guard say yes and leaves two sign-ins closer than the cooldown. */
  lemma OverlapBreaksCooldown(parse: string -> Option<Value>, plan: Schedule, id: string, cooldownMs: nat)
      returns (log: seq<Append>, asked: map<nat, I64>, clock: seq<I64>)
    requires KeepsRecords(parse) && Orderly(plan) && !OverlapFree(plan)
    requires 0 < cooldownMs && plan.length * cooldownMs <= I64_MAX
    ensures Follows(parse, log, asked, plan, id, cooldownMs) && StampedInOrder(log, asked)
    ensures !Apart(log, id, cooldownMs)
    ensures |clock| == |log| && NeverGoesBack(clock)
    ensures forall k: nat :: k in plan.guards ==>
              asked[k] == clock[plan.guards[k]] && AtMs(log[k].record) == Some(clock[k])
  {
    var i, k;
    clock, i, k := StalledClock(plan, cooldownMs);
    asked := AskedAt(plan, clock);
    log := FollowingLog(parse, plan, id, cooldownMs, clock, asked);
    TooClose(parse, log, asked, plan, id, cooldownMs, clock, i, k);
    ClockedInOrder(log, plan, clock);
  }

  lemma ClockedInOrder(log: seq<Append>, plan: Schedule, clock: seq<I64>)
    requires Orderly(plan) && |clock| == plan.length && NeverGoesBack(clock) && Clocked(log, plan, clock)
    ensures StampedInOrder(log, AskedAt(plan, clock))
    ensures forall k: nat :: k in plan.guards ==> AtMs(log[k].record) == Some(clock[k])
  {
  }

  /** A clock that spaces every guard from what it sees and stands still over two overlapping sign-ins. */
  lemma StalledClock(plan: Schedule, cooldownMs: nat) returns (clock: seq<I64>, i: nat, k: nat)
    requires Orderly(plan) && !OverlapFree(plan) && plan.length * cooldownMs <= I64_MAX
    ensures |clock| == plan.length && NeverGoesBack(clock) && cooldownMs <= I64_MAX
    ensures i in plan.guards && k in plan.guards && i < k && clock[i] == clock[k]
    ensures forall l, j :: l in plan.guards && 0 <= j < plan.guards[l] ==>
              AskedAt(plan, clock)[l] - clock[j] >= cooldownMs
  {
    i, k := LastOverlap(plan.guards.Keys, plan.guards, plan.length);
    clock := ClockOf(plan, cooldownMs, i, k);
    Steps(cooldownMs, 1, plan.length);
  }

  lemma ClockOf(plan: Schedule, cooldownMs: nat, i: nat, k: nat) returns (clock: seq<I64>)
    requires Orderly(plan) && plan.length * cooldownMs <= I64_MAX
    requires i in plan.guards && k in plan.guards && plan.guards[k] <= i < k
    requires forall j :: i < j < k ==> j !in plan.guards
    requires forall l :: k < l ==> !Overlapped(plan.guards.Keys, plan.guards, l)
    ensures |clock| == plan.length && NeverGoesBack(clock) && clock[i] == clock[k]
    ensures forall l, j :: l in plan.guards && 0 <= j < plan.guards[l] ==>
              AskedAt(plan, clock)[l] - clock[j] >= cooldownMs
  {
    var ticks := Stalled(plan.length, cooldownMs, i, k);
    forall p | 0 <= p < |ticks| ensures I64_MIN <= ticks[p] <= I64_MAX {
      var at := if i < p <= k then i else p;
      Steps(cooldownMs, 0, at);
      Steps(cooldownMs, at, plan.length);
    }
    clock := ticks;
    forall p, q | 0 <= p <= q < |clock| ensures clock[p] <= clock[q] {
      if p < q { StalledMoves(plan.length, cooldownMs, i, k, p, q); }
    }
    forall l, j | l in plan.guards && 0 <= j < plan.guards[l]
      ensures AskedAt(plan, clock)[l] - clock[j] >= cooldownMs
    {
      if k < l { assert !Overlapped(plan.guards.Keys, plan.guards, l); }
      StalledMoves(plan.length, cooldownMs, i, k, j, plan.guards[l]);
    }
  }

  /** Exactly which schedules keep sign-ins a cooldown apart, when every guard was asked and said yes and
      every sign-in is stamped no earlier than its guard was asked: those that record none between the guard
      of another and its record. */
  lemma CooldownExactly(parse: string -> Option<Value>, plan: Schedule, id: string, cooldownMs: nat)
    requires KeepsRecords(parse) && Orderly(plan) && 0 < cooldownMs && plan.length * cooldownMs <= I64_MAX
    ensures (forall log, asked :: Follows(parse, log, asked, plan, id, cooldownMs) && StampedInOrder(log, asked) ==>
               Apart(log, id, cooldownMs))
            <==> OverlapFree(plan)
  {
    if OverlapFree(plan) {
      forall log, asked | Follows(parse, log, asked, plan, id, cooldownMs) && StampedInOrder(log, asked)
        ensures Apart(log, id, cooldownMs)
      {
        CooldownHolds(parse, log, asked, plan, id, cooldownMs);
      }
    } else {
      var log, asked, clock := OverlapBreaksCooldown(parse, plan, id, cooldownMs);
      assert Follows(parse, log, asked, plan, id, cooldownMs);
    }
  }

  // ---- Without stamps in order, two sign-ins suffice ----

  /** A clock that steps back between guard and record: every guard is asked a cooldown after the time that
      every sign-in is stamped with. */
  lemma StepBackBreaksCooldown(
      parse: string -> Option<Value>, plan: Schedule, id: string, cooldownMs: nat, i: nat, j: nat)
      returns (log: seq<Append>, asked: map<nat, I64>)
    requires KeepsRecords(parse) && Orderly(plan) && 0 < cooldownMs <= I64_MAX
    requires i in plan.guards && j in plan.guards && i < j
    ensures Follows(parse, log, asked, plan, id, cooldownMs) && !Apart(log, id, cooldownMs)
  {
    var clock: seq<I64> := seq(plan.length, _ => 0);
    asked := map l: nat | l in plan.guards :: cooldownMs;
    log := FollowingLog(parse, plan, id, cooldownMs, clock, asked);
    TooClose(parse, log, asked, plan, id, cooldownMs, clock, i, j);
  }

  /** When sign-ins may be stamped before their guards were asked, guards that all say yes keep the cooldown
      only in schedules with no two sign-ins, overlap or not. */
  lemma StampOrderNeeded(parse: string -> Option<Value>, plan: Schedule, id: string, cooldownMs: nat)
    requires KeepsRecords(parse) && Orderly(plan) && 0 < cooldownMs <= I64_MAX
    ensures (forall log, asked :: Follows(parse, log, asked, plan, id, cooldownMs) ==> Apart(log, id, cooldownMs))
            <==> forall i, j :: i in plan.guards && j in plan.guards ==> i == j
  {
    if i, j :| i in plan.guards && j in plan.guards && i < j {
      var log, asked := StepBackBreaksCooldown(parse, plan, id, cooldownMs, i, j);
      assert Follows(parse, log, asked, plan, id, cooldownMs);
    } else {
      forall log, asked | Follows(parse, log, asked, plan, id, cooldownMs) ensures Apart(log, id, cooldownMs) {
        assert forall i: nat, j: nat :: i < j < |log| && SignInAt(log, i, id) ==> !SignInAt(log, j, id);
      }
    }
  }
}
