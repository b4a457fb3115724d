/** The sign-in cooldown, kept in the journal so that a restart does not forget it. */
module Subscriptions {
  import opened Common
  import opened Decimal
  import opened Json
  import opened Pieces
  import opened Storable
  import opened Journal
  import opened Membership

  const SIGN_IN := "subscription_sign_in"

  /** The record kept of one sign-in: its outcome with the kind and both times set over it. */
  function SignInRecord(outcome: seq<Member>, at: string, atMs: I64): Value {
    var stamped := SetMember(SetMember(outcome, "kind", Str(SIGN_IN)), "at", Str(at));
    Object(SetMember(stamped, "at_ms", Number(Show(atMs))))
  }

  predicate IsSignIn(record: Value, id: string) {
    Field(record, "kind") == Some(SIGN_IN) && Field(record, "subscription_id") == Some(id)
  }

  /** A number token that is a 64-bit integer; the token for negative zero is a float. */
  function AsI64(v: Option<Value>): Option<I64> {
    match v
    case Some(Number(text)) => if text == "-0" then None else ParseI64(text)
    case _ => None
  }

  function AtMs(record: Value): Option<I64> { AsI64(Get(record, "at_ms")) }

  /** What is read from a record: whether it is a sign-in of the subscription, and when it happened. */
  lemma RecordReadsExactly(record: Value, id: string, atMs: I64)
    ensures IsSignIn(record, id) <==>
              && Get(record, "kind") == Some(Str("subscription_sign_in"))
              && Get(record, "subscription_id") == Some(Str(id))
    ensures AtMs(record) == Some(atMs) <==>
              exists text :: Get(record, "at_ms") == Some(Number(text)) && text != "-0" && ParseI64(text) == Some(atMs)
  {
  }

  function LatestSignIn(records: seq<Value>, id: string): Option<Value> {
    if records == [] then None
    else
      var n := |records| - 1;
      if IsSignIn(records[n], id) then Some(records[n]) else LatestSignIn(records[..n], id)
  }

  function SaturatingSub(a: I64, b: I64): I64 {
    var exact: int := (a as int) - (b as int);
    if exact < I64_MIN then I64_MIN else if exact > I64_MAX then I64_MAX else exact
  }

  /** `subscription_sign_in_due`: whether another sign-in may start at `now`, or `None` when refused. */
  function Due(parse: string -> Option<Value>, file: File, id: string, now: I64, cooldownMs: nat): Option<bool> {
    match ReadAll(parse, file)
    case None => None
    case Some(records) =>
      match LatestSignIn(records, id)
      case None => Some(true)
      case Some(latest) =>
        match AtMs(latest)
        case None => None
        case Some(atMs) =>
          if cooldownMs > I64_MAX then None else Some(SaturatingSub(now, atMs) >= cooldownMs)
  }

  /** Saturation never changes the comparison, for any two times and any cooldown that fits. */
  lemma SaturationIsExact(now: I64, at: I64, cooldown: I64)
    requires 0 <= cooldown
    ensures SaturatingSub(now, at) >= cooldown <==> (now as int) - (at as int) >= cooldown
  {
  }

  // ---- The record carries what its reader looks for ----

  lemma {:induction false} GetSet(members: seq<Member>, key: string, value: Value, other: string)
    ensures GetMember(SetMember(members, key, value), other) ==
              if other == key then Some(value) else GetMember(members, other)
  {
    if members != [] {
      var m, rest := members[0], members[1..];
      if m.key == key {
        GetSkips(Member(key, value), rest, other);
      } else if Before(key, m.key) {
        GetSkips(Member(key, value), members, other);
      } else {
        GetSet(rest, key, value, other);
        GetSkips(m, SetMember(rest, key, value), other);
      }
    }
  }

  lemma ShowIsNotNegativeZero(n: I64)
    ensures Show(n) != "-0"
  {
    var m: int := n;
    if m < 0 {
      ValueOfDigits(-m);
      assert Decimal.Value("0") == 0;
      assert Digits(-m) != "0";
      assert Show(m)[1..] == Digits(-m) && "-0"[1..] == "0";
    } else {
      assert IsDigit(Digits(n)[0]);
    }
  }

  /** Whatever the outcome held, the record is a sign-in of the subscription it names, at the time given, with
      its kind and both times set and every other field as the outcome had it. */
  lemma SignInRecordReadsBack(outcome: seq<Member>, at: string, atMs: I64, id: string)
    requires GetMember(outcome, "subscription_id") == Some(Str(id))
    ensures IsSignIn(SignInRecord(outcome, at, atMs), id)
    ensures AtMs(SignInRecord(outcome, at, atMs)) == Some(atMs)
    ensures Field(SignInRecord(outcome, at, atMs), "kind") == Some("subscription_sign_in")
    ensures Field(SignInRecord(outcome, at, atMs), "at") == Some(at)
    ensures forall key :: key != "kind" && key != "at" && key != "at_ms" ==>
              Get(SignInRecord(outcome, at, atMs), key) == GetMember(outcome, key)
  {
    var stamped := SetMember(SetMember(outcome, "kind", Str(SIGN_IN)), "at", Str(at));
    StampedFields(outcome, at, "kind");
    StampedFields(outcome, at, "subscription_id");
    GetSet(stamped, "at_ms", Number(Show(atMs)), "kind");
    GetSet(stamped, "at_ms", Number(Show(atMs)), "subscription_id");
    GetSet(stamped, "at_ms", Number(Show(atMs)), "at_ms");
    AtIsSet(outcome, at, atMs);
    forall key | key != "kind" && key != "at" && key != "at_ms"
      ensures Get(SignInRecord(outcome, at, atMs), key) == GetMember(outcome, key)
    {
      KeepsOtherField(outcome, at, atMs, key);
    }
    ParseShow(atMs);
    ShowIsNotNegativeZero(atMs);
  }

  lemma AtIsSet(outcome: seq<Member>, at: string, atMs: I64)
    ensures Field(SignInRecord(outcome, at, atMs), "at") == Some(at)
  {
    var kinded := SetMember(outcome, "kind", Str(SIGN_IN));
    GetSet(kinded, "at", Str(at), "at");
    GetSet(SetMember(kinded, "at", Str(at)), "at_ms", Number(Show(atMs)), "at");
  }

  lemma KeepsOtherField(outcome: seq<Member>, at: string, atMs: I64, key: string)
    requires key != "kind" && key != "at" && key != "at_ms"
    ensures Get(SignInRecord(outcome, at, atMs), key) == GetMember(outcome, key)
  {
    StampedFields(outcome, at, key);
    var stamped := SetMember(SetMember(outcome, "kind", Str(SIGN_IN)), "at", Str(at));
    GetSet(stamped, "at_ms", Number(Show(atMs)), key);
  }

  lemma StampedFields(outcome: seq<Member>, at: string, key: string)
    requires key != "at"
    ensures GetMember(SetMember(SetMember(outcome, "kind", Str(SIGN_IN)), "at", Str(at)), key) ==
              if key == "kind" then Some(Str(SIGN_IN)) else GetMember(outcome, key)
  {
    GetSet(outcome, "kind", Str(SIGN_IN), key);
    GetSet(SetMember(outcome, "kind", Str(SIGN_IN)), "at", Str(at), key);
  }

  /** The record survives the journal when its outcome would. */
  lemma SignInRecordIsStorable(outcome: seq<Member>, at: string, atMs: I64)
    requires RecordMembers(outcome)
    ensures StorableRecord(SignInRecord(outcome, at, atMs))
  {
    var kinded := SetMember(outcome, "kind", Str(SIGN_IN));
    var stamped := SetMember(kinded, "at", Str(at));
    var time := Number(Show(atMs));
    assert IsInteger(Show(atMs));
    SetKeepsRecord(outcome, "kind", Str(SIGN_IN));
    SetKeepsRecord(kinded, "at", Str(at));
    SetKeepsRecord(stamped, "at_ms", time);
    MembersMakeRecord(SetMember(stamped, "at_ms", time));
  }

  // ---- What the guard answers ----

  /** Append `k` of the log is a whole sign-in record of `id`. */
  predicate SignInAt(log: seq<Append>, k: nat, id: string) {
    k < |log| && WholeText(log[k]) && IsSignIn(log[k].record, id)
  }

  /** Append `k` of the log is the last whole sign-in record of `id`. */
  ghost predicate NewestSignIn(log: seq<Append>, k: nat, id: string) {
    SignInAt(log, k, id) && forall i :: k < i < |log| ==> !SignInAt(log, i, id)
  }

  /** The newest sign-in a read finds is the newest whole one in the log. */
  lemma {:induction false} LatestIsNewest(log: seq<Append>, id: string) returns (newest: Option<nat>)
    ensures newest.None? ==> LatestSignIn(Survivors(log), id) == None && forall k: nat :: !SignInAt(log, k, id)
    ensures newest.Some? ==> NewestSignIn(log, newest.value, id)
                             && LatestSignIn(Survivors(log), id) == Some(log[newest.value].record)
  {
    if log == [] { return None; }
    var n := |log| - 1;
    LatestAtLast(log, id);
    if SignInAt(log, n, id) { return Some(n); }
    newest := LatestIsNewest(log[..n], id);
    PlacesInPrefix(log, id);
  }

  lemma PlacesInPrefix(log: seq<Append>, id: string)
    requires log != []
    ensures forall k: nat :: k < |log| - 1 ==> SignInAt(log[..|log| - 1], k, id) == SignInAt(log, k, id)
  {
  }

  /** What the last append does to the newest sign-in read. */
  lemma LatestAtLast(log: seq<Append>, id: string)
    requires log != []
    ensures var n := |log| - 1;
            LatestSignIn(Survivors(log), id) ==
              if SignInAt(log, n, id) then Some(log[n].record) else LatestSignIn(Survivors(log[..n]), id)
  {
    var n := |log| - 1;
    LatestOfAppended(Survivors(log[..n]), log[n].record, id);
    assert WholeText(log[n]) || Survivors(log) == Survivors(log[..n]);
  }

  lemma LatestOfAppended(records: seq<Value>, r: Value, id: string)
    ensures LatestSignIn(records + [r], id) == if IsSignIn(r, id) then Some(r) else LatestSignIn(records, id)
  {
    assert (records + [r])[..|records|] == records;
  }

  /** The record states its time, and that is at least the exact cooldown before `now`. */
  predicate Rested(record: Value, now: int, cooldownMs: nat) {
    AtMs(record).Some? && cooldownMs <= I64_MAX && now - AtMs(record).value >= cooldownMs
  }

  /** Another sign-in may start exactly when the journal reads back and its newest sign-in of the
      subscription, if there is one, is at least the exact cooldown old. */
  lemma DueExactly(parse: string -> Option<Value>, log: seq<Append>, id: string, now: I64, cooldownMs: nat)
    requires Reads(parse, log) && AllPossible(log)
    ensures Due(parse, Written(log), id, now, cooldownMs) == Some(true) <==>
              Clean(log) && forall k: nat :: NewestSignIn(log, k, id) ==> Rested(log[k].record, now, cooldownMs)
  {
    TornAppendsNeverMisread(parse, log);
    var newest := LatestIsNewest(log, id);
    if newest.Some? {
      assert forall k: nat :: NewestSignIn(log, k, id) ==> k == newest.value;
      if AtMs(log[newest.value].record).Some? && cooldownMs <= I64_MAX {
        SaturationIsExact(now, AtMs(log[newest.value].record).value, cooldownMs);
      }
    }
  }
}
