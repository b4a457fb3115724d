/** Who is in the pool: the two readers of the journal's membership records, which scan it in opposite
    directions, and the one state machine both of them report on.
  */
module Membership {
  import opened Common
  import opened Json
  import opened Pieces
  import opened Storable
  import opened Journal

  function GetMember(members: seq<Member>, key: string): Option<Value> {
    if members == [] then None
    else if members[0].key == key then Some(members[0].value)
    else GetMember(members[1..], key)
  }

  function Get(record: Value, key: string): Option<Value> {
    if record.Object? then GetMember(record.members, key) else None
  }

  /** A record's text field; one that is absent or not text matches no query. */
  function Field(record: Value, key: string): Option<string> {
    match Get(record, key)
    case Some(Str(text)) => Some(text)
    case _ => None
  }

  // ---- The records, with their names in the serializer's order ----

  function Marker(kind: string, id: string, at: string): Value {
    Object([Member("at", Str(at)), Member("id", Str(id)), Member("kind", Str(kind))])
  }

  function Retire(id: string, at: string): Value { Marker("retire", id, at) }

  function Reinstate(id: string, at: string): Value { Marker("reinstate", id, at) }

  function RemoveMembership(id: string, at: string): Value { Marker("membership_removed", id, at) }

  function Forget(id: string, reason: string, at: string): Value {
    Object([Member("at", Str(at)), Member("id", Str(id)), Member("kind", Str("forgotten")),
            Member("reason", Str(reason))])
  }

  // ---- The readers ----

  /** What one record says about `id` to the forward scan. */
  function Mark(record: Value, id: string): Option<bool> {
    if Field(record, "id") != Some(id) then None
    else match Field(record, "kind")
      case None => None
      case Some(kind) =>
        if kind == "retire" || kind == "membership_removed" || kind == "forgotten" then Some(true)
        else if kind == "reinstate" then Some(false)
        else None
  }

  function Marks(records: seq<Value>, id: string): seq<bool> {
    if records == [] then []
    else
      var rest := Marks(records[1..], id);
      match Mark(records[0], id)
      case Some(mark) => [mark] + rest
      case None => rest
  }

  /** `is_retired`: the last mark of a forward scan. */
  predicate IsRetired(records: seq<Value>, id: string) {
    var marks := Marks(records, id);
    marks != [] && marks[|marks| - 1]
  }

  predicate IsMembershipKind(kind: Option<string>) {
    || kind == Some("retire") || kind == Some("reinstate")
    || kind == Some("membership_removed") || kind == Some("forgotten")
  }

  /** The first membership record of `id` met scanning backwards. */
  function NewestMarker(records: seq<Value>, id: string): Option<Value> {
    if records == [] then None
    else
      var n := |records| - 1;
      if Field(records[n], "id") == Some(id) && IsMembershipKind(Field(records[n], "kind")) then Some(records[n])
      else NewestMarker(records[..n], id)
  }

  predicate MembershipWasRemoved(records: seq<Value>, id: string) {
    match NewestMarker(records, id)
    case None => false
    case Some(record) =>
      Field(record, "kind") == Some("membership_removed") || Field(record, "kind") == Some("forgotten")
  }

  // ---- The state machine ----

  datatype Standing = Active | Retired | Tombstoned

  function Next(standing: Standing, record: Value, id: string): Standing {
    if Field(record, "id") != Some(id) then standing
    else match Field(record, "kind")
      case Some(kind) =>
        if kind == "retire" then Retired
        else if kind == "reinstate" then Active
        else if kind == "membership_removed" || kind == "forgotten" then Tombstoned
        else standing
      case None => standing
  }

  function StandingFrom(standing: Standing, records: seq<Value>, id: string): Standing
    decreases |records|
  {
    if records == [] then standing else StandingFrom(Next(standing, records[0], id), records[1..], id)
  }

  /** Where `id` stands after every record, oldest first. */
  function StandingOf(records: seq<Value>, id: string): Standing { StandingFrom(Active, records, id) }

  lemma {:induction false} StandingConcat(standing: Standing, a: seq<Value>, b: seq<Value>, id: string)
    ensures StandingFrom(standing, a + b, id) == StandingFrom(StandingFrom(standing, a, id), b, id)
    decreases |a|
  {
    if a == [] {
      assert a + b == b;
    } else {
      assert (a + b)[1..] == a[1..] + b;
      StandingConcat(Next(standing, a[0], id), a[1..], b, id);
    }
  }

  lemma {:induction false} ForwardScan(standing: Standing, records: seq<Value>, id: string)
    ensures var marks := Marks(records, id);
            !StandingFrom(standing, records, id).Active? <==>
              (if marks == [] then !standing.Active? else marks[|marks| - 1])
    decreases |records|
  {
    if records != [] {
      ForwardScan(Next(standing, records[0], id), records[1..], id);
    }
  }

  lemma {:induction false} BackwardScan(records: seq<Value>, id: string)
    ensures NewestMarker(records, id).None? ==> StandingOf(records, id) == Active
    ensures NewestMarker(records, id).Some? ==>
              StandingOf(records, id) == Next(Active, NewestMarker(records, id).value, id)
  {
    if records != [] {
      var n := |records| - 1;
      BackwardScan(records[..n], id);
      assert records == records[..n] + [records[n]];
      StandingConcat(Active, records[..n], [records[n]], id);
    }
  }

  lemma {:induction false} NewestMarkerIsOne(records: seq<Value>, id: string)
    ensures NewestMarker(records, id).Some? ==>
              var r := NewestMarker(records, id).value;
              Field(r, "id") == Some(id) && IsMembershipKind(Field(r, "kind"))
  {
    if records != [] {
      NewestMarkerIsOne(records[..|records| - 1], id);
    }
  }

  /** The forward and the backward reader report one state machine: retired is every state but active,
      removed is the tombstoned one, so a removed member is always also skipped. */
  lemma OppositeScansAgree(records: seq<Value>, id: string)
    ensures IsRetired(records, id) <==> StandingOf(records, id) != Active
    ensures MembershipWasRemoved(records, id) <==> StandingOf(records, id) == Tombstoned
    ensures MembershipWasRemoved(records, id) ==> IsRetired(records, id)
  {
    ForwardScan(Active, records, id);
    BackwardScan(records, id);
    NewestMarkerIsOne(records, id);
  }

  /** A record of another id or of another kind, anywhere in the journal, changes neither answer. */
  lemma IrrelevantRecords(before: seq<Value>, r: Value, after: seq<Value>, id: string)
    requires Field(r, "id") != Some(id) || !IsMembershipKind(Field(r, "kind"))
    ensures IsRetired(before + [r] + after, id) == IsRetired(before + after, id)
    ensures MembershipWasRemoved(before + [r] + after, id) == MembershipWasRemoved(before + after, id)
  {
    StandingConcat(Active, before, after, id);
    StandingConcat(Active, before + [r], after, id);
    StandingConcat(Active, before, [r], id);
    OppositeScansAgree(before + [r] + after, id);
    OppositeScansAgree(before + after, id);
  }

  // ---- Through the file ----

  datatype Answers = Refused | Answers(retired: bool, removed: bool)

  /** What both readers answer from the file: an unreadable journal refuses both. */
  function Ask(parse: string -> Option<Value>, file: File, id: string): Answers {
    match ReadAll(parse, file)
    case None => Refused
    case Some(records) => Answers(IsRetired(records, id), MembershipWasRemoved(records, id))
  }

  /** The newest whole record about a member decides, whatever was written before it. */
  lemma WholeRecordDecides(parse: string -> Option<Value>, log: seq<Append>, r: Value, id: string)
    requires Reads(parse, log) && AllPossible(log) && Clean(log) && NothingPending(log)
    requires IsRecord(r) && ReadsBack(parse, r)
    requires Field(r, "id") == Some(id) && IsMembershipKind(Field(r, "kind"))
    ensures AllPossible(log + [WholeAppend(r)])
    ensures Ask(parse, Written(log + [WholeAppend(r)]), id) ==
              Answers(Field(r, "kind") != Some("reinstate"),
                      Field(r, "kind") == Some("membership_removed") || Field(r, "kind") == Some("forgotten"))
  {
    WholeRecordIsRead(parse, log, r);
    MarkerDecides(Survivors(log), r, id);
  }

  lemma WholeRecordIsRead(parse: string -> Option<Value>, log: seq<Append>, r: Value)
    requires Reads(parse, log) && AllPossible(log) && Clean(log) && NothingPending(log)
    requires IsRecord(r) && ReadsBack(parse, r)
    ensures AllPossible(log + [WholeAppend(r)])
    ensures ReadAll(parse, Written(log + [WholeAppend(r)])) == Some(Survivors(log) + [r])
  {
    var a := WholeAppend(r);
    LogAppended(parse, log, a);
    CleanAppended(log, a);
    TornAppendsNeverMisread(parse, log + [a]);
  }

  lemma MarkerDecides(records: seq<Value>, r: Value, id: string)
    requires Field(r, "id") == Some(id) && IsMembershipKind(Field(r, "kind"))
    ensures IsRetired(records + [r], id) <==> Field(r, "kind") != Some("reinstate")
    ensures MembershipWasRemoved(records + [r], id) <==>
              Field(r, "kind") == Some("membership_removed") || Field(r, "kind") == Some("forgotten")
  {
    StandingConcat(Active, records, [r], id);
    OppositeScansAgree(records + [r], id);
  }

  /** A record cut short is refused, or read as if it had never been written, or as if it all had. */
  lemma CutRecordIsAllOrNothing(parse: string -> Option<Value>, log: seq<Append>, a: Append, id: string)
    requires Reads(parse, log) && AllPossible(log) && ReadsBack(parse, a.record) && Possible(a)
    ensures AllPossible(log + [a]) && AllPossible(log + [WholeAppend(a.record)])
    ensures || Ask(parse, Written(log + [a]), id) == Refused
            || Ask(parse, Written(log + [a]), id) == Ask(parse, Written(log), id)
            || Ask(parse, Written(log + [a]), id) == Ask(parse, Written(log + [WholeAppend(a.record)]), id)
  {
    CutReadIsAllOrNothing(parse, log, a);
  }

  lemma CutReadIsAllOrNothing(parse: string -> Option<Value>, log: seq<Append>, a: Append)
    requires Reads(parse, log) && AllPossible(log) && ReadsBack(parse, a.record) && Possible(a)
    ensures AllPossible(log + [a]) && AllPossible(log + [WholeAppend(a.record)])
    ensures || ReadAll(parse, Written(log + [a])) == None
            || ReadAll(parse, Written(log + [a])) == ReadAll(parse, Written(log))
            || ReadAll(parse, Written(log + [a])) == ReadAll(parse, Written(log + [WholeAppend(a.record)]))
  {
    var whole := WholeAppend(a.record);
    CutOutcome(log, a);
    LogAppended(parse, log, a);
    LogAppended(parse, log, whole);
    TornAppendsNeverMisread(parse, log + [a]);
    TornAppendsNeverMisread(parse, log + [whole]);
    TornAppendsNeverMisread(parse, log);
  }

  lemma CutOutcome(log: seq<Append>, a: Append)
    requires Possible(a)
    ensures Clean(log + [a]) ==> Clean(log)
    ensures Clean(log + [a]) && !WholeText(a) ==> Survivors(log + [a]) == Survivors(log)
    ensures var whole := WholeAppend(a.record);
            Clean(log + [a]) && WholeText(a) ==>
              Clean(log + [whole]) && Survivors(log + [a]) == Survivors(log + [whole])
  {
    RecordText(a.record);
    CleanAppended(log, a);
    CleanAppended(log, WholeAppend(a.record));
  }

  /** Looking a member up past the ones before it. */
  lemma GetSkips(m: Member, rest: seq<Member>, key: string)
    ensures GetMember([m] + rest, key) == if m.key == key then Some(m.value) else GetMember(rest, key)
  {
    assert ([m] + rest)[1..] == rest;
  }

  lemma MarkerFields(kind: string, id: string, at: string, rest: seq<Member>)
    ensures var r := Object([Member("at", Str(at))] + ([Member("id", Str(id))] + ([Member("kind", Str(kind))] + rest)));
            && Field(r, "id") == Some(id) && Field(r, "kind") == Some(kind) && Field(r, "at") == Some(at)
            && (rest != [] && rest[0].key == "reason" ==> Get(r, "reason") == Some(rest[0].value))
  {
    var a, i, k := Member("at", Str(at)), Member("id", Str(id)), Member("kind", Str(kind));
    GetSkips(a, [i] + ([k] + rest), "id");
    GetSkips(i, [k] + rest, "id");
    GetSkips(a, [i] + ([k] + rest), "kind");
    GetSkips(i, [k] + rest, "kind");
    GetSkips(k, rest, "kind");
    GetSkips(a, [i] + ([k] + rest), "at");
    GetSkips(a, [i] + ([k] + rest), "reason");
    GetSkips(i, [k] + rest, "reason");
    GetSkips(k, rest, "reason");
  }

  /** A record that survives the journal, of `id` and of `kind`, written at `at`. */
  ghost predicate IsMarker(r: Value, id: string, kind: string, at: string) {
    && StorableRecord(r)
    && Field(r, "id") == Some(id) && Field(r, "kind") == Some(kind) && Field(r, "at") == Some(at)
  }

  /** Every writer's record survives the journal and carries the id and the kind the readers look for. */
  lemma MarkersAreRecords(id: string, reason: string, at: string)
    ensures IsMarker(Retire(id, at), id, "retire", at)
    ensures IsMarker(Reinstate(id, at), id, "reinstate", at)
    ensures IsMarker(RemoveMembership(id, at), id, "membership_removed", at)
    ensures IsMarker(Forget(id, reason, at), id, "forgotten", at)
    ensures Field(Forget(id, reason, at), "reason") == Some(reason)
  {
    MarkerIsMarker("retire", id, at);
    MarkerIsMarker("reinstate", id, at);
    MarkerIsMarker("membership_removed", id, at);
    ForgetIsMarker(id, reason, at);
  }

  lemma MarkerIsMarker(kind: string, id: string, at: string)
    ensures IsMarker(Marker(kind, id, at), id, kind, at)
  {
    var a, i, k := Member("at", Str(at)), Member("id", Str(id)), Member("kind", Str(kind));
    MarkerFields(kind, id, at, []);
    assert Marker(kind, id, at).members == [a] + ([i] + ([k] + []));
    assert [a, i, k][1..] == [i, k];
    assert NamesInOrder([i, k]);
    MembersMakeRecord([a, i, k]);
  }

  lemma ForgetIsMarker(id: string, reason: string, at: string)
    ensures IsMarker(Forget(id, reason, at), id, "forgotten", at)
    ensures Field(Forget(id, reason, at), "reason") == Some(reason)
  {
    var a, i, k := Member("at", Str(at)), Member("id", Str(id)), Member("kind", Str("forgotten"));
    var because := Member("reason", Str(reason));
    MarkerFields("forgotten", id, at, [because]);
    assert Forget(id, reason, at).members == [a] + ([i] + ([k] + [because]));
    assert [i, k, because][1..] == [k, because] && [a, i, k, because][1..] == [i, k, because];
    assert NamesInOrder([k, because]);
    MembersMakeRecord([a, i, k, because]);
  }

  /** A member retired, given back, removed or forgotten is so answered, whatever came before. */
  lemma WrittenMarkerDecides(
      parse: string -> Option<Value>, log: seq<Append>, r: Value, id: string, reason: string, at: string)
    requires KeepsRecords(parse) && Reads(parse, log) && AllPossible(log) && Clean(log) && NothingPending(log)
    requires || r == Retire(id, at) || r == Reinstate(id, at)
             || r == RemoveMembership(id, at) || r == Forget(id, reason, at)
    ensures AllPossible(log + [WholeAppend(r)])
    ensures Ask(parse, Written(log + [WholeAppend(r)]), id) ==
              if r == Reinstate(id, at) then Answers(false, false)
              else if r == Retire(id, at) then Answers(true, false)
              else Answers(true, true)
  {
    MarkersAreRecords(id, reason, at);
    WholeRecordDecides(parse, log, r, id);
  }
}
