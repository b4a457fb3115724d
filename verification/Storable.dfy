/** The values the journal's serializer holds and its reader gives back unchanged.

    An object is an ordered map: its names are distinct and printed in order. Integers of 64 bits print and
    read back exactly, and the reader descends into at most `NESTING` containers.
  */
module Storable {
  import opened Json
  import opened Pieces
  import opened Common
  import Decimal

  /** How many containers the reader follows into one another. */
  const NESTING: nat := 127

  const U64_MAX: int := 0xFFFF_FFFF_FFFF_FFFF

  /** The order of text: character by character, and a prefix comes first. */
  predicate Before(a: string, b: string)
    decreases |a|
  {
    b != [] && (a == [] || a[0] < b[0] || (a[0] == b[0] && Before(a[1..], b[1..])))
  }

  predicate NamesInOrder(members: seq<Member>) {
    |members| < 2 || (Before(members[0].key, members[1].key) && NamesInOrder(members[1..]))
  }

  ghost predicate IsInteger(text: string) {
    exists n :: I64_MIN <= n <= U64_MAX && text == Decimal.Show(n)
  }

  /** A value the reader gives back as it was printed, with `room` more containers to open. */
  ghost predicate Kept(v: Value, room: nat)
    decreases v
  {
    match v
    case Number(text) => IsInteger(text)
    case Array(items) => 0 < room && forall i :: 0 <= i < |items| ==> Kept(items[i], room - 1)
    case Object(members) =>
      0 < room && NamesInOrder(members) && forall i :: 0 <= i < |members| ==> Kept(members[i].value, room - 1)
    case _ => true
  }

  /** A journal record that survives being written and read. */
  ghost predicate StorableRecord(r: Value) { IsRecord(r) && Kept(r, NESTING) }

  // ---- The order of names ----

  lemma {:induction false} BeforeIsTotal(a: string, b: string)
    ensures a == b || Before(a, b) || Before(b, a)
  {
    if a != [] && b != [] && a[0] == b[0] {
      BeforeIsTotal(a[1..], b[1..]);
      assert a == [a[0]] + a[1..] && b == [b[0]] + b[1..];
    }
  }

  lemma {:induction false} BeforeIsTransitive(a: string, b: string, c: string)
    requires Before(a, b) && Before(b, c)
    ensures Before(a, c)
    decreases |a|
  {
    if a != [] && a[0] == b[0] == c[0] {
      BeforeIsTransitive(a[1..], b[1..], c[1..]);
    }
  }

  lemma {:induction false} NeverBeforeItself(a: string)
    ensures !Before(a, a)
  {
    if a != [] { NeverBeforeItself(a[1..]); }
  }

  lemma {:induction false} FirstNameIsFirst(members: seq<Member>, j: nat)
    requires NamesInOrder(members) && 0 < j < |members|
    ensures Before(members[0].key, members[j].key)
  {
    if j > 1 {
      FirstNameIsFirst(members[1..], j - 1);
      BeforeIsTransitive(members[0].key, members[1].key, members[j].key);
    }
  }

  /** Names in order never repeat, so looking a name up finds its only member. */
  lemma {:induction false} NamesNeverRepeat(members: seq<Member>, i: nat, j: nat)
    requires NamesInOrder(members) && i < j < |members|
    ensures members[i].key != members[j].key
  {
    if i == 0 {
      FirstNameIsFirst(members, j);
      NeverBeforeItself(members[0].key);
    } else {
      NamesNeverRepeat(members[1..], i - 1, j - 1);
    }
  }

  // ---- Setting a member of an object ----

  /** Replace a member of an ordered object, or put it in its place. */
  function SetMember(members: seq<Member>, key: string, value: Value): (r: seq<Member>)
    ensures r != []
    ensures r[0] == Member(key, value) || (members != [] && r[0] == members[0])
  {
    if members == [] then [Member(key, value)]
    else if members[0].key == key then [Member(key, value)] + members[1..]
    else if Before(key, members[0].key) then [Member(key, value)] + members
    else [members[0]] + SetMember(members[1..], key, value)
  }

  lemma {:induction false} SetKeepsOrder(members: seq<Member>, key: string, value: Value)
    requires NamesInOrder(members)
    ensures NamesInOrder(SetMember(members, key, value))
  {
    if members != [] {
      var head, rest := members[0], members[1..];
      var r := SetMember(members, key, value);
      if head.key == key {
        assert r[1..] == rest;
      } else if Before(key, head.key) {
        assert r[1..] == members;
      } else {
        BeforeIsTotal(key, head.key);
        SetKeepsOrder(rest, key, value);
        assert r[1..] == SetMember(rest, key, value);
      }
    }
  }

  lemma {:induction false} SetAddsOne(members: seq<Member>, key: string, value: Value, m: Member)
    requires m in SetMember(members, key, value)
    ensures m == Member(key, value) || m in members
  {
    if members != [] && members[0].key != key && !Before(key, members[0].key) && m != members[0] {
      SetAddsOne(members[1..], key, value, m);
    }
  }

  lemma SetKeepsValues(members: seq<Member>, key: string, value: Value, room: nat)
    requires Kept(value, room) && forall i :: 0 <= i < |members| ==> Kept(members[i].value, room)
    ensures var r := SetMember(members, key, value); forall i :: 0 <= i < |r| ==> Kept(r[i].value, room)
  {
    var r := SetMember(members, key, value);
    forall i | 0 <= i < |r| ensures Kept(r[i].value, room) {
      SetAddsOne(members, key, value, r[i]);
    }
  }

  // ---- Storable values are JSON ----

  lemma {:induction false} DigitsStayWhole(text: string)
    requires Decimal.AllDigits(text)
    ensures RunNumber(Whole, text) == Some(Whole)
  {
    if text != [] { DigitsStayWhole(text[1..]); }
  }

  lemma IntegerIsNumber(n: int)
    ensures IsNumber(Decimal.Show(n))
  {
    var text := Decimal.Show(n);
    var digits := Decimal.Digits(if n < 0 then -n else n);
    if n == 0 {
      assert text == "0";
    } else {
      Decimal.NoLeadingZero(if n < 0 then -n else n);
      DigitsStayWhole(digits[1..]);
      if n < 0 { assert text[1..] == digits; }
    }
  }

  lemma {:induction false} StorableIsWellFormed(v: Value, room: nat)
    requires Kept(v, room)
    ensures WellFormed(v)
    decreases v
  {
    match v
    case Number(text) =>
      var n :| I64_MIN <= n <= U64_MAX && text == Decimal.Show(n);
      IntegerIsNumber(n);
    case Array(items) =>
      forall i | 0 <= i < |items| ensures WellFormed(items[i]) { StorableIsWellFormed(items[i], room - 1); }
    case Object(members) =>
      forall i | 0 <= i < |members| ensures WellFormed(members[i].value) {
        StorableIsWellFormed(members[i].value, room - 1);
      }
    case _ =>
  }

  // ---- Records built member by member ----

  predicate LetterFirst(key: string) { key != [] && IsLetter(key[0]) }

  /** The members of a record that survives, or none yet. */
  ghost predicate RecordMembers(members: seq<Member>) {
    && NamesInOrder(members) && (members == [] || LetterFirst(members[0].key))
    && forall i :: 0 <= i < |members| ==> Kept(members[i].value, NESTING - 1)
  }

  lemma SetKeepsRecord(members: seq<Member>, key: string, value: Value)
    requires RecordMembers(members) && LetterFirst(key) && Kept(value, NESTING - 1)
    ensures RecordMembers(SetMember(members, key, value))
  {
    SetKeepsOrder(members, key, value);
    SetKeepsValues(members, key, value, NESTING - 1);
  }

  lemma MembersMakeRecord(members: seq<Member>)
    requires RecordMembers(members) && members != []
    ensures StorableRecord(Object(members))
  {
    StorableIsWellFormed(Object(members), NESTING);
  }
}
