/** Printed JSON is unambiguous: a text is the print of at most one value, even with more text behind it. */
module Unambiguous {
  import opened Common
  import opened Json
  import opened Pieces

  /** What can follow a printed value inside a printed value. */
  predicate Delimited(x: string) { x == [] || x[0] in ",]}" }

  lemma EscapeCharPrefixFree(c: char, d: char, x: string, y: string)
    requires EscapeChar(c) + x == EscapeChar(d) + y
    ensures c == d && x == y
  {
    var s := EscapeChar(c) + x;
    assert s[0] == EscapeChar(c)[0] == EscapeChar(d)[0];
    if |EscapeChar(c)| > 1 {
      assert s[1] == EscapeChar(c)[1] == EscapeChar(d)[1];
      if |EscapeChar(c)| > 2 {
        assert s[4] == EscapeChar(c)[4] == EscapeChar(d)[4];
        assert s[5] == EscapeChar(c)[5] == EscapeChar(d)[5];
        SameNibbles(c, d);
      }
    }
    assert x == s[|EscapeChar(c)|..] && y == s[|EscapeChar(d)|..];
  }

  lemma SameNibbles(c: char, d: char)
    requires c < ' ' && d < ' '
    requires Hex.HexDigit(c as int / 16) == Hex.HexDigit(d as int / 16)
    requires Hex.HexDigit(c as int % 16) == Hex.HexDigit(d as int % 16)
    ensures c == d
  {
    Hex.NibbleOfDigit(c as int / 16);
    Hex.NibbleOfDigit(d as int / 16);
    Hex.NibbleOfDigit(c as int % 16);
    Hex.NibbleOfDigit(d as int % 16);
  }

  /** No escaped character starts with a quote. */
  lemma NotAQuote(c: char)
    ensures EscapeChar(c) != [] && EscapeChar(c)[0] != '\"'
  {
  }

  lemma QuoteOnlyWhenEmpty(s: string, x: string)
    ensures (Escape(s) + "\"" + x)[0] == '\"' <==> s == []
  {
    if s != [] {
      NotAQuote(s[0]);
      assert (Escape(s) + "\"" + x)[0] == EscapeChar(s[0])[0];
    }
  }

  lemma EscapeUnfolds(s: string, x: string)
    requires s != []
    ensures Escape(s) + "\"" + x == EscapeChar(s[0]) + (Escape(s[1..]) + "\"" + x)
  {
  }

  lemma {:induction false} EscapeUnambiguous(s: string, t: string, x: string, y: string)
    requires Escape(s) + "\"" + x == Escape(t) + "\"" + y
    ensures s == t && x == y
    decreases |s|
  {
    QuoteOnlyWhenEmpty(s, x);
    QuoteOnlyWhenEmpty(t, y);
    if s == [] {
      assert Escape(s) + "\"" + x == "\"" + x && Escape(t) + "\"" + y == "\"" + y;
      SameTail("\"", x, y);
    } else {
      EscapeUnfolds(s, x);
      EscapeUnfolds(t, y);
      EscapeCharPrefixFree(s[0], t[0], Escape(s[1..]) + "\"" + x, Escape(t[1..]) + "\"" + y);
      EscapeUnambiguous(s[1..], t[1..], x, y);
      assert s == [s[0]] + s[1..] && t == [t[0]] + t[1..];
    }
  }

  lemma StringUnambiguous(s: string, t: string, x: string, y: string)
    requires PrintString(s) + x == PrintString(t) + y
    ensures s == t && x == y
  {
    Bracketed("\"", Escape(s), "\"", x);
    Bracketed("\"", Escape(t), "\"", y);
    SameTail("\"", Escape(s) + ("\"" + x), Escape(t) + ("\"" + y));
    assert Escape(s) + ("\"" + x) == Escape(s) + "\"" + x;
    assert Escape(t) + ("\"" + y) == Escape(t) + "\"" + y;
    EscapeUnambiguous(s, t, x, y);
  }

  predicate NumberChar(c: char) { c !in ",]}" }

  lemma {:induction false} NumberChars(m: Mode, text: string)
    requires InNumber(m) && RunNumber(m, text).Some?
    ensures forall i :: 0 <= i < |text| ==> NumberChar(text[i])
    decreases |text|
  {
    if text != [] {
      NumberChars(NumberNext(m, text[0]).value, text[1..]);
      assert text == [text[0]] + text[1..];
    }
  }

  lemma NumberUnambiguous(a: string, b: string, x: string, y: string)
    requires IsNumber(a) && IsNumber(b) && Delimited(x) && Delimited(y)
    requires a + x == b + y
    ensures a == b && x == y
  {
    NumberChars(NumberStart(a[0]).value, a[1..]);
    NumberChars(NumberStart(b[0]).value, b[1..]);
    var s := a + x;
    assert forall i :: 0 <= i < |a| ==> NumberChar(a[i]) by { assert a == [a[0]] + a[1..]; }
    assert forall i :: 0 <= i < |b| ==> NumberChar(b[i]) by { assert b == [b[0]] + b[1..]; }
    assert forall i :: 0 <= i < |a| ==> s[i] == a[i];
    assert forall i :: 0 <= i < |b| ==> s[i] == b[i];
    assert |a| < |s| ==> !NumberChar(s[|a|]);
    assert |b| < |s| ==> !NumberChar(s[|b|]);
    assert a == s[..|a|] && b == s[..|b|] && x == s[|a|..] && y == s[|b|..];
  }

  /** The first character of a print tells which kind of value it is. */
  function KindOf(c: char): nat {
    match c
    case 'n' => 0
    case 't' => 1
    case 'f' => 2
    case '\"' => 3
    case '[' => 4
    case '{' => 5
    case _ => 6
  }

  function Kind(v: Value): nat {
    match v
    case Null => 0
    case Bool(b) => if b then 1 else 2
    case Str(_) => 3
    case Array(_) => 4
    case Object(_) => 5
    case Number(_) => 6
  }

  lemma FirstCharTellsKind(v: Value)
    requires WellFormed(v)
    ensures Print(v) != [] && KindOf(Print(v)[0]) == Kind(v) && Print(v)[0] !in ",]}"
  {
  }

  /** Two values printed in front of delimited text print alike only when they are the same. */
  lemma {:induction false} PrintUnambiguous(v: Value, w: Value, x: string, y: string)
    requires WellFormed(v) && WellFormed(w) && Delimited(x) && Delimited(y)
    requires Print(v) + x == Print(w) + y
    ensures v == w && x == y
    decreases v, 1
  {
    FirstCharTellsKind(v);
    FirstCharTellsKind(w);
    var whole := Print(v) + x;
    assert whole[0] == Print(v)[0] == Print(w)[0];
    assert Kind(v) == Kind(w);
    match v
    case Null => SameTail(Print(v), x, y);
    case Bool(_) => SameTail(Print(v), x, y);
    case Number(a) => NumberUnambiguous(a, w.text, x, y);
    case Str(s) => StringUnambiguous(s, w.text, x, y);
    case Array(items) =>
      Bracketed("[", PrintItems(items), "]", x);
      Bracketed("[", PrintItems(w.items), "]", y);
      SameTail("[", PrintItems(items) + ("]" + x), PrintItems(w.items) + ("]" + y));
      ItemsUnambiguous(items, w.items, x, y);
    case Object(members) =>
      Bracketed("{", PrintMembers(members), "}", x);
      Bracketed("{", PrintMembers(w.members), "}", y);
      SameTail("{", PrintMembers(members) + ("}" + x), PrintMembers(w.members) + ("}" + y));
      MembersUnambiguous(members, w.members, x, y);
  }

  lemma Bracketed(open: string, body: string, close: string, x: string)
    ensures open + body + close + x == open + (body + (close + x))
  {
  }

  lemma SameTail(p: string, x: string, y: string)
    requires p + x == p + y
    ensures x == y
  {
    assert x == (p + x)[|p|..] && y == (p + y)[|p|..];
  }

  /** Print of a non-empty list, as its first element and what separates it from the rest. */
  function AfterFirstItem(items: seq<Value>, close: string): string
    requires items != []
  {
    if |items| == 1 then close else "," + (PrintItems(items[1..]) + close)
  }

  lemma ItemsUnfold(items: seq<Value>, close: string)
    requires items != []
    ensures PrintItems(items) + close == Print(items[0]) + AfterFirstItem(items, close)
  {
  }

  lemma NoItems(a: seq<Value>, x: string)
    requires forall i :: 0 <= i < |a| ==> WellFormed(a[i])
    ensures (PrintItems(a) + ("]" + x))[0] == ']' <==> a == []
  {
    if a != [] {
      FirstCharTellsKind(a[0]);
      assert (PrintItems(a) + ("]" + x))[0] == Print(a[0])[0];
    }
  }

  lemma MembersUnfold(members: seq<Member>, close: string)
    requires members != []
    ensures PrintMembers(members) + close == PrintMember(members[0]) + AfterFirstMember(members, close)
  {
  }

  lemma NoMembers(a: seq<Member>, x: string)
    ensures (PrintMembers(a) + ("}" + x))[0] == '}' <==> a == []
  {
    if a != [] {
      assert (PrintMembers(a) + ("}" + x))[0] == PrintMember(a[0])[0] == '\"';
    }
  }

  lemma {:induction false} ItemsUnambiguous(a: seq<Value>, b: seq<Value>, x: string, y: string)
    requires forall i :: 0 <= i < |a| ==> WellFormed(a[i])
    requires forall i :: 0 <= i < |b| ==> WellFormed(b[i])
    requires PrintItems(a) + ("]" + x) == PrintItems(b) + ("]" + y)
    ensures a == b && x == y
    decreases a, 0
  {
    NoItems(a, x);
    NoItems(b, y);
    if a == [] {
      assert PrintItems(a) + ("]" + x) == "]" + x && PrintItems(b) + ("]" + y) == "]" + y;
      SameTail("]", x, y);
    } else {
      var restA, restB := AfterFirstItem(a, "]" + x), AfterFirstItem(b, "]" + y);
      ItemsUnfold(a, "]" + x);
      ItemsUnfold(b, "]" + y);
      PrintUnambiguous(a[0], b[0], restA, restB);
      assert restA[0] == restB[0];
      if |a| == 1 {
        SameTail("]", x, y);
      } else {
        SameTail(",", PrintItems(a[1..]) + ("]" + x), PrintItems(b[1..]) + ("]" + y));
        ItemsUnambiguous(a[1..], b[1..], x, y);
      }
      assert a == [a[0]] + a[1..] && b == [b[0]] + b[1..];
    }
  }

  function AfterFirstMember(members: seq<Member>, close: string): string
    requires members != []
  {
    if |members| == 1 then close else "," + (PrintMembers(members[1..]) + close)
  }

  lemma {:induction false} MemberUnambiguous(m: Member, n: Member, x: string, y: string)
    requires WellFormed(m.value) && WellFormed(n.value) && Delimited(x) && Delimited(y)
    requires PrintMember(m) + x == PrintMember(n) + y
    ensures m == n && x == y
    decreases m
  {
    var afterM, afterN := ":" + (Print(m.value) + x), ":" + (Print(n.value) + y);
    Bracketed(PrintString(m.key), ":", Print(m.value), x);
    Bracketed(PrintString(n.key), ":", Print(n.value), y);
    StringUnambiguous(m.key, n.key, afterM, afterN);
    SameTail(":", Print(m.value) + x, Print(n.value) + y);
    PrintUnambiguous(m.value, n.value, x, y);
  }

  lemma {:induction false} MembersUnambiguous(a: seq<Member>, b: seq<Member>, x: string, y: string)
    requires forall i :: 0 <= i < |a| ==> WellFormed(a[i].value)
    requires forall i :: 0 <= i < |b| ==> WellFormed(b[i].value)
    requires PrintMembers(a) + ("}" + x) == PrintMembers(b) + ("}" + y)
    ensures a == b && x == y
    decreases a, 0
  {
    NoMembers(a, x);
    NoMembers(b, y);
    if a == [] {
      assert PrintMembers(a) + ("}" + x) == "}" + x && PrintMembers(b) + ("}" + y) == "}" + y;
      SameTail("}", x, y);
    } else {
      var restA, restB := AfterFirstMember(a, "}" + x), AfterFirstMember(b, "}" + y);
      MembersUnfold(a, "}" + x);
      MembersUnfold(b, "}" + y);
      MemberUnambiguous(a[0], b[0], restA, restB);
      assert restA[0] == restB[0];
      if |a| == 1 {
        SameTail("}", x, y);
      } else {
        SameTail(",", PrintMembers(a[1..]) + ("}" + x), PrintMembers(b[1..]) + ("}" + y));
        MembersUnambiguous(a[1..], b[1..], x, y);
      }
      assert a == [a[0]] + a[1..] && b == [b[0]] + b[1..];
    }
  }
}
