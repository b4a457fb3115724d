/** The grammar of RFC 8259, section by section, and that the scanner accepts every text of it: nothing a JSON
    reader may accept is shut out by what is asked of the journal's reader.
  */
module Grammar {
  import opened Common
  import opened Json
  import opened Meaning

  /** White space of section 2. */
  predicate Blanks(s: string) { forall i :: 0 <= i < |s| ==> s[i] in {' ', '\t', '\n', '\r'} }

  // ---- Numbers: section 6 ----

  predicate SomeDigits(s: string) { s != [] && forall i :: 0 <= i < |s| ==> '0' <= s[i] <= '9' }

  predicate IsWhole(s: string) { SomeDigits(s) && (s[0] == '0' ==> s == "0") }

  predicate IsFraction(s: string) { s == [] || (s[0] == '.' && SomeDigits(s[1..])) }

  predicate IsExponent(s: string) {
    || s == []
    || ((s[0] == 'e' || s[0] == 'E')
        && (SomeDigits(s[1..]) || (1 < |s| && (s[1] == '+' || s[1] == '-') && SomeDigits(s[2..]))))
  }

  predicate NumberParts(t: string, minus: bool, whole: string, fraction: string, exponent: string) {
    && IsWhole(whole) && IsFraction(fraction) && IsExponent(exponent)
    && t == (if minus then "-" else "") + (whole + (fraction + exponent))
  }

  ghost predicate IsNumberText(t: string) {
    exists minus, whole, fraction, exponent :: NumberParts(t, minus, whole, fraction, exponent)
  }

  // ---- Strings: section 7 ----

  predicate IsHex(c: char) { '0' <= c <= '9' || 'a' <= c <= 'f' || 'A' <= c <= 'F' }

  /** What may stand between the quotes of a string. */
  predicate IsBody(s: string)
    decreases |s|
  {
    if s == [] then true
    else if s[0] != '\\' then ' ' <= s[0] && s[0] != '\"' && IsBody(s[1..])
    else if |s| < 2 then false
    else if s[1] != 'u' then s[1] in {'\"', '\\', '/', 'b', 'f', 'n', 'r', 't'} && IsBody(s[2..])
    else 6 <= |s| && IsHex(s[2]) && IsHex(s[3]) && IsHex(s[4]) && IsHex(s[5]) && IsBody(s[6..])
  }

  ghost predicate IsStringText(t: string) {
    exists body: string :: IsBody(body) && t == ['\"'] + (body + ['\"'])
  }

  // ---- Values: sections 3 to 5 ----

  ghost predicate IsText(t: string)
    decreases |t|, 2
  {
    || t == "null" || t == "true" || t == "false"
    || IsNumberText(t) || IsStringText(t)
    || (exists ws: string :: Blanks(ws) && (t == ['['] + (ws + [']']) || t == ['{'] + (ws + ['}'])))
    || (exists parts: seq<string> ::
          && parts != [] && t == ['['] + (Commas(parts) + [']'])
          && forall i :: 0 <= i < |parts| ==> |parts[i]| < |t| && IsPadded(parts[i]))
    || (exists parts: seq<string> ::
          && parts != [] && t == ['{'] + (Commas(parts) + ['}'])
          && forall i :: 0 <= i < |parts| ==> |parts[i]| < |t| && IsMember(parts[i]))
  }

  /** A value between blanks. */
  ghost predicate IsPadded(p: string)
    decreases |p|, 3
  {
    exists a: string, v: string, b: string ::
      Blanks(a) && Blanks(b) && p == a + (v + b) && |v| <= |p| && IsText(v)
  }

  /** A name, a colon and a value, all between blanks. */
  ghost predicate IsMember(p: string)
    decreases |p|, 4
  {
    exists a: string, name: string, b: string, value: string ::
      && Blanks(a) && Blanks(b) && IsStringText(name)
      && p == a + (name + (b + ([':'] + value))) && |value| < |p| && IsPadded(value)
  }

  // ---- The scanner accepts them ----

  lemma {:induction false} BlanksStay(s: Scan, ws: string)
    requires Blanks(ws) && s.Scan?
    requires s.mode.Start? || s.mode.StartOrEnd? || s.mode.Key? || s.mode.KeyOrEnd? || s.mode.Colon? || s.mode.After?
    ensures Run(s, ws) == s
    decreases |ws|
  {
    if ws != [] {
      assert IsWhitespace(ws[0]);
      BlanksStay(s, ws[1..]);
    }
  }

  lemma BlanksAfterValue(s: Scan, stack: seq<Frame>, ws: string)
    requires Blanks(ws) && Ended(s, stack)
    ensures Ended(Run(s, ws), stack)
  {
    if ws != [] {
      assert IsWhitespace(ws[0]);
      assert Step(s, ws[0]) == Scan(After, stack);
      BlanksStay(Scan(After, stack), ws[1..]);
    }
  }

  lemma {:induction false} RunNumberConcat(m: Mode, a: string, b: string)
    requires InNumber(m) && RunNumber(m, a).Some?
    ensures InNumber(RunNumber(m, a).value) && RunNumber(m, a + b) == RunNumber(RunNumber(m, a).value, b)
    decreases |a|
  {
    if a == [] {
      assert a + b == b;
    } else {
      assert (a + b)[1..] == a[1..] + b;
      RunNumberConcat(NumberNext(m, a[0]).value, a[1..], b);
    }
  }

  lemma {:induction false} DigitsStay(m: Mode, s: string)
    requires m.Whole? || m.Fraction? || m.ExponentDigits?
    requires forall i :: 0 <= i < |s| ==> '0' <= s[i] <= '9'
    ensures RunNumber(m, s) == Some(m)
    decreases |s|
  {
    if s != [] { DigitsStay(m, s[1..]); }
  }

  /** After the sign, or with none. */
  lemma WholeRuns(s: string)
    requires IsWhole(s)
    ensures NumberStart(s[0]).Some? && NumberNext(Minus, s[0]) == NumberStart(s[0])
    ensures var m := NumberStart(s[0]).value;
            (m.Whole? || m.Zero?) && RunNumber(m, s[1..]) == Some(m)
  {
    if s[0] != '0' { DigitsStay(Whole, s[1..]); }
  }

  lemma FractionRuns(m: Mode, s: string)
    requires (m.Whole? || m.Zero?) && IsFraction(s)
    ensures RunNumber(m, s) == Some(if s == [] then m else Fraction)
  {
    if s != [] {
      var digits := s[1..];
      DigitsStay(Fraction, digits[1..]);
      assert NumberNext(m, s[0]) == Some(Point) && NumberNext(Point, digits[0]) == Some(Fraction);
    }
  }

  lemma ExponentRuns(m: Mode, s: string)
    requires (m.Whole? || m.Zero? || m.Fraction?) && IsExponent(s)
    ensures RunNumber(m, s) == Some(if s == [] then m else ExponentDigits)
  {
    if s != [] {
      assert NumberNext(m, s[0]) == Some(Exponent);
      if SomeDigits(s[1..]) {
        DigitsStay(ExponentDigits, s[1..][1..]);
        assert NumberNext(Exponent, s[1]) == Some(ExponentDigits);
      } else {
        var signed, digits := s[1..], s[2..];
        assert signed[0] == s[1] && signed[1..] == digits;
        DigitsStay(ExponentDigits, digits[1..]);
        assert NumberNext(ExponentSign, digits[0]) == Some(ExponentDigits);
        assert RunNumber(ExponentSign, digits) == Some(ExponentDigits);
        assert NumberNext(Exponent, signed[0]) == Some(ExponentSign);
      }
    }
  }

  lemma NumberTextIsNumber(t: string)
    requires IsNumberText(t)
    ensures IsNumber(t)
  {
    var minus, whole, fraction, exponent :| NumberParts(t, minus, whole, fraction, exponent);
    UnsignedRuns(whole, fraction, exponent);
    var unsigned := whole + (fraction + exponent);
    if minus {
      assert t[1..] == unsigned && t[0] == '-';
      assert RunNumber(Minus, unsigned) == RunNumber(NumberStart(whole[0]).value, unsigned[1..]);
    } else {
      assert t == unsigned;
    }
  }

  lemma UnsignedRuns(whole: string, fraction: string, exponent: string)
    requires IsWhole(whole) && IsFraction(fraction) && IsExponent(exponent)
    ensures var t := whole + (fraction + exponent);
            && t[0] == whole[0] && NumberStart(t[0]).Some? && NumberNext(Minus, t[0]) == NumberStart(t[0])
            && var end := RunNumber(NumberStart(t[0]).value, t[1..]);
               end.Some? && Final(end.value)
  {
    WholeRuns(whole);
    var m := NumberStart(whole[0]).value;
    FractionRuns(m, fraction);
    var n := if fraction == [] then m else Fraction;
    ExponentRuns(n, exponent);
    RunNumberConcat(m, fraction, exponent);
    RunNumberConcat(m, whole[1..], fraction + exponent);
    assert (whole + (fraction + exponent))[1..] == whole[1..] + (fraction + exponent);
  }

  lemma {:induction false} BodyRuns(isKey: bool, stack: seq<Frame>, s: string)
    requires IsBody(s)
    ensures Run(Scan(Text(isKey), stack), s) == Scan(Text(isKey), stack)
    decreases |s|
  {
    var here := Scan(Text(isKey), stack);
    if s != [] {
      if s[0] != '\\' {
        BodyRuns(isKey, stack, s[1..]);
      } else if s[1] != 'u' {
        assert s == [s[0], s[1]] + s[2..];
        RunConcat(here, [s[0], s[1]], s[2..]);
        RunTwo(here, s[0], s[1]);
        BodyRuns(isKey, stack, s[2..]);
      } else {
        HexRuns(isKey, stack, s[2], s[3], s[4], s[5]);
        assert s == ['\\', 'u', s[2], s[3], s[4], s[5]] + s[6..];
        RunConcat(here, ['\\', 'u', s[2], s[3], s[4], s[5]], s[6..]);
        BodyRuns(isKey, stack, s[6..]);
      }
    }
  }

  lemma HexRuns(isKey: bool, stack: seq<Frame>, a: char, b: char, c: char, d: char)
    requires IsHex(a) && IsHex(b) && IsHex(c) && IsHex(d)
    ensures Run(Scan(Text(isKey), stack), ['\\', 'u', a, b, c, d]) == Scan(Text(isKey), stack)
  {
    var here := Scan(Text(isKey), stack);
    assert ['\\', 'u', a, b, c, d] == ['\\', 'u'] + ([a, b] + [c, d]);
    RunConcat(here, ['\\', 'u'], [a, b] + [c, d]);
    RunTwo(here, '\\', 'u');
    RunConcat(Scan(Unicode(isKey, 4), stack), [a, b], [c, d]);
    RunTwo(Scan(Unicode(isKey, 4), stack), a, b);
    RunTwo(Scan(Unicode(isKey, 2), stack), c, d);
  }

  lemma StringTextRuns(s: Scan, isKey: bool, stack: seq<Frame>, t: string)
    requires IsStringText(t) && Step(s, '\"') == Scan(Text(isKey), stack)
    ensures Run(s, t) == Scan(if isKey then Colon else After, stack)
  {
    var body: string :| IsBody(body) && t == ['\"'] + (body + ['\"']);
    RunConcat(s, ['\"'], body + ['\"']);
    RunOne(s, '\"');
    RunConcat(Scan(Text(isKey), stack), body, ['\"']);
    BodyRuns(isKey, stack, body);
    RunOne(Scan(Text(isKey), stack), '\"');
  }

  /** Every text of the grammar, met where a value may start, is scanned as one value. */
  lemma {:induction false} TextRuns(t: string, s: Scan, stack: seq<Frame>)
    requires IsText(t) && Opens(s, stack)
    ensures Ended(Run(s, t), stack)
    decreases |t|, 2
  {
    if t == "null" {
      WordRuns(Null, s, stack);
    } else if t == "true" {
      WordRuns(Bool(true), s, stack);
    } else if t == "false" {
      WordRuns(Bool(false), s, stack);
    } else if IsNumberText(t) {
      NumberTextIsNumber(t);
      TokenRuns(t, s, stack);
    } else if IsStringText(t) {
      StringTextRuns(s, false, stack, t);
    } else if ws: string :| Blanks(ws) && (t == ['['] + (ws + [']']) || t == ['{'] + (ws + ['}'])) {
      EmptyRuns(t, ws, s, stack);
    } else if parts: seq<string> :|
        && parts != [] && t == ['['] + (Commas(parts) + [']'])
        && forall i :: 0 <= i < |parts| ==> |parts[i]| < |t| && IsPadded(parts[i]) {
      ListRuns(t, parts, s, stack);
    } else {
      var parts: seq<string> :|
        && parts != [] && t == ['{'] + (Commas(parts) + ['}'])
        && forall i :: 0 <= i < |parts| ==> |parts[i]| < |t| && IsMember(parts[i]);
      ObjectTextRuns(t, parts, s, stack);
    }
  }

  lemma {:induction false} ListRuns(t: string, parts: seq<string>, s: Scan, stack: seq<Frame>)
    requires parts != [] && t == ['['] + (Commas(parts) + [']']) && Opens(s, stack)
    requires forall i :: 0 <= i < |parts| ==> |parts[i]| < |t| && IsPadded(parts[i])
    ensures Ended(Run(s, t), stack)
    decreases |t|, 1
  {
    var inner := stack + [InArray];
    PartsRun(parts, Scan(StartOrEnd, inner), inner, |t|);
    BracketRuns(t, '[', Commas(parts), ']', s, stack);
  }

  lemma {:induction false} ObjectTextRuns(t: string, parts: seq<string>, s: Scan, stack: seq<Frame>)
    requires parts != [] && t == ['{'] + (Commas(parts) + ['}']) && Opens(s, stack)
    requires forall i :: 0 <= i < |parts| ==> |parts[i]| < |t| && IsMember(parts[i])
    ensures Ended(Run(s, t), stack)
    decreases |t|, 1
  {
    var inner := stack + [InObject];
    MemberPartsRun(parts, Scan(KeyOrEnd, inner), inner, |t|);
    BracketRuns(t, '{', Commas(parts), '}', s, stack);
  }

  lemma EmptyRuns(t: string, ws: string, s: Scan, stack: seq<Frame>)
    requires Blanks(ws) && (t == ['['] + (ws + [']']) || t == ['{'] + (ws + ['}'])) && Opens(s, stack)
    ensures Ended(Run(s, t), stack)
  {
    var list := t[0] == '[';
    var inner := stack + [if list then InArray else InObject];
    var here := Scan(if list then StartOrEnd else KeyOrEnd, inner);
    RunConcat(s, [t[0]], t[1..]);
    RunOne(s, t[0]);
    assert t == [t[0]] + t[1..] && t[1..] == ws + [if list then ']' else '}'];
    RunConcat(here, ws, [if list then ']' else '}']);
    BlanksStay(here, ws);
    RunOne(here, if list then ']' else '}');
    assert inner[..|inner| - 1] == stack;
  }

  /** A container whose inside ends a value. */
  lemma BracketRuns(t: string, open: char, body: string, close: char, s: Scan, stack: seq<Frame>)
    requires (open == '[' && close == ']') || (open == '{' && close == '}')
    requires t == [open] + (body + [close]) && Opens(s, stack)
    requires var inner := stack + [if open == '[' then InArray else InObject];
             Ended(Run(Scan(if open == '[' then StartOrEnd else KeyOrEnd, inner), body), inner)
    ensures Ended(Run(s, t), stack)
  {
    var inner := stack + [if open == '[' then InArray else InObject];
    var here := Scan(if open == '[' then StartOrEnd else KeyOrEnd, inner);
    RunConcat(s, [open], body + [close]);
    RunOne(s, open);
    RunConcat(here, body, [close]);
    var ended := Run(here, body);
    EndedStep(ended, inner, close);
    RunOne(ended, close);
    assert inner[..|inner| - 1] == stack;
  }

  lemma {:induction false} PaddedRuns(p: string, s: Scan, stack: seq<Frame>)
    requires IsPadded(p) && Opens(s, stack)
    ensures Ended(Run(s, p), stack)
    decreases |p|, 3
  {
    var a: string, v: string, b: string :|
      Blanks(a) && Blanks(b) && p == a + (v + b) && |v| <= |p| && IsText(v);
    RunConcat(s, a, v + b);
    BlanksStay(s, a);
    RunConcat(s, v, b);
    TextRuns(v, s, stack);
    BlanksAfterValue(Run(s, v), stack, b);
  }

  lemma {:induction false} PartsRun(parts: seq<string>, s: Scan, inner: seq<Frame>, size: nat)
    requires parts != [] && forall i :: 0 <= i < |parts| ==> |parts[i]| < size && IsPadded(parts[i])
    requires Opens(s, inner) && inner != [] && inner[|inner| - 1].InArray?
    ensures Ended(Run(s, Commas(parts)), inner)
    decreases size, 0, |parts|
  {
    PaddedRuns(parts[0], s, inner);
    if |parts| > 1 {
      var rest, ended := Commas(parts[1..]), Run(s, parts[0]);
      assert Commas(parts) == parts[0] + ([','] + rest);
      RunConcat(s, parts[0], [','] + rest);
      RunConcat(ended, [','], rest);
      EndedStep(ended, inner, ',');
      RunOne(ended, ',');
      PartsRun(parts[1..], Scan(Start, inner), inner, size);
    }
  }

  lemma {:induction false} MemberTextRuns(p: string, s: Scan, inner: seq<Frame>)
    requires IsMember(p) && (s == Scan(KeyOrEnd, inner) || s == Scan(Key, inner))
    ensures Ended(Run(s, p), inner)
    decreases |p|, 4
  {
    var a: string, name: string, b: string, value: string :|
      && Blanks(a) && Blanks(b) && IsStringText(name)
      && p == a + (name + (b + ([':'] + value))) && |value| < |p| && IsPadded(value);
    var colon := Scan(Colon, inner);
    RunConcat(s, a, name + (b + ([':'] + value)));
    BlanksStay(s, a);
    RunConcat(s, name, b + ([':'] + value));
    StringTextRuns(s, true, inner, name);
    AfterName(b, value, inner);
    PaddedRuns(value, Scan(Start, inner), inner);
  }

  lemma AfterName(b: string, value: string, inner: seq<Frame>)
    requires Blanks(b)
    ensures Run(Scan(Colon, inner), b + ([':'] + value)) == Run(Scan(Start, inner), value)
  {
    var colon := Scan(Colon, inner);
    RunConcat(colon, b, [':'] + value);
    BlanksStay(colon, b);
    RunConcat(colon, [':'], value);
    RunOne(colon, ':');
  }

  lemma {:induction false} MemberPartsRun(parts: seq<string>, s: Scan, inner: seq<Frame>, size: nat)
    requires parts != [] && forall i :: 0 <= i < |parts| ==> |parts[i]| < size && IsMember(parts[i])
    requires s == Scan(KeyOrEnd, inner) || s == Scan(Key, inner)
    requires inner != [] && inner[|inner| - 1].InObject?
    ensures Ended(Run(s, Commas(parts)), inner)
    decreases size, 0, |parts|
  {
    MemberTextRuns(parts[0], s, inner);
    if |parts| > 1 {
      var rest, ended := Commas(parts[1..]), Run(s, parts[0]);
      assert Commas(parts) == parts[0] + ([','] + rest);
      RunConcat(s, parts[0], [','] + rest);
      RunConcat(ended, [','], rest);
      EndedStep(ended, inner, ',');
      RunOne(ended, ',');
      MemberPartsRun(parts[1..], Scan(Key, inner), inner, size);
    }
  }

  /** Whatever section 2 calls a JSON text is one for the scanner. */
  lemma GrammarIsScanned(t: string)
    requires IsPadded(t)
    ensures IsJson(t)
  {
    PaddedRuns(t, START, []);
  }
}
