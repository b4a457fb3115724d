/** JSON text: how the journal's records are printed, and which texts are JSON values at all.

    The grammar of RFC 8259 is given as a pushdown scanner, one character at a time, so that what a
    prefix of a text can still become is a statement about the scanner's state.
  */
module Json {
  import opened Common
  import Hex

  datatype Value =
    | Null
    | Bool(b: bool)
    | Number(text: string)
    | Str(text: string)
    | Array(items: seq<Value>)
    | Object(members: seq<Member>)

  datatype Member = Member(key: string, value: Value)

  // ---- Printing, compact, as the serializer writes one line ----

  function EscapeChar(c: char): string {
    if c == '\"' then "\\\""
    else if c == '\\' then "\\\\"
    else if c == '\n' then "\\n"
    else if c == '\r' then "\\r"
    else if c == '\t' then "\\t"
    else if c == '\U{08}' then "\\b"
    else if c == '\U{0C}' then "\\f"
    else if c < ' ' then "\\u00" + [Hex.HexDigit(c as int / 16), Hex.HexDigit(c as int % 16)]
    else [c]
  }

  function Escape(s: string): string {
    if s == [] then [] else EscapeChar(s[0]) + Escape(s[1..])
  }

  function PrintString(s: string): string { "\"" + Escape(s) + "\"" }

  function Print(v: Value): string
    decreases v
  {
    match v
    case Null => "null"
    case Bool(b) => if b then "true" else "false"
    case Number(text) => text
    case Str(text) => PrintString(text)
    case Array(items) => "[" + PrintItems(items) + "]"
    case Object(members) => "{" + PrintMembers(members) + "}"
  }

  function PrintItems(items: seq<Value>): string
    decreases items
  {
    if items == [] then ""
    else if |items| == 1 then Print(items[0])
    else Print(items[0]) + "," + PrintItems(items[1..])
  }

  function PrintMember(m: Member): string
    decreases m
  {
    PrintString(m.key) + ":" + Print(m.value)
  }

  function PrintMembers(members: seq<Member>): string
    decreases members
  {
    if members == [] then ""
    else if |members| == 1 then PrintMember(members[0])
    else PrintMember(members[0]) + "," + PrintMembers(members[1..])
  }

  // ---- The grammar ----

  datatype Frame = InObject | InArray

  datatype Mode =
    | Start                 // a value
    | StartOrEnd            // the first element of an array, or its end
    | Key                   // a member's name
    | KeyOrEnd              // the first name of an object, or its end
    | Colon
    | After                 // a value has just ended
    | Text(isKey: bool)
    | Escaped(isKey: bool)
    | Unicode(isKey: bool, left: nat)
    | Literal(rest: string)
    | Minus | Zero | Whole | Point | Fraction | Exponent | ExponentSign | ExponentDigits

  datatype Scan = Reject | Scan(mode: Mode, stack: seq<Frame>)

  const START := Scan(Start, [])

  predicate IsWhitespace(c: char) { c == ' ' || c == '\t' || c == '\n' || c == '\r' }

  predicate InNumber(m: Mode) {
    m.Minus? || m.Zero? || m.Whole? || m.Point? || m.Fraction? || m.Exponent? || m.ExponentSign? || m.ExponentDigits?
  }

  /** A number may end here. */
  predicate Final(m: Mode) { m.Zero? || m.Whole? || m.Fraction? || m.ExponentDigits? }

  function NumberStart(c: char): Option<Mode> {
    if c == '-' then Some(Minus) else if c == '0' then Some(Zero) else if IsDigit(c) then Some(Whole) else None
  }

  function NumberNext(m: Mode, c: char): (next: Option<Mode>)
    requires InNumber(m)
    ensures next.Some? ==> InNumber(next.value)
  {
    var exponent := if c == 'e' || c == 'E' then Some(Exponent) else None;
    var digit := IsDigit(c);
    match m
    case Minus => if digit then NumberStart(c) else None
    case Zero => if c == '.' then Some(Point) else exponent
    case Whole => if digit then Some(Whole) else if c == '.' then Some(Point) else exponent
    case Point => if digit then Some(Fraction) else None
    case Fraction => if digit then Some(Fraction) else exponent
    case Exponent => if digit then Some(ExponentDigits) else if c == '+' || c == '-' then Some(ExponentSign) else None
    case ExponentSign => if digit then Some(ExponentDigits) else None
    case ExponentDigits => if digit then Some(ExponentDigits) else None
  }

  function StepStart(stack: seq<Frame>, c: char): Scan {
    if IsWhitespace(c) then Scan(Start, stack)
    else if c == '{' then Scan(KeyOrEnd, stack + [InObject])
    else if c == '[' then Scan(StartOrEnd, stack + [InArray])
    else if c == '\"' then Scan(Text(false), stack)
    else if c == 't' then Scan(Literal("rue"), stack)
    else if c == 'f' then Scan(Literal("alse"), stack)
    else if c == 'n' then Scan(Literal("ull"), stack)
    else match NumberStart(c)
      case Some(m) => Scan(m, stack)
      case None => Reject
  }

  function StepAfter(stack: seq<Frame>, c: char): Scan {
    if IsWhitespace(c) then Scan(After, stack)
    else if stack == [] then Reject
    else
      var n := |stack| - 1;
      if c == ',' then Scan(if stack[n].InObject? then Key else Start, stack)
      else if c == (if stack[n].InObject? then '}' else ']') then Scan(After, stack[..n])
      else Reject
  }

  function StepText(isKey: bool, stack: seq<Frame>, c: char): Scan {
    if c == '\"' then Scan(if isKey then Colon else After, stack)
    else if c == '\\' then Scan(Escaped(isKey), stack)
    else if c < ' ' then Reject
    else Scan(Text(isKey), stack)
  }

  predicate IsHexDigit(c: char) { IsDigit(c) || 'a' <= c <= 'f' || 'A' <= c <= 'F' }

  function Step(s: Scan, c: char): Scan {
    if s.Reject? then Reject
    else
      var stack := s.stack;
      match s.mode
      case Start => StepStart(stack, c)
      case StartOrEnd =>
        if IsWhitespace(c) then s
        else if c == ']' && stack != [] then Scan(After, stack[..|stack| - 1])
        else StepStart(stack, c)
      case Key => if IsWhitespace(c) then s else if c == '\"' then Scan(Text(true), stack) else Reject
      case KeyOrEnd =>
        if IsWhitespace(c) then s
        else if c == '\"' then Scan(Text(true), stack)
        else if c == '}' && stack != [] then Scan(After, stack[..|stack| - 1])
        else Reject
      case Colon => if IsWhitespace(c) then s else if c == ':' then Scan(Start, stack) else Reject
      case After => StepAfter(stack, c)
      case Text(isKey) => StepText(isKey, stack, c)
      case Escaped(isKey) =>
        if c == 'u' then Scan(Unicode(isKey, 4), stack)
        else if c in "\"\\/bfnrt" then Scan(Text(isKey), stack)
        else Reject
      case Unicode(isKey, left) =>
        if !IsHexDigit(c) then Reject
        else if left <= 1 then Scan(Text(isKey), stack)
        else Scan(Unicode(isKey, left - 1), stack)
      case Literal(rest) =>
        if rest == [] || c != rest[0] || !('a' <= c <= 'z') then Reject
        else if |rest| == 1 then Scan(After, stack)
        else Scan(Literal(rest[1..]), stack)
      case _ =>
        match NumberNext(s.mode, c)
        case Some(m) => Scan(m, stack)
        case None => if Final(s.mode) then StepAfter(stack, c) else Reject
  }

  function Run(s: Scan, text: string): Scan
    decreases |text|
  {
    if text == [] then s else Run(Step(s, text[0]), text[1..])
  }

  /** A value has ended, with `stack` still open around it. */
  predicate Ended(s: Scan, stack: seq<Frame>) {
    s.Scan? && s.stack == stack && (s.mode.After? || Final(s.mode))
  }

  /** The text is one whole JSON value. */
  predicate IsJson(text: string) { Ended(Run(START, text), []) }

  // ---- Every printed value is JSON ----

  function RunNumber(m: Mode, text: string): Option<Mode>
    requires InNumber(m)
    decreases |text|
  {
    if text == [] then Some(m)
    else match NumberNext(m, text[0])
      case Some(next) => RunNumber(next, text[1..])
      case None => None
  }

  predicate IsNumber(text: string) {
    && text != [] && NumberStart(text[0]).Some?
    && var end := RunNumber(NumberStart(text[0]).value, text[1..]);
       end.Some? && Final(end.value)
  }

  /** The values the serializer can hold: their numbers are number tokens. */
  predicate WellFormed(v: Value)
    decreases v
  {
    match v
    case Number(text) => IsNumber(text)
    case Array(items) => forall i :: 0 <= i < |items| ==> WellFormed(items[i])
    case Object(members) => forall i :: 0 <= i < |members| ==> WellFormed(members[i].value)
    case _ => true
  }

  lemma {:induction false} RunConcat(s: Scan, a: string, b: string)
    ensures Run(s, a + b) == Run(Run(s, a), b)
    decreases |a|
  {
    if a == [] {
      assert a + b == b;
    } else {
      assert (a + b)[1..] == a[1..] + b;
      RunConcat(Step(s, a[0]), a[1..], b);
    }
  }

  lemma {:induction false} RejectStays(text: string)
    ensures Run(Reject, text) == Reject
  {
    if text != [] { RejectStays(text[1..]); }
  }

  lemma RunOne(s: Scan, c: char)
    ensures Run(s, [c]) == Step(s, c)
  {
  }

  lemma RunTwo(s: Scan, a: char, b: char)
    ensures Run(s, [a, b]) == Step(Step(s, a), b)
  {
    RunConcat(s, [a], [b]);
    assert [a] + [b] == [a, b];
  }

  lemma EscapedCharRuns(isKey: bool, stack: seq<Frame>, c: char)
    ensures Run(Scan(Text(isKey), stack), EscapeChar(c)) == Scan(Text(isKey), stack)
  {
    var t := EscapeChar(c);
    if |t| == 1 {
    } else if |t| == 2 {
      RunTwo(Scan(Text(isKey), stack), t[0], t[1]);
      assert t == [t[0], t[1]];
    } else {
      var hi, lo := Hex.HexDigit(c as int / 16), Hex.HexDigit(c as int % 16);
      assert t == ['\\', 'u'] + (['0', '0'] + [hi, lo]);
      RunConcat(Scan(Text(isKey), stack), ['\\', 'u'], ['0', '0'] + [hi, lo]);
      RunTwo(Scan(Text(isKey), stack), '\\', 'u');
      RunConcat(Scan(Unicode(isKey, 4), stack), ['0', '0'], [hi, lo]);
      RunTwo(Scan(Unicode(isKey, 4), stack), '0', '0');
      RunTwo(Scan(Unicode(isKey, 2), stack), hi, lo);
    }
  }

  lemma {:induction false} EscapedTextRuns(isKey: bool, stack: seq<Frame>, s: string)
    ensures Run(Scan(Text(isKey), stack), Escape(s)) == Scan(Text(isKey), stack)
  {
    if s != [] {
      RunConcat(Scan(Text(isKey), stack), EscapeChar(s[0]), Escape(s[1..]));
      EscapedCharRuns(isKey, stack, s[0]);
      EscapedTextRuns(isKey, stack, s[1..]);
    }
  }

  /** A printed string, from the state its opening quote leads to. */
  lemma StringRuns(s: Scan, isKey: bool, stack: seq<Frame>, text: string)
    requires Step(s, '\"') == Scan(Text(isKey), stack)
    ensures Run(s, PrintString(text)) == Scan(if isKey then Colon else After, stack)
  {
    var body := Escape(text);
    assert PrintString(text) == ['\"'] + (body + ['\"']);
    RunConcat(s, ['\"'], body + ['\"']);
    RunConcat(Scan(Text(isKey), stack), body, ['\"']);
    EscapedTextRuns(isKey, stack, text);
  }

  lemma {:induction false} NumberRuns(m: Mode, stack: seq<Frame>, text: string)
    requires InNumber(m) && RunNumber(m, text).Some?
    ensures Run(Scan(m, stack), text) == Scan(RunNumber(m, text).value, stack)
    decreases |text|
  {
    if text != [] {
      NumberRuns(NumberNext(m, text[0]).value, stack, text[1..]);
    }
  }

  lemma {:induction false} LiteralRuns(rest: string, stack: seq<Frame>)
    requires rest != [] && forall i :: 0 <= i < |rest| ==> 'a' <= rest[i] <= 'z'
    ensures Run(Scan(Literal(rest), stack), rest) == Scan(After, stack)
  {
    if |rest| > 1 {
      LiteralRuns(rest[1..], stack);
    }
  }

  /** What follows an ended value is read the same whether or not it was a number. */
  lemma EndedStep(s: Scan, stack: seq<Frame>, c: char)
    requires Ended(s, stack) && c in ",}]"
    ensures Step(s, c) == StepAfter(stack, c)
  {
  }

  predicate Opens(s: Scan, stack: seq<Frame>) {
    s == Scan(Start, stack) || s == Scan(StartOrEnd, stack)
  }

  lemma WordRuns(v: Value, s: Scan, stack: seq<Frame>)
    requires (v.Null? || v.Bool?) && Opens(s, stack)
    ensures Run(s, Print(v)) == Scan(After, stack)
  {
    var word := Print(v);
    var rest := if v.Null? then "ull" else if v.b then "rue" else "alse";
    assert word == [word[0]] + rest && word[1..] == rest;
    assert Step(s, word[0]) == Scan(Literal(rest), stack);
    LiteralRuns(rest, stack);
  }

  lemma TokenRuns(text: string, s: Scan, stack: seq<Frame>)
    requires IsNumber(text) && Opens(s, stack)
    ensures Ended(Run(s, text), stack)
  {
    NumberRuns(NumberStart(text[0]).value, stack, text[1..]);
  }

  /** Printing from a place where a value may start ends that value and leaves the stack as it was. */
  lemma {:induction false} PrintRuns(v: Value, s: Scan, stack: seq<Frame>)
    requires WellFormed(v) && Opens(s, stack)
    ensures Ended(Run(s, Print(v)), stack)
    ensures v.Object? ==> Run(s, Print(v)) == Scan(After, stack)
    decreases v
  {
    match v
    case Null => WordRuns(v, s, stack);
    case Bool(b) => WordRuns(v, s, stack);
    case Number(text) => TokenRuns(text, s, stack);
    case Str(text) => StringRuns(s, false, stack, text);
    case Array(items) => ArrayRuns(items, s, stack);
    case Object(members) => ObjectRuns(members, s, stack);
  }

  lemma {:induction false} ArrayRuns(items: seq<Value>, s: Scan, stack: seq<Frame>)
    requires WellFormed(Array(items)) && Opens(s, stack)
    ensures Run(s, Print(Array(items))) == Scan(After, stack)
    decreases items, 1
  {
    var inner := stack + [InArray];
    var body := PrintItems(items);
    assert Print(Array(items)) == ['['] + (body + [']']);
    RunConcat(s, ['['], body + [']']);
    RunOne(s, '[');
    RunConcat(Scan(StartOrEnd, inner), body, [']']);
    RunOne(Run(Scan(StartOrEnd, inner), body), ']');
    if items != [] {
      ItemsRun(items, Scan(StartOrEnd, inner), inner);
      EndedStep(Run(Scan(StartOrEnd, inner), body), inner, ']');
    }
    assert inner[..|inner| - 1] == stack;
  }

  lemma {:induction false} ObjectRuns(members: seq<Member>, s: Scan, stack: seq<Frame>)
    requires WellFormed(Object(members)) && Opens(s, stack)
    ensures Run(s, Print(Object(members))) == Scan(After, stack)
    decreases members, 1
  {
    var inner := stack + [InObject];
    var body := PrintMembers(members);
    assert Print(Object(members)) == ['{'] + (body + ['}']);
    RunConcat(s, ['{'], body + ['}']);
    RunOne(s, '{');
    RunConcat(Scan(KeyOrEnd, inner), body, ['}']);
    RunOne(Run(Scan(KeyOrEnd, inner), body), '}');
    if members != [] {
      MembersRun(members, Scan(KeyOrEnd, inner), inner);
      EndedStep(Run(Scan(KeyOrEnd, inner), body), inner, '}');
    }
    assert inner[..|inner| - 1] == stack;
  }

  lemma {:induction false} ItemsRun(items: seq<Value>, s: Scan, inner: seq<Frame>)
    requires items != [] && (forall i :: 0 <= i < |items| ==> WellFormed(items[i]))
    requires Opens(s, inner) && inner != [] && inner[|inner| - 1].InArray?
    ensures Ended(Run(s, PrintItems(items)), inner)
    decreases items, 0
  {
    PrintRuns(items[0], s, inner);
    if |items| > 1 {
      var rest := PrintItems(items[1..]);
      assert PrintItems(items) == Print(items[0]) + ([','] + rest);
      RunConcat(s, Print(items[0]), [','] + rest);
      var ended := Run(s, Print(items[0]));
      RunConcat(ended, [','], rest);
      EndedStep(ended, inner, ',');
      ItemsRun(items[1..], Scan(Start, inner), inner);
    }
  }

  lemma {:induction false} MembersRun(members: seq<Member>, s: Scan, inner: seq<Frame>)
    requires members != [] && (forall i :: 0 <= i < |members| ==> WellFormed(members[i].value))
    requires s == Scan(KeyOrEnd, inner) || s == Scan(Key, inner)
    requires inner != [] && inner[|inner| - 1].InObject?
    ensures Ended(Run(s, PrintMembers(members)), inner)
    decreases members, 0
  {
    MemberRuns(members[0], s, inner);
    if |members| > 1 {
      var rest := PrintMembers(members[1..]);
      assert PrintMembers(members) == PrintMember(members[0]) + ([','] + rest);
      RunConcat(s, PrintMember(members[0]), [','] + rest);
      var ended := Run(s, PrintMember(members[0]));
      RunConcat(ended, [','], rest);
      EndedStep(ended, inner, ',');
      MembersRun(members[1..], Scan(Key, inner), inner);
    }
  }

  lemma {:induction false} MemberRuns(m: Member, s: Scan, inner: seq<Frame>)
    requires WellFormed(m.value)
    requires s == Scan(KeyOrEnd, inner) || s == Scan(Key, inner)
    ensures Ended(Run(s, PrintMember(m)), inner)
    decreases m
  {
    var name, value := PrintString(m.key), Print(m.value);
    assert PrintMember(m) == name + ([':'] + value);
    RunConcat(s, name, [':'] + value);
    StringRuns(s, true, inner, m.key);
    RunConcat(Scan(Colon, inner), [':'], value);
    RunOne(Scan(Colon, inner), ':');
    assert Run(s, PrintMember(m)) == Run(Scan(Start, inner), value);
    PrintRuns(m.value, Scan(Start, inner), inner);
  }

  /** Whatever the serializer prints is one JSON value. */
  lemma PrintedIsJson(v: Value)
    requires WellFormed(v)
    ensures IsJson(Print(v))
  {
    PrintRuns(v, START, []);
  }
}
