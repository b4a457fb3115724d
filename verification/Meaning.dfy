/** What JSON text means, apart from the printer: the escapes of section 7 of RFC 8259, and the text of every
    value as its parts and the characters between them.
  */
module Meaning {
  import opened Common
  import opened Json

  // ---- Strings ----

  function HexValue(c: char): Option<nat> {
    if '0' <= c <= '9' then Some((c - '0') as int)
    else if 'a' <= c <= 'f' then Some((c - 'a') as int + 10)
    else if 'A' <= c <= 'F' then Some((c - 'A') as int + 10)
    else None
  }

  /** The character of a four-digit escape outside the surrogates. */
  function FromHex(a: char, b: char, c: char, d: char): Option<char> {
    match (HexValue(a), HexValue(b), HexValue(c), HexValue(d))
    case (Some(w), Some(x), Some(y), Some(z)) =>
      var n := ((w * 16 + x) * 16 + y) * 16 + z;
      if n < 0xD800 then Some(n as char) else None
    case _ => None
  }

  /** The character of a two-character escape. */
  function FromLetter(c: char): Option<char> {
    match c
    case '\"' => Some('\"')
    case '\\' => Some('\\')
    case '/' => Some('/')
    case 'b' => Some('\U{08}')
    case 'f' => Some('\U{0C}')
    case 'n' => Some('\U{0A}')
    case 'r' => Some('\U{0D}')
    case 't' => Some('\U{09}')
    case _ => None
  }

  /** What the text between the quotes of a string stands for. */
  function Unescape(s: string): Option<string>
    decreases |s|
  {
    if s == [] then Some([])
    else if s[0] != '\\' then Before(if s[0] < ' ' || s[0] == '\"' then None else Some(s[0]), Unescape(s[1..]))
    else if |s| < 2 then None
    else if s[1] != 'u' then Before(FromLetter(s[1]), Unescape(s[2..]))
    else if |s| < 6 then None
    else Before(FromHex(s[2], s[3], s[4], s[5]), Unescape(s[6..]))
  }

  function Before(c: Option<char>, rest: Option<string>): Option<string> {
    if c.Some? && rest.Some? then Some([c.value] + rest.value) else None
  }

  lemma OneUnescaped(c: char, rest: string)
    ensures Unescape(EscapeChar(c) + rest) == Before(Some(c), Unescape(rest))
  {
    var e := EscapeChar(c);
    var s := e + rest;
    if |e| == 1 {
      assert s[0] == c && s[1..] == rest;
    } else if |e| == 2 {
      assert s[0] == e[0] && s[1] == e[1] && s[2..] == rest;
    } else {
      assert |e| == 6 && s[6..] == rest;
      assert s[0] == e[0] && s[1] == e[1] && s[2] == e[2] && s[3] == e[3] && s[4] == e[4] && s[5] == e[5];
      ControlFromHex(c);
    }
  }

  lemma ControlFromHex(c: char)
    requires |EscapeChar(c)| == 6
    ensures var e := EscapeChar(c); e[1] == 'u' && FromHex(e[2], e[3], e[4], e[5]) == Some(c)
  {
    var n := c as int;
    assert n / 16 * 16 + n % 16 == n;
  }

  /** Every text is what its printed string stands for. */
  lemma {:induction false} EscapeMeans(s: string)
    ensures Unescape(Escape(s)) == Some(s)
  {
    if s != [] {
      OneUnescaped(s[0], Escape(s[1..]));
      EscapeMeans(s[1..]);
      assert s == [s[0]] + s[1..];
    }
  }

  /** The text stands for this string. */
  ghost predicate StandsFor(text: string, s: string) {
    exists body: string :: text == ['\"'] + body + ['\"'] && Unescape(body) == Some(s)
  }

  // ---- Values ----

  /** The parts, with a comma between. */
  function Commas(parts: seq<string>): string {
    if parts == [] then [] else if |parts| == 1 then parts[0] else parts[0] + [','] + Commas(parts[1..])
  }

  /** The text denotes the value, without white space between its parts. */
  ghost predicate Denotes(text: string, v: Value)
    decreases v
  {
    match v
    case Null => text == "null"
    case Bool(b) => text == (if b then "true" else "false")
    case Number(token) => text == token
    case Str(s) => StandsFor(text, s)
    case Array(items) =>
      exists parts: seq<string> ::
        && |parts| == |items| && text == ['['] + Commas(parts) + [']']
        && forall i :: 0 <= i < |items| ==> Denotes(parts[i], items[i])
    case Object(members) =>
      exists parts: seq<string> ::
        && |parts| == |members| && text == ['{'] + Commas(parts) + ['}']
        && forall i :: 0 <= i < |members| ==> DenotesMember(parts[i], members[i])
  }

  ghost predicate DenotesMember(text: string, m: Member)
    decreases m
  {
    exists name: string, value: string ::
      text == name + [':'] + value && StandsFor(name, m.key) && Denotes(value, m.value)
  }

  lemma PrintedStringStands(s: string)
    ensures StandsFor(PrintString(s), s)
  {
    EscapeMeans(s);
    assert PrintString(s) == ['\"'] + Escape(s) + ['\"'];
  }

  function PrintEach(items: seq<Value>): seq<string> {
    if items == [] then [] else [Print(items[0])] + PrintEach(items[1..])
  }

  function PrintEachMember(members: seq<Member>): seq<string> {
    if members == [] then [] else [PrintMember(members[0])] + PrintEachMember(members[1..])
  }

  lemma {:induction false} ItemsAreParts(items: seq<Value>)
    ensures PrintItems(items) == Commas(PrintEach(items)) && |PrintEach(items)| == |items|
    ensures forall i :: 0 <= i < |items| ==> PrintEach(items)[i] == Print(items[i])
  {
    if items != [] {
      ItemsAreParts(items[1..]);
      assert PrintEach(items)[1..] == PrintEach(items[1..]);
    }
  }

  lemma {:induction false} MembersAreParts(members: seq<Member>)
    ensures PrintMembers(members) == Commas(PrintEachMember(members)) && |PrintEachMember(members)| == |members|
    ensures forall i :: 0 <= i < |members| ==> PrintEachMember(members)[i] == PrintMember(members[i])
  {
    if members != [] {
      MembersAreParts(members[1..]);
      assert PrintEachMember(members)[1..] == PrintEachMember(members[1..]);
    }
  }

  /** What is printed for a value denotes it. */
  lemma {:induction false} PrintDenotes(v: Value)
    ensures Denotes(Print(v), v)
    decreases v
  {
    match v
    case Str(s) => PrintedStringStands(s);
    case Array(items) =>
      ItemsAreParts(items);
      var parts := PrintEach(items);
      assert Print(v) == ['['] + Commas(parts) + [']'];
      forall i | 0 <= i < |items| ensures Denotes(parts[i], items[i]) { PrintDenotes(items[i]); }
    case Object(members) =>
      MembersAreParts(members);
      var parts := PrintEachMember(members);
      assert Print(v) == ['{'] + Commas(parts) + ['}'];
      forall i | 0 <= i < |members| ensures DenotesMember(parts[i], members[i]) {
        MemberDenotes(members[i]);
      }
    case _ =>
  }

  lemma {:induction false} MemberDenotes(m: Member)
    ensures DenotesMember(PrintMember(m), m)
    decreases m
  {
    PrintedStringStands(m.key);
    PrintDenotes(m.value);
    assert PrintMember(m) == PrintString(m.key) + [':'] + Print(m.value);
  }
}
