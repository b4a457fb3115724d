/** What a cut-off record text can and cannot become.

    A crash or a failed write leaves a prefix of a record's line on the journal, and the next append goes
    on behind it. These lemmas say what the JSON scanner makes of such lines.
  */
module Pieces {
  import opened Json

  predicate IsLetter(c: char) { 'a' <= c <= 'z' || 'A' <= c <= 'Z' }

  /** A journal record: an object whose first name starts with a letter. */
  predicate IsRecord(r: Value) {
    && r.Object? && WellFormed(r)
    && r.members != [] && r.members[0].key != [] && IsLetter(r.members[0].key[0])
  }

  lemma RecordText(r: Value)
    requires IsRecord(r)
    ensures var t := Print(r); 3 < |t| && t[0] == '{' && t[1] == '\"' && IsLetter(t[2]) && t[|t| - 1] == '}'
  {
    var t := Print(r);
    var first := r.members[0];
    var c := first.key[0];
    assert EscapeChar(c) == [c];
    var name := PrintString(first.key);
    assert name[0] == '\"' && name[1] == c;
    assert PrintMember(first)[..|name|] == name;
    assert PrintMembers(r.members)[..2] == name[..2] by {
      assert |name| >= 2 && PrintMember(first)[..2] == name[..2];
    }
  }

  /** Text that has opened a container and not closed it, or can never be JSON. */
  predicate Stuck(s: Scan) { s.Reject? || s.stack != [] }

  /** Once a container was opened, an empty stack means the whole value has ended. */
  predicate Nested(s: Scan) { s.Reject? || s.stack != [] || s.mode.After? }

  lemma StepKeepsNested(s: Scan, c: char)
    requires Nested(s)
    ensures Nested(Step(s, c))
  {
  }

  lemma RunLast(s: Scan, t: string, k: nat)
    requires 0 < k <= |t|
    ensures Run(s, t[..k]) == Step(Run(s, t[..k - 1]), t[k - 1])
  {
    assert t[..k] == t[..k - 1] + [t[k - 1]];
    RunConcat(s, t[..k - 1], [t[k - 1]]);
  }

  lemma {:induction false} PrefixIsNested(t: string, k: nat)
    requires 0 < k <= |t| && t[0] == '{'
    ensures Nested(Run(START, t[..k]))
  {
    RunLast(START, t, k);
    if k > 1 {
      PrefixIsNested(t, k - 1);
      StepKeepsNested(Run(START, t[..k - 1]), t[k - 1]);
    }
  }

  /** Nothing but blanks may follow a whole value. */
  lemma {:induction false} NothingFollows(text: string)
    requires text != [] && !IsWhitespace(text[|text| - 1])
    ensures Run(Scan(After, []), text) == Reject
  {
    if IsWhitespace(text[0]) {
      NothingFollows(text[1..]);
    } else {
      RejectStays(text[1..]);
    }
  }

  /** A proper prefix of a record is never a JSON value: it still has a container open. */
  lemma ProperPrefixIsStuck(r: Value, k: nat)
    requires IsRecord(r) && 0 < k < |Print(r)|
    ensures Stuck(Run(START, Print(r)[..k]))
  {
    var t := Print(r);
    RecordText(r);
    PrefixIsNested(t, k);
    if Run(START, t[..k]) == Scan(After, []) {
      assert t == t[..k] + t[k..];
      RunConcat(START, t[..k], t[k..]);
      NothingFollows(t[k..]);
      PrintRuns(r, START, []);
      assert false;
    }
  }

  // ---- A record text met where a value may start inside other containers ----

  function Lift(s: Scan, outer: seq<Frame>): Scan {
    if s.Reject? then Reject else Scan(s.mode, outer + s.stack)
  }

  lemma LiftStep(s: Scan, outer: seq<Frame>, c: char)
    requires s.Reject? || s.stack != [] || s.mode.Start?
    ensures Step(Lift(s, outer), c) == Lift(Step(s, c), outer)
  {
    if s.Scan? && s.stack != [] {
      var n := |s.stack| - 1;
      assert (outer + s.stack)[..|outer| + n] == outer + s.stack[..n];
      assert forall f: Frame :: outer + s.stack + [f] == outer + (s.stack + [f]);
    }
  }

  lemma {:induction false} PrefixInside(r: Value, k: nat, outer: seq<Frame>)
    requires IsRecord(r) && k <= |Print(r)|
    ensures Run(Scan(Start, outer), Print(r)[..k]) == Lift(Run(START, Print(r)[..k]), outer)
  {
    var t := Print(r);
    if k == 0 {
      assert outer + [] == outer;
    } else {
      RunLast(START, t, k);
      RunLast(Scan(Start, outer), t, k);
      PrefixInside(r, k - 1, outer);
      if k > 1 { ProperPrefixIsStuck(r, k - 1); }
      LiftStep(Run(START, t[..k - 1]), outer, t[k - 1]);
    }
  }

  /** No prefix of any record frees text that is stuck: what a cut-off line opened stays open. */
  lemma PieceStaysStuck(s: Scan, r: Value, k: nat)
    requires Stuck(s) && IsRecord(r) && 0 < k <= |Print(r)|
    ensures Stuck(Run(s, Print(r)[..k]))
  {
    var t := Print(r);
    RecordText(r);
    if s.Scan? && (s.mode.Start? || s.mode.StartOrEnd?) {
      PrefixInside(r, k, s.stack);
      assert Step(s, t[0]) == Step(Scan(Start, s.stack), t[0]);
      assert t[..k][0] == t[0];
    } else if s.Scan? && s.mode.Text? {
      StringPieceStaysStuck(s, t, k);
    } else {
      assert Step(s, '{') == Reject;
      assert t[..k][0] == '{';
      RejectStays(t[..k][1..]);
    }
  }

  /** Inside a string the record's first quote ends the string and its first letter ends the line's hopes. */
  lemma StringPieceStaysStuck(s: Scan, t: string, k: nat)
    requires s.Scan? && s.mode.Text? && s.stack != []
    requires 0 < k <= |t| && 3 < |t| && t[0] == '{' && t[1] == '\"' && IsLetter(t[2])
    ensures Stuck(Run(s, t[..k]))
  {
    RunLast(s, t, k);
    if k > 1 { RunLast(s, t, k - 1); }
    if k > 2 {
      RunLast(s, t, 1);
      RunLast(s, t, 2);
      RunLast(s, t, 3);
      assert Run(s, t[..3]) == Reject;
      assert t[..k] == t[..3] + t[3..k];
      RunConcat(s, t[..3], t[3..k]);
      RejectStays(t[3..k]);
    }
  }

  /** A record directly behind a whole record is never JSON. */
  lemma PieceAfterWhole(r: Value, k: nat)
    requires IsRecord(r) && 0 < k <= |Print(r)|
    ensures Run(Scan(After, []), Print(r)[..k]) == Reject
  {
    RecordText(r);
    var piece := Print(r)[..k];
    assert piece[0] == '{';
    RejectStays(piece[1..]);
  }

  // ---- Printed text stays on one line ----

  predicate OneLine(s: string) { forall i :: 0 <= i < |s| ==> ' ' <= s[i] }

  lemma {:induction false} EscapeOneLine(s: string)
    ensures OneLine(Escape(s))
  {
    if s != [] { EscapeOneLine(s[1..]); }
  }

  lemma {:induction false} NumberOneLine(m: Mode, text: string)
    requires InNumber(m) && RunNumber(m, text).Some?
    ensures OneLine(text)
    decreases |text|
  {
    if text != [] {
      NumberOneLine(NumberNext(m, text[0]).value, text[1..]);
      assert text == [text[0]] + text[1..];
    }
  }

  lemma {:induction false} PrintOneLine(v: Value)
    requires WellFormed(v)
    ensures OneLine(Print(v))
    decreases v
  {
    match v
    case Number(text) =>
      NumberOneLine(NumberStart(text[0]).value, text[1..]);
      assert text == [text[0]] + text[1..];
    case Str(text) => EscapeOneLine(text);
    case Array(items) => ItemsOneLine(items);
    case Object(members) => MembersOneLine(members);
    case _ =>
  }

  lemma {:induction false} ItemsOneLine(items: seq<Value>)
    requires forall i :: 0 <= i < |items| ==> WellFormed(items[i])
    ensures OneLine(PrintItems(items))
    decreases items
  {
    if items != [] {
      PrintOneLine(items[0]);
      ItemsOneLine(items[1..]);
    }
  }

  lemma {:induction false} MembersOneLine(members: seq<Member>)
    requires forall i :: 0 <= i < |members| ==> WellFormed(members[i].value)
    ensures OneLine(PrintMembers(members))
    decreases members
  {
    if members != [] {
      PrintOneLine(members[0].value);
      EscapeOneLine(members[0].key);
      MembersOneLine(members[1..]);
    }
  }
}
