/** The append-only journal: one JSON record per line, written by appends that a crash or a full disk may
    cut short, read back whole or refused.
  */
module Journal {
  import opened Common
  import opened Json
  import opened Pieces
  import opened Storable

  /** The journal file: what has reached it, and whether it is still text at all. */
  datatype File = Absent | Present(text: string, isText: bool)

  function LineOf(r: Value): string { Print(r) + "\n" }

  // ---- Reading ----

  /** Unicode white space. */
  predicate IsBlank(c: char) {
    || '\t' <= c <= '\r' || c == ' ' || c == '\U{85}' || c == '\U{A0}' || c == '\U{1680}'
    || '\U{2000}' <= c <= '\U{200A}'
    || c == '\U{2028}' || c == '\U{2029}' || c == '\U{202F}' || c == '\U{205F}' || c == '\U{3000}'
  }

  predicate BlankLine(line: string) { forall i :: 0 <= i < |line| ==> IsBlank(line[i]) }

  function StripReturn(line: string): string {
    if line != [] && line[|line| - 1] == '\r' then line[..|line| - 1] else line
  }

  /** The lines ended so far, and the text after the last line end. */
  function Split(text: string): (seq<string>, string) {
    if text == [] then ([], [])
    else
      var n := |text| - 1;
      var (lines, tail) := Split(text[..n]);
      if text[n] == '\n' then (lines + [StripReturn(tail)], []) else (lines, tail + [text[n]])
  }

  /** The lines of a text; what follows the last line end is a line unless it is empty. */
  function Lines(text: string): seq<string> {
    var (lines, tail) := Split(text);
    if tail == [] then lines else lines + [tail]
  }

  /** Every line that is not blank, parsed; one that does not parse refuses the whole read. */
  function ParseLines(parse: string -> Option<Value>, lines: seq<string>): Option<seq<Value>> {
    if lines == [] then Some([])
    else
      var n := |lines| - 1;
      var before := ParseLines(parse, lines[..n]);
      if BlankLine(lines[n]) then before
      else
        var last := parse(lines[n]);
        if before.Some? && last.Some? then Some(before.value + [last.value]) else None
  }

  /** `read_all`: no journal yet reads as no records; a refusal is `None`. */
  function ReadAll(parse: string -> Option<Value>, file: File): Option<seq<Value>> {
    match file
    case Absent => Some([])
    case Present(text, isText) => if isText then ParseLines(parse, Lines(text)) else None
  }

  /** A reader that accepts nothing outside the grammar of JSON. */
  ghost predicate OnlyJson(parse: string -> Option<Value>) {
    forall t {:trigger IsJson(t)} :: parse(t).Some? ==> IsJson(t)
  }

  /** The reader gives this record back as it was written. */
  ghost predicate ReadsBack(parse: string -> Option<Value>, r: Value) { parse(Print(r)) == Some(r) }

  /** The journal's reader: it gives back every record the serializer holds exactly. */
  ghost predicate KeepsRecords(parse: string -> Option<Value>) {
    OnlyJson(parse) && forall r :: StorableRecord(r) ==> ReadsBack(parse, r)
  }

  /** A line is read back without its line end, which may be a line feed or a carriage return and one. */
  lemma LineEndsEitherWay(text: string, line: string, returned: bool)
    requires '\n' !in line && (line != [] ==> line[|line| - 1] != '\r') && Split(text).1 == []
    ensures Split(text + (line + (if returned then "\r" else "")) + "\n") == (Split(text).0 + [line], [])
  {
    var ended := line + (if returned then "\r" else "");
    SplitAppend(text, ended);
    SplitNewline(text + ended);
    assert [] + ended == ended && StripReturn(ended) == line;
  }

  /** A line of white space is no record and refuses nothing. */
  lemma BlankLinesPass(parse: string -> Option<Value>, lines: seq<string>, blank: string)
    requires forall i :: 0 <= i < |blank| ==> blank[i] as int in WHITE_SPACE
    ensures ParseLines(parse, lines + [blank]) == ParseLines(parse, lines)
  {
    assert (lines + [blank])[..|lines|] == lines;
  }

  /** The code points of white space in the Unicode character database. */
  const WHITE_SPACE := {
    9, 10, 11, 12, 13, 32, 0x85, 0xA0, 0x1680, 0x2000, 0x2001, 0x2002, 0x2003, 0x2004, 0x2005, 0x2006, 0x2007, 0x2008,
    0x2009, 0x200A, 0x2028, 0x2029, 0x202F, 0x205F, 0x3000}

  lemma BlankExactly(c: char)
    ensures IsBlank(c) <==> c as int in WHITE_SPACE
  {
  }

  // ---- Appending ----

  /** One append: how many characters of the line reached the file, and whether the cut fell inside one
      character's encoding. All of the line is a whole append. */
  datatype Append = Append(record: Value, kept: nat, cut: bool)

  function WholeAppend(r: Value): Append { Append(r, |LineOf(r)|, false) }

  predicate Possible(a: Append) {
    && IsRecord(a.record) && a.kept <= |LineOf(a.record)|
    && (a.cut ==> 0 < a.kept < |Print(a.record)|)
  }

  /** What the reader must do with the records of one log: accept only JSON, and give each record back. */
  ghost predicate Reads(parse: string -> Option<Value>, log: seq<Append>) {
    && OnlyJson(parse)
    && forall i {:trigger ReadsBack(parse, log[i].record)} :: 0 <= i < |log| ==> ReadsBack(parse, log[i].record)
  }

  predicate AllPossible(log: seq<Append>) {
    forall i {:trigger Possible(log[i])} :: 0 <= i < |log| ==> Possible(log[i])
  }

  predicate WholeText(a: Append) { |Print(a.record)| <= a.kept }

  predicate NewlineLost(a: Append) { a.kept == |Print(a.record)| }

  function TextOf(file: File): string {
    if file.Absent? then [] else file.text
  }

  /** The file after `log`, the newest append last. */
  function Written(log: seq<Append>): File
    requires AllPossible(log)
  {
    if log == [] then Absent
    else
      var n := |log| - 1;
      Appended(Written(log[..n]), log[n])
  }

  function Appended(file: File, a: Append): File
    requires Possible(a)
  {
    Present(TextOf(file) + LineOf(a.record)[..a.kept], (file.Absent? || file.isText) && !a.cut)
  }

  class JournalFile {
    var file: File

    constructor ()
      ensures file == Absent
    {
      file := Absent;
    }

    /** Append one record; `kept` characters reach the file, and restricting its mode may fail after. */
    method AppendRecord(a: Append, opens: bool, restricted: bool) returns (written: bool)
      requires Possible(a)
      modifies this
      ensures opens ==> file == Appended(old(file), a)
      ensures !opens ==> file == old(file)
      ensures written <==> opens && restricted && a.kept == |LineOf(a.record)|
    {
      if !opens {
        return false;
      }
      var line := LineOf(a.record);
      var text, isText := [], true;
      if file.Present? {
        text, isText := file.text, file.isText;
      }
      file := Present(text + line[..a.kept], isText && !a.cut);
      if a.kept < |line| {
        return false;
      }
      return restricted;
    }
  }

  // ---- What torn appends read back as ----

  /** Each record is wholly absent or wholly present, and nothing was written behind one whose line end
      was lost. */
  predicate Clean(log: seq<Append>) {
    && (forall i :: 0 <= i < |log| ==> log[i].kept == 0 || WholeText(log[i]))
    && (forall i, j :: 0 <= i < j < |log| && NewlineLost(log[i]) ==> log[j].kept == 0)
  }

  /** The records wholly on file. */
  function Survivors(log: seq<Append>): seq<Value> {
    if log == [] then []
    else
      var n := |log| - 1;
      Survivors(log[..n]) + (if WholeText(log[n]) then [log[n].record] else [])
  }

  lemma {:induction false} SplitAppend(x: string, p: string)
    requires '\n' !in p
    ensures Split(x + p) == (Split(x).0, Split(x).1 + p)
  {
    if p == [] {
      assert x + p == x && Split(x).1 + p == Split(x).1;
    } else {
      var n := |p| - 1;
      assert (x + p)[..|x + p| - 1] == x + p[..n];
      SplitAppend(x, p[..n]);
      assert Split(x).1 + p[..n] + [p[n]] == Split(x).1 + p;
    }
  }

  lemma SplitNewline(x: string)
    ensures Split(x + "\n") == (Split(x).0 + [StripReturn(Split(x).1)], [])
  {
    assert (x + "\n")[..|x|] == x;
  }

  /** What the last, unended line of the file holds after `log`. */
  datatype Tail = Nothing | Holds(record: Value) | Torn

  /** The journal seen as records: those on ended lines (`None` once such a line is no record), and the tail. */
  datatype View = View(ended: Option<seq<Value>>, tail: Tail)

  function ViewOf(log: seq<Append>): View {
    if log == [] then View(Some([]), Nothing) else Extend(ViewOf(log[..|log| - 1]), log[|log| - 1])
  }

  function Extend(v: View, a: Append): View {
    if a.kept == 0 then v
    else if a.kept < |Print(a.record)| then v.(tail := Torn)
    else if NewlineLost(a) then v.(tail := if v.tail.Nothing? then Holds(a.record) else Torn)
    else
      View(LineAdded(v, a.record), Nothing)
  }

  /** The records on ended lines once `r` and a line end are written. */
  function LineAdded(v: View, r: Value): Option<seq<Value>> {
    if v.ended.Some? && v.tail.Nothing? then Some(v.ended.value + [r]) else None
  }

  /** How the view of a log shows in its text. */
  ghost predicate Shows(parse: string -> Option<Value>, v: View, text: string) {
    var (lines, tail) := Split(text);
    && ParseLines(parse, lines) == v.ended
    && (tail != [] ==> tail[0] == '{')
    && match v.tail
       case Nothing => tail == []
       case Holds(r) => IsRecord(r) && ReadsBack(parse, r) && tail == Print(r)
       case Torn => tail != [] && Stuck(Run(START, tail))
  }

  /** The tail after a non-empty piece of a record text. */
  lemma PieceExtendsTail(parse: string -> Option<Value>, v: View, text: string, r: Value, k: nat)
    requires Shows(parse, v, text) && IsRecord(r) && 0 < k <= |Print(r)|
    ensures var tail := Split(text).1 + Print(r)[..k];
            && tail != [] && tail[0] == '{' && tail[|tail| - 1] != '\r'
            && (v.tail.Nothing? && k == |Print(r)| ==> tail == Print(r))
            && (!v.tail.Nothing? || k < |Print(r)| ==> Stuck(Run(START, tail)))
  {
    var before, piece := Split(text).1, Print(r)[..k];
    RecordText(r);
    PrintOneLine(r);
    RunConcat(START, before, piece);
    match v.tail
    case Nothing =>
      assert before + piece == piece;
      if k < |Print(r)| { ProperPrefixIsStuck(r, k); }
    case Holds(q) =>
      PrintRuns(q, START, []);
      PieceAfterWhole(r, k);
    case Torn =>
      PieceStaysStuck(Run(START, before), r, k);
  }

  lemma NoNewline(s: string)
    requires OneLine(s)
    ensures '\n' !in s
  {
    assert '\n' < ' ';
  }

  lemma ExtendShows(parse: string -> Option<Value>, v: View, text: string, a: Append)
    requires OnlyJson(parse) && ReadsBack(parse, a.record) && Shows(parse, v, text) && Possible(a)
    ensures Shows(parse, Extend(v, a), text + LineOf(a.record)[..a.kept])
  {
    if a.kept == 0 {
      assert text + LineOf(a.record)[..a.kept] == text;
    } else if a.kept <= |Print(a.record)| {
      PieceShows(parse, v, text, a);
    } else {
      assert LineOf(a.record)[..a.kept] == LineOf(a.record);
      WholeLineShows(parse, v, text, a.record);
    }
  }

  lemma PieceShows(parse: string -> Option<Value>, v: View, text: string, a: Append)
    requires Shows(parse, v, text) && ReadsBack(parse, a.record) && Possible(a) && 0 < a.kept <= |Print(a.record)|
    ensures Shows(parse, Extend(v, a), text + LineOf(a.record)[..a.kept])
  {
    var piece := Print(a.record)[..a.kept];
    assert LineOf(a.record)[..a.kept] == piece;
    PrintOneLine(a.record);
    NoNewline(piece);
    SplitAppend(text, piece);
    PieceExtendsTail(parse, v, text, a.record, a.kept);
  }

  lemma WholeLineShows(parse: string -> Option<Value>, v: View, text: string, r: Value)
    requires OnlyJson(parse) && ReadsBack(parse, r) && Shows(parse, v, text) && IsRecord(r)
    ensures Shows(parse, View(LineAdded(v, r), Nothing), text + LineOf(r))
  {
    var t := Print(r);
    var lines, line := Split(text).0, Split(text).1 + t;
    assert t[..|t|] == t;
    PrintOneLine(r);
    NoNewline(t);
    SplitAppend(text, t);
    PieceExtendsTail(parse, v, text, r, |t|);
    SplitNewline(text + t);
    assert text + LineOf(r) == text + t + "\n";
    assert (lines + [line])[..|lines|] == lines;
    LineParses(parse, v, lines, line, r);
  }

  /** A line that is one whole record parses to it; one with anything torn before the record does not parse. */
  lemma LineParses(parse: string -> Option<Value>, v: View, lines: seq<string>, line: string, r: Value)
    requires OnlyJson(parse) && ReadsBack(parse, r) && IsRecord(r) && ParseLines(parse, lines) == v.ended
    requires line != [] && line[0] == '{'
    requires v.tail.Nothing? ==> line == Print(r)
    requires !v.tail.Nothing? ==> Stuck(Run(START, line))
    ensures ParseLines(parse, lines + [line]) == LineAdded(v, r)
  {
    assert (lines + [line])[..|lines|] == lines;
    assert !BlankLine(line) by { assert !IsBlank(line[0]); }
    if !v.tail.Nothing? {
      assert !IsJson(line);
      assert parse(line).None?;
    }
  }

  lemma {:induction false} WrittenShows(parse: string -> Option<Value>, log: seq<Append>)
    requires Reads(parse, log) && AllPossible(log)
    ensures Shows(parse, ViewOf(log), TextOf(Written(log)))
  {
    if log == [] {
      assert Split([]) == ([], []);
    } else {
      var n := |log| - 1;
      WrittenShows(parse, log[..n]);
      ExtendShows(parse, ViewOf(log[..n]), TextOf(Written(log[..n])), log[n]);
    }
  }

  lemma {:induction false} WrittenIsText(log: seq<Append>)
    requires AllPossible(log) && log != []
    ensures Written(log).isText <==> forall i :: 0 <= i < |log| ==> !log[i].cut
  {
    var n := |log| - 1;
    var before := log[..n];
    assert forall i :: 0 <= i < n ==> before[i] == log[i];
    if n == 0 {
      assert Written(before) == Absent;
    } else {
      WrittenIsText(before);
    }
    assert Written(log).isText <==> (n == 0 || Written(before).isText) && !log[n].cut;
  }

  /** Reading the text of a view. */
  lemma ShownReads(parse: string -> Option<Value>, v: View, text: string)
    requires OnlyJson(parse) && Shows(parse, v, text)
    ensures ParseLines(parse, Lines(text)) ==
              match v.tail
              case Nothing => v.ended
              case Holds(r) => (if v.ended.Some? then Some(v.ended.value + [r]) else None)
              case Torn => None
  {
    var (lines, tail) := Split(text);
    if tail != [] {
      assert (lines + [tail])[..|lines|] == lines;
      assert !BlankLine(tail) by { assert !IsBlank(tail[0]); }
      if v.tail.Torn? {
        assert !IsJson(tail);
        assert parse(tail).None?;
      }
    }
  }

  predicate NothingPending(log: seq<Append>) { forall i :: 0 <= i < |log| ==> !NewlineLost(log[i]) }

  /** How one more append changes what reads back. */
  lemma CleanAppended(log: seq<Append>, a: Append)
    requires Possible(a)
    ensures Clean(log + [a]) <==> Clean(log) && (a.kept == 0 || (WholeText(a) && NothingPending(log)))
    ensures NothingPending(log + [a]) <==> NothingPending(log) && !NewlineLost(a)
    ensures Survivors(log + [a]) == Survivors(log) + (if WholeText(a) then [a.record] else [])
  {
    var longer := log + [a];
    assert longer[..|log|] == log;
    assert forall i :: 0 <= i < |log| ==> longer[i] == log[i];
    assert longer[|log|] == a;
    RecordText(a.record);
  }

  /** A log and one more append. */
  lemma LogAppended(parse: string -> Option<Value>, log: seq<Append>, a: Append)
    requires Reads(parse, log) && AllPossible(log) && ReadsBack(parse, a.record) && Possible(a)
    ensures Reads(parse, log + [a]) && AllPossible(log + [a])
  {
    var longer := log + [a];
    forall i | 0 <= i < |longer| ensures ReadsBack(parse, longer[i].record) && Possible(longer[i]) {
      assert longer[i] == if i < |log| then log[i] else a;
    }
  }

  /** The log of records appended whole, one after the other. */
  function WholeLog(records: seq<Value>): (log: seq<Append>)
    ensures |log| == |records|
  {
    seq(|records|, i requires 0 <= i < |records| => WholeAppend(records[i]))
  }

  lemma WholeLogReads(parse: string -> Option<Value>, records: seq<Value>)
    requires KeepsRecords(parse) && forall i :: 0 <= i < |records| ==> StorableRecord(records[i])
    ensures AllPossible(WholeLog(records)) && Reads(parse, WholeLog(records))
    ensures forall m :: 0 <= m <= |records| ==> Clean(WholeLog(records)[..m])
  {
    forall i | 0 <= i < |records| ensures ReadsBack(parse, WholeLog(records)[i].record) {
      assert StorableRecord(records[i]);
    }
  }

  lemma {:induction false} ViewIsClean(log: seq<Append>)
    requires AllPossible(log)
    ensures var v := ViewOf(log);
            && (Clean(log) <==> v.ended.Some? && !v.tail.Torn?)
            && (Clean(log) && v.tail.Nothing? ==> v.ended.value == Survivors(log) && NothingPending(log))
            && (Clean(log) && v.tail.Holds? ==>
                  v.ended.value + [v.tail.record] == Survivors(log) && !NothingPending(log))
  {
    if log != [] {
      var n := |log| - 1;
      ViewIsClean(log[..n]);
      assert Possible(log[n]);
      RecordText(log[n].record);
      assert log == log[..n] + [log[n]];
      CleanAppended(log[..n], log[n]);
    }
  }

  /** For every log of appends, however many were cut short and wherever: a read answers exactly the records
      wholly on file, in order, when every record is wholly there or not at all and no line end was lost
      before more was written; otherwise it is refused. No read ever answers anything else. */
  lemma TornAppendsNeverMisread(parse: string -> Option<Value>, log: seq<Append>)
    requires Reads(parse, log) && AllPossible(log)
    ensures ReadAll(parse, Written(log)) == if Clean(log) then Some(Survivors(log)) else None
  {
    if log != [] {
      WrittenShows(parse, log);
      WrittenIsText(log);
      ShownReads(parse, ViewOf(log), Written(log).text);
      ViewIsClean(log);
      if Clean(log) { CleanIsUncut(log); }
    }
  }

  lemma CleanIsUncut(log: seq<Append>)
    requires AllPossible(log) && Clean(log)
    ensures forall i :: 0 <= i < |log| ==> !log[i].cut
  {
    forall i | 0 <= i < |log| ensures !log[i].cut { assert Possible(log[i]); }
  }
}
