/** How arriving bytes become whole server-sent events. */
module Framer {
  import opened Common
  import Utf8

  datatype Event = Event(name: Option<string>, data: string)

  /** What is held between chunks: the unended line, and the fields of the unended event. */
  datatype State = State(buffer: string, name: Option<string>, data: seq<string>)

  const FRESH := State([], None, [])

  function IndexOf(s: string, c: char): (i: nat)
    requires c in s
    ensures i < |s| && s[i] == c && c !in s[..i]
  {
    if s[0] == c then 0
    else
      assert s == [s[0]] + s[1..];
      var i := IndexOf(s[1..], c);
      assert s[..i + 1] == [s[0]] + s[1..][..i];
      i + 1
  }

  function TrimReturns(line: string): string {
    if line != [] && line[|line| - 1] == '\r' then TrimReturns(line[..|line| - 1]) else line
  }

  /** The field a line names and its value, less one space after the colon. */
  function FieldOf(line: string): (string, string) {
    if ':' in line then
      var i := IndexOf(line, ':');
      var value := line[i + 1..];
      (line[..i], if value != [] && value[0] == ' ' then value[1..] else value)
    else (line, "")
  }

  function Join(data: seq<string>): string {
    if data == [] then [] else if |data| == 1 then data[0] else data[0] + "\n" + Join(data[1..])
  }

  /** One whole line, its line end removed. */
  function OnLine(s: State, line: string): (State, seq<Event>) {
    if line == [] then
      if s.data != [] then (s.(name := None, data := []), [Event(s.name, Join(s.data))]) else (s.(name := None), [])
    else if line[0] == ':' then (s, [])
    else
      var (field, value) := FieldOf(line);
      if field == "event" then (s.(name := Some(value)), [])
      else if field == "data" then (s.(data := s.data + [value]), [])
      else (s, [])
  }

  function OnChar(s: State, c: char): (State, seq<Event>) {
    if c == '\n' then OnLine(s.(buffer := []), TrimReturns(s.buffer)) else (s.(buffer := s.buffer + [c]), [])
  }

  /** The framing as a machine over characters, which knows nothing of chunks. */
  function Frame(s: State, text: string): (State, seq<Event>)
    decreases |text|
  {
    if text == [] then (s, [])
    else
      var (next, events) := OnChar(s, text[0]);
      var (end, more) := Frame(next, text[1..]);
      (end, events + more)
  }

  class SseFramer {
    var buffer: string
    var event: Option<string>
    var data: seq<string>

    ghost function Now(): State
      reads this
    {
      State(buffer, event, data)
    }

    ghost predicate Valid()
      reads this
    {
      '\n' !in buffer
    }

    constructor ()
      ensures Valid() && Now() == FRESH
    {
      buffer, event, data := [], None, [];
    }

    /** One whole line; a blank one completes the event whose data has been gathered. */
    method TakeLine(line: string) returns (completed: seq<Event>)
      modifies this`event, this`data
      ensures (State([], event, data), completed) == OnLine(State([], old(event), old(data)), line)
    {
      completed := [];
      if line == [] {
        if data != [] {
          completed := [Event(event, Join(data))];
          event := None;
          data := [];
        } else {
          event := None;
        }
      } else if line[0] != ':' {
        var (field, value) := FieldOf(line);
        if field == "event" {
          event := Some(value);
        } else if field == "data" {
          data := data + [value];
        }
      }
    }

    /** One chunk, decoded on its own: the events are those of the character machine. */
    method Feed(chunk: Bytes) returns (events: seq<Event>)
      requires Valid()
      modifies this
      ensures Valid() && (Now(), events) == Frame(old(Now()), Utf8.Lossy(chunk))
    {
      ghost var text := Utf8.Lossy(chunk);
      ghost var whole := Frame(Now(), text);
      Buffered(FRESH.(name := event, data := data), buffer, text);
      assert FRESH.buffer + buffer == buffer;
      buffer := buffer + Utf8.Lossy(chunk);
      events := [];
      assert [] + whole.1 == whole.1;
      while '\n' in buffer
        invariant Remaining(whole, events, State([], event, data), buffer)
        decreases |buffer|
      {
        var end := IndexOf(buffer, '\n');
        var line := TrimReturns(buffer[..end]);
        ghost var before := State([], event, data);
        var completed := TakeLine(line);
        LineTaken(whole, events, before, buffer, end, State([], event, data), completed);
        buffer := buffer[end + 1..];
        events := events + completed;
      }
      Buffered(State([], event, data), buffer, []);
      assert buffer + [] == buffer && [] + buffer == buffer && events + [] == events;
    }
  }

  /** Characters that end no line only lengthen the buffer. */
  lemma {:induction false} Buffered(s: State, x: string, rest: string)
    requires '\n' !in x
    ensures Frame(s, x + rest) == Frame(s.(buffer := s.buffer + x), rest)
    decreases |x|
  {
    if x == [] {
      assert x + rest == rest && s.buffer + x == s.buffer;
    } else {
      assert (x + rest)[1..] == x[1..] + rest;
      Buffered(s.(buffer := s.buffer + [x[0]]), x[1..], rest);
      assert s.buffer + [x[0]] + x[1..] == s.buffer + x;
      var more := Frame(s.(buffer := s.buffer + [x[0]]), x[1..] + rest).1;
      assert [] + more == more;
    }
  }

  /** What is still to come of `whole`, after `events`, from `s` and the text not yet looked at. */
  ghost predicate Remaining(whole: (State, seq<Event>), events: seq<Event>, s: State, text: string) {
    whole == (Frame(s, text).0, events + Frame(s, text).1)
  }

  lemma LineTaken(
      whole: (State, seq<Event>), events: seq<Event>, s: State, text: string, end: nat, s': State,
      completed: seq<Event>)
    requires Remaining(whole, events, s, text) && s.buffer == []
    requires end < |text| && text[end] == '\n' && '\n' !in text[..end]
    requires (s', completed) == OnLine(s, TrimReturns(text[..end]))
    ensures Remaining(whole, events + completed, s', text[end + 1..])
  {
    FirstLine(s, text, end);
    var more := Frame(s', text[end + 1..]).1;
    assert events + (completed + more) == events + completed + more;
  }

  lemma FirstLine(s: State, text: string, end: nat)
    requires s.buffer == [] && end < |text| && text[end] == '\n' && '\n' !in text[..end]
    ensures var (next, events) := OnLine(s, TrimReturns(text[..end]));
            var (last, more) := Frame(next, text[end + 1..]);
            Frame(s, text) == (last, events + more)
  {
    var line, rest := text[..end], text[end..];
    assert text == line + rest;
    Buffered(s, line, rest);
    assert [] + line == line && rest[1..] == text[end + 1..];
  }

  // ---- Chunks ----

  lemma {:induction false} FrameConcat(s: State, a: string, b: string)
    ensures var (mid, first) := Frame(s, a);
            var (end, second) := Frame(mid, b);
            Frame(s, a + b) == (end, first + second)
    decreases |a|
  {
    if a == [] {
      assert a + b == b && [] + Frame(s, b).1 == Frame(s, b).1;
    } else {
      assert (a + b)[1..] == a[1..] + b;
      var (next, events) := OnChar(s, a[0]);
      FrameConcat(next, a[1..], b);
      var (mid, first) := Frame(next, a[1..]);
      var second := Frame(mid, b).1;
      assert events + (first + second) == events + first + second;
    }
  }

  /** Feeding chunks one after the other, each decoded on its own. */
  function FrameChunks(s: State, chunks: seq<Bytes>): (State, seq<Event>)
    decreases |chunks|
  {
    if chunks == [] then (s, [])
    else
      var (next, events) := Frame(s, Utf8.Lossy(chunks[0]));
      var (end, more) := FrameChunks(next, chunks[1..]);
      (end, events + more)
  }

  lemma {:induction false} FrameChunksIsText(s: State, chunks: seq<Bytes>)
    ensures FrameChunks(s, chunks) == Frame(s, Utf8.DecodeEach(chunks))
    decreases |chunks|
  {
    if chunks != [] {
      FrameConcat(s, Utf8.Lossy(chunks[0]), Utf8.DecodeEach(chunks[1..]));
      FrameChunksIsText(Frame(s, Utf8.Lossy(chunks[0])).0, chunks[1..]);
    }
  }

  /** Wherever the network cut the bytes, the events are those of the whole text, as long as no cut falls
      inside a character. */
  lemma EventsIgnoreChunking(s: State, chunks: seq<Bytes>)
    requires Utf8.CutBetweenCharacters(chunks)
    ensures FrameChunks(s, chunks) == Frame(s, Utf8.Lossy(Utf8.Flatten(chunks)))
  {
    FrameChunksIsText(s, chunks);
    Utf8.ChunkedDecodingExactly(chunks);
  }

  /** A data field holding `value`. */
  function DataLineOf(value: string): string { "data" + [':'] + ([' '] + value) }

  /** A cut inside a character changes the event: after any chunk that ends in a data field, the two bytes of
      one letter fed in one chunk are that letter, and fed in two they are two replacement characters. */
  lemma CutInsideCharacterChangesEvent(lead: Bytes, before: string)
    requires Utf8.Lossy(lead) == DataLineOf(before) && '\n' !in before && '\r' !in before
    ensures FrameChunks(FRESH, [lead + [0xC3, 0xA9, 10, 10]]).1 == [Event(None, before + "\U{E9}")]
    ensures FrameChunks(FRESH, [lead, [0xC3], [0xA9, 10, 10]]).1 == [Event(None, before + "\U{FFFD}\U{FFFD}")]
  {
    DecodedLetter();
    DecodeWhole(lead, before);
    DecodeCut(lead, before);
    FrameChunksIsText(FRESH, [lead + [0xC3, 0xA9, 10, 10]]);
    FrameChunksIsText(FRESH, [lead, [0xC3], [0xA9, 10, 10]]);
    OneDataEvent(before + "\U{E9}");
    OneDataEvent(before + "\U{FFFD}\U{FFFD}");
  }

  lemma DecodeWhole(lead: Bytes, before: string)
    requires Utf8.Lossy(lead) == DataLineOf(before)
    ensures Utf8.DecodeEach([lead + [0xC3, 0xA9, 10, 10]]) == DataLineOf(before + "\U{E9}") + "\n\n"
  {
    DecodedLetter();
    var letter: Bytes := [0xC3, 0xA9, 10, 10];
    Utf8.StaysInRange(Utf8.Ground, lead);
    Utf8.TwoPiecesExactly(lead, letter);
    LongerValue(before, "\U{E9}", "\n\n");
    assert "\U{E9}\n\n" == "\U{E9}" + "\n\n";
    var chunks := [lead + letter];
    assert chunks[1..] == [] && Utf8.DecodeEach(chunks) == Utf8.Lossy(lead + letter) + [];
  }

  lemma DecodeCut(lead: Bytes, before: string)
    requires Utf8.Lossy(lead) == DataLineOf(before)
    ensures Utf8.DecodeEach([lead, [0xC3], [0xA9, 10, 10]]) == DataLineOf(before + "\U{FFFD}\U{FFFD}") + "\n\n"
  {
    DecodedLetter();
    LongerValue(before, "\U{FFFD}\U{FFFD}", "\n\n");
    assert "\U{FFFD}" + "\U{FFFD}\n\n" == "\U{FFFD}\U{FFFD}" + "\n\n";
    var first: Bytes, rest: Bytes := [0xC3], [0xA9, 10, 10];
    var chunks := [lead, first, rest];
    assert chunks[1..] == [first, rest] && [first, rest][1..] == [rest] && [rest][1..] == [];
    assert Utf8.DecodeEach([rest]) == Utf8.Lossy(rest) + [];
    assert Utf8.DecodeEach([first, rest]) == Utf8.Lossy(first) + Utf8.DecodeEach([rest]);
  }

  /** Such a chunk exists: the name of the field, a colon and a space. */
  lemma DataFieldOpens()
    ensures Utf8.Lossy([100, 97, 116, 97, 58, 32]) == DataLineOf("")
  {
    var bytes: Bytes := [100, 97, 116, 97, 58, 32];
    assert bytes[1..] == [97, 116, 97, 58, 32] && bytes[1..][1..] == [116, 97, 58, 32];
    assert bytes[1..][1..][1..] == [97, 58, 32] && bytes[1..][1..][1..][1..] == [58, 32];
    var ending: Bytes := [58, 32];
    assert ending[1..] == [32];
    assert Utf8.Decode(Utf8.Ground, [32]) == " ";
    assert Utf8.Decode(Utf8.Ground, ending) == ": ";
    assert Utf8.Decode(Utf8.Ground, bytes[1..][1..][1..]) == "a: ";
    assert Utf8.Decode(Utf8.Ground, bytes[1..][1..]) == "ta: ";
    assert Utf8.Decode(Utf8.Ground, bytes[1..]) == "ata: ";
  }

  lemma LongerValue(before: string, more: string, end: string)
    ensures DataLineOf(before) + (more + end) == DataLineOf(before + more) + end
  {
  }

  lemma DecodedLetter()
    ensures Utf8.StateAfter(Utf8.Ground, [0xC3]) == Utf8.Pending(1, 0x80, 0xBF, 3)
    ensures Utf8.Lossy([0xC3, 0xA9, 10, 10]) == "\U{E9}\n\n"
    ensures Utf8.Lossy([0xC3]) == "\U{FFFD}"
    ensures Utf8.Lossy([0xA9, 10, 10]) == "\U{FFFD}\n\n"
  {
    var mid := Utf8.Pending(1, 0x80, 0xBF, 3);
    var tail: Bytes := [10, 10];
    assert tail[1..] == [10];
    assert Utf8.Decode(Utf8.Ground, [10]) == "\n";
    assert Utf8.Decode(Utf8.Ground, tail) == "\n\n";
    var letter: Bytes := [0xA9, 10, 10];
    assert letter[1..] == tail;
    assert Utf8.Decode(mid, letter) == "\U{E9}" + "\n\n";
    var whole: Bytes := [0xC3, 0xA9, 10, 10];
    assert whole[1..] == letter;
    assert Utf8.Decode(Utf8.Ground, letter) == "\U{FFFD}" + "\n\n";
  }

  /** One data field and a blank line make one event. */
  lemma OneDataEvent(value: string)
    requires '\n' !in value && value != [] && value[|value| - 1] != '\r'
    ensures Frame(FRESH, DataLineOf(value) + "\n\n").1 == [Event(None, value)]
  {
    DataThenBlank(FRESH, value, 0, 0);
    assert DataLineOf(value) + Returns(0) + "\n" + (Returns(0) + "\n") == DataLineOf(value) + "\n\n";
    assert [] + [value] == [value];
  }

  lemma {:induction false} IndexOfFirst(before: string, c: char, after: string)
    requires c !in before
    ensures c in before + [c] + after && IndexOf(before + [c] + after, c) == |before|
  {
    var s := before + [c] + after;
    assert s[|before|] == c;
    if before != [] {
      assert s[1..] == before[1..] + [c] + after;
      IndexOfFirst(before[1..], c, after);
    }
  }

  /** A field named before the colon, and its value after one space. */
  lemma FieldNamed(field: string, value: string)
    requires ':' !in field
    ensures FieldOf(field + [':'] + ([' '] + value)) == (field, value)
  {
    var line := field + [':'] + ([' '] + value);
    IndexOfFirst(field, ':', [' '] + value);
    assert line[..|field|] == field && line[|field| + 1..] == [' '] + value;
    assert ([' '] + value)[1..] == value;
  }

  // ---- A cut inside any character of a data field ----

  function Returns(n: nat): (s: string)
    ensures |s| == n && forall i :: 0 <= i < n ==> s[i] == '\r'
  {
    seq(n, _ => '\r')
  }

  /** A line end and a blank line, each with any number of carriage returns before it. */
  function EventEnd(a: nat, b: nat): string { Returns(a) + "\n" + (Returns(b) + "\n") }

  function EventEndBytes(a: nat, b: nat): Bytes { seq(a, _ => 13) + [10] + (seq(b, _ => 13) + [10]) }

  lemma {:induction false} TrimmedReturns(line: string, n: nat)
    requires line == [] || line[|line| - 1] != '\r'
    ensures TrimReturns(line + Returns(n)) == line
  {
    var longer := line + Returns(n);
    if n == 0 {
      assert longer == line;
    } else {
      assert longer[|longer| - 1] == '\r' && longer[..|longer| - 1] == line + Returns(n - 1);
      TrimmedReturns(line, n - 1);
    }
  }

  /** One line and its end, from a state between lines. */
  lemma TakesLine(s: State, line: string, n: nat, rest: string)
    requires s.buffer == [] && '\n' !in line && (line == [] || line[|line| - 1] != '\r')
    ensures var (next, events) := OnLine(s, line);
            Frame(s, line + Returns(n) + "\n" + rest) == (Frame(next, rest).0, events + Frame(next, rest).1)
  {
    var text := line + Returns(n) + "\n" + rest;
    var end := |line| + n;
    assert text[..end] == line + Returns(n) && text[end] == '\n' && text[end + 1..] == rest;
    TrimmedReturns(line, n);
    FirstLine(s, text, end);
  }

  /** A data field adds its value. */
  lemma DataGathered(s: State, value: string)
    ensures OnLine(s, DataLineOf(value)) == (s.(data := s.data + [value]), [])
  {
    FieldNamed("data", value);
    assert "data"[0] == 'd' && "event"[0] == 'e';
  }

  /** A data field, its line end and a blank line complete one event. */
  lemma DataThenBlank(s: State, value: string, a: nat, b: nat)
    requires s.buffer == [] && '\n' !in value && value != [] && value[|value| - 1] != '\r'
    ensures Frame(s, DataLineOf(value) + Returns(a) + "\n" + (Returns(b) + "\n")).1 ==
              [Event(s.name, Join(s.data + [value]))]
  {
    var gathered := s.(data := s.data + [value]);
    var blank := Returns(b) + "\n";
    TakesLine(s, DataLineOf(value), a, blank);
    DataGathered(s, value);
    TakesLine(gathered, [], b, []);
    assert [] + Returns(b) + "\n" + [] == blank;
    var completed := [Event(s.name, Join(gathered.data))];
    assert [] + (completed + []) == completed;
  }

  /** The rest of a data field's value, a line end and a blank line complete one event. */
  lemma DataCompletesEvent(s: State, before: string, value: string, a: nat, b: nat)
    requires s.buffer == DataLineOf(before) && '\n' !in before && '\n' !in value
    requires value != [] && value[|value| - 1] != '\r'
    ensures Frame(s, value + EventEnd(a, b)).1 == [Event(s.name, Join(s.data + [before + value]))]
  {
    var between := s.(buffer := []);
    var blank := Returns(b) + "\n";
    var text := value + EventEnd(a, b);
    Buffered(between, DataLineOf(before), text);
    assert [] + DataLineOf(before) == DataLineOf(before);
    DataThenBlank(between, before + value, a, b);
    LongerValue(before, value, EventEnd(a, b));
    assert DataLineOf(before + value) + EventEnd(a, b) == DataLineOf(before + value) + Returns(a) + "\n" + blank;
  }

  lemma EndDecodes(a: nat, b: nat)
    ensures Utf8.Lossy(EventEndBytes(a, b)) == EventEnd(a, b)
  {
    Utf8.AsciiDecodes(EventEndBytes(a, b), EventEnd(a, b));
  }

  /** The text of a value's bytes and the end of its event. */
  lemma ValueDecodes(w: Bytes, a: nat, b: nat)
    requires w != [] && 10 !in w && w[|w| - 1] != 13
    ensures Utf8.Lossy(w + EventEndBytes(a, b)) == Utf8.Lossy(w) + EventEnd(a, b)
    ensures '\n' !in Utf8.Lossy(w) && Utf8.Lossy(w) != [] && Utf8.Lossy(w)[|Utf8.Lossy(w)| - 1] != '\r'
  {
    Utf8.StaysInRange(Utf8.Ground, w);
    Utf8.TwoPiecesExactly(w, EventEndBytes(a, b));
    EndDecodes(a, b);
    Utf8.AsciiFromItsByte(Utf8.Ground, w, '\n');
    Utf8.LastFromItsByte(w, '\r');
  }

  lemma {:induction false} JoinGrows(data: seq<string>, x: string, y: string)
    requires |x| < |y|
    ensures |Join(data + [x])| < |Join(data + [y])|
  {
    if data == [] {
      assert data + [x] == [x] && data + [y] == [y];
    } else {
      assert (data + [x])[1..] == data[1..] + [x] && (data + [y])[1..] == data[1..] + [y];
      JoinGrows(data[1..], x, y);
    }
  }

  /** The value of a data field cut in two, in any state of the framer: the event it completes is the one of
      the uncut value exactly when the cut falls inside no character. */
  lemma CutChangesEventExactly(s: State, before: string, u: Bytes, w: Bytes, a: nat, b: nat)
    requires s.buffer == DataLineOf(before) && '\n' !in before
    requires w != [] && 10 !in u && 10 !in w && w[|w| - 1] != 13
    ensures FrameChunks(s, [u + w + EventEndBytes(a, b)]).1 ==
              [Event(s.name, Join(s.data + [before + Utf8.Lossy(u + w)]))]
    ensures FrameChunks(s, [u, w + EventEndBytes(a, b)]).1 ==
              [Event(s.name, Join(s.data + [before + (Utf8.Lossy(u) + Utf8.Lossy(w))]))]
    ensures FrameChunks(s, [u + w + EventEndBytes(a, b)]).1 == FrameChunks(s, [u, w + EventEndBytes(a, b)]).1
            <==> !Utf8.SplitsCharacter(u, w)
  {
    WholeValueFramed(s, before, u, w, a, b);
    CutValueFramed(s, before, u, w, a, b);
    Utf8.TwoPiecesExactly(u, w);
    if Utf8.SplitsCharacter(u, w) {
      JoinGrows(s.data, before + Utf8.Lossy(u + w), before + (Utf8.Lossy(u) + Utf8.Lossy(w)));
    }
  }

  lemma WholeValueFramed(s: State, before: string, u: Bytes, w: Bytes, a: nat, b: nat)
    requires s.buffer == DataLineOf(before) && '\n' !in before
    requires w != [] && 10 !in u && 10 !in w && w[|w| - 1] != 13
    ensures FrameChunks(s, [u + w + EventEndBytes(a, b)]).1 ==
              [Event(s.name, Join(s.data + [before + Utf8.Lossy(u + w)]))]
  {
    var chunk := u + w + EventEndBytes(a, b);
    ValueDecodes(u + w, a, b);
    DataCompletesEvent(s, before, Utf8.Lossy(u + w), a, b);
    var chunks := [chunk];
    FrameChunksIsText(s, chunks);
    assert chunks[1..] == [] && Utf8.DecodeEach(chunks) == Utf8.Lossy(chunk) + [] == Utf8.Lossy(chunk);
  }

  lemma CutValueFramed(s: State, before: string, u: Bytes, w: Bytes, a: nat, b: nat)
    requires s.buffer == DataLineOf(before) && '\n' !in before
    requires w != [] && 10 !in u && 10 !in w && w[|w| - 1] != 13
    ensures FrameChunks(s, [u, w + EventEndBytes(a, b)]).1 ==
              [Event(s.name, Join(s.data + [before + (Utf8.Lossy(u) + Utf8.Lossy(w))]))]
  {
    var second := w + EventEndBytes(a, b);
    var value := Utf8.Lossy(u) + Utf8.Lossy(w);
    ValueDecodes(w, a, b);
    Utf8.AsciiFromItsByte(Utf8.Ground, u, '\n');
    DataCompletesEvent(s, before, value, a, b);
    var chunks, rest := [u, second], [second];
    FrameChunksIsText(s, chunks);
    assert chunks[1..] == rest && rest[1..] == [];
    assert Utf8.DecodeEach(rest) == Utf8.Lossy(second) + [] == Utf8.Lossy(second);
    assert Utf8.DecodeEach(chunks) == value + EventEnd(a, b);
  }

  // ---- What whole lines mean ----

  /** A line of an event: a comment, a field with a value after a colon and at most one space, or the bare name
      of a field. */
  datatype Line = Comment(text: string) | Valued(field: string, value: string, spaced: bool) | Bare(field: string)

  function TextOf(line: Line): string {
    match line
    case Comment(text) => [':'] + text
    case Valued(field, value, spaced) => field + [':'] + (if spaced then [' '] + value else value)
    case Bare(field) => field
  }

  /** The line's own text tells its parts. */
  predicate Readable(line: Line) {
    && '\n' !in TextOf(line) && (TextOf(line) != [] ==> TextOf(line)[|TextOf(line)| - 1] != '\r')
    && match line
       case Comment(_) => true
       case Valued(field, value, spaced) =>
         field != [] && ':' !in field && (!spaced ==> value == [] || value[0] != ' ')
       case Bare(field) => field != [] && ':' !in field
  }

  /** What a line adds to the event under way: the newest `event` names it, each `data` is one more line of its
      data, and anything else is passed over. */
  function Adds(s: State, line: Line): State {
    match line
    case Comment(_) => s
    case Valued(field, value, _) =>
      if field == "event" then s.(name := Some(value))
      else if field == "data" then s.(data := s.data + [value])
      else s
    case Bare(field) =>
      if field == "event" then s.(name := Some(""))
      else if field == "data" then s.(data := s.data + [""])
      else s
  }

  /** The field and value of a line with a colon, less one space after it. */
  lemma ColonSplits(field: string, after: string)
    requires ':' !in field
    ensures FieldOf(field + [':'] + after) == (field, if after != [] && after[0] == ' ' then after[1..] else after)
  {
    var text := field + [':'] + after;
    IndexOfFirst(field, ':', after);
    assert text[..|field|] == field && text[|field| + 1..] == after;
  }

  lemma FieldRead(line: Line)
    requires Readable(line) && !line.Comment?
    ensures TextOf(line) != [] && TextOf(line)[0] != ':'
    ensures FieldOf(TextOf(line)) == (line.field, if line.Bare? then "" else line.value)
  {
    if line.Valued? {
      ColonSplits(line.field, if line.spaced then [' '] + line.value else line.value);
      assert ([' '] + line.value)[1..] == line.value;
    }
  }

  lemma LineRead(s: State, line: Line)
    requires Readable(line)
    ensures OnLine(s, TextOf(line)) == (Adds(s, line), [])
  {
    if !line.Comment? { FieldRead(line); }
  }

  /** The lines of an event, each with its line end. */
  function Block(lines: seq<Line>): string {
    if lines == [] then [] else TextOf(lines[0]) + "\n" + Block(lines[1..])
  }

  function AddsAll(s: State, lines: seq<Line>): State
    decreases |lines|
  {
    if lines == [] then s else AddsAll(Adds(s, lines[0]), lines[1..])
  }

  lemma {:induction false} BlockRead(s: State, lines: seq<Line>, rest: string)
    requires s.buffer == [] && forall i :: 0 <= i < |lines| ==> Readable(lines[i])
    ensures AddsAll(s, lines).buffer == [] && Frame(s, Block(lines) + rest) == Frame(AddsAll(s, lines), rest)
    decreases |lines|
  {
    if lines == [] {
      assert Block(lines) + rest == rest;
    } else {
      var text, more := TextOf(lines[0]), Block(lines[1..]) + rest;
      LineRead(s, lines[0]);
      assert Block(lines) + rest == text + Returns(0) + "\n" + more;
      TakesLine(s, text, 0, more);
      var after := Frame(Adds(s, lines[0]), more).1;
      assert [] + after == after;
      BlockRead(Adds(s, lines[0]), lines[1..], rest);
    }
  }

  /** Whatever lines come before a blank line, the event it completes has the newest name given since the last
      one and every data line since, joined by line ends; without data there is no event, and either way
      nothing is carried over. */
  lemma BlockFramed(s: State, lines: seq<Line>)
    requires s.buffer == [] && forall i :: 0 <= i < |lines| ==> Readable(lines[i])
    ensures var gathered := AddsAll(s, lines);
            Frame(s, Block(lines) + "\n") ==
              (State([], None, []), if gathered.data == [] then [] else [Event(gathered.name, Join(gathered.data))])
  {
    var gathered := AddsAll(s, lines);
    BlockRead(s, lines, "\n");
    TakesLine(gathered, [], 0, []);
    assert [] + Returns(0) + "\n" + [] == "\n";
    var events := OnLine(gathered, []).1;
    assert events + [] == events;
  }

  lemma {:induction false} JoinAppends(data: seq<string>, value: string)
    ensures Join([value]) == value
    ensures data != [] ==> Join(data + [value]) == Join(data) + "\n" + value
  {
    if |data| == 1 {
      assert (data + [value])[1..] == [value];
    } else if |data| > 1 {
      assert (data + [value])[1..] == data[1..] + [value];
      JoinAppends(data[1..], value);
    }
  }
}
