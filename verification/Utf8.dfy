/** Lossy UTF-8 decoding, one byte at a time (table 3-7 of the Unicode standard): each maximal ill-formed
    piece becomes one replacement character.
  */
module Utf8 {
  import opened Common

  const REPLACEMENT := '\U{FFFD}'

  /** Between characters, or inside one: `need` more bytes, the next of them between `lo` and `hi`. */
  datatype State = Ground | Pending(need: nat, lo: Byte, hi: Byte, code: nat)

  function Scalar(code: nat): char {
    if code < 0xD800 || 0xE000 <= code < 0x11_0000 then code as char else REPLACEMENT
  }

  /** A byte met between characters. */
  function Lead(b: Byte): (State, string) {
    if b < 0x80 then (Ground, [Scalar(b)])
    else if 0xC2 <= b <= 0xDF then (Pending(1, 0x80, 0xBF, b - 0xC0), [])
    else if b == 0xE0 then (Pending(2, 0xA0, 0xBF, 0), [])
    else if b == 0xED then (Pending(2, 0x80, 0x9F, 0xD), [])
    else if 0xE1 <= b <= 0xEF then (Pending(2, 0x80, 0xBF, b - 0xE0), [])
    else if b == 0xF0 then (Pending(3, 0x90, 0xBF, 0), [])
    else if 0xF1 <= b <= 0xF3 then (Pending(3, 0x80, 0xBF, b - 0xF0), [])
    else if b == 0xF4 then (Pending(3, 0x80, 0x8F, 4), [])
    else (Ground, [REPLACEMENT])
  }

  predicate Continues(s: State, b: Byte) { s.Pending? && s.lo <= b <= s.hi }

  function Step(s: State, b: Byte): (State, string) {
    if Continues(s, b) then
      var code := s.code * 64 + b % 64;
      if s.need <= 1 then (Ground, [Scalar(code)]) else (Pending(s.need - 1, 0x80, 0xBF, code), [])
    else
      var (next, out) := Lead(b);
      (next, Flush(s) + out)
  }

  /** An unfinished character at the end of the input. */
  function Flush(s: State): string { if s.Pending? then [REPLACEMENT] else [] }

  function StateAfter(s: State, bytes: Bytes): State
    decreases |bytes|
  {
    if bytes == [] then s else StateAfter(Step(s, bytes[0]).0, bytes[1..])
  }

  function Decode(s: State, bytes: Bytes): string
    decreases |bytes|
  {
    if bytes == [] then Flush(s) else Step(s, bytes[0]).1 + Decode(Step(s, bytes[0]).0, bytes[1..])
  }

  /** The text of the bytes, as each received chunk is decoded. */
  function Lossy(bytes: Bytes): string { Decode(Ground, bytes) }

  /** What is decoded before the end is seen. */
  function Emitted(s: State, bytes: Bytes): string
    decreases |bytes|
  {
    if bytes == [] then [] else Step(s, bytes[0]).1 + Emitted(Step(s, bytes[0]).0, bytes[1..])
  }

  /** The boundary between two pieces falls inside a character that the second piece goes on with. */
  predicate SplitsCharacter(a: Bytes, b: Bytes) {
    b != [] && Continues(StateAfter(Ground, a), b[0])
  }

  predicate InRange(s: State) { s.Pending? ==> 0x80 <= s.lo && s.hi <= 0xBF }

  lemma Assoc(x: string, y: string, z: string)
    ensures x + (y + z) == x + y + z
  {
  }

  lemma {:induction false} DecodeConcat(s: State, a: Bytes, b: Bytes)
    ensures Decode(s, a + b) == Emitted(s, a) + Decode(StateAfter(s, a), b)
    decreases |a|
  {
    if a == [] {
      assert a + b == b;
    } else {
      var c := a + b;
      assert c[0] == a[0] && c[1..] == a[1..] + b;
      var next := Step(s, a[0]);
      DecodeConcat(next.0, a[1..], b);
      Assoc(next.1, Emitted(next.0, a[1..]), Decode(StateAfter(next.0, a[1..]), b));
    }
  }

  lemma DecodeEnds(s: State, a: Bytes)
    ensures Decode(s, a) == Emitted(s, a) + Flush(StateAfter(s, a))
  {
    DecodeConcat(s, a, []);
    assert a + [] == a;
  }

  lemma {:induction false} StaysInRange(s: State, a: Bytes)
    requires InRange(s)
    ensures InRange(StateAfter(s, a))
    decreases |a|
  {
    if a != [] { StaysInRange(Step(s, a[0]).0, a[1..]); }
  }

  /** Starting afresh inside a character costs at least as many characters as going on with it, and strictly
      more when the next byte belonged to it. */
  lemma {:induction false} FreshStartIsLonger(s: State, b: Bytes)
    requires InRange(s)
    ensures |Decode(s, b)| <= |Flush(s)| + |Decode(Ground, b)|
    ensures b != [] && Continues(s, b[0]) ==> |Decode(s, b)| < |Flush(s)| + |Decode(Ground, b)|
    decreases |b|
  {
    if b != [] && Continues(s, b[0]) {
      FreshStartIsLonger(Step(s, b[0]).0, b[1..]);
      assert Lead(b[0]) == (Ground, [REPLACEMENT]);
    }
  }

  lemma FreshStart(s: State, b: Bytes)
    requires b == [] || !Continues(s, b[0])
    ensures Decode(s, b) == Flush(s) + Decode(Ground, b)
  {
  }

  /** Decoding two pieces apart gives the text of the whole exactly when the boundary splits no character. */
  lemma TwoPiecesExactly(a: Bytes, b: Bytes)
    ensures Lossy(a + b) == Lossy(a) + Lossy(b) <==> !SplitsCharacter(a, b)
    ensures SplitsCharacter(a, b) ==> |Lossy(a + b)| < |Lossy(a)| + |Lossy(b)|
  {
    var s := StateAfter(Ground, a);
    DecodeConcat(Ground, a, b);
    DecodeEnds(Ground, a);
    StaysInRange(Ground, a);
    FreshStartIsLonger(s, b);
    if !SplitsCharacter(a, b) {
      FreshStart(s, b);
      Assoc(Emitted(Ground, a), Flush(s), Decode(Ground, b));
    }
  }

  // ---- Any number of chunks ----

  function Flatten(chunks: seq<Bytes>): Bytes {
    if chunks == [] then [] else chunks[0] + Flatten(chunks[1..])
  }

  function DecodeEach(chunks: seq<Bytes>): string {
    if chunks == [] then [] else Lossy(chunks[0]) + DecodeEach(chunks[1..])
  }

  /** No chunk boundary falls inside a character. */
  predicate CutBetweenCharacters(chunks: seq<Bytes>) {
    forall i :: 0 <= i < |chunks| ==> !SplitsCharacter(chunks[i], Flatten(chunks[i + 1..]))
  }

  lemma CutsUnfold(chunks: seq<Bytes>)
    requires chunks != []
    ensures CutBetweenCharacters(chunks) <==>
              !SplitsCharacter(chunks[0], Flatten(chunks[1..])) && CutBetweenCharacters(chunks[1..])
  {
    var rest := chunks[1..];
    forall i | 0 <= i < |rest|
      ensures rest[i] == chunks[i + 1] && rest[i + 1..] == chunks[i + 1..][1..]
      ensures chunks[i + 1..][1..] == chunks[i + 1 + 1..]
    {
    }
    if !SplitsCharacter(chunks[0], Flatten(rest)) && CutBetweenCharacters(rest) {
      forall i | 0 <= i < |chunks| ensures !SplitsCharacter(chunks[i], Flatten(chunks[i + 1..])) {
        if i > 0 { assert !SplitsCharacter(rest[i - 1], Flatten(rest[i - 1 + 1..])); }
      }
    }
    if CutBetweenCharacters(chunks) {
      forall i | 0 <= i < |rest| ensures !SplitsCharacter(rest[i], Flatten(rest[i + 1..])) {
        assert !SplitsCharacter(chunks[i + 1], Flatten(chunks[i + 1 + 1..]));
      }
    }
  }

  /** Chunk by chunk decoding is independent of the chunking exactly when no boundary splits a character;
      otherwise it decodes to more characters. */
  lemma {:induction false} ChunkedDecodingExactly(chunks: seq<Bytes>)
    ensures DecodeEach(chunks) == Lossy(Flatten(chunks)) <==> CutBetweenCharacters(chunks)
    ensures !CutBetweenCharacters(chunks) ==> |Lossy(Flatten(chunks))| < |DecodeEach(chunks)|
  {
    if chunks != [] {
      ChunkedDecodingExactly(chunks[1..]);
      TwoPiecesExactly(chunks[0], Flatten(chunks[1..]));
      CutsUnfold(chunks);
    }
  }

  // ---- Line ends come only from their own bytes ----

  /** The character under way will be no ASCII character. */
  predicate NoShortCode(s: State) {
    s.Pending? ==>
      && 1 <= s.need <= 3 && 0x80 <= s.lo && s.hi <= 0xBF
      && (s.need == 1 ==> 2 <= s.code)
      && (s.need == 2 ==> 1 <= s.code || 0xA0 <= s.lo)
      && (s.need == 3 ==> 1 <= s.code || 0x90 <= s.lo)
  }

  lemma StepKeepsCode(s: State, b: Byte, c: char)
    requires NoShortCode(s) && c < '\U{80}' && b != c as int
    ensures NoShortCode(Step(s, b).0) && c !in Step(s, b).1
  {
  }

  lemma {:induction false} AsciiFromItsByte(s: State, bytes: Bytes, c: char)
    requires NoShortCode(s) && c < '\U{80}' && (c as int) !in bytes
    ensures c !in Decode(s, bytes) && NoShortCode(StateAfter(s, bytes))
    decreases |bytes|
  {
    if bytes != [] {
      StepKeepsCode(s, bytes[0], c);
      AsciiFromItsByte(Step(s, bytes[0]).0, bytes[1..], c);
    }
  }

  lemma {:induction false} CodeStays(s: State, bytes: Bytes)
    requires NoShortCode(s)
    ensures NoShortCode(StateAfter(s, bytes))
    decreases |bytes|
  {
    if bytes != [] { CodeStays(Step(s, bytes[0]).0, bytes[1..]); }
  }

  /** A text ends in an ASCII character only when its bytes do. */
  lemma LastFromItsByte(bytes: Bytes, c: char)
    requires bytes != [] && c < '\U{80}' && bytes[|bytes| - 1] != c as int
    ensures Lossy(bytes) != [] && Lossy(bytes)[|Lossy(bytes)| - 1] != c
  {
    var n := |bytes| - 1;
    var s, last := StateAfter(Ground, bytes[..n]), [bytes[n]];
    assert bytes == bytes[..n] + last;
    CodeStays(Ground, bytes[..n]);
    DecodeConcat(Ground, bytes[..n], last);
    AsciiFromItsByte(s, last, c);
    var tail := Decode(s, last);
    assert tail != [] by { assert last[1..] == []; }
    assert tail[|tail| - 1] in tail;
  }

  lemma {:induction false} AsciiDecodes(bytes: Bytes, text: string)
    requires |bytes| == |text| && forall i :: 0 <= i < |bytes| ==> bytes[i] < 0x80 && text[i] as int == bytes[i]
    ensures Lossy(bytes) == text
  {
    if bytes != [] {
      AsciiDecodes(bytes[1..], text[1..]);
      assert text == [text[0]] + text[1..];
    }
  }

  // ---- Valid text ----

  /** The UTF-8 encoding of a character (section 3 of RFC 3629). */
  function EncodeChar(c: char): Bytes {
    var n := c as int;
    if n < 0x80 then [n]
    else if n < 0x800 then [0xC0 + n / 64, 0x80 + n % 64]
    else if n < 0x1_0000 then [0xE0 + n / 4096, 0x80 + n / 64 % 64, 0x80 + n % 64]
    else [0xF0 + n / 262144, 0x80 + n / 4096 % 64, 0x80 + n / 64 % 64, 0x80 + n % 64]
  }

  function EncodeText(text: string): Bytes {
    if text == [] then [] else EncodeChar(text[0]) + EncodeText(text[1..])
  }

  lemma OneByte(s: State, a: Byte)
    ensures Emitted(s, [a]) == Step(s, a).1 && StateAfter(s, [a]) == Step(s, a).0
  {
    var bytes: Bytes := [a];
    assert bytes[1..] == [];
  }

  lemma TwoBytes(s: State, a: Byte, b: Byte)
    ensures Emitted(s, [a, b]) == Step(s, a).1 + Step(Step(s, a).0, b).1
    ensures StateAfter(s, [a, b]) == Step(Step(s, a).0, b).0
  {
    var bytes: Bytes, last: Bytes := [a, b], [b];
    assert bytes[1..] == last;
    OneByte(Step(s, a).0, b);
  }

  lemma ThreeBytes(s: State, a: Byte, b: Byte, c: Byte)
    ensures Emitted(s, [a, b, c]) == Step(s, a).1 + Emitted(Step(s, a).0, [b, c])
    ensures StateAfter(s, [a, b, c]) == StateAfter(Step(s, a).0, [b, c])
  {
    var bytes: Bytes, rest: Bytes := [a, b, c], [b, c];
    assert bytes[1..] == rest;
  }

  lemma FourBytes(s: State, a: Byte, b: Byte, c: Byte, d: Byte)
    ensures Emitted(s, [a, b, c, d]) == Step(s, a).1 + Emitted(Step(s, a).0, [b, c, d])
    ensures StateAfter(s, [a, b, c, d]) == StateAfter(Step(s, a).0, [b, c, d])
  {
    var bytes: Bytes, rest: Bytes := [a, b, c, d], [b, c, d];
    assert bytes[1..] == rest;
  }

  /** The six-bit groups of a number. */
  lemma Groups(n: nat)
    ensures n == n / 64 * 64 + n % 64
    ensures n == (n / 4096 * 64 + n / 64 % 64) * 64 + n % 64
    ensures n == ((n / 262144 * 64 + n / 4096 % 64) * 64 + n / 64 % 64) * 64 + n % 64
  {
    assert n / 64 / 64 == n / 4096 && n / 4096 / 64 == n / 262144;
  }

  lemma GroupsOf(n: nat, a: nat, b: nat, c: nat, d: nat)
    requires b < 64 && c < 64 && d < 64 && n == ((a * 64 + b) * 64 + c) * 64 + d
    ensures n % 64 == d && n / 64 % 64 == c && n / 4096 % 64 == b && n / 262144 == a && n / 4096 == a * 64 + b
    ensures n / 64 == (a * 64 + b) * 64 + c
  {
  }

  lemma TwoByteCharacter(c: char)
    requires '\U{80}' <= c < '\U{800}'
    ensures Emitted(Ground, EncodeChar(c)) == [c] && StateAfter(Ground, EncodeChar(c)) == Ground
  {
    var n, bytes := c as int, EncodeChar(c);
    TwoBytes(Ground, bytes[0], bytes[1]);
    Groups(n);
    assert Step(Ground, bytes[0]) == (Pending(1, 0x80, 0xBF, n / 64), []);
    assert bytes[1] % 64 == n % 64;
  }

  lemma ThreeByteCharacter(c: char)
    requires '\U{800}' <= c < '\U{10000}'
    ensures Emitted(Ground, EncodeChar(c)) == [c] && StateAfter(Ground, EncodeChar(c)) == Ground
  {
    var n, bytes := c as int, EncodeChar(c);
    var s := Step(Ground, bytes[0]).0;
    ThreeBytes(Ground, bytes[0], bytes[1], bytes[2]);
    TwoBytes(s, bytes[1], bytes[2]);
    Groups(n);
    assert s.Pending? && s.need == 2 && s.code == n / 4096 && Step(Ground, bytes[0]).1 == [];
    assert Continues(s, bytes[1]) && bytes[1] % 64 == n / 64 % 64 && bytes[2] % 64 == n % 64;
    assert Step(s, bytes[1]) == (Pending(1, 0x80, 0xBF, n / 4096 * 64 + n / 64 % 64), []);
  }

  /** A continuation byte adds its six bits. */
  lemma AddsBits(need: nat, lo: Byte, hi: Byte, code: nat, x: nat)
    requires 1 <= need && 0x80 <= lo && hi <= 0xBF && lo <= 0x80 + x <= hi
    ensures x < 64
    ensures Step(Pending(need, lo, hi, code), 0x80 + x) ==
              if need == 1 then (Ground, [Scalar(code * 64 + x)])
              else (Pending(need - 1, 0x80, 0xBF, code * 64 + x), [])
  {
  }

  lemma FourByteCharacter(c: char)
    requires '\U{10000}' <= c
    ensures Emitted(Ground, EncodeChar(c)) == [c] && StateAfter(Ground, EncodeChar(c)) == Ground
  {
    var n := c as int;
    var w, x, y, z := n / 262144, n / 4096 % 64, n / 64 % 64, n % 64;
    Groups(n);
    FourByteSteps(w, x, y, z);
  }

  /** The state after the first byte of four. */
  function FourLead(w: nat): State
    requires w <= 4
  {
    Pending(3, if w == 0 then 0x90 else 0x80, if w == 4 then 0x8F else 0xBF, w)
  }

  lemma FourLeads(w: nat)
    requires w <= 4
    ensures Step(Ground, 0xF0 + w) == (FourLead(w), [])
  {
    assert w == 0 || 1 <= w <= 3 || w == 4;
    var (next, out) := Lead(0xF0 + w);
    assert Flush(Ground) + out == out;
  }

  lemma FourByteSteps(w: nat, x: nat, y: nat, z: nat)
    requires x < 64 && y < 64 && z < 64
    requires 0x1_0000 <= ((w * 64 + x) * 64 + y) * 64 + z < 0x11_0000
    ensures w <= 4
    ensures var bytes: Bytes := [0xF0 + w, 0x80 + x, 0x80 + y, 0x80 + z];
            && StateAfter(Ground, bytes) == Ground
            && Emitted(Ground, bytes) == [Scalar(((w * 64 + x) * 64 + y) * 64 + z)]
  {
    FourLeads(w);
    FourBytes(Ground, 0xF0 + w, 0x80 + x, 0x80 + y, 0x80 + z);
    AfterFourLead(w, x, y, z);
  }

  lemma AfterFourLead(w: nat, x: nat, y: nat, z: nat)
    requires w <= 4 && x < 64 && y < 64 && z < 64 && (w == 0 ==> 16 <= x) && (w == 4 ==> x < 16)
    ensures var bytes: Bytes := [0x80 + x, 0x80 + y, 0x80 + z];
            && StateAfter(FourLead(w), bytes) == Ground
            && Emitted(FourLead(w), bytes) == [Scalar(((w * 64 + x) * 64 + y) * 64 + z)]
  {
    var s := FourLead(w);
    AddsBits(3, s.lo, s.hi, w, x);
    AddsBits(2, 0x80, 0xBF, w * 64 + x, y);
    AddsBits(1, 0x80, 0xBF, (w * 64 + x) * 64 + y, z);
    ThreeBytes(s, 0x80 + x, 0x80 + y, 0x80 + z);
    TwoBytes(Pending(2, 0x80, 0xBF, w * 64 + x), 0x80 + y, 0x80 + z);
  }

  /** Every character decodes from its encoding, whatever its length. */
  lemma CharacterDecodes(c: char)
    ensures Emitted(Ground, EncodeChar(c)) == [c] && StateAfter(Ground, EncodeChar(c)) == Ground
  {
    if c < '\U{80}' {
      OneByte(Ground, c as int);
    } else if c < '\U{800}' {
      TwoByteCharacter(c);
    } else if c < '\U{10000}' {
      ThreeByteCharacter(c);
    } else {
      FourByteCharacter(c);
    }
  }

  lemma {:induction false} TextDecodes(text: string)
    ensures Lossy(EncodeText(text)) == text
  {
    if text != [] {
      CharacterDecodes(text[0]);
      DecodeConcat(Ground, EncodeChar(text[0]), EncodeText(text[1..]));
      TextDecodes(text[1..]);
    }
  }

  /** `p` is what has been read of the character under way. */
  predicate ReadSoFar(s: State, p: Bytes) {
    match s
    case Ground => p == []
    case Pending(need, lo, hi, code) =>
      && 1 <= |p| <= 3 && 1 <= need <= 3
      && (forall i :: 1 <= i < |p| ==> 0x80 <= p[i] <= 0xBF)
      && (|p| + need == 2 ==> 0xC2 <= p[0] <= 0xDF)
      && (|p| + need == 3 ==> 0xE0 <= p[0] <= 0xEF)
      && (|p| + need == 4 ==> 0xF0 <= p[0] <= 0xF4)
      && |p| + need <= 4
      && code == (if |p| == 1 then Head(p[0])
                  else if |p| == 2 then Head(p[0]) * 64 + p[1] - 0x80
                  else (Head(p[0]) * 64 + p[1] - 0x80) * 64 + p[2] - 0x80)
      && (if |p| == 1 then lo == Least(p[0]) && hi == Most(p[0])
          else Least(p[0]) <= p[1] <= Most(p[0]) && lo == 0x80 && hi == 0xBF)
  }

  function Head(b: Byte): int { if b < 0xE0 then b - 0xC0 else if b < 0xF0 then b - 0xE0 else b - 0xF0 }

  /** The least and the most a second byte may be. */
  function Least(b: Byte): Byte { if b == 0xE0 then 0xA0 else if b == 0xF0 then 0x90 else 0x80 }

  function Most(b: Byte): Byte { if b == 0xED then 0x9F else if b == 0xF4 then 0x8F else 0xBF }

  lemma ReadOn(s: State, p: Bytes, b: Byte)
    requires ReadSoFar(s, p) && REPLACEMENT !in Step(s, b).1
    ensures Step(s, b).1 == [] ==> ReadSoFar(Step(s, b).0, p + [b])
    ensures Step(s, b).1 != [] ==>
              |Step(s, b).1| == 1 && p + [b] == EncodeChar(Step(s, b).1[0]) && Step(s, b).0 == Ground
  {
    if s.Ground? {
      assert p + [b] == [b];
    } else if Continues(s, b) && s.need == 1 {
      CompletesChar(s, p, b);
    }
  }

  lemma CompletesChar(s: State, p: Bytes, b: Byte)
    requires ReadSoFar(s, p) && s.Pending? && s.need == 1 && Continues(s, b)
    ensures p + [b] == EncodeChar(Scalar(s.code * 64 + b % 64))
  {
    assert b % 64 == b - 0x80;
    if |p| == 1 {
      EncodesTwo(p[0] - 0xC0, b - 0x80);
      assert p + [b] == [p[0], b];
    } else if |p| == 2 {
      ThreeByteRange(p[0], p[1], b, s.code * 64 + b - 0x80);
      EncodesThree(p[0] - 0xE0, p[1] - 0x80, b - 0x80);
      assert p + [b] == [p[0], p[1], b];
    } else {
      CompletesFour(s, p, b);
    }
  }

  lemma CompletesFour(s: State, p: Bytes, b: Byte)
    requires ReadSoFar(s, p) && s.Pending? && s.need == 1 && |p| == 3 && 0x80 <= b <= 0xBF
    ensures p + [b] == EncodeChar(Scalar(s.code * 64 + (b - 0x80)))
  {
    FourByteRange(p[0], p[1], p[2], b, s.code * 64 + b - 0x80);
    EncodesFour(p[0] - 0xF0, p[1] - 0x80, p[2] - 0x80, b - 0x80);
    assert p + [b] == [p[0], p[1], p[2], b];
  }

  lemma EncodesTwo(c: nat, d: nat)
    requires d < 64 && 0x80 <= c * 64 + d < 0x800
    ensures EncodeChar(Scalar(c * 64 + d)) == [0xC0 + c, 0x80 + d]
  {
    GroupsOf(c * 64 + d, 0, 0, c, d);
  }

  lemma EncodesThree(b: nat, c: nat, d: nat)
    requires c < 64 && d < 64
    requires 0x800 <= (b * 64 + c) * 64 + d < 0x1_0000
    requires (b * 64 + c) * 64 + d < 0xD800 || 0xE000 <= (b * 64 + c) * 64 + d
    ensures EncodeChar(Scalar((b * 64 + c) * 64 + d)) == [0xE0 + b, 0x80 + c, 0x80 + d]
  {
    GroupsOf((b * 64 + c) * 64 + d, 0, b, c, d);
  }

  lemma EncodesFour(a: nat, b: nat, c: nat, d: nat)
    requires b < 64 && c < 64 && d < 64
    requires 0x1_0000 <= ((a * 64 + b) * 64 + c) * 64 + d < 0x11_0000
    ensures EncodeChar(Scalar(((a * 64 + b) * 64 + c) * 64 + d)) == [0xF0 + a, 0x80 + b, 0x80 + c, 0x80 + d]
  {
    GroupsOf(((a * 64 + b) * 64 + c) * 64 + d, a, b, c, d);
  }

  lemma ThreeByteRange(a: Byte, b: Byte, c: Byte, n: int)
    requires 0xE0 <= a <= 0xEF && Least(a) <= b <= Most(a) && 0x80 <= c <= 0xBF
    requires n == ((a - 0xE0) * 64 + b - 0x80) * 64 + c - 0x80
    ensures 0x800 <= n < 0x1_0000 && (n < 0xD800 || 0xE000 <= n)
  {
  }

  lemma FourByteRange(a: Byte, b: Byte, c: Byte, d: Byte, n: int)
    requires 0xF0 <= a <= 0xF4 && Least(a) <= b <= Most(a) && 0x80 <= c <= 0xBF && 0x80 <= d <= 0xBF
    requires n == (((a - 0xF0) * 64 + b - 0x80) * 64 + c - 0x80) * 64 + d - 0x80
    ensures 0x1_0000 <= n < 0x11_0000
  {
  }

  lemma {:induction false} CleanlyDecoded(s: State, p: Bytes, bytes: Bytes)
    requires ReadSoFar(s, p) && REPLACEMENT !in Decode(s, bytes)
    ensures p + bytes == EncodeText(Decode(s, bytes))
    decreases |bytes|
  {
    if bytes == [] {
      assert p + bytes == [];
    } else {
      var b, rest := bytes[0], bytes[1..];
      var (next, out) := Step(s, b);
      assert Decode(s, bytes) == out + Decode(next, rest);
      ReadOn(s, p, b);
      assert p + bytes == (p + [b]) + rest;
      if out == [] {
        CleanlyDecoded(next, p + [b], rest);
        assert out + Decode(next, rest) == Decode(next, rest);
      } else {
        CleanlyDecoded(Ground, [], rest);
        OneMore(p + [b], out, rest, Decode(Ground, rest));
      }
    }
  }

  /** A character that is complete, and the text behind it. */
  lemma OneMore(read: Bytes, out: string, rest: Bytes, text: string)
    requires |out| == 1 && read == EncodeChar(out[0]) && [] + rest == EncodeText(text)
    ensures read + rest == EncodeText(out + text)
  {
    TextUnfolds(out[0], text);
    assert out == [out[0]] && [] + rest == rest;
  }

  lemma TextUnfolds(c: char, text: string)
    ensures EncodeText([c] + text) == EncodeChar(c) + EncodeText(text)
  {
    assert ([c] + text)[1..] == text;
  }

  /** Exactly the bytes that decode to a text without replacement characters: its UTF-8 encoding. */
  lemma DecodesExactly(bytes: Bytes, text: string)
    requires REPLACEMENT !in text
    ensures Lossy(bytes) == text <==> bytes == EncodeText(text)
  {
    TextDecodes(text);
    if Lossy(bytes) == text { CleanlyDecoded(Ground, [], bytes); }
    assert [] + bytes == bytes;
  }
}
