/** The seed a workload key file holds: raw, or lowercase hexadecimal with the line end an editor leaves. */
module WorkloadKey {
  import opened Common
  import Hex

  const SEED_BYTES := 32
  const SEED_HEX_CHARS := 64
  const MAX_KEY_BYTES := 66

  predicate IsAsciiBlank(b: Byte) { b == 9 || b == 10 || b == 12 || b == 13 || b == 32 }

  /** Tabs, line feeds, form feeds, carriage returns and spaces. */
  predicate AllBlank(bytes: Bytes) { forall i :: 0 <= i < |bytes| ==> bytes[i] in {9, 10, 12, 13, 32} }

  function TrimEnd(bytes: Bytes): Bytes {
    if bytes != [] && IsAsciiBlank(bytes[|bytes| - 1]) then TrimEnd(bytes[..|bytes| - 1]) else bytes
  }

  /** Bytes as the characters they encode, and ASCII text as bytes. */
  function Chars(bytes: Bytes): string { seq(|bytes|, i requires 0 <= i < |bytes| => bytes[i] as char) }

  function Ascii(s: string): Bytes
    requires Hex.AllLowerHex(s)
  {
    seq(|s|, i requires 0 <= i < |s| => s[i] as int)
  }

  function ParseSigningKey(encoded: Bytes): Option<Bytes> {
    if |encoded| == SEED_BYTES then Some(encoded)
    else
      var text := Chars(TrimEnd(encoded));
      if |text| != SEED_HEX_CHARS || !Hex.AllLowerHex(text) then None else Some(Hex.Decode(text))
  }

  /** The file is read only when it is not empty and no longer than hex and a two-byte line end. */
  function KeyOfFile(file: Bytes): Option<Bytes> {
    if file == [] || |file| > MAX_KEY_BYTES then None else ParseSigningKey(file)
  }

  lemma {:induction false} TrimSplits(bytes: Bytes)
    ensures TrimEnd(bytes) <= bytes && AllBlank(bytes[|TrimEnd(bytes)|..])
    ensures TrimEnd(bytes) != [] ==> !IsAsciiBlank(TrimEnd(bytes)[|TrimEnd(bytes)| - 1])
  {
    if bytes != [] && IsAsciiBlank(bytes[|bytes| - 1]) {
      var n := |bytes| - 1;
      TrimSplits(bytes[..n]);
      assert bytes[|TrimEnd(bytes)|..] == bytes[..n][|TrimEnd(bytes)|..] + [bytes[n]];
    }
  }

  lemma {:induction false} TrimRemovesBlanks(text: Bytes, blanks: Bytes)
    requires AllBlank(blanks) && (text == [] || !IsAsciiBlank(text[|text| - 1]))
    ensures TrimEnd(text + blanks) == text
    decreases |blanks|
  {
    var all := text + blanks;
    if blanks == [] {
      assert all == text;
    } else {
      assert all[..|all| - 1] == text + blanks[..|blanks| - 1];
      TrimRemovesBlanks(text, blanks[..|blanks| - 1]);
    }
  }

  lemma AsciiRoundTrip(s: string)
    requires Hex.AllLowerHex(s)
    ensures Chars(Ascii(s)) == s && forall i :: 0 <= i < |s| ==> !IsAsciiBlank(Ascii(s)[i])
  {
  }

  lemma CharsRoundTrip(bytes: Bytes)
    requires Hex.AllLowerHex(Chars(bytes))
    ensures Ascii(Chars(bytes)) == bytes
  {
  }

  function HexFile(seed: Bytes): Bytes { Ascii(Hex.Encode(seed)) }

  /** Exactly the files that hold a seed: its raw bytes, every one of them key material, or its lowercase hex
      and blanks. */
  lemma ParsesExactly(encoded: Bytes, seed: Bytes)
    ensures ParseSigningKey(encoded) == Some(seed) <==>
              && |seed| == 32
              && (|| encoded == seed
                  || exists blanks: Bytes :: AllBlank(blanks) && encoded == HexFile(seed) + blanks)
  {
    if ParseSigningKey(encoded) == Some(seed) && |encoded| != SEED_BYTES {
      var text := TrimEnd(encoded);
      TrimSplits(encoded);
      Hex.EncodeDecode(Chars(text));
      CharsRoundTrip(text);
      assert encoded == HexFile(seed) + encoded[|text|..];
    }
    if |seed| == SEED_BYTES && exists blanks: Bytes :: AllBlank(blanks) && encoded == HexFile(seed) + blanks {
      var blanks: Bytes :| AllBlank(blanks) && encoded == HexFile(seed) + blanks;
      AsciiRoundTrip(Hex.Encode(seed));
      TrimRemovesBlanks(HexFile(seed), blanks);
      Hex.DecodeEncode(seed);
    }
  }

  /** Every seed is read back from both forms, one ending in a newline included; no file reads both ways; and
      a key file holds at most two bytes after its hex. */
  lemma BothFormsReadBack(seed: Bytes, blanks: Bytes)
    requires |seed| == SEED_BYTES && AllBlank(blanks)
    ensures KeyOfFile(seed) == Some(seed)
    ensures KeyOfFile(HexFile(seed) + blanks) == if |blanks| <= 2 then Some(seed) else None
    ensures forall other: Bytes :: |other| == SEED_BYTES ==> HexFile(seed) + blanks != other
  {
    ParsesExactly(seed, seed);
    ParsesExactly(HexFile(seed) + blanks, seed);
  }
}
