/** Redeeming a capability: what the proof signs over, and which byte streams yield a secret. */
module Redeem {
  import opened Common
  import Hex

  // ---- The proof ----

  const PROOF_DOMAIN := "SKARBIEC-WORKLOAD-PROOF\0v1\0"
  const OPERATION := "redeem"
  const CAPABILITY_ID_CHARS := 64
  const NONCE_BYTES := 32

  /** The text the workload signs: domain, then capability id, nonce, workload id and operation, each
      followed by a zero, then the empty authorization id. */
  function ProofInput(capability: string, nonce: Bytes, workload: string): string {
    PROOF_DOMAIN + capability + "\0" + Hex.Encode(nonce) + "\0" + workload + "\0" + OPERATION + "\0" + ""
  }

  lemma ProofInputSlices(capability: string, nonce: Bytes, workload: string)
    requires |capability| == CAPABILITY_ID_CHARS && |nonce| == NONCE_BYTES
    ensures var t := ProofInput(capability, nonce, workload);
            var d := |PROOF_DOMAIN|;
            && |t| == d + 64 + 1 + 64 + 1 + |workload| + 8
            && t[d..d + 64] == capability
            && t[d + 65..d + 129] == Hex.Encode(nonce)
            && t[d + 130..|t| - 8] == workload
            && t[..d] == "SKARBIEC-WORKLOAD-PROOF\0v1\0" && t[|t| - 8..] == "\0redeem\0"
            && t[d + 64] == '\0' && t[d + 129] == '\0'
  {
    var a := PROOF_DOMAIN + capability;
    var b := a + "\0" + Hex.Encode(nonce);
    var c := b + "\0" + workload;
    assert ProofInput(capability, nonce, workload) == c + ("\0" + OPERATION + "\0");
  }

  /** One signed text, one capability, one nonce, one workload, whatever bytes the workload id holds. */
  lemma ProofInputDeterminesParts(c: string, n: Bytes, w: string, c': string, n': Bytes, w': string)
    requires |c| == |c'| == CAPABILITY_ID_CHARS && |n| == |n'| == NONCE_BYTES
    requires ProofInput(c, n, w) == ProofInput(c', n', w')
    ensures c == c' && n == n' && w == w'
  {
    ProofInputSlices(c, n, w);
    ProofInputSlices(c', n', w');
    Hex.EncodeInjective(n, n');
  }

  // ---- The response ----

  datatype Control = Control(version: string, status: string, secretLen: Option<nat>)

  const WIRE_VERSION := "skarbiec.redeem.v1"
  const NEWLINE: Byte := 10

  datatype Error = Unreachable | NotTheWireFormat | Denied

  /** The response stream: what is left to read, and whether its end is an i/o error. */
  class Socket {
    var left: Bytes
    const broken: bool

    constructor (bytes: Bytes, broken: bool)
      ensures left == bytes && this.broken == broken
    {
      left := bytes;
      this.broken := broken;
    }

    method ReadByte() returns (byte: Result<Option<Byte>, ()>)
      modifies this
      ensures old(left) != [] ==> byte == Ok(Some(old(left)[0])) && left == old(left)[1..]
      ensures old(left) == [] ==> left == [] && byte == if broken then Err(()) else Ok(None)
    {
      if left == [] {
        return if broken then Err(()) else Ok(None);
      }
      byte := Ok(Some(left[0]));
      left := left[1..];
    }

    /** The bytes up to the first newline, which is consumed. */
    method ReadControlLine() returns (line: Result<Bytes, ()>)
      modifies this
      ensures NEWLINE in old(left) <==> line.Ok?
      ensures line.Ok? ==> NEWLINE !in line.value && old(left) == line.value + [NEWLINE] + left
    {
      var read: Bytes := [];
      while true
        invariant NEWLINE !in read && old(left) == read + left
        decreases |left|
      {
        ghost var before := left;
        var byte := ReadByte();
        if byte.Err? || byte.value.None? {
          return Err(());
        }
        assert before == [byte.value.value] + left;
        if byte.value.value == NEWLINE {
          return Ok(read);
        }
        read := read + [byte.value.value];
      }
    }

    /** Up to `wanted` bytes; an i/o error met before they are all there refuses. */
    method ReadUpTo(wanted: nat) returns (bytes: Result<Bytes, ()>)
      modifies this
      ensures wanted <= |old(left)| ==> bytes == Ok(old(left)[..wanted]) && left == old(left)[wanted..]
      ensures |old(left)| < wanted ==> left == [] && bytes == if broken then Err(()) else Ok(old(left))
    {
      var read: Bytes := [];
      while |read| < wanted
        invariant |read| <= wanted && old(left) == read + left
        decreases wanted - |read|
      {
        ghost var before := left;
        var byte := ReadByte();
        if byte.Err? {
          return Err(());
        }
        if byte.value.None? {
          assert read + [] == read;
          return Ok(read);
        }
        assert before == [byte.value.value] + left;
        read := read + [byte.value.value];
      }
      return Ok(read);
    }

    /** The secret of a response, or why there is none. */
    method ReadResponse(parse: Bytes -> Option<Control>) returns (secret: Result<Bytes, Error>)
      modifies this
      ensures secret == Response(parse, old(left), broken)
    {
      ghost var whole := left;
      var line := ReadControlLine();
      if line.Err? {
        FirstLine(whole);
        return Err(Unreachable);
      }
      ControlLineIsFirst(whole, line.value, left);
      var control := parse(line.value);
      if control == None {
        return Err(NotTheWireFormat);
      }
      if control.value.version != WIRE_VERSION || control.value.status != "ok" {
        return Err(Denied);
      }
      if control.value.secretLen == None || control.value.secretLen == Some(0) {
        return Err(Denied);
      }
      var length := control.value.secretLen.value;
      ghost var rest := left;
      var bytes := ReadUpTo(length);
      if bytes.Err? {
        return Err(Unreachable);
      }
      if |bytes.value| != length {
        return Err(NotTheWireFormat);
      }
      var more := ReadByte();
      match more {
        case Ok(None) =>
          assert rest[..length] == rest;
          return Ok(bytes.value);
        case Ok(Some(_)) => return Err(NotTheWireFormat);
        case Err(_) => return Err(Unreachable);
      }
    }
  }

  /** Where the control line ends. */
  function LineEnd(stream: Bytes): (i: nat)
    ensures i <= |stream| && NEWLINE !in stream[..i] && (i < |stream| ==> stream[i] == NEWLINE)
  {
    if stream == [] || stream[0] == NEWLINE then 0
    else
      var i := LineEnd(stream[1..]);
      assert stream[..i + 1] == [stream[0]] + stream[1..][..i];
      i + 1
  }

  lemma FirstLine(stream: Bytes)
    ensures LineEnd(stream) < |stream| <==> NEWLINE in stream
  {
    assert LineEnd(stream) == |stream| ==> stream[..LineEnd(stream)] == stream;
  }

  lemma ControlLineIsFirst(stream: Bytes, line: Bytes, rest: Bytes)
    requires stream == line + [NEWLINE] + rest && NEWLINE !in line
    ensures LineEnd(stream) == |line| && stream[..|line|] == line && stream[|line| + 1..] == rest
  {
    var i := LineEnd(stream);
    assert stream[|line|] == NEWLINE;
    assert forall k :: 0 <= k < |line| ==> stream[k] == line[k];
    assert forall k :: 0 <= k < i ==> stream[k] == stream[..i][k];
    assert i == |line|;
  }

  /** What the response reader answers to a stream. */
  function Response(parse: Bytes -> Option<Control>, stream: Bytes, broken: bool): Result<Bytes, Error> {
    var i := LineEnd(stream);
    if i == |stream| then Err(Unreachable)
    else
      var rest := stream[i + 1..];
      match parse(stream[..i])
      case None => Err(NotTheWireFormat)
      case Some(control) =>
        if control.version != WIRE_VERSION || control.status != "ok" then Err(Denied)
        else
          match control.secretLen
          case None => Err(Denied)
          case Some(length) =>
            if length == 0 then Err(Denied)
            else if |rest| < length then Err(if broken then Unreachable else NotTheWireFormat)
            else if length < |rest| then Err(NotTheWireFormat)
            else if broken then Err(Unreachable)
            else Ok(rest)
  }

  /** The stream is one newline-free control line stating ok at this version and the secret's length, a
      newline, and the secret. */
  ghost predicate CarriesSecret(parse: Bytes -> Option<Control>, stream: Bytes, secret: Bytes) {
    && secret != []
    && exists line: Bytes ::
         && NEWLINE !in line && stream == line + [NEWLINE] + secret
         && parse(line) == Some(Control("skarbiec.redeem.v1", "ok", Some(|secret|)))
  }

  /** Exactly the streams that yield a secret. */
  lemma SecretExactly(parse: Bytes -> Option<Control>, stream: Bytes, broken: bool, secret: Bytes)
    ensures Response(parse, stream, broken) == Ok(secret) <==> !broken && CarriesSecret(parse, stream, secret)
  {
    var i := LineEnd(stream);
    if Response(parse, stream, broken) == Ok(secret) {
      assert stream == stream[..i] + [NEWLINE] + secret;
    }
    if CarriesSecret(parse, stream, secret) {
      var line: Bytes :| NEWLINE !in line && stream == line + [NEWLINE] + secret
                         && parse(line) == Some(Control(WIRE_VERSION, "ok", Some(|secret|)));
      ControlLineIsFirst(stream, line, secret);
    }
  }

  /** A control line that promises a secret, and how long. */
  predicate Promises(control: Control, length: nat) {
    control == Control("skarbiec.redeem.v1", "ok", Some(length)) && 0 < length
  }

  /** Exactly which answer each stream gets. Without a whole control line the authority was not reached; a line
      that is not one, a secret cut short and bytes behind it are not the wire format; a line that promises no
      secret is a denial, whatever follows; and a stream that breaks where it should go on or end was not
      reached to its end. */
  lemma ResponseExactly(
      parse: Bytes -> Option<Control>, line: Bytes, rest: Bytes, broken: bool, unended: Bytes)
    requires NEWLINE !in line && NEWLINE !in unended
    ensures NEWLINE == 10 && Response(parse, unended, broken) == Err(Unreachable)
    ensures var answer := Response(parse, line + [NEWLINE] + rest, broken);
            && (parse(line).None? ==> answer == Err(NotTheWireFormat))
            && (parse(line).Some? && (forall n: nat :: !Promises(parse(line).value, n)) ==> answer == Err(Denied))
            && (forall n: nat :: parse(line).Some? && Promises(parse(line).value, n) ==>
                  answer == if |rest| < n then Err(if broken then Unreachable else NotTheWireFormat)
                            else if n < |rest| then Err(NotTheWireFormat)
                            else if broken then Err(Unreachable)
                            else Ok(rest))
  {
    FirstLine(unended);
    ControlLineIsFirst(line + [NEWLINE] + rest, line, rest);
    if parse(line).Some? {
      var control := parse(line).value;
      if control.version == WIRE_VERSION && control.status == "ok"
         && control.secretLen.Some? && control.secretLen.value > 0 {
        assert Promises(control, control.secretLen.value);
      }
    }
  }

  /** Every truncation and every extension of an accepted response is refused. */
  lemma OnlyTheExactStream(parse: Bytes -> Option<Control>, stream: Bytes, other: Bytes)
    requires Response(parse, stream, false).Ok?
    requires other < stream || stream < other
    ensures Response(parse, other, false).Err?
  {
    var i := LineEnd(stream);
    SecretExactly(parse, stream, false, Response(parse, stream, false).value);
    if other < stream && |other| <= i {
      assert other == stream[..i][..|other|];
      FirstLine(other);
      assert forall k :: 0 <= k < |other| ==> other[k] == stream[..i][k];
    } else {
      assert other[..i] == stream[..i] && other[i] == NEWLINE;
      assert other == other[..i] + [NEWLINE] + other[i + 1..];
      ControlLineIsFirst(other, other[..i], other[i + 1..]);
    }
  }
}
