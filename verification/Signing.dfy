/** The signed-agent request protocol: what is signed, what is verified, and what the verification and
    the replay guard promise together.
  */
module Signing {
  import opened Common
  import opened Decimal
  import Hex
  import Replay
  import ReplayProtocol

  /** SHA-256 of a body, HMAC-SHA256 of a message text under a secret, and whether a secret can key it. */
  datatype Crypto = Crypto(sha256: Bytes -> Bytes, hmac: (Bytes, string) -> Bytes, keys: Bytes -> bool)

  const DIGEST_BYTES := 32

  ghost predicate DigestsShaped(crypto: Crypto) {
    && (forall body :: |crypto.sha256(body)| == DIGEST_BYTES)
    && (forall secret, message :: |crypto.hmac(secret, message)| == DIGEST_BYTES)
  }

  datatype Error = MissingHeader(name: string) | InvalidTimestamp | BadSignature | HmacInit | Clock

  const AGENT_ID := "x-agent-id"
  const AGENT_TIMESTAMP := "x-agent-timestamp"
  const AGENT_SIGNATURE := "x-agent-signature"

  datatype Headers = Headers(agent: string, timestamp: string, signature: string)

  function BodyHash(crypto: Crypto, body: Bytes): (hash: string)
    ensures Hex.AllLowerHex(hash)
  {
    if body == [] then "" else Hex.Encode(crypto.sha256(body))
  }

  function Message(agent: string, timestamp: I64, hash: string): string {
    agent + ":" + Show(timestamp) + ":" + hash
  }

  function ComputeSignature(crypto: Crypto, agent: string, timestamp: I64, body: Bytes, secret: Bytes)
    : Result<string, Error>
  {
    var message := Message(agent, timestamp, BodyHash(crypto, body));
    if crypto.keys(secret) then Ok(Hex.Encode(crypto.hmac(secret, message))) else Err(HmacInit)
  }

  function VerifyAgentHmac(crypto: Crypto, headers: Headers, body: Bytes, secret: Bytes): Result<(), Error> {
    if headers.agent == "" then Err(MissingHeader(AGENT_ID))
    else if headers.timestamp == "" then Err(MissingHeader(AGENT_TIMESTAMP))
    else if headers.signature == "" then Err(MissingHeader(AGENT_SIGNATURE))
    else match ParseI64(headers.timestamp)
      case None => Err(InvalidTimestamp)
      case Some(timestamp) =>
        match ComputeSignature(crypto, headers.agent, timestamp, body, secret)
        case Err(e) => Err(e)
        case Ok(expected) =>
          if |headers.signature| != |expected| || headers.signature != expected then Err(BadSignature) else Ok(())
  }

  /** What the host clock reads: before the Unix epoch, or whole seconds since it. */
  datatype Now = BeforeEpoch | Elapsed(seconds: nat)

  function AgentHeaders(crypto: Crypto, agent: string, body: Bytes, secret: Bytes, now: Now): Result<Headers, Error> {
    match now
    case BeforeEpoch => Err(Clock)
    case Elapsed(seconds) =>
      if seconds > I64_MAX then Err(Clock)
      else
        match ComputeSignature(crypto, agent, seconds, body, secret)
        case Err(e) => Err(e)
        case Ok(signature) => Ok(Headers(agent, Show(seconds), signature))
  }

  // ---- The signed message determines its parts ----

  lemma {:induction false} LastColonSplits(x: string, y: string, u: string, v: string)
    requires x + ":" + y == u + ":" + v
    requires ':' !in y && ':' !in v
    ensures x == u && y == v
  {
    var s := x + ":" + y;
    assert s[|x|] == ':' && s[|u|] == ':';
    assert forall k :: |x| < k < |s| ==> s[k] == y[k - |x| - 1];
    assert forall k :: |u| < k < |s| ==> s[k] == v[k - |u| - 1];
    assert |x| == |u|;
    assert x == s[..|x|] && y == s[|x| + 1..];
    assert u == s[..|u|] && v == s[|u| + 1..];
  }

  lemma NoColonInShow(t: I64)
    ensures ':' !in Show(t)
  {
    assert forall i :: 0 <= i < |Show(t)| ==> Show(t)[i] == '-' || IsDigit(Show(t)[i]);
  }

  lemma NoColonInHex(s: string)
    requires Hex.AllLowerHex(s)
    ensures ':' !in s
  {
    assert !Hex.IsLowerHex(':');
  }

  /** One signed text, one agent, one time, one body hash, whatever colons the agent id holds. */
  lemma MessageDeterminesParts(a: string, t: I64, h: string, a': string, t': I64, h': string)
    requires Hex.AllLowerHex(h) && Hex.AllLowerHex(h')
    requires Message(a, t, h) == Message(a', t', h')
    ensures a == a' && t == t' && h == h'
  {
    NoColonInHex(h);
    NoColonInHex(h');
    assert Message(a, t, h) == (a + ":" + Show(t)) + ":" + h;
    assert Message(a', t', h') == (a' + ":" + Show(t')) + ":" + h';
    LastColonSplits(a + ":" + Show(t), h, a' + ":" + Show(t'), h');
    NoColonInShow(t);
    NoColonInShow(t');
    LastColonSplits(a, Show(t), a', Show(t'));
    ShowInjective(t, t');
  }

  /** Two bodies have one digest, or there is no body in either. */
  predicate SameDigest(crypto: Crypto, x: Bytes, y: Bytes) {
    (x == [] && y == []) || (x != [] && y != [] && crypto.sha256(x) == crypto.sha256(y))
  }

  /** The body's part of the signed text is one for two bodies exactly when their digests are, over all of
      their bytes; a request without a body never has the part of one with a body. */
  lemma SameBodyPart(crypto: Crypto, x: Bytes, y: Bytes)
    requires DigestsShaped(crypto)
    ensures BodyHash(crypto, x) == BodyHash(crypto, y) <==> SameDigest(crypto, x, y)
  {
    assert |Hex.Encode(crypto.sha256(x))| == 2 * DIGEST_BYTES && |Hex.Encode(crypto.sha256(y))| == 2 * DIGEST_BYTES;
    if x != [] && y != [] && BodyHash(crypto, x) == BodyHash(crypto, y) {
      Hex.EncodeInjective(crypto.sha256(x), crypto.sha256(y));
    }
  }

  // ---- Verification ----

  /** The text a request is signed over: agent, time and, when there is a body, the hex of its digest. */
  function SignedText(crypto: Crypto, headers: Headers, body: Bytes): string
    requires ParseI64(headers.timestamp).Some?
  {
    headers.agent + ":" + Show(ParseI64(headers.timestamp).value) + ":"
    + (if body == [] then "" else Hex.Encode(crypto.sha256(body)))
  }

  /** Exactly the headers that verify: a named agent, a time, and the hex of the MAC of the signed text. */
  lemma VerifiesExactly(crypto: Crypto, headers: Headers, body: Bytes, secret: Bytes)
    requires DigestsShaped(crypto)
    ensures VerifyAgentHmac(crypto, headers, body, secret).Ok? <==>
              && headers.agent != ""
              && ParseI64(headers.timestamp).Some?
              && crypto.keys(secret)
              && headers.signature == Hex.Encode(crypto.hmac(secret, SignedText(crypto, headers, body)))
  {
    if ParseI64(headers.timestamp).Some? {
      assert headers.timestamp != "";
      var text := SignedText(crypto, headers, body);
      assert Message(headers.agent, ParseI64(headers.timestamp).value, BodyHash(crypto, body)) == text;
      assert |Hex.Encode(crypto.hmac(secret, text))| == 2 * DIGEST_BYTES;
    }
  }

  /** Which refusal the other headers meet, the first that applies. */
  lemma RefusalsExactly(crypto: Crypto, headers: Headers, body: Bytes, secret: Bytes)
    ensures var answer := VerifyAgentHmac(crypto, headers, body, secret);
            && (answer == Err(MissingHeader("x-agent-id")) <==> headers.agent == "")
            && (answer == Err(MissingHeader("x-agent-timestamp")) <==> headers.agent != "" && headers.timestamp == "")
            && (answer == Err(MissingHeader("x-agent-signature")) <==>
                  headers.agent != "" && headers.timestamp != "" && headers.signature == "")
            && (headers.agent != "" && headers.timestamp != "" && headers.signature != "" ==>
                  && (answer == Err(InvalidTimestamp) <==> ParseI64(headers.timestamp).None?)
                  && (answer == Err(HmacInit) <==> ParseI64(headers.timestamp).Some? && !crypto.keys(secret))
                  && (answer.Err? ==> answer.error in {InvalidTimestamp, HmacInit, BadSignature}))
  {
  }

  /** What the signer builds verifies, at every time the clock can stamp and for every named agent. */
  lemma SignedHeadersVerify(crypto: Crypto, agent: string, body: Bytes, secret: Bytes, now: Now)
    requires DigestsShaped(crypto) && agent != ""
    ensures AgentHeaders(crypto, agent, body, secret, now).Ok? <==>
              now.Elapsed? && now.seconds <= I64_MAX && crypto.keys(secret)
    ensures AgentHeaders(crypto, agent, body, secret, now).Ok? ==>
              var headers := AgentHeaders(crypto, agent, body, secret, now).value;
              headers.agent == agent && ParseI64(headers.timestamp) == Some(now.seconds)
    ensures AgentHeaders(crypto, agent, body, secret, now) == Err(Clock) <==> now.BeforeEpoch? || now.seconds > I64_MAX
    ensures AgentHeaders(crypto, agent, body, secret, now).Ok? ==>
              VerifyAgentHmac(crypto, AgentHeaders(crypto, agent, body, secret, now).value, body, secret) == Ok(())
  {
    if AgentHeaders(crypto, agent, body, secret, now).Ok? {
      ParseShow(now.seconds);
      VerifiesExactly(crypto, AgentHeaders(crypto, agent, body, secret, now).value, body, secret);
    }
  }

  /** Two requests agree on everything that is signed. */
  predicate SameParts(crypto: Crypto, x: Headers, bodyX: Bytes, y: Headers, bodyY: Bytes) {
    x.agent == y.agent && ParseI64(x.timestamp) == ParseI64(y.timestamp) && SameDigest(crypto, bodyX, bodyY)
  }

  lemma SameTextSameParts(crypto: Crypto, x: Headers, bodyX: Bytes, y: Headers, bodyY: Bytes)
    requires DigestsShaped(crypto) && ParseI64(x.timestamp).Some? && ParseI64(y.timestamp).Some?
    ensures SignedText(crypto, x, bodyX) == SignedText(crypto, y, bodyY) <==> SameParts(crypto, x, bodyX, y, bodyY)
  {
    var t, t' := ParseI64(x.timestamp).value, ParseI64(y.timestamp).value;
    var h, h' := BodyHash(crypto, bodyX), BodyHash(crypto, bodyY);
    assert SignedText(crypto, x, bodyX) == Message(x.agent, t, h);
    assert SignedText(crypto, y, bodyY) == Message(y.agent, t', h');
    SameBodyPart(crypto, bodyX, bodyY);
    if Message(x.agent, t, h) == Message(y.agent, t', h') { MessageDeterminesParts(x.agent, t, h, y.agent, t', h'); }
  }

  /** Two verified requests carry one signature exactly when they agree on agent, time and the digest of the
      body, or their two different signed texts are a collision of the MAC under this very secret. */
  lemma SignatureBindsMessage(crypto: Crypto, secret: Bytes, x: Headers, bodyX: Bytes, y: Headers, bodyY: Bytes)
    requires DigestsShaped(crypto)
    ensures VerifyAgentHmac(crypto, x, bodyX, secret).Ok? && VerifyAgentHmac(crypto, y, bodyY, secret).Ok? ==>
              && ParseI64(x.timestamp).Some? && ParseI64(y.timestamp).Some?
              && var tx, ty := SignedText(crypto, x, bodyX), SignedText(crypto, y, bodyY);
                 x.signature == y.signature <==>
                   || SameParts(crypto, x, bodyX, y, bodyY)
                   || (tx != ty && crypto.hmac(secret, tx) == crypto.hmac(secret, ty))
  {
    if VerifyAgentHmac(crypto, x, bodyX, secret).Ok? && VerifyAgentHmac(crypto, y, bodyY, secret).Ok? {
      VerifiesExactly(crypto, x, bodyX, secret);
      VerifiesExactly(crypto, y, bodyY, secret);
      SameTextSameParts(crypto, x, bodyX, y, bodyY);
      var tx, ty := SignedText(crypto, x, bodyX), SignedText(crypto, y, bodyY);
      if x.signature == y.signature {
        Hex.EncodeInjective(crypto.hmac(secret, tx), crypto.hmac(secret, ty));
      }
    }
  }

  /** Headers that verify for one body verify for another exactly when the bodies have one digest, or the two
      signed texts collide under the MAC. */
  lemma VerifiesAnotherBody(crypto: Crypto, secret: Bytes, headers: Headers, body: Bytes, other: Bytes)
    requires DigestsShaped(crypto) && VerifyAgentHmac(crypto, headers, body, secret).Ok?
    ensures ParseI64(headers.timestamp).Some?
    ensures VerifyAgentHmac(crypto, headers, other, secret).Ok? <==>
              || SameDigest(crypto, body, other)
              || (&& SignedText(crypto, headers, body) != SignedText(crypto, headers, other)
                  && crypto.hmac(secret, SignedText(crypto, headers, body))
                       == crypto.hmac(secret, SignedText(crypto, headers, other)))
  {
    VerifiesExactly(crypto, headers, body, secret);
    VerifiesExactly(crypto, headers, other, secret);
    SameTextSameParts(crypto, headers, body, headers, other);
    var text, text' := SignedText(crypto, headers, body), SignedText(crypto, headers, other);
    if headers.signature == Hex.Encode(crypto.hmac(secret, text')) {
      Hex.EncodeInjective(crypto.hmac(secret, text), crypto.hmac(secret, text'));
    }
  }

  // ---- Verification and the replay guard together ----

  /** The request the gateway hands to the replay guard, once the headers verify. */
  function Authenticate(crypto: Crypto, headers: Headers, body: Bytes, secret: Bytes): Result<Replay.Request, Error> {
    match VerifyAgentHmac(crypto, headers, body, secret)
    case Err(e) => Err(e)
    case Ok(_) =>
      match ParseI64(headers.timestamp)
      case None => Err(InvalidTimestamp)
      case Some(timestamp) => Ok(Replay.Request(headers.agent, timestamp, headers.signature))
  }

  /** What reaches the guard: the agent, the time and the signature of headers that verify, as they came. */
  lemma AuthenticatesExactly(crypto: Crypto, headers: Headers, body: Bytes, secret: Bytes, r: Replay.Request)
    ensures Authenticate(crypto, headers, body, secret) == Ok(r) <==>
              && VerifyAgentHmac(crypto, headers, body, secret).Ok?
              && r.agent == headers.agent && ParseI64(headers.timestamp) == Some(r.timestamp)
              && r.signature == headers.signature
  {
  }

  /** For one agent, one time and one body, two requests pass both checks only under secrets that sign the
      same text differently: under one secret at most one ever passes, over every run of concurrent and
      crashing callers, however the timestamp header is spelled. */
  lemma PassesOncePerBodyAndTime(
      crypto: Crypto, secretX: Bytes, secretY: Bytes, codec: ReplayProtocol.Codec, history: seq<Replay.Request>,
      states: seq<ReplayProtocol.System>, a: nat, b: nat, x: Headers, y: Headers, body: Bytes)
    requires ReplayProtocol.Lawful(codec) && ReplayProtocol.Run(codec, history, states)
    requires ReplayProtocol.AnsweredOk(states[|states| - 1].calls, a)
    requires ReplayProtocol.AnsweredOk(states[|states| - 1].calls, b)
    requires Authenticate(crypto, x, body, secretX) == Ok(states[|states| - 1].calls[a].request)
    requires Authenticate(crypto, y, body, secretY) == Ok(states[|states| - 1].calls[b].request)
    requires x.agent == y.agent && ParseI64(x.timestamp) == ParseI64(y.timestamp)
    ensures ParseI64(x.timestamp).Some?
    ensures a != b ==>
              crypto.hmac(secretX, SignedText(crypto, x, body)) != crypto.hmac(secretY, SignedText(crypto, x, body))
    ensures secretX == secretY ==> a == b
  {
    if a != b {
      ReplayProtocol.AnsweredOkOnce(codec, history, states, a, b);
    }
  }
}
