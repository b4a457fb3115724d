/** One tool-using review: the transcript the loop builds, and where its verdict comes from. */
module Review {
  import opened Common
  import opened Json
  import Journal
  import opened Membership

  datatype Verdict = Approve | RequestChanges

  datatype Message =
    | System(content: string)
    | User(content: string)
    | Assistant(text: Option<Value>, calls: seq<Value>)
    | Tool(id: Value, answer: string)

  const NUDGE := "End the review by calling submit_verdict."

  // ---- Submissions ----

  function TrimStart(s: string): string {
    if s != [] && Journal.IsBlank(s[0]) then TrimStart(s[1..]) else s
  }

  function TrimEnd(s: string): string {
    if s != [] && Journal.IsBlank(s[|s| - 1]) then TrimEnd(s[..|s| - 1]) else s
  }

  function Trim(s: string): string { TrimEnd(TrimStart(s)) }

  function NameAndArguments(parse: string -> Option<Value>, call: Value): Option<(string, Value)> {
    match Get(call, "function")
    case None => None
    case Some(function') =>
      match Field(function', "name")
      case None => None
      case Some(name) =>
        match Get(function', "arguments")
        case Some(Str(text)) =>
          if Journal.BlankLine(text) then Some((name, Object([])))
          else (match parse(text) case Some(arguments) => Some((name, arguments)) case None => None)
        case Some(value) => Some((name, value))
        case None => Some((name, Object([])))
  }

  function ParseVerdict(text: Option<string>): Option<Verdict> {
    if text == Some("approve") then Some(Approve)
    else if text == Some("request_changes") then Some(RequestChanges)
    else None
  }

  /** What a call submits: nothing, a verdict with its review, or a submission that breaks the schema. */
  datatype Submission = NotASubmission | Submitted(verdict: Verdict, review: string) | Malformed

  function SubmissionOf(parse: string -> Option<Value>, call: Value): Submission {
    match NameAndArguments(parse, call)
    case None => Malformed
    case Some((name, arguments)) =>
      if name != "submit_verdict" then NotASubmission
      else
        match ParseVerdict(Field(arguments, "verdict"))
        case None => Malformed
        case Some(verdict) =>
          match Field(arguments, "review")
          case None => Malformed
          case Some(review) => if Trim(review) == [] then Malformed else Submitted(verdict, Trim(review))
  }

  // ---- One turn ----

  /** The gateway, the tool tree, the reading of submissions, and the most turns asked for. */
  datatype Setting = Setting(
    complete: (nat, seq<Message>) -> Option<Value>, tree: Value -> string, submission: Value -> Submission,
    maxTurns: nat)

  /** The tool calls an answer states; absent or null is none, any other shape is refused. */
  function CallsOf(answer: Value): Option<seq<Value>> {
    match Get(answer, "tool_calls")
    case None => Some([])
    case Some(Null) => Some([])
    case Some(Array(calls)) => Some(calls)
    case Some(_) => None
  }

  datatype Problem = GatewayFailed | CallsNotAList | BadSubmission | CallWithoutId | Unfinished

  datatype Turn = Answered(tools: seq<Message>) | Decided(verdict: Verdict, review: string) | Broken(problem: Problem)

  /** The calls of one turn, in order, up to a verdict or a broken one. */
  function AnswerCalls(env: Setting, calls: seq<Value>): Turn {
    if calls == [] then Answered([])
    else
      match env.submission(calls[0])
      case Malformed => Broken(BadSubmission)
      case Submitted(verdict, review) => Decided(verdict, review)
      case NotASubmission =>
        match Get(calls[0], "id")
        case None => Broken(CallWithoutId)
        case Some(id) =>
          match AnswerCalls(env, calls[1..])
          case Answered(tools) => Answered([Tool(id, env.tree(calls[0]))] + tools)
          case other => other
  }

  // ---- The review ----

  datatype Outcome = Reached(verdict: Verdict, review: string, turn: nat) | Failed(problem: Problem)

  /** What turn `turn` makes of the transcript: how the review ends there, or the messages it adds. */
  datatype Played = Ends(outcome: Outcome) | Adds(block: seq<Message>)

  function PlayTurn(env: Setting, turn: nat, messages: seq<Message>): Played {
    match env.complete(turn, messages)
    case None => Ends(Failed(GatewayFailed))
    case Some(answer) =>
      match CallsOf(answer)
      case None => Ends(Failed(CallsNotAList))
      case Some(calls) =>
        if calls == [] then Adds([Assistant(Get(answer, "content"), []), User(NUDGE)])
        else
          match AnswerCalls(env, calls)
          case Answered(tools) => Adds([Assistant(Get(answer, "content"), calls)] + tools)
          case Decided(verdict, review) => Ends(Reached(verdict, review, turn))
          case Broken(problem) => Ends(Failed(problem))
  }

  /** The transcripts sent are the requests of a run that starts from `first`, turn by turn. */
  ghost predicate IsRun(env: Setting, first: seq<Message>, sent: seq<seq<Message>>, outcome: Outcome) {
    && |sent| <= env.maxTurns
    && (0 < env.maxTurns ==> sent != [] && sent[0] == first)
    && (forall k :: 0 <= k < |sent| - 1 ==> PlayTurn(env, k + 1, sent[k]).Adds?
                                            && sent[k + 1] == sent[k] + PlayTurn(env, k + 1, sent[k]).block)
    && (if sent != [] && PlayTurn(env, |sent|, sent[|sent| - 1]).Ends?
        then outcome == PlayTurn(env, |sent|, sent[|sent| - 1]).outcome
        else |sent| == env.maxTurns && outcome == Failed(Unfinished))
  }

  method Run(env: Setting, instructions: string, request: string) returns (outcome: Outcome, sent: seq<seq<Message>>)
    ensures IsRun(env, [System(instructions), User(request)], sent, outcome)
  {
    var messages := [System(instructions), User(request)];
    sent := [];
    for turn := 1 to env.maxTurns + 1
      invariant |sent| == turn - 1
      invariant sent != [] ==> sent[0] == [System(instructions), User(request)]
      invariant forall k :: 0 <= k < |sent| - 1 ==> PlayTurn(env, k + 1, sent[k]).Adds?
                                                    && sent[k + 1] == sent[k] + PlayTurn(env, k + 1, sent[k]).block
      invariant if sent == [] then messages == [System(instructions), User(request)]
                else PlayTurn(env, |sent|, sent[|sent| - 1]).Adds?
                     && messages == sent[|sent| - 1] + PlayTurn(env, |sent|, sent[|sent| - 1]).block
    {
      sent := sent + [messages];
      var played := TakeTurn(env, turn, messages);
      if played.Ends? {
        return played.outcome, sent;
      }
      messages := messages + played.block;
    }
    return Failed(Unfinished), sent;
  }

  /** One request and what is made of its answer. */
  method TakeTurn(env: Setting, turn: nat, messages: seq<Message>) returns (played: Played)
    ensures played == PlayTurn(env, turn, messages)
  {
    var answer := env.complete(turn, messages);
    if answer == None {
      return Ends(Failed(GatewayFailed));
    }
    var calls := CallsOf(answer.value);
    if calls == None {
      return Ends(Failed(CallsNotAList));
    }
    var text := Get(answer.value, "content");
    if calls.value == [] {
      return Adds([Assistant(text, []), User(NUDGE)]);
    }
    var answered := AnswerEach(env, calls.value);
    match answered {
      case Answered(tools) => return Adds([Assistant(text, calls.value)] + tools);
      case Decided(verdict, review) => return Ends(Reached(verdict, review, turn));
      case Broken(problem) => return Ends(Failed(problem));
    }
  }

  /** The calls of one turn, answered one by one until a verdict or a broken call. */
  method AnswerEach(env: Setting, calls: seq<Value>) returns (turn: Turn)
    ensures turn == AnswerCalls(env, calls)
  {
    var tools: seq<Message> := [];
    var i := 0;
    assert calls[0..] == calls;
    while i < |calls|
      invariant 0 <= i <= |calls|
      invariant AnswerCalls(env, calls) == Onward(tools, AnswerCalls(env, calls[i..]))
    {
      var call := calls[i];
      assert calls[i..][1..] == calls[i + 1..];
      match env.submission(call) {
        case Malformed => return Broken(BadSubmission);
        case Submitted(verdict, review) => return Decided(verdict, review);
        case NotASubmission =>
      }
      var id := Get(call, "id");
      if id == None {
        return Broken(CallWithoutId);
      }
      tools := tools + [Tool(id.value, env.tree(call))];
      i := i + 1;
    }
    return Answered(tools);
  }

  /** What the calls of a turn come to, after `tools` have answered the first of them. */
  ghost function Onward(tools: seq<Message>, rest: Turn): Turn {
    if rest.Answered? then Answered(tools + rest.tools) else rest
  }

  // ---- The transcript ----

  /** Message `j` answers call `k` of the assistant message at `i`. */
  predicate Answers(messages: seq<Message>, i: nat, k: nat)
    requires i < |messages| && messages[i].Assistant? && k < |messages[i].calls|
  {
    var j := i + 1 + k;
    j < |messages| && messages[j].Tool? && Some(messages[j].id) == Get(messages[i].calls[k], "id")
  }

  /** Every assistant message with calls is followed by exactly one answer per call, in order, with its id;
      and no tool answer stands anywhere else. */
  ghost predicate WellAnswered(messages: seq<Message>) {
    && (forall i, k :: 0 <= i < |messages| && messages[i].Assistant? && 0 <= k < |messages[i].calls| ==>
          Answers(messages, i, k))
    && (forall j :: 0 <= j < |messages| && messages[j].Tool? ==>
          exists i :: 0 <= i < j && messages[i].Assistant? && j - i <= |messages[i].calls|)
  }

  predicate AnswersCall(env: Setting, tool: Message, call: Value) {
    tool.Tool? && Some(tool.id) == Get(call, "id") && tool.answer == env.tree(call)
  }

  lemma {:induction false} ToolsAnswerCalls(env: Setting, calls: seq<Value>)
    requires AnswerCalls(env, calls).Answered?
    ensures var tools := AnswerCalls(env, calls).tools;
            && |tools| == |calls|
            && forall k :: 0 <= k < |calls| ==> AnswersCall(env, tools[k], calls[k])
  {
    if calls != [] {
      ToolsAnswerCalls(env, calls[1..]);
      assert forall k :: 0 < k < |calls| ==> calls[k] == calls[1..][k - 1];
    }
  }

  lemma BlockKeepsWellAnswered(env: Setting, turn: nat, messages: seq<Message>)
    requires WellAnswered(messages) && PlayTurn(env, turn, messages).Adds?
    ensures WellAnswered(messages + PlayTurn(env, turn, messages).block)
  {
    var block := PlayTurn(env, turn, messages).block;
    var longer := messages + block;
    var calls := block[0].calls;
    var n := |messages|;
    if calls != [] {
      ToolsAnswerCalls(env, calls);
    }
    forall i, k | 0 <= i < |longer| && longer[i].Assistant? && 0 <= k < |longer[i].calls|
      ensures Answers(longer, i, k)
    {
      if i < n {
        assert Answers(messages, i, k);
      } else {
        assert i == n;
        assert longer[n + 1 + k] == block[1 + k];
      }
    }
    forall j | 0 <= j < |longer| && longer[j].Tool?
      ensures exists i :: 0 <= i < j && longer[i].Assistant? && j - i <= |longer[i].calls|
    {
      if j < n {
        var i :| 0 <= i < j && messages[i].Assistant? && j - i <= |messages[i].calls|;
        assert longer[i] == messages[i];
      } else {
        assert longer[n] == block[0] && longer[j] == block[j - n];
      }
    }
  }

  /** Every request sent carries a transcript whose tool calls are all answered, whatever the model does. */
  lemma {:induction false} TranscriptsAreWellAnswered(
      env: Setting, first: seq<Message>, sent: seq<seq<Message>>, outcome: Outcome, k: nat)
    requires IsRun(env, first, sent, outcome) && k < |sent| && WellAnswered(first)
    ensures WellAnswered(sent[k]) && first <= sent[k]
  {
    if k > 0 {
      TranscriptsAreWellAnswered(env, first, sent, outcome, k - 1);
      BlockKeepsWellAnswered(env, k, sent[k - 1]);
    }
  }

  /** Call `p` submits, and no call before it submits, is malformed, or lacks an id. */
  ghost predicate FirstSubmission(env: Setting, calls: seq<Value>, p: nat, verdict: Verdict, review: string) {
    && p < |calls| && env.submission(calls[p]) == Submitted(verdict, review)
    && forall k :: 0 <= k < p ==> env.submission(calls[k]) == NotASubmission && Get(calls[k], "id").Some?
  }

  ghost predicate SubmitsFirst(env: Setting, calls: seq<Value>, verdict: Verdict, review: string) {
    exists p :: FirstSubmission(env, calls, p, verdict, review)
  }

  /** A turn decides exactly when a submission comes first. */
  lemma {:induction false} DecidesExactly(env: Setting, calls: seq<Value>, verdict: Verdict, review: string)
    ensures AnswerCalls(env, calls) == Decided(verdict, review) <==> SubmitsFirst(env, calls, verdict, review)
  {
    if calls != [] {
      var rest := calls[1..];
      DecidesExactly(env, rest, verdict, review);
      forall p: nat
        ensures 0 < p ==> (FirstSubmission(env, calls, p, verdict, review) <==>
                             && env.submission(calls[0]) == NotASubmission && Get(calls[0], "id").Some?
                             && FirstSubmission(env, rest, p - 1, verdict, review))
      {
        if 0 < p { FirstSubmissionShifts(env, calls, p, verdict, review); }
      }
      assert FirstSubmission(env, calls, 0, verdict, review) <==>
               env.submission(calls[0]) == Submitted(verdict, review);
      if p: nat :| FirstSubmission(env, rest, p, verdict, review) {
        assert FirstSubmission(env, calls, p + 1, verdict, review) <==>
                 env.submission(calls[0]) == NotASubmission && Get(calls[0], "id").Some?;
      }
    }
  }

  lemma FirstSubmissionShifts(env: Setting, calls: seq<Value>, p: nat, verdict: Verdict, review: string)
    requires calls != [] && 0 < p
    ensures FirstSubmission(env, calls, p, verdict, review) <==>
              && env.submission(calls[0]) == NotASubmission && Get(calls[0], "id").Some?
              && FirstSubmission(env, calls[1..], p - 1, verdict, review)
  {
    var rest := calls[1..];
    assert forall k :: 0 <= k < |rest| ==> rest[k] == calls[k + 1];
    if FirstSubmission(env, rest, p - 1, verdict, review)
       && env.submission(calls[0]) == NotASubmission && Get(calls[0], "id").Some? {
      forall k | 0 <= k < p ensures env.submission(calls[k]) == NotASubmission && Get(calls[k], "id").Some? {
        if k > 0 { assert rest[k - 1] == calls[k]; }
      }
    }
  }

  /** The calls the model made in turn `k + 1` of a run. */
  function CallsAt(env: Setting, sent: seq<seq<Message>>, k: nat): seq<Value>
    requires k < |sent|
  {
    var answer := env.complete(k + 1, sent[k]);
    if answer.Some? && CallsOf(answer.value).Some? then CallsOf(answer.value).value else []
  }

  /** A verdict comes from the first well-formed submission in call order of the last turn asked; no call of
      any earlier turn submitted anything; and no more turns were asked than allowed. */
  lemma VerdictIsFirstSubmission(env: Setting, first: seq<Message>, sent: seq<seq<Message>>, outcome: Outcome)
    requires IsRun(env, first, sent, outcome) && outcome.Reached?
    ensures outcome.turn == |sent| && 0 < |sent| <= env.maxTurns
    ensures SubmitsFirst(env, CallsAt(env, sent, |sent| - 1), outcome.verdict, outcome.review)
    ensures forall k, c :: 0 <= k < |sent| - 1 && c in CallsAt(env, sent, k) ==> env.submission(c) == NotASubmission
  {
    var n := |sent| - 1;
    assert PlayTurn(env, |sent|, sent[n]).Ends?;
    DecidesExactly(env, CallsAt(env, sent, n), outcome.verdict, outcome.review);
    forall k, c | 0 <= k < n && c in CallsAt(env, sent, k) ensures env.submission(c) == NotASubmission {
      assert PlayTurn(env, k + 1, sent[k]).Adds?;
      AnsweredExactly(env, CallsAt(env, sent, k));
    }
  }

  // ---- What a turn adds, and how it fails ----

  /** Every call is a readable call of another tool than the submission, and has an id. */
  predicate AllAnswerable(env: Setting, calls: seq<Value>) {
    forall k :: 0 <= k < |calls| ==> env.submission(calls[k]) == NotASubmission && Get(calls[k], "id").Some?
  }

  lemma {:induction false} AnsweredExactly(env: Setting, calls: seq<Value>)
    ensures AnswerCalls(env, calls).Answered? <==> AllAnswerable(env, calls)
  {
    if calls != [] {
      AnsweredExactly(env, calls[1..]);
      assert forall k :: 0 < k < |calls| ==> calls[k] == calls[1..][k - 1];
      assert forall k :: 0 <= k < |calls| - 1 ==> calls[1..][k] == calls[k + 1];
      if AllAnswerable(env, calls[1..]) && env.submission(calls[0]) == NotASubmission && Get(calls[0], "id").Some? {
        forall k | 0 <= k < |calls| ensures env.submission(calls[k]) == NotASubmission && Get(calls[k], "id").Some? {
          if k > 0 { assert calls[k] == calls[1..][k - 1]; }
        }
      }
    }
  }

  /** The answer's calls: its list of them, or none when it states none. */
  predicate States(answer: Value, calls: seq<Value>) {
    || Get(answer, "tool_calls") == Some(Array(calls))
    || (calls == [] && (Get(answer, "tool_calls") == None || Get(answer, "tool_calls") == Some(Null)))
  }

  /** Exactly what a turn adds to the transcript, and when: the assistant's message with its calls, and the
      answer of the tool to each of them, or a reminder when it made none. */
  lemma TurnAddsExactly(env: Setting, turn: nat, messages: seq<Message>, answer: Value, calls: seq<Value>)
    requires env.complete(turn, messages) == Some(answer) && States(answer, calls)
    ensures PlayTurn(env, turn, messages).Adds? <==> AllAnswerable(env, calls)
    ensures PlayTurn(env, turn, messages).Adds? ==>
              var block := PlayTurn(env, turn, messages).block;
              && |block| == 1 + (if calls == [] then 1 else |calls|)
              && block[0] == Assistant(Get(answer, "content"), calls)
              && (calls == [] ==> block[1] == User("End the review by calling submit_verdict."))
              && forall k :: 0 <= k < |calls| ==> AnswersCall(env, block[1 + k], calls[k])
  {
    AnsweredExactly(env, calls);
    if calls != [] && AnswerCalls(env, calls).Answered? { ToolsAnswerCalls(env, calls); }
  }

  /** Call `p` breaks the turn, and none before it does or submits. */
  ghost predicate BreaksFirst(env: Setting, calls: seq<Value>, p: nat, problem: Problem) {
    && p < |calls| && AllAnswerable(env, calls[..p])
    && (|| (env.submission(calls[p]) == Malformed && problem == BadSubmission)
        || (env.submission(calls[p]) == NotASubmission && Get(calls[p], "id").None? && problem == CallWithoutId))
  }

  lemma {:induction false} BrokenByFirst(env: Setting, calls: seq<Value>) returns (p: nat)
    requires AnswerCalls(env, calls).Broken?
    ensures BreaksFirst(env, calls, p, AnswerCalls(env, calls).problem)
  {
    if env.submission(calls[0]) == Malformed || Get(calls[0], "id").None? {
      p := 0;
    } else {
      var q := BrokenByFirst(env, calls[1..]);
      p := q + 1;
      forall k | 0 <= k < p ensures env.submission(calls[k]) == NotASubmission && Get(calls[k], "id").Some? {
        if k > 0 { assert calls[k] == calls[1..][..q][k - 1]; }
      }
    }
  }

  /** Exactly how a turn fails: the gateway does not answer, states calls that are no list, or some call is a
      malformed submission or lacks an id before any verdict. */
  lemma TurnFailsExactly(env: Setting, turn: nat, messages: seq<Message>)
    ensures PlayTurn(env, turn, messages) == Ends(Failed(GatewayFailed)) <==> env.complete(turn, messages) == None
    ensures forall answer :: env.complete(turn, messages) == Some(answer) ==>
              (PlayTurn(env, turn, messages) == Ends(Failed(CallsNotAList)) <==> forall calls :: !States(answer, calls))
    ensures forall problem :: PlayTurn(env, turn, messages) == Ends(Failed(problem)) ==>
              || problem == GatewayFailed || problem == CallsNotAList
              || exists answer, calls, p ::
                   && env.complete(turn, messages) == Some(answer) && States(answer, calls)
                   && BreaksFirst(env, calls, p, problem)
  {
    if env.complete(turn, messages).Some? {
      var answer := env.complete(turn, messages).value;
      if CallsOf(answer).Some? {
        var calls := CallsOf(answer).value;
        assert States(answer, calls);
        if calls != [] && AnswerCalls(env, calls).Broken? { var p := BrokenByFirst(env, calls); }
        NeverNotAList(env, calls);
      } else {
        assert forall calls :: !States(answer, calls);
      }
    }
  }

  lemma {:induction false} NeverNotAList(env: Setting, calls: seq<Value>)
    ensures AnswerCalls(env, calls).Broken? ==>
              AnswerCalls(env, calls).problem == BadSubmission || AnswerCalls(env, calls).problem == CallWithoutId
  {
    if calls != [] { NeverNotAList(env, calls[1..]); }
  }

  // ---- What a submission is ----

  /** `t` is `s` without the blanks around it, and not empty. */
  ghost predicate IsTrimmed(s: string, t: string) {
    && t != [] && !Journal.IsBlank(t[0]) && !Journal.IsBlank(t[|t| - 1])
    && exists x, y :: Journal.BlankLine(x) && Journal.BlankLine(y) && s == x + t + y
  }

  lemma {:induction false} TrimStartSplits(s: string) returns (x: string)
    ensures s == x + TrimStart(s) && Journal.BlankLine(x)
    ensures TrimStart(s) != [] ==> !Journal.IsBlank(TrimStart(s)[0])
  {
    if s != [] && Journal.IsBlank(s[0]) {
      var rest := TrimStartSplits(s[1..]);
      x := [s[0]] + rest;
      assert s == [s[0]] + s[1..];
    } else {
      x := [];
    }
  }

  lemma {:induction false} TrimEndSplits(s: string) returns (y: string)
    ensures s == TrimEnd(s) + y && Journal.BlankLine(y)
    ensures TrimEnd(s) != [] ==> !Journal.IsBlank(TrimEnd(s)[|TrimEnd(s)| - 1])
  {
    if s != [] && Journal.IsBlank(s[|s| - 1]) {
      var rest := TrimEndSplits(s[..|s| - 1]);
      y := rest + [s[|s| - 1]];
      assert s == s[..|s| - 1] + [s[|s| - 1]];
    } else {
      y := [];
    }
  }

  lemma {:induction false} TrimStartSkips(x: string, t: string)
    requires Journal.BlankLine(x) && t != [] && !Journal.IsBlank(t[0])
    ensures TrimStart(x + t) == t
  {
    if x == [] {
      assert x + t == t;
    } else {
      assert (x + t)[1..] == x[1..] + t;
      TrimStartSkips(x[1..], t);
    }
  }

  lemma {:induction false} TrimEndSkips(t: string, y: string)
    requires Journal.BlankLine(y) && t != [] && !Journal.IsBlank(t[|t| - 1])
    ensures TrimEnd(t + y) == t
  {
    var s := t + y;
    if y == [] {
      assert s == t;
    } else {
      assert s[..|s| - 1] == t + y[..|y| - 1];
      TrimEndSkips(t, y[..|y| - 1]);
    }
  }

  lemma TrimExactly(s: string, t: string)
    ensures Trim(s) == t && t != [] <==> IsTrimmed(s, t)
  {
    if Trim(s) == t && t != [] { TrimLeavesTrimmed(s); }
    if IsTrimmed(s, t) {
      var x, y :| Journal.BlankLine(x) && Journal.BlankLine(y) && s == x + t + y;
      assert s == x + (t + y);
      TrimStartSkips(x, t + y);
      TrimEndSkips(t, y);
    }
  }

  lemma TrimLeavesTrimmed(s: string)
    requires Trim(s) != []
    ensures IsTrimmed(s, Trim(s))
  {
    var rest := TrimStart(s);
    var x := TrimStartSplits(s);
    var y := TrimEndSplits(rest);
    assert rest[0] == TrimEnd(rest)[0];
    assert s == x + TrimEnd(rest) + y;
  }

  /** The call asks the tool `name` with `arguments`: an object of them, their JSON text, or none at all. */
  ghost predicate Asks(parse: string -> Option<Value>, call: Value, name: string, arguments: Value) {
    && Get(call, "function").Some?
    && var tool := Get(call, "function").value;
       && Field(tool, "name") == Some(name)
       && match Get(tool, "arguments")
          case None => arguments == Object([])
          case Some(Str(text)) =>
            if Journal.BlankLine(text) then arguments == Object([]) else parse(text) == Some(arguments)
          case Some(value) => arguments == value
  }

  /** The call submits the verdict, in the schema's word for it, with this review text. */
  ghost predicate Submits(parse: string -> Option<Value>, call: Value, verdict: Verdict, review: string) {
    exists arguments, text ::
      && Asks(parse, call, "submit_verdict", arguments)
      && Field(arguments, "verdict") == Some(if verdict == Approve then "approve" else "request_changes")
      && Field(arguments, "review") == Some(text) && IsTrimmed(text, review)
  }

  /** The call asks another tool. */
  ghost predicate AsksAnother(parse: string -> Option<Value>, call: Value) {
    exists name, arguments :: name != "submit_verdict" && Asks(parse, call, name, arguments)
  }

  /** Exactly which calls submit a verdict, and with what text; which are calls of other tools; every other
      call is malformed. */
  lemma SubmissionExactly(parse: string -> Option<Value>, call: Value, verdict: Verdict, review: string)
    ensures SubmissionOf(parse, call) == Submitted(verdict, review) <==> Submits(parse, call, verdict, review)
    ensures SubmissionOf(parse, call) == NotASubmission <==> AsksAnother(parse, call)
    ensures SubmissionOf(parse, call) == Malformed <==>
              !AsksAnother(parse, call) && forall v, t :: !Submits(parse, call, v, t)
  {
    var read := NameAndArguments(parse, call);
    assert forall name, arguments :: Asks(parse, call, name, arguments) <==> read == Some((name, arguments));
    if read.Some? {
      var name, arguments := read.value.0, read.value.1;
      assert Asks(parse, call, name, arguments);
      forall v: Verdict, t: string
        ensures SubmissionOf(parse, call) == Submitted(v, t) <==> Submits(parse, call, v, t)
      {
        SubmitsExactly(parse, call, name, arguments, v, t);
      }
    }
  }

  lemma SubmitsExactly(
      parse: string -> Option<Value>, call: Value, name: string, arguments: Value, v: Verdict, t: string)
    requires NameAndArguments(parse, call) == Some((name, arguments))
    ensures SubmissionOf(parse, call) == Submitted(v, t) <==> Submits(parse, call, v, t)
  {
    if Field(arguments, "review").Some? {
      var text := Field(arguments, "review").value;
      TrimExactly(text, t);
      if SubmissionOf(parse, call) == Submitted(v, t) {
        assert Asks(parse, call, "submit_verdict", arguments) && IsTrimmed(text, t);
      }
    }
  }

  /** With the gateway's own reading of submissions, a verdict is what the first call of its turn to submit one
      says; the calls before it, and all calls of earlier turns, ask other tools. */
  lemma VerdictWasSubmitted(
      parse: string -> Option<Value>, env: Setting, first: seq<Message>, sent: seq<seq<Message>>, outcome: Outcome)
      returns (calls: seq<Value>, p: nat)
    requires forall call :: env.submission(call) == SubmissionOf(parse, call)
    requires IsRun(env, first, sent, outcome) && outcome.Reached?
    ensures 0 < |sent| && calls == CallsAt(env, sent, |sent| - 1) && p < |calls|
    ensures Submits(parse, calls[p], outcome.verdict, outcome.review)
    ensures forall k :: 0 <= k < p ==> AsksAnother(parse, calls[k])
    ensures forall k, c :: 0 <= k < |sent| - 1 && c in CallsAt(env, sent, k) ==> AsksAnother(parse, c)
  {
    VerdictIsFirstSubmission(env, first, sent, outcome);
    calls := CallsAt(env, sent, |sent| - 1);
    p :| FirstSubmission(env, calls, p, outcome.verdict, outcome.review);
    SubmissionExactly(parse, calls[p], outcome.verdict, outcome.review);
    forall k | 0 <= k < p ensures AsksAnother(parse, calls[k]) {
      SubmissionExactly(parse, calls[k], outcome.verdict, outcome.review);
    }
    forall k, c | 0 <= k < |sent| - 1 && c in CallsAt(env, sent, k) ensures AsksAnother(parse, c) {
      SubmissionExactly(parse, c, outcome.verdict, outcome.review);
    }
  }
}
