/** What an accepted AGY stream holds, told by the members of its events, and streams printed line by line. */
module AgyMeaning {
  import opened Wrappers
  import opened Json
  import opened Text
  import JsonText
  import JsonScan
  import Utf8
  import opened JsonRoundTrip
  import PublicRequest
  import TrajectoryText
  import opened AgyStream

  // ----- Events by their members --------------------------------------------------------------

  predicate OneOf(event: Json, path: seq<string>, texts: seq<string>) {
    At(event, path).Some? && At(event, path).value.Str? && At(event, path).value.s in texts
  }

  predicate HasTruthy(event: Json, key: string) {
    At(event, [key]).Some? && Truthy(At(event, [key]).value)
  }

  /** Where tool activity is looked for: the step payload, or the event itself. */
  function Watched(event: Json): Json {
    match At(event, ["step_update"])
    case Some(Obj(fields)) => Obj(fields)
    case _ => event
  }

  predicate ToolEvent(event: Json) {
    OneOf(event, ["event"], ["tool", "tool_call", "tool_result", "subagent", "mcp", "skill"])
  }

  predicate ToolStep(event: Json) {
    OneOf(event, ["step_type"], ["tool", "subagent", "skill", "mcp", "command", "bash", "terminal", "web", "search"])
  }

  /** No mark of a tool, a subagent or a command is on the event. */
  predicate NoTool(event: Json) {
    var w := Watched(event);
    && !ToolEvent(event) && !ToolStep(w)
    && At(w, ["tool_name"]) == At(w, ["tool_info"]) == At(w, ["subagent_info"]) == At(w, ["subagents"]) == None
    && !HasTruthy(w, "mcp") && !HasTruthy(w, "skill") && !HasTruthy(w, "command")
    && !HasTruthy(w, "web_search") && !HasTruthy(w, "webfetch")
  }

  /** At most 256 names of 1 to 128 characters, within 16384 bytes of compact JSON. */
  predicate Bounded(tools: Json) {
    && tools.Arr? && |tools.items| <= 256
    && (forall item | item in tools.items :: item.Str? && 1 <= |item.s| <= 128)
    && |Utf8.Encode(JsonText.Print(tools, JsonText.Compact(false)))| <= 16384
  }

  /** The inventory of an init event, wherever it is given, is bounded. */
  predicate BoundedTools(event: Json) {
    && (At(event, ["init"]).Some? ==> At(event, ["init"]).value.Obj? || At(event, ["init"]).value.Null?)
    && match (At(event, ["init", "tools"]), At(event, ["tools"]))
       case (Some(tools), _) => Bounded(tools)
       case (None, Some(tools)) => Bounded(tools)
       case (None, None) => true
  }

  predicate Safe(event: Json) {
    && event.Obj? && NoTool(event)
    && (|| (&& OneOf(event, ["event"], ["step_update"])
            && OneOf(event, ["step_update", "step_type"],
                     ["user_input", "agent_response", "checkpoint", "reasoning", "thinking", "thought"]))
        || (OneOf(event, ["event"], ["init"]) && BoundedTools(event)))
  }

  /** A terminal result event. */
  predicate Result(event: Json) {
    && event.Obj? && NoTool(event) && OneOf(event, ["event"], ["result"])
    && At(event, ["result"]).Some? && At(event, ["result"]).value.Obj?
  }

  predicate Success(event: Json, out: Event) {
    && Result(event)
    && At(event, ["result", "status"]) == Some(Str("SUCCESS"))
    && At(event, ["result", "structured_output"]) == Some(Obj(out))
  }

  // ----- The model's tests are about these members --------------------------------------------

  lemma MarksMean(fields: Event)
    ensures ToolOrSubagentReason(fields).None? <==> NoTool(Obj(fields))
  {
    var w := ActivityPayload(fields);
    NoActivity(fields);
    WatchedIs(fields);
    hide *;
    AtKeys(fields);
    AtKeys(w);
    NoToolIs(fields, w);
  }

  lemma WatchedIs(fields: Event)
    ensures Watched(Obj(fields)) == Obj(ActivityPayload(fields))
  {
    AtOne(Obj(fields), "step_update");
    hide Get, At;
  }

  lemma AtKeys(w: Event)
    ensures forall key :: At(Obj(w), [key]) == Get(w, key)
  {
    forall key
      ensures At(Obj(w), [key]) == Get(w, key)
    {
      AtOne(Obj(w), key);
    }
  }

  lemma NoToolIs(fields: Event, w: Event)
    requires Watched(Obj(fields)) == Obj(w) && forall key :: At(Obj(w), [key]) == Get(w, key)
    requires At(Obj(fields), ["event"]) == Get(fields, "event")
    ensures NoTool(Obj(fields))
       <==> && !TextIn(Get(fields, "event"), FORBIDDEN_EVENTS)
            && !TextIn(Get(w, "step_type"), FORBIDDEN_STEP_TYPES)
            && (forall key | key in ["tool_name", "tool_info", "subagent_info", "subagents"] :: !HasKey(w, key))
            && (forall key | key in OPERATION_KEYS :: !TruthyKey(w, key))
  {
    hide Get, At, HasKey, Watched, FORBIDDEN_EVENTS, FORBIDDEN_STEP_TYPES, OPERATION_KEYS, TextIn, TruthyKey, OneOf,
         HasTruthy;
    ForbiddenMeans(Obj(fields), "event", Get(fields, "event"));
    ForbiddenMeans(Obj(w), "step_type", Get(w, "step_type"));
    KeysAre();
    forall key
      ensures HasTruthy(Obj(w), key) <==> TruthyKey(w, key)
      ensures Get(w, key) == None <==> !HasKey(w, key)
    {
      TruthyMeans(w, key);
    }
  }

  lemma TruthyMeans(w: Event, key: string)
    requires At(Obj(w), [key]) == Get(w, key)
    ensures HasTruthy(Obj(w), key) <==> TruthyKey(w, key)
    ensures Get(w, key) == None <==> !HasKey(w, key)
  {
    hide At, HasKey, Truthy;
  }

  lemma ForbiddenMeans(event: Json, key: string, value: Option<Json>)
    requires At(event, [key]) == value
    ensures TextIn(value, FORBIDDEN_EVENTS)
       <==> OneOf(event, [key], ["tool", "tool_call", "tool_result", "subagent", "mcp", "skill"])
    ensures TextIn(value, FORBIDDEN_STEP_TYPES)
       <==> OneOf(event, [key], ["tool", "subagent", "skill", "mcp", "command", "bash", "terminal", "web", "search"])
  {
    hide At, FORBIDDEN_EVENTS, FORBIDDEN_STEP_TYPES;
    ForbiddenAre();
  }

  lemma ForbiddenAre()
    ensures forall s :: s in FORBIDDEN_EVENTS <==> s in ["tool", "tool_call", "tool_result", "subagent", "mcp", "skill"]
    ensures forall s :: s in FORBIDDEN_STEP_TYPES
                   <==> s in ["tool", "subagent", "skill", "mcp", "command", "bash", "terminal", "web", "search"]
  {
  }

  lemma KeysAre()
    ensures forall key :: key in OPERATION_KEYS
                     <==> key == "mcp" || key == "skill" || key == "command" || key == "web_search" || key == "webfetch"
    ensures forall key :: key in ["tool_name", "tool_info", "subagent_info", "subagents"]
                     <==> key == "tool_name" || key == "tool_info" || key == "subagent_info" || key == "subagents"
  {
  }

  lemma StepMeans(fields: Event)
    ensures SafeStep(fields)
       <==> OneOf(Obj(fields), ["step_update", "step_type"],
                  ["user_input", "agent_response", "checkpoint", "reasoning", "thinking", "thought"])
  {
    AtTwo(Obj(fields), "step_update", "step_type");
    assert forall v: Json, key :: !v.Obj? ==> Member(v, key) == None;
    hide Get, At;
  }

  lemma InitMeans(fields: Event)
    ensures GoodInit(fields) <==> BoundedTools(Obj(fields))
  {
    AtOne(Obj(fields), "init");
    AtOne(Obj(fields), "tools");
    AtTwo(Obj(fields), "init", "tools");
    NothingIn("tools");
    EmptyBounded();
    forall raw
      ensures GoodInventory(raw) <==> Bounded(raw)
    {
      BoundedIs(raw);
    }
    hide Get, At, GoodInventory, Bounded;
  }

  lemma NothingIn(key: string)
    ensures Get([], key) == None && Member(Null, key) == None
  {
  }

  lemma BoundedIs(raw: Json)
    ensures GoodInventory(raw) <==> Bounded(raw)
  {
    hide Utf8.Encode, JsonText.Print;
  }

  lemma EmptyBounded()
    ensures Bounded(Arr([]))
  {
    assert JsonText.Print(Arr([]), JsonText.Compact(false)) == "[]";
    EncodedPair();
  }

  lemma EncodedPair()
    ensures |Utf8.Encode("[]")| == 2
  {
    assert "[]"[1..] == "]" && "]"[1..] == [];
  }

  lemma KindMeans(fields: Event)
    ensures KindOf(fields).StepUpdate? <==> OneOf(Obj(fields), ["event"], ["step_update"])
    ensures KindOf(fields).Init? <==> OneOf(Obj(fields), ["event"], ["init"])
    ensures KindOf(fields).Final? <==> OneOf(Obj(fields), ["event"], ["result"])
  {
    AtOne(Obj(fields), "event");
    hide Get, At;
  }

  /** The value a line holds. */
  function ValueOf(line: string): Option<Json> {
    JsonText.Loads(Strip(line))
  }

  lemma QuietMeans(line: string)
    ensures Quiet(line) <==> ValueOf(line).Some? && Safe(ValueOf(line).value)
  {
    hide JsonText.Loads, Strip, ToolOrSubagentReason, KindOf, SafeStep, GoodInit, NoTool, OneOf, BoundedTools;
    match ValueOf(line)
    case Some(Obj(fields)) =>
      MarksMean(fields);
      KindMeans(fields);
      StepMeans(fields);
      InitMeans(fields);
    case _ =>
  }

  lemma TerminalMeans(line: string)
    ensures Terminal(line).Some? <==> ValueOf(line).Some? && Result(ValueOf(line).value)
    ensures Terminal(line).Some? ==> At(ValueOf(line).value, ["result"]) == Some(Obj(Terminal(line).value))
  {
    hide JsonText.Loads, Strip, ToolOrSubagentReason, KindOf, NoTool, OneOf, Get, At;
    match ValueOf(line)
    case Some(Obj(fields)) =>
      MarksMean(fields);
      KindMeans(fields);
      AtOne(Obj(fields), "result");
    case _ =>
  }

  /** How a terminal result is concluded, told by its members. */
  lemma ConclusionMeans(event: Json, payload: Event, out: Event)
    requires At(event, ["result"]) == Some(Obj(payload))
    ensures StructuredOutput(payload) == Ok(out)
       <==> && At(event, ["result", "status"]) == Some(Str("SUCCESS"))
            && At(event, ["result", "structured_output"]) == Some(Obj(out))
    ensures StructuredOutput(payload) == Err(NotSuccess) <==> At(event, ["result", "status"]) != Some(Str("SUCCESS"))
    ensures StructuredOutput(payload).Err? ==> StructuredOutput(payload).error in {NotSuccess, MissingStructuredOutput}
  {
    AtTwo(event, "result", "status");
    AtTwo(event, "result", "structured_output");
    AtOne(event, "result");
    hide Get, At;
  }

  lemma SucceedsMeans(line: string, out: Event)
    ensures Succeeds(line, out) <==> ValueOf(line).Some? && Success(ValueOf(line).value, out)
  {
    TerminalMeans(line);
    hide Terminal, Result, StructuredOutput, ValueOf, At;
    if Terminal(line).Some? {
      ConclusionMeans(ValueOf(line).value, Terminal(line).value, out);
    }
  }

  /** The lines hold safe events and, last, the successful result with that output. */
  predicate Completed(lines: seq<string>, out: Event) {
    && lines != []
    && (forall i | 0 <= i < |lines| :: ValueOf(lines[i]).Some?)
    && (forall i | 0 <= i < |lines| - 1 :: Safe(ValueOf(lines[i]).value))
    && Success(ValueOf(lines[|lines| - 1]).value, out)
  }

  /**
   * A stream is accepted exactly when its lines that are not blank hold safe events and, last, a result whose status
   * is "SUCCESS" and whose structured output is what is returned.
   */
  lemma AcceptedByMembers(raw: string, out: Event)
    ensures Parse(raw) == Ok(out) <==> Completed(NonBlank(LinesOf(raw)), out)
  {
    ParsedIff(raw, out);
    hide Parse, NonBlank, LinesOf, Quiet, Succeeds, ValueOf, Safe, Success;
    var lines := NonBlank(LinesOf(raw));
    forall i | 0 <= i < |lines|
      ensures Quiet(lines[i]) <==> ValueOf(lines[i]).Some? && Safe(ValueOf(lines[i]).value)
      ensures Succeeds(lines[i], out) <==> ValueOf(lines[i]).Some? && Success(ValueOf(lines[i]).value, out)
    {
      QuietMeans(lines[i]);
      SucceedsMeans(lines[i], out);
    }
  }

  // ----- Which error a refused event meets ----------------------------------------------------

  /** The first of the keys that is there with a true value. */
  predicate FirstTruthy(w: Json, key: string) {
    var keys := ["mcp", "skill", "command", "web_search", "webfetch"];
    exists i | 0 <= i < |keys| :: keys[i] == key && HasTruthy(w, key) && forall j | 0 <= j < i :: !HasTruthy(w, keys[j])
  }

  /** The mark of activity an event is refused for, looked for in this order. */
  predicate Marked(event: Json, e: Error) {
    var w := Watched(event);
    if ToolEvent(event) then e == ForbiddenEvent
    else if ToolStep(w) then e == ForbiddenStep
    else if At(w, ["tool_name"]).Some? || At(w, ["tool_info"]).Some? then e == ToolOperation
    else if At(w, ["subagent_info"]).Some? || At(w, ["subagents"]).Some? then e == SubagentOperation
    else e.KeyedOperation? && FirstTruthy(w, e.key)
  }

  lemma {:induction false} FirstOperation(w: Event, keys: seq<string>)
    ensures match OperationFrom(w, keys)
            case Some(e) =>
              && e.KeyedOperation?
              && exists i | 0 <= i < |keys| ::
                   keys[i] == e.key && TruthyKey(w, e.key) && forall j | 0 <= j < i :: !TruthyKey(w, keys[j])
            case None => true
  {
    hide TruthyKey;
    if keys != [] && !TruthyKey(w, keys[0]) {
      FirstOperation(w, keys[1..]);
      match OperationFrom(w, keys[1..]) {
        case Some(e) =>
          var i :| 0 <= i < |keys| - 1 && keys[1..][i] == e.key && forall j | 0 <= j < i :: !TruthyKey(w, keys[1..][j]);
          assert keys[i + 1] == e.key;
          forall j | 0 <= j < i + 1
            ensures !TruthyKey(w, keys[j])
          {
            if j > 0 {
              assert keys[1..][j - 1] == keys[j];
            }
          }
        case None =>
      }
    }
  }

  lemma FirstMeans(w: Event)
    ensures match OperationFrom(w, OPERATION_KEYS)
            case Some(e) => e.KeyedOperation? && FirstTruthy(Obj(w), e.key)
            case None => true
  {
    FirstOperation(w, OPERATION_KEYS);
    AtKeys(w);
    hide At, Get, HasKey, Truthy, OperationFrom, HasTruthy;
    forall key
      ensures HasTruthy(Obj(w), key) <==> TruthyKey(w, key)
    {
      TruthyMeans(w, key);
    }
    hide TruthyKey;
  }

  lemma KeyThere(w: Event, key: string)
    ensures At(Obj(w), [key]) == Get(w, key) && (At(Obj(w), [key]).Some? <==> HasKey(w, key))
  {
    AtOne(Obj(w), key);
    hide At, HasKey;
  }

  lemma MarkedMeans(fields: Event)
    requires ToolOrSubagentReason(fields).Some?
    ensures Marked(Obj(fields), ToolOrSubagentReason(fields).value)
  {
    hide At, Get, HasKey, Watched, ActivityPayload, OneOf, TextIn, OperationFrom, FirstTruthy, OPERATION_KEYS,
         FORBIDDEN_EVENTS, FORBIDDEN_STEP_TYPES;
    var w := ActivityPayload(fields);
    WatchedIs(fields);
    KeyThere(fields, "event");
    KeyThere(w, "step_type");
    KeyThere(w, "tool_name");
    KeyThere(w, "tool_info");
    KeyThere(w, "subagent_info");
    KeyThere(w, "subagents");
    FirstMeans(w);
    ForbiddenMeans(Obj(fields), "event", Get(fields, "event"));
    ForbiddenMeans(Obj(w), "step_type", Get(w, "step_type"));
  }

  /** The error a refused event meets: activity before payload, and a second result before a malformed one. */
  lemma EventRefused(state: State, fields: Event)
    ensures var event := Obj(fields);
            match TakeEvent(state, fields)
            case Ok(_) => NoTool(event) && OneOf(event, ["event"], ["init", "step_update", "result"])
            case Err(e) =>
              if !OneOf(event, ["event"], ["init", "step_update", "result"]) then e == UnknownEvent
              else if !NoTool(event) then Marked(event, e)
              else if OneOf(event, ["event"], ["step_update"]) then
                e == if At(event, ["step_update"]).Some? && At(event, ["step_update"]).value.Obj? then UnknownStep
                     else MissingStepPayload
              else if OneOf(event, ["event"], ["result"]) then
                e == if state.result.Some? then DuplicateResult else MissingResultPayload
              else InitReason(fields) == Some(e)
  {
    AtOne(Obj(fields), "step_update");
    KindMeans(fields);
    KindsOf(fields);
    MarksMean(fields);
    if ToolOrSubagentReason(fields).Some? {
      MarkedMeans(fields);
    }
    hide At, Get, KindOf, NoTool, Marked, OneOf, ToolOrSubagentReason, InitReason, GoodInit, SafeStep, TextIn,
         SAFE_STEP_TYPES;
  }

  lemma KindsOf(fields: Event)
    ensures KindOf(fields).Unsafe? <==> !OneOf(Obj(fields), ["event"], ["init", "step_update", "result"])
  {
    AtOne(Obj(fields), "event");
    hide Get, At;
  }

  // ----- A stream printed line by line --------------------------------------------------------

  /** Each line ended by a newline. */
  function Joined(lines: seq<string>): string {
    if lines == [] then [] else lines[0] + (['\n'] + Joined(lines[1..]))
  }

  /** One event a line: no break and no escape character in it, and it loads to the event. */
  predicate Prints(line: string, event: Json) {
    OneLine(line) && JsonScan.ESC !in line && ValueOf(line) == Some(event)
  }

  lemma {:induction false} JoinedNoEscape(lines: seq<string>)
    requires forall i | 0 <= i < |lines| :: JsonScan.ESC !in lines[i]
    ensures JsonScan.ESC !in Joined(lines)
  {
    if lines != [] {
      JoinedNoEscape(lines[1..]);
    }
  }

  lemma {:induction false} JoinedSplits(lines: seq<string>)
    requires forall i | 0 <= i < |lines| :: OneLine(lines[i])
    ensures SplitLines(Joined(lines)) == lines
  {
    if lines == [] {
      assert SplitLines([]) == [];
    } else {
      hide SplitLines, OneLine;
      assert IsBreak('\n');
      JoinedSplits(lines[1..]);
      SplitAtBreak(lines[0], '\n', Joined(lines[1..]));
    }
  }

  lemma LinesJoined(lines: seq<string>)
    requires forall i | 0 <= i < |lines| :: OneLine(lines[i]) && JsonScan.ESC !in lines[i]
    ensures LinesOf(Joined(lines)) == lines
  {
    JoinedNoEscape(lines);
    JoinedSplits(lines);
    JsonScan.StripAnsiFree(Joined(lines), []);
    assert Joined(lines) + [] == Joined(lines);
    assert JsonScan.StripAnsi([]) == [];
    hide JsonScan.StripAnsi, SplitLines, Joined;
  }

  lemma {:induction false} QuietRun(lines: seq<string>, state: State)
    requires state.result.None? && forall i | 0 <= i < |lines| :: Quiet(lines[i])
    ensures TakeLines(state, lines).Ok? && TakeLines(state, lines).value.result.None?
    decreases |lines|
  {
    hide Quiet, TakeLine, Terminal, Strip;
    if lines != [] {
      TakeLineCases(state, lines[0]);
      QuietNotBlank(lines[0]);
      QuietRun(lines[1..], state.(last := false));
    }
  }

  lemma QuietNotBlank(line: string)
    ensures Quiet(line) || Terminal(line).Some? ==> Strip(line) != []
  {
    hide ToolOrSubagentReason, KindOf, GoodInit, SafeStep, Get, Strip;
    assert JsonText.Loads([]) == None by {
      assert JsonText.Read([]) == None;
    }
    hide JsonText.Loads;
  }

  lemma LastLine(line: string, state: State)
    requires state.result.None? && Terminal(line).Some?
    ensures TakeLines(state, [line]) == Ok(State(Terminal(line), true))
  {
    hide TakeLine, Terminal, Quiet, Strip;
    TakeLineCases(state, line);
    QuietNotBlank(line);
    assert [line][1..] == [];
  }

  lemma ResultVerdict(front: seq<string>, line: string)
    requires (forall i | 0 <= i < |front| :: Quiet(front[i])) && Terminal(line).Some?
    ensures Verdict(front + [line]) == StructuredOutput(Terminal(line).value)
  {
    hide TakeLines, Terminal, Quiet, StructuredOutput;
    QuietRun(front, START);
    TakeLinesConcat(START, front, [line]);
    LastLine(line, TakeLines(START, front).value);
  }

  /**
   * Safe events and then a result, printed one a line: the status and the structured output of the result decide, and
   * nothing else.
   */
  lemma PrintedStream(lines: seq<string>, events: seq<Json>)
    requires events != [] && |lines| == |events|
    requires forall i | 0 <= i < |lines| :: Prints(lines[i], events[i])
    requires (forall i | 0 <= i < |events| - 1 :: Safe(events[i])) && Result(events[|events| - 1])
    ensures var result := events[|events| - 1];
            Parse(Joined(lines)) ==
            if At(result, ["result", "status"]) != Some(Str("SUCCESS")) then Err(NotSuccess)
            else
              match At(result, ["result", "structured_output"])
              case Some(Obj(out)) => Ok(out)
              case _ => Err(MissingStructuredOutput)
  {
    hide OneLine, ValueOf, Safe, Result, Quiet, Terminal, Parse, LinesOf, Joined, Verdict, StructuredOutput, At;
    var n := |lines| - 1;
    LinesJoined(lines);
    forall i | 0 <= i < n
      ensures Quiet(lines[..n][i])
    {
      assert Prints(lines[i], events[i]);
      QuietMeans(lines[i]);
    }
    assert Prints(lines[n], events[n]);
    TerminalMeans(lines[n]);
    ResultVerdict(lines[..n], lines[n]);
    assert lines[..n] + [lines[n]] == lines;
    NotBlankParse(lines, n);
    Concluded(events[n], Terminal(lines[n]).value);
  }

  lemma Concluded(event: Json, payload: Event)
    requires At(event, ["result"]) == Some(Obj(payload))
    ensures StructuredOutput(payload) ==
            if At(event, ["result", "status"]) != Some(Str("SUCCESS")) then Err(NotSuccess)
            else
              match At(event, ["result", "structured_output"])
              case Some(Obj(out)) => Ok(out)
              case _ => Err(MissingStructuredOutput)
  {
    AtTwo(event, "result", "status");
    AtTwo(event, "result", "structured_output");
    AtOne(event, "result");
    hide Get, At;
  }

  lemma NotBlankParse(lines: seq<string>, n: nat)
    requires n < |lines| && Terminal(lines[n]).Some? && LinesOf(Joined(lines)) == lines
    ensures Parse(Joined(lines)) == Verdict(lines)
  {
    QuietNotBlank(lines[n]);
    if Strip(Joined(lines)) == [] {
      BlankText(Joined(lines));
      KeptLine(lines, n);
    }
    hide Strip, Verdict, LinesOf, Joined, Terminal;
  }

  lemma {:induction false} KeptLine(lines: seq<string>, n: nat)
    requires n < |lines| && Strip(lines[n]) != []
    ensures NonBlank(lines) != []
  {
    hide Strip;
    if n > 0 {
      assert lines[1..][n - 1] == lines[n];
      KeptLine(lines[1..], n - 1);
    }
  }

  /** What json.dumps prints of an event is such a line, unless one of its texts holds U+0085, U+2028 or U+2029. */
  lemma PrintedEvent(event: Json)
    requires event.Obj? && Writable(event) && TrajectoryText.Plain(event)
    ensures Prints(TrajectoryText.EventText(event), event)
  {
    hide *;
    var text := TrajectoryText.EventText(event);
    EventTextIs(event);
    TrajectoryText.EventReadsBack(event);
    TrajectoryText.EventIsOneLine(event);
    TrajectoryText.OneLineSplit(text);
    JsonScan.PrintNoEsc(event, TrajectoryText.STYLE);
    PublicRequest.PrintBraces(event, TrajectoryText.STYLE);
    UnstrippedBraces(text);
    PrintsIs(text, event);
  }

  lemma EventTextIs(event: Json)
    ensures var text := TrajectoryText.EventText(event);
            text == JsonText.Print(event, TrajectoryText.STYLE) == JsonText.Write(event, TrajectoryText.STYLE, [])
    ensures Writable(event) ==> JsonText.Finite(event)
  {
    hide JsonText.Write;
  }

  lemma UnstrippedBraces(text: string)
    requires text != [] && text[0] == '{' && text[|text| - 1] == '}'
    ensures Strip(text) == text
  {
  }

  lemma PrintsIs(text: string, event: Json)
    requires OneLine(text) && JsonScan.ESC !in text && Strip(text) == text && JsonText.Loads(text) == Some(event)
    ensures Prints(text, event)
  {
    hide Strip, JsonText.Loads, OneLine;
  }
}
