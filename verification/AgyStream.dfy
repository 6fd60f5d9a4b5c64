/** Accepting one AGY event stream: any number of safe events, then exactly one successful final result. */
module AgyStream {
  import opened Wrappers
  import opened Json
  import opened Text
  import JsonText
  import JsonScan
  import Utf8

  type Event = seq<Field>

  const MAX_INIT_TOOL_COUNT := 256
  const MAX_INIT_TOOL_NAME_CHARS := 128
  const MAX_INIT_TOOLS_ENCODED_BYTES := 16 * 1024

  const SAFE_STEP_TYPES: set<string> :=
    {"user_input", "agent_response", "checkpoint", "reasoning", "thinking", "thought"}

  const FORBIDDEN_EVENTS: set<string> := {"tool", "tool_call", "tool_result", "subagent", "mcp", "skill"}

  const FORBIDDEN_STEP_TYPES: set<string> :=
    {"tool", "subagent", "skill", "mcp", "command", "bash", "terminal", "web", "search"}

  datatype Error =
    | EmptyStream
    | NotNdjson
    | NotAnObject
    | UnknownEvent
    | ForbiddenEvent
    | ForbiddenStep
    | ToolOperation
    | SubagentOperation
    | KeyedOperation(key: string)
    | MissingStepPayload
    | UnknownStep
    | InitNotObject
    | ToolsNotList
    | TooManyTools
    | ToolsNotText
    | EmptyToolName
    | LongToolName
    | ToolsTooLarge
    | DuplicateResult
    | MissingResultPayload
    | MissingResult
    | ResultNotLast
    | NotSuccess
    | MissingStructuredOutput

  // ----- Tool and subagent activity -----------------------------------------------------------

  predicate TextIn(value: Option<Json>, texts: set<string>) {
    match value
    case Some(Str(s)) => s in texts
    case _ => false
  }

  predicate TruthyKey(payload: Event, key: string) {
    match Get(payload, key)
    case Some(v) => Truthy(v)
    case None => false
  }

  /** The step payload, or the event itself when it has none. */
  function ActivityPayload(event: Event): Event {
    match Get(event, "step_update")
    case Some(Obj(payload)) => payload
    case _ => event
  }

  const OPERATION_KEYS: seq<string> := ["mcp", "skill", "command", "web_search", "webfetch"]

  function OperationFrom(payload: Event, keys: seq<string>): Option<Error> {
    if keys == [] then None
    else if TruthyKey(payload, keys[0]) then Some(KeyedOperation(keys[0]))
    else OperationFrom(payload, keys[1..])
  }

  /** _tool_or_subagent_reason. */
  function ToolOrSubagentReason(event: Event): Option<Error> {
    if TextIn(Get(event, "event"), FORBIDDEN_EVENTS) then Some(ForbiddenEvent)
    else
      var payload := ActivityPayload(event);
      if TextIn(Get(payload, "step_type"), FORBIDDEN_STEP_TYPES) then Some(ForbiddenStep)
      else if HasKey(payload, "tool_name") || HasKey(payload, "tool_info") then Some(ToolOperation)
      else if HasKey(payload, "subagent_info") || HasKey(payload, "subagents") then Some(SubagentOperation)
      else OperationFrom(payload, OPERATION_KEYS)
  }

  lemma {:induction false} OperationFound(payload: Event, keys: seq<string>)
    ensures OperationFrom(payload, keys).Some? <==> exists key | key in keys :: TruthyKey(payload, key)
  {
    if keys != [] {
      OperationFound(payload, keys[1..]);
      assert forall key | key in keys :: key == keys[0] || key in keys[1..];
    }
  }

  /** An event shows no activity exactly when none of the recognised marks is on it. */
  lemma NoActivity(event: Event)
    ensures ToolOrSubagentReason(event).None? <==>
            var payload := ActivityPayload(event);
            && !TextIn(Get(event, "event"), FORBIDDEN_EVENTS)
            && !TextIn(Get(payload, "step_type"), FORBIDDEN_STEP_TYPES)
            && (forall key | key in ["tool_name", "tool_info", "subagent_info", "subagents"] :: !HasKey(payload, key))
            && (forall key | key in OPERATION_KEYS :: !TruthyKey(payload, key))
  {
    hide Get, HasKey, TextIn, TruthyKey;
    OperationFound(ActivityPayload(event), OPERATION_KEYS);
  }

  // ----- The inventory an init event advertises -----------------------------------------------

  predicate GoodName(item: Json) {
    item.Str? && 0 < |item.s| <= MAX_INIT_TOOL_NAME_CHARS
  }

  function EncodedSize(items: seq<Json>): nat {
    |Utf8.Encode(JsonText.Print(Arr(items), JsonText.Compact(false)))|
  }

  /** What an advertised inventory must be; the names in it grant and refuse nothing. */
  predicate GoodInventory(raw: Json) {
    && raw.Arr?
    && |raw.items| <= MAX_INIT_TOOL_COUNT
    && (forall item | item in raw.items :: GoodName(item))
    && EncodedSize(raw.items) <= MAX_INIT_TOOLS_ENCODED_BYTES
  }

  /** The inventory of an init event: in its payload, else in the event itself. */
  function Inventory(payload: Event, event: Event): Json {
    match Get(payload, "tools")
    case Some(raw) => raw
    case None =>
      match Get(event, "tools")
      case Some(raw) => raw
      case None => Arr([])
  }

  function InitPayload(event: Event): Option<Event> {
    match Get(event, "init")
    case None => Some([])
    case Some(Null) => Some([])
    case Some(Obj(payload)) => Some(payload)
    case _ => None
  }

  predicate GoodInit(event: Event) {
    match InitPayload(event)
    case Some(payload) => GoodInventory(Inventory(payload, event))
    case None => false
  }

  /** The first bad name decides which of the two name errors is raised. */
  function NameError(items: seq<Json>): (r: Option<Error>)
    requires forall item | item in items :: item.Str?
    ensures r == None <==> forall item | item in items :: GoodName(item)
  {
    if items == [] then None
    else if (assert items[0] in items; items[0].s == []) then Some(EmptyToolName)
    else if |items[0].s| > MAX_INIT_TOOL_NAME_CHARS then Some(LongToolName)
    else NameError(items[1..])
  }

  function InventoryError(raw: Json): (r: Option<Error>)
    ensures r == None <==> GoodInventory(raw)
  {
    if !raw.Arr? then Some(ToolsNotList)
    else if |raw.items| > MAX_INIT_TOOL_COUNT then Some(TooManyTools)
    else if exists item | item in raw.items :: !item.Str? then Some(ToolsNotText)
    else if NameError(raw.items).Some? then NameError(raw.items)
    else if EncodedSize(raw.items) > MAX_INIT_TOOLS_ENCODED_BYTES then Some(ToolsTooLarge)
    else
      assert forall item | item in raw.items :: item.Str? && GoodName(item);
      None
  }

  /** _init_inventory_reason. */
  function InitReason(event: Event): (r: Option<Error>)
    ensures r == None <==> GoodInit(event)
  {
    match InitPayload(event)
    case Some(payload) => InventoryError(Inventory(payload, event))
    case None => Some(InitNotObject)
  }

  /** _advertised_init_tools: the names are looked at one after the other. */
  method AdvertisedInitTools(payload: Event, event: Event) returns (r: Result<seq<Json>, Error>)
    ensures r == match InventoryError(Inventory(payload, event))
                 case Some(e) => Err(e)
                 case None => Ok(Inventory(payload, event).items)
  {
    hide EncodedSize, Get;
    var raw := Inventory(payload, event);
    if !raw.Arr? {
      return Err(ToolsNotList);
    }
    var items := raw.items;
    if |items| > MAX_INIT_TOOL_COUNT {
      return Err(TooManyTools);
    }
    if exists item | item in items :: !item.Str? {
      return Err(ToolsNotText);
    }
    assert items[0..] == items;
    for i := 0 to |items|
      invariant NameError(items) == NameError(items[i..])
    {
      assert items[i..][1..] == items[i + 1..];
      if items[i].s == [] {
        return Err(EmptyToolName);
      }
      if |items[i].s| > MAX_INIT_TOOL_NAME_CHARS {
        return Err(LongToolName);
      }
    }
    if EncodedSize(items) > MAX_INIT_TOOLS_ENCODED_BYTES {
      return Err(ToolsTooLarge);
    }
    r := Ok(items);
  }

  // ----- One line of the stream ---------------------------------------------------------------

  datatype State = State(result: Option<Event>, last: bool)

  const START := State(None, false)

  predicate SafeStep(event: Event) {
    match Get(event, "step_update")
    case Some(Obj(payload)) => TextIn(Get(payload, "step_type"), SAFE_STEP_TYPES)
    case _ => false
  }

  function StepReason(event: Event): (r: Option<Error>)
    ensures r == None <==> SafeStep(event)
  {
    match Get(event, "step_update")
    case Some(Obj(payload)) => if TextIn(Get(payload, "step_type"), SAFE_STEP_TYPES) then None else Some(UnknownStep)
    case _ => Some(MissingStepPayload)
  }

  function TakeResult(state: State, event: Event): Result<State, Error> {
    if state.result.Some? then Err(DuplicateResult)
    else
      match Get(event, "result")
      case Some(Obj(payload)) => Ok(State(Some(payload), true))
      case _ => Err(MissingResultPayload)
  }

  function Quietly(reason: Option<Error>, state: State): Result<State, Error> {
    match reason
    case Some(e) => Err(e)
    case None => Ok(state.(last := false))
  }

  datatype Kind = Init | StepUpdate | Final | Unsafe

  function KindOf(event: Event): Kind {
    match Get(event, "event")
    case Some(Str("init")) => Init
    case Some(Str("step_update")) => StepUpdate
    case Some(Str("result")) => Final
    case _ => Unsafe
  }

  function TakeEvent(state: State, event: Event): Result<State, Error> {
    var kind := KindOf(event);
    if kind.Unsafe? then Err(UnknownEvent)
    else if ToolOrSubagentReason(event).Some? then Err(ToolOrSubagentReason(event).value)
    else
      match kind
      case StepUpdate => Quietly(StepReason(event), state)
      case Init => Quietly(InitReason(event), state)
      case _ => TakeResult(state, event)
  }

  function TakeLine(state: State, line: string): Result<State, Error> {
    var stripped := Strip(line);
    if stripped == [] then Ok(state)
    else
      match JsonText.Loads(stripped)
      case None => Err(NotNdjson)
      case Some(Obj(event)) => TakeEvent(state, event)
      case _ => Err(NotAnObject)
  }

  /** The loop over the lines; the first error ends it. */
  function TakeLines(state: State, lines: seq<string>): Result<State, Error>
    decreases |lines|
  {
    if lines == [] then Ok(state)
    else
      match TakeLine(state, lines[0])
      case Err(e) => Err(e)
      case Ok(next) => TakeLines(next, lines[1..])
  }

  /** The structured output of a successful result payload. */
  function StructuredOutput(payload: Event): Result<Event, Error> {
    if Get(payload, "status") != Some(Str("SUCCESS")) then Err(NotSuccess)
    else
      match Get(payload, "structured_output")
      case Some(Obj(structured)) => Ok(structured)
      case _ => Err(MissingStructuredOutput)
  }

  function Conclude(state: State): Result<Event, Error> {
    match state.result
    case None => Err(MissingResult)
    case Some(payload) => if state.last then StructuredOutput(payload) else Err(ResultNotLast)
  }

  function Verdict(lines: seq<string>): Result<Event, Error> {
    match TakeLines(START, lines)
    case Err(e) => Err(e)
    case Ok(state) => Conclude(state)
  }

  function LinesOf(raw: string): seq<string> {
    SplitLines(JsonScan.StripAnsi(raw))
  }

  function Parse(raw: string): Result<Event, Error> {
    if Strip(raw) == [] then Err(EmptyStream) else Verdict(LinesOf(raw))
  }

  /** parse_agy_stream, without the usage counts it also returns. */
  method ParseAgyStream(raw: string) returns (r: Result<Event, Error>)
    ensures r == Parse(raw)
  {
    hide Get, Strip, SplitLines, JsonText.Loads, JsonScan.StripAnsi, ToolOrSubagentReason, InitReason, StepReason,
         KindOf;
    if Strip(raw) == [] {
      return Err(EmptyStream);
    }
    var resultEvent: Option<Event> := None;
    var lastEventWasResult := false;
    var lines := LinesOf(raw);
    var i := 0;
    assert lines[0..] == lines;
    while i < |lines|
      invariant 0 <= i <= |lines|
      invariant TakeLines(START, lines) == TakeLines(State(resultEvent, lastEventWasResult), lines[i..])
    {
      var stripped := Strip(lines[i]);
      assert lines[i..][1..] == lines[i + 1..];
      i := i + 1;
      if stripped == [] {
        continue;
      }
      match JsonText.Loads(stripped) {
        case None =>
          return Err(NotNdjson);
        case Some(Obj(event)) =>
          var kind := KindOf(event);
          if kind.Unsafe? {
            return Err(UnknownEvent);
          }
          match ToolOrSubagentReason(event) {
            case Some(e) =>
              return Err(e);
            case None =>
          }
          match kind {
            case StepUpdate =>
              match StepReason(event) {
                case Some(e) =>
                  return Err(e);
                case None =>
              }
              lastEventWasResult := false;
            case Init =>
              match InitReason(event) {
                case Some(e) =>
                  return Err(e);
                case None =>
              }
              lastEventWasResult := false;
            case _ =>
              if resultEvent.Some? {
                return Err(DuplicateResult);
              }
              match Get(event, "result") {
                case Some(Obj(payload)) =>
                  resultEvent := Some(payload);
                  lastEventWasResult := true;
                case _ =>
                  return Err(MissingResultPayload);
              }
          }
        case _ =>
          return Err(NotAnObject);
      }
    }
    match resultEvent {
      case None =>
        r := Err(MissingResult);
      case Some(payload) =>
        if !lastEventWasResult {
          return Err(ResultNotLast);
        }
        r := StructuredOutput(payload);
    }
  }

  // ----- What is accepted ---------------------------------------------------------------------

  /** The event a line holds. */
  function EventOf(line: string): Option<Event> {
    match JsonText.Loads(Strip(line))
    case Some(Obj(event)) => Some(event)
    case _ => None
  }

  /** A safe init or step_update event without a trace of tool or subagent activity. */
  predicate Quiet(line: string) {
    match EventOf(line)
    case Some(event) =>
      && ToolOrSubagentReason(event).None?
      && (match KindOf(event)
          case StepUpdate => SafeStep(event)
          case Init => GoodInit(event)
          case _ => false)
    case None => false
  }

  /** The payload of a terminal result event. */
  function Terminal(line: string): Option<Event> {
    match EventOf(line)
    case Some(event) =>
      if KindOf(event) == Final && ToolOrSubagentReason(event).None? then
        (match Get(event, "result")
         case Some(Obj(payload)) => Some(payload)
         case _ => None)
      else None
    case None => None
  }

  function NonBlank(lines: seq<string>): seq<string> {
    if lines == [] then []
    else (if Strip(lines[0]) == [] then [] else [lines[0]]) + NonBlank(lines[1..])
  }

  predicate Succeeds(line: string, out: Event) {
    Terminal(line).Some? && StructuredOutput(Terminal(line).value) == Ok(out)
  }

  /** Quiet events, then one terminal result, which is a success with the structured output `out`. */
  predicate Complete(lines: seq<string>, out: Event) {
    && lines != []
    && (forall i | 0 <= i < |lines| - 1 :: Quiet(lines[i]))
    && Succeeds(lines[|lines| - 1], out)
  }

  /** A line is skipped, quiet, terminal, or the end of the stream. */
  lemma TakeLineCases(state: State, line: string)
    ensures Strip(line) == [] ==> TakeLine(state, line) == Ok(state)
    ensures Strip(line) != [] && Quiet(line) ==> TakeLine(state, line) == Ok(state.(last := false))
    ensures Strip(line) != [] && Terminal(line).Some? ==>
              TakeLine(state, line) == if state.result.Some? then Err(DuplicateResult)
                                       else Ok(State(Terminal(line), true))
    ensures Strip(line) != [] && !Quiet(line) && Terminal(line).None? ==> TakeLine(state, line).Err?
    ensures Quiet(line) ==> Terminal(line).None?
  {
    hide Get, Strip, JsonText.Loads, ToolOrSubagentReason, GoodInit, SafeStep;
  }

  /** After the result only blank lines keep the stream acceptable. */
  lemma {:induction false} AfterResult(state: State, lines: seq<string>)
    requires state.result.Some?
    ensures match TakeLines(state, lines)
            case Err(_) => NonBlank(lines) != []
            case Ok(end) => end == if NonBlank(lines) == [] then state else state.(last := false)
    decreases |lines|
  {
    hide TakeLine, Quiet, Terminal, Strip;
    if lines != [] {
      TakeLineCases(state, lines[0]);
      match TakeLine(state, lines[0]) {
        case Ok(next) => AfterResult(next, lines[1..]);
        case Err(_) =>
      }
    }
  }

  lemma CompleteCons(line: string, rest: seq<string>, out: Event)
    ensures rest != [] ==> (Complete([line] + rest, out) <==> Quiet(line) && Complete(rest, out))
    ensures Complete([line], out) <==> Succeeds(line, out)
  {
    hide Quiet, Succeeds;
    var lines := [line] + rest;
    if rest != [] {
      assert lines[|lines| - 1] == rest[|rest| - 1];
      if Complete(lines, out) {
        assert forall i | 0 <= i < |rest| - 1 :: lines[i + 1] == rest[i];
        assert lines[0] == line;
      }
      if Quiet(line) && Complete(rest, out) {
        assert forall i | 1 <= i < |lines| - 1 :: lines[i] == rest[i - 1];
      }
    }
  }

  lemma {:induction false} AcceptedFrom(state: State, lines: seq<string>, out: Event)
    requires state.result.None?
    ensures TakeLines(state, lines).Ok? && Conclude(TakeLines(state, lines).value) == Ok(out)
            <==> Complete(NonBlank(lines), out)
    decreases |lines|
  {
    CompleteEmpty(out);
    if lines != [] {
      var rest := NonBlank(lines[1..]);
      TakeLineCases(state, lines[0]);
      CompleteCons(lines[0], rest, out);
      hide TakeLine, Quiet, Terminal, Strip, Complete, StructuredOutput;
      if Strip(lines[0]) == [] {
        assert NonBlank(lines) == rest;
      } else {
        assert rest == [] ==> NonBlank(lines) == [lines[0]];
      }
      match TakeLine(state, lines[0]) {
        case Ok(next) =>
          if next.result.Some? {
            AfterResult(next, lines[1..]);
          } else {
            AcceptedFrom(next, lines[1..], out);
          }
        case Err(_) =>
      }
    }
  }

  lemma CompleteEmpty(out: Event)
    ensures !Complete([], out)
  {
  }

  /** The stream is accepted exactly when its non-blank lines are quiet events and one final successful result. */
  lemma AcceptedIff(lines: seq<string>, out: Event)
    ensures Verdict(lines) == Ok(out) <==> Complete(NonBlank(lines), out)
  {
    AcceptedFrom(START, lines, out);
  }

  /** The same for the text the provider printed. */
  lemma ParsedIff(raw: string, out: Event)
    ensures Parse(raw) == Ok(out) <==> Complete(NonBlank(LinesOf(raw)), out)
  {
    AcceptedIff(LinesOf(raw), out);
    CompleteEmpty(out);
    hide Verdict, Complete, Strip, JsonScan.StripAnsi, SplitLines, NonBlank;
    if Strip(raw) == [] {
      BlankText(raw);
    }
  }

  lemma {:induction false} NonBlankNone(lines: seq<string>)
    requires forall i | 0 <= i < |lines| :: Strip(lines[i]) == []
    ensures NonBlank(lines) == []
  {
    hide Strip;
    if lines != [] {
      NonBlankNone(lines[1..]);
    }
  }

  lemma BlankText(raw: string)
    requires Strip(raw) == []
    ensures NonBlank(LinesOf(raw)) == []
  {
    StripEmpty(raw);
    assert JsonScan.ESC !in raw;
    JsonScan.StripAnsiFree(raw, []);
    assert raw + [] == raw;
    assert JsonScan.StripAnsi([]) == [];
    hide Strip, JsonScan.StripAnsi, SplitLines, NonBlank;
    BlankLines(raw);
    NonBlankNone(SplitLines(raw));
  }

  // ----- What no continuation can repair ------------------------------------------------------

  lemma {:induction false} TakeLinesConcat(state: State, a: seq<string>, b: seq<string>)
    ensures TakeLines(state, a + b) ==
            match TakeLines(state, a) case Err(e) => Err(e) case Ok(next) => TakeLines(next, b)
    decreases |a|
  {
    hide TakeLine;
    if a == [] {
      assert a + b == b;
    } else {
      assert (a + b)[1..] == a[1..] + b;
      match TakeLine(state, a[0]) {
        case Ok(next) => TakeLinesConcat(next, a[1..], b);
        case Err(_) =>
      }
    }
  }

  lemma TakeLinesAt(state: State, lines: seq<string>, i: nat)
    requires i < |lines|
    ensures TakeLines(state, lines) ==
            match TakeLines(state, lines[..i])
            case Err(e) => Err(e)
            case Ok(mid) =>
              match TakeLine(mid, lines[i])
              case Err(e) => Err(e)
              case Ok(next) => TakeLines(next, lines[i + 1..])
  {
    hide TakeLine;
    assert lines == lines[..i] + lines[i..];
    TakeLinesConcat(state, lines[..i], lines[i..]);
    assert lines[i..][1..] == lines[i + 1..];
  }

  /** Once a line is refused the same error stands whatever follows. */
  lemma RefusedForGood(lines: seq<string>, more: seq<string>)
    requires TakeLines(START, lines).Err?
    ensures Verdict(lines + more) == Verdict(lines) == Err(TakeLines(START, lines).error)
  {
    TakeLinesConcat(START, lines, more);
  }

  /** Recognised tool or subagent activity anywhere refuses the stream and every extension of it. */
  lemma ActivityRefuses(lines: seq<string>, i: nat, more: seq<string>)
    requires i < |lines| && EventOf(lines[i]).Some?
    requires ToolOrSubagentReason(EventOf(lines[i]).value).Some?
    ensures TakeLines(START, lines).Err? && Verdict(lines + more).Err?
  {
    LoadsBlank(lines[i]);
    forall state: State
      ensures TakeLine(state, lines[i]).Err?
    {
      TakeLineCases(state, lines[i]);
      NotAccepted(lines[i]);
    }
    hide TakeLine, EventOf, ToolOrSubagentReason;
    TakeLinesAt(START, lines, i);
    RefusedForGood(lines, more);
  }

  lemma LoadsBlank(line: string)
    requires EventOf(line).Some?
    ensures Strip(line) != []
  {
    assert JsonText.Read([]) == None;
  }

  lemma NotAccepted(line: string)
    requires EventOf(line).Some? && ToolOrSubagentReason(EventOf(line).value).Some?
    ensures !Quiet(line) && Terminal(line).None?
  {
    hide EventOf, ToolOrSubagentReason, KindOf;
  }

  predicate IsResultEvent(line: string) {
    EventOf(line).Some? && KindOf(EventOf(line).value) == Final
  }

  lemma TakeResultLine(state: State, line: string)
    requires IsResultEvent(line)
    ensures match TakeLine(state, line) case Err(_) => true case Ok(next) => state.result.None? && next.result.Some?
  {
    LoadsBlank(line);
    hide ToolOrSubagentReason, KindOf, JsonText.Loads, Strip, Get;
  }

  lemma ResultKept(state: State, lines: seq<string>)
    requires state.result.Some?
    ensures match TakeLines(state, lines) case Err(_) => true case Ok(end) => end.result.Some?
  {
    AfterResult(state, lines);
  }

  /** Two result events anywhere refuse the stream and every extension of it. */
  lemma TwoResultsRefuse(lines: seq<string>, i: nat, j: nat, more: seq<string>)
    requires i < j < |lines| && IsResultEvent(lines[i]) && IsResultEvent(lines[j])
    ensures TakeLines(START, lines).Err? && Verdict(lines + more).Err?
  {
    hide TakeLine, IsResultEvent, TakeLines, Verdict;
    TakeLinesAt(START, lines[..j], i);
    assert lines[..j][..i] == lines[..i] && lines[..j][i] == lines[i];
    match TakeLines(START, lines[..i]) {
      case Ok(mid) =>
        TakeResultLine(mid, lines[i]);
        match TakeLine(mid, lines[i]) {
          case Ok(next) => ResultKept(next, lines[..j][i + 1..]);
          case Err(_) =>
        }
      case Err(_) =>
    }
    TakeLinesAt(START, lines, j);
    match TakeLines(START, lines[..j]) {
      case Ok(mid) => TakeResultLine(mid, lines[j]);
      case Err(_) =>
    }
    RefusedForGood(lines, more);
  }

  lemma {:induction false} OnlyBlank(state: State, lines: seq<string>)
    requires NonBlank(lines) == []
    ensures TakeLines(state, lines) == Ok(state)
    decreases |lines|
  {
    hide Strip;
    if lines != [] {
      OnlyBlank(state, lines[1..]);
    }
  }

  lemma RefusedNotBlank(raw: string)
    requires TakeLines(START, LinesOf(raw)).Err?
    ensures exists i | 0 <= i < |raw| :: !IsBlank(raw[i])
  {
    hide TakeLines, JsonScan.StripAnsi, SplitLines, Strip, NonBlank;
    StripEmpty(raw);
    if Strip(raw) == [] {
      BlankText(raw);
      OnlyBlank(START, LinesOf(raw));
    }
  }

  /** For the printed text: an error within complete lines stands however the text goes on. */
  lemma RefusedTextForGood(raw: string, more: string)
    requires raw != [] && raw[|raw| - 1] == '\n' && TakeLines(START, LinesOf(raw)).Err?
    ensures Parse(raw + more) == Parse(raw) == Err(TakeLines(START, LinesOf(raw)).error)
  {
    hide *;
    RefusedNotBlank(raw);
    ParseNotBlank(raw, []);
    ParseNotBlank(raw, more);
    assert raw + [] == raw;
    LinesMore(raw, more);
    RefusedForGood(LinesOf(raw), LinesOf(more));
  }

  lemma ParseNotBlank(raw: string, more: string)
    requires exists i | 0 <= i < |raw| :: !IsBlank(raw[i])
    ensures Parse(raw + more) == Verdict(LinesOf(raw + more))
  {
    hide Verdict, LinesOf, Strip, IsBlank;
    var i :| 0 <= i < |raw| && !IsBlank(raw[i]);
    assert (raw + more)[i] == raw[i];
    StripEmpty(raw + more);
  }

  /** Text after complete lines adds lines and changes none. */
  lemma LinesMore(raw: string, more: string)
    requires raw != [] && raw[|raw| - 1] == '\n'
    ensures LinesOf(raw + more) == LinesOf(raw) + LinesOf(more)
  {
    hide JsonScan.StripAnsi, SplitLines;
    JsonScan.StripAnsiMore(raw, more);
    JsonScan.StripAnsiLast(raw);
    SplitLinesMore(JsonScan.StripAnsi(raw), JsonScan.StripAnsi(more));
  }
}
