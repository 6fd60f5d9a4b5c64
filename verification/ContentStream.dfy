/** The Ollama stream loop: which byte lines it accepts and the evidence it returns about them. */
module ContentStream {
  import opened Wrappers
  import opened Json
  import J = JsonText
  import JsonRoundTrip
  import opened Utf8
  import opened Text
  import opened ContentEvidence

  const MAX_FRAME_BYTES: nat := 0x100000
  const MAX_CONTENT_BYTES: nat := 0x10000
  const MAX_DIAGNOSTICS: nat := 128

  /** What one readline of the response can give; no bytes mean that the response has ended. */
  datatype Received = Silence | Failure | Bytes(bytes: seq<Byte>)

  /** What the loop makes of it. */
  datatype Line = Idle | Unreadable | End | Oversized | Blank | Undecodable | Decoded(value: Json)

  datatype Error =
    | Timeout
    | HttpError
    | ResponseTooLarge
    | InvalidResponse
    | ModelMismatch
    | InvalidCompletion
    | ToolCallRejected
    | Observability(cause: Inconsistency)

  datatype Usage = Usage(prompt: Option<nat>, completion: Option<nat>, total: Option<nat>)

  /** What the loop takes from a frame; the reason and the usage count only on the frame that is done. */
  datatype Frame = Frame(done: bool, hasReason: bool, usage: Usage, thinking: string, content: string)

  datatype Evidence = Evidence(
    content: string,
    usage: Usage,
    progress: Progress)

  /** What the loop accumulates frame by frame. */
  datatype Progress = Progress(
    frameCount: nat,
    thinkingBytes: nat,
    contentBytes: nat,
    firstContentFrame: Option<nat>,
    lastContentFrame: Option<nat>,
    contentFrameCount: nat,
    diagnostics: seq<Diagnostic>,
    diagnosticsTruncated: bool)

  // ----- Which streams are accepted -----------------------------------------------------------

  /** bytes.strip takes away ASCII white space only. */
  predicate IsBlankByte(b: Byte) {
    9 <= b <= 13 || b == 32
  }

  function LineOf(received: Received): Line {
    match received
    case Silence => Idle
    case Failure => Unreadable
    case Bytes(bytes) =>
      if bytes == [] then End
      else if |bytes| > MAX_FRAME_BYTES then Oversized
      else if forall i | 0 <= i < |bytes| :: IsBlankByte(bytes[i]) then Blank
      else
        match Decode(bytes)
        case None => Undecodable
        case Some(text) =>
          match J.Loads(text)
          case None => Undecodable
          case Some(value) => Decoded(value)
  }

  function LinesOf(received: seq<Received>): seq<Line> {
    seq(|received|, i requires 0 <= i < |received| => LineOf(received[i]))
  }

  /** An absent text field counts as empty text; any other non-text is an error. */
  function TextField(message: Json, key: string): Option<string> {
    match Member(message, key)
    case None => Some("")
    case Some(Str(s)) => Some(s)
    case _ => None
  }

  predicate HasReason(value: Json) {
    match Member(value, "done_reason")
    case Some(Str(s)) => s != []
    case _ => false
  }

  function TokenCount(value: Json, key: string): Option<nat> {
    match Member(value, key)
    case Some(Int(n)) => if n >= 0 then Some(n) else None
    case _ => None
  }

  function UsageOf(value: Json): Usage {
    var prompt, completion := TokenCount(value, "prompt_eval_count"), TokenCount(value, "eval_count");
    Usage(prompt, completion, if prompt.Some? && completion.Some? then Some(prompt.value + completion.value) else None)
  }

  /** The checks on one decoded frame, in the order they are made. */
  function ParseFrame(value: Json, model: string): Result<Frame, Error> {
    if !value.Obj? then Err(InvalidResponse)
    else if Member(value, "model") != Some(Str(model)) then Err(ModelMismatch)
    else
      match Member(value, "done")
      case Some(Bool(done)) =>
        var message := Member(value, "message");
        if message.None? || !message.value.Obj? || Member(message.value, "role") != Some(Str("assistant")) then
          Err(InvalidResponse)
        else if Member(message.value, "tool_calls").Some? then Err(ToolCallRejected)
        else
          var thinking, content := TextField(message.value, "thinking"), TextField(message.value, "content");
          if thinking.None? || content.None? then Err(InvalidResponse)
          else Ok(Frame(done, HasReason(value), UsageOf(value), thinking.value, content.value))
      case _ => Err(InvalidCompletion)
  }

  /** The frames a stream delivers, when `used` bytes of content came before; or the error it ends in. */
  function Frames(lines: seq<Line>, parse: Json -> Result<Frame, Error>, used: nat): Result<seq<Frame>, Error> {
    if lines == [] then Err(InvalidCompletion)
    else
      match lines[0]
      case Idle => Err(Timeout)
      case Unreadable => Err(HttpError)
      case End => Err(InvalidCompletion)
      case Oversized => Err(ResponseTooLarge)
      case Blank => Frames(lines[1..], parse, used)
      case Undecodable => Err(InvalidResponse)
      case Decoded(value) =>
        match parse(value)
        case Err(e) => Err(e)
        case Ok(frame) =>
          var total := used + |Encode(frame.content)|;
          if total > MAX_CONTENT_BYTES then Err(ResponseTooLarge)
          else if frame.done then (if frame.hasReason then Ok([frame]) else Err(InvalidCompletion))
          else
            match Frames(lines[1..], parse, total)
            case Err(e) => Err(e)
            case Ok(frames) => Ok([frame] + frames)
  }

  // ----- The evidence about accepted frames ---------------------------------------------------

  function Content(frames: seq<Frame>): string {
    if frames == [] then [] else Content(frames[..|frames| - 1]) + frames[|frames| - 1].content
  }

  function ThinkingBytes(frames: seq<Frame>): nat {
    if frames == [] then 0 else ThinkingBytes(frames[..|frames| - 1]) + |Encode(frames[|frames| - 1].thinking)|
  }

  predicate Noteworthy(frame: Frame) {
    frame.thinking != [] || frame.content != [] || frame.done
  }

  /** The diagnostics of all noteworthy frames, each under its frame index. */
  function AllDiagnostics(frames: seq<Frame>, policy: Policy): seq<Diagnostic> {
    if frames == [] then []
    else
      var i := |frames| - 1;
      var frame := frames[i];
      AllDiagnostics(frames[..i], policy)
        + if Noteworthy(frame) then [DiagnosticOf(i, frame.done, frame.thinking, frame.content, policy)] else []
  }

  function Retain<T>(s: seq<T>, limit: nat): seq<T> {
    if |s| <= limit then s else s[..limit]
  }

  /** The indices of the frames that carry content, in order. */
  function ContentFrames(frames: seq<Frame>): seq<nat> {
    if frames == [] then []
    else
      var i := |frames| - 1;
      ContentFrames(frames[..i]) + if frames[i].content != [] then [i] else []
  }

  function ProgressOf(frames: seq<Frame>, policy: Policy): Progress {
    var withContent := ContentFrames(frames);
    Progress(
      |frames|,
      ThinkingBytes(frames),
      |Encode(Content(frames))|,
      if withContent == [] then None else Some(withContent[0]),
      if withContent == [] then None else Some(withContent[|withContent| - 1]),
      |withContent|,
      Retain(AllDiagnostics(frames, policy), MAX_DIAGNOSTICS),
      |AllDiagnostics(frames, policy)| > MAX_DIAGNOSTICS)
  }

  function EvidenceOf(frames: seq<Frame>, policy: Policy): Evidence
    requires frames != []
  {
    Evidence(Content(frames), frames[|frames| - 1].usage, ProgressOf(frames, policy))
  }

  // ----- The loop -----------------------------------------------------------------------------

  /** Exact diagnostics of all frames hold the whole content. */
  lemma {:induction false} ExactDiagnosticsReconstruct(frames: seq<Frame>, policy: Policy)
    requires policy.Coherent()
    requires forall i | 0 <= i < |AllDiagnostics(frames, policy)| :: Verbatim(AllDiagnostics(frames, policy)[i])
    ensures RetainedText(AllDiagnostics(frames, policy)) == Content(frames)
  {
    if frames != [] {
      var i := |frames| - 1;
      var before := AllDiagnostics(frames[..i], policy);
      var ds := AllDiagnostics(frames, policy);
      assert forall j | 0 <= j < |before| :: ds[j] == before[j];
      ExactDiagnosticsReconstruct(frames[..i], policy);
      if Noteworthy(frames[i]) {
        assert ds[..|ds| - 1] == before;
        assert Verbatim(ds[|ds| - 1]);
      } else {
        assert ds == before;
      }
    }
  }

  lemma AppendFrame(frames: seq<Frame>, frame: Frame, policy: Policy)
    ensures Content(frames + [frame]) == Content(frames) + frame.content
    ensures ThinkingBytes(frames + [frame]) == ThinkingBytes(frames) + |Encode(frame.thinking)|
    ensures AllDiagnostics(frames + [frame], policy) == AllDiagnostics(frames, policy)
              + if Noteworthy(frame) then [DiagnosticOf(|frames|, frame.done, frame.thinking, frame.content, policy)]
                else []
    ensures ContentFrames(frames + [frame]) == ContentFrames(frames) + if frame.content != [] then [|frames|] else []
    ensures |Encode(Content(frames + [frame]))| == |Encode(Content(frames))| + |Encode(frame.content)|
  {
    assert (frames + [frame])[..|frames|] == frames;
    EncodeConcat(Content(frames), frame.content);
  }

  lemma RetainAppend<T>(s: seq<T>, x: T, limit: nat)
    ensures Retain(s + [x], limit) == if |s| < limit then Retain(s, limit) + [x] else Retain(s, limit)
  {
  }

  lemma AppendContent(frames: seq<Frame>, frame: Frame)
    ensures Content(frames + [frame]) == Content(frames) + frame.content
  {
    assert (frames + [frame])[..|frames|] == frames;
  }

  /** The bookkeeping of one accepted frame. */
  method Record(p: Progress, frame: Frame, policy: Policy, ghost seen: seq<Frame>) returns (r: Result<Progress, Error>)
    requires policy.Coherent() && p == ProgressOf(seen, policy)
    ensures r == if p.contentBytes + |Encode(frame.content)| > MAX_CONTENT_BYTES then Err(ResponseTooLarge)
                 else Ok(ProgressOf(seen + [frame], policy))
    ensures r.Ok? ==> r.value.contentBytes == p.contentBytes + |Encode(frame.content)|
  {
    hide DiagnosticOf, Encode;
    AppendFrame(seen, frame, policy);
    ghost var goal := ProgressOf(seen + [frame], policy);
    var thinkingBytes := p.thinkingBytes + |Encode(frame.thinking)|;
    var contentBytes := p.contentBytes + |Encode(frame.content)|;
    if contentBytes > MAX_CONTENT_BYTES {
      return Err(ResponseTooLarge);
    }
    var contentFrameCount, first, last := p.contentFrameCount, p.firstContentFrame, p.lastContentFrame;
    if frame.content != [] {
      contentFrameCount := contentFrameCount + 1;
      if first.None? {
        first := Some(p.frameCount);
      }
      last := Some(p.frameCount);
    }
    assert goal.firstContentFrame == first && goal.lastContentFrame == last
           && goal.contentFrameCount == contentFrameCount;
    var diagnostics, truncated := p.diagnostics, p.diagnosticsTruncated;
    if frame.thinking != [] || frame.content != [] || frame.done {
      RetainAppend(AllDiagnostics(seen, policy),
                   DiagnosticOf(p.frameCount, frame.done, frame.thinking, frame.content, policy), MAX_DIAGNOSTICS);
      if |diagnostics| < MAX_DIAGNOSTICS {
        var diagnostic := ContentFrameDiagnostic(p.frameCount, frame.done, frame.thinking, frame.content, policy);
        match diagnostic {
          case Err(cause) => return Err(Observability(cause));
          case Ok(d) => diagnostics := diagnostics + [d];
        }
      } else {
        truncated := true;
      }
    }
    assert goal.diagnostics == diagnostics;
    assert goal.diagnosticsTruncated == truncated;
    return Ok(Progress(p.frameCount + 1, thinkingBytes, contentBytes, first, last, contentFrameCount,
                       diagnostics, truncated));
  }

  /** What the rest of the stream gives, seen from the start of the stream. */
  function After(frames: seq<Frame>, rest: Result<seq<Frame>, Error>): Result<seq<Frame>, Error> {
    match rest
    case Err(e) => Err(e)
    case Ok(more) => Ok(frames + more)
  }

  lemma AfterNothing(rest: Result<seq<Frame>, Error>)
    ensures After([], rest) == rest
  {
    if rest.Ok? {
      assert [] + rest.value == rest.value;
    }
  }

  lemma AfterErrors(frames: seq<Frame>)
    ensures forall e :: After(frames, Err(e)) == Err(e)
  {
  }

  lemma FramesEnd(lines: seq<Line>, parse: Json -> Result<Frame, Error>, used: nat)
    ensures Frames(lines[|lines|..], parse, used) == Err(InvalidCompletion)
  {
  }

  /** The stream from line `i` on, seen from the stream from line `i + 1` on. */
  lemma FramesAt(lines: seq<Line>, i: nat, parse: Json -> Result<Frame, Error>, used: nat)
    requires i < |lines|
    ensures Frames(lines[i..], parse, used) ==
            match lines[i]
            case Idle => Err(Timeout)
            case Unreadable => Err(HttpError)
            case End => Err(InvalidCompletion)
            case Oversized => Err(ResponseTooLarge)
            case Blank => Frames(lines[i + 1..], parse, used)
            case Undecodable => Err(InvalidResponse)
            case Decoded(value) =>
              match parse(value)
              case Err(e) => Err(e)
              case Ok(frame) => WithFrame(frame, lines[i + 1..], parse, used + |Encode(frame.content)|)
  {
    assert lines[i..][1..] == lines[i + 1..];
  }

  /** What a stream gives that begins with this frame, which brings the content to `total` bytes. */
  function WithFrame(frame: Frame, more: seq<Line>, parse: Json -> Result<Frame, Error>, total: nat)
    : Result<seq<Frame>, Error> {
    if total > MAX_CONTENT_BYTES then Err(ResponseTooLarge)
    else if frame.done then (if frame.hasReason then Ok([frame]) else Err(InvalidCompletion))
    else
      match Frames(more, parse, total)
      case Err(e) => Err(e)
      case Ok(frames) => Ok([frame] + frames)
  }

  /** One more frame in front of what is still to come. */
  lemma AfterFrame(seen: seq<Frame>, frame: Frame, more: seq<Line>, parse: Json -> Result<Frame, Error>, total: nat)
    ensures After(seen, WithFrame(frame, more, parse, total)) ==
            if total > MAX_CONTENT_BYTES then Err(ResponseTooLarge)
            else if frame.done then (if frame.hasReason then Ok(seen + [frame]) else Err(InvalidCompletion))
            else After(seen + [frame], Frames(more, parse, total))
  {
    hide Frames;
    var rest := Frames(more, parse, total);
    if rest.Ok? {
      AppendAssoc(seen, [frame], rest.value);
    }
  }

  /** What the whole stream gives, when line `i` is the next one and the frames `seen` came before it. */
  lemma WholeAt(lines: seq<Line>, i: nat, parse: Json -> Result<Frame, Error>, used: nat, seen: seq<Frame>)
    requires i < |lines|
    ensures After(seen, Frames(lines[i..], parse, used)) ==
            match lines[i]
            case Idle => Err(Timeout)
            case Unreadable => Err(HttpError)
            case End => Err(InvalidCompletion)
            case Oversized => Err(ResponseTooLarge)
            case Blank => After(seen, Frames(lines[i + 1..], parse, used))
            case Undecodable => Err(InvalidResponse)
            case Decoded(value) =>
              match parse(value)
              case Err(e) => Err(e)
              case Ok(frame) =>
                var total := used + |Encode(frame.content)|;
                if total > MAX_CONTENT_BYTES then Err(ResponseTooLarge)
                else if frame.done then (if frame.hasReason then Ok(seen + [frame]) else Err(InvalidCompletion))
                else After(seen + [frame], Frames(lines[i + 1..], parse, total))
  {
    hide *;
    FramesAt(lines, i, parse, used);
    AfterErrors(seen);
    match lines[i] {
      case Decoded(value) =>
        var parsed := parse(value);
        if parsed.Ok? {
          AfterFrame(seen, parsed.value, lines[i + 1..], parse, used + |Encode(parsed.value.content)|);
        }
      case _ =>
    }
  }

  /** The checks after the loop. */
  method Finish(content: string, usage: Usage, progress: Progress, policy: Policy, ghost seen: seq<Frame>)
    returns (r: Result<Evidence, Error>)
    requires policy.Coherent() && seen != [] && usage == seen[|seen| - 1].usage
    requires content == Content(seen) && progress == ProgressOf(seen, policy)
    ensures r == if Strip(Content(seen)) == [] then Err(InvalidResponse) else Ok(EvidenceOf(seen, policy))
  {
    if Strip(content) == [] {
      return Err(InvalidResponse);
    }
    var inconsistency := CheckAggregate(content, progress.diagnostics, progress.diagnosticsTruncated, policy);
    match inconsistency {
      case Some(cause) =>
        ExactDiagnosticsReconstruct(seen, policy);
        return Err(Observability(cause));
      case None =>
        return Ok(Evidence(content, usage, progress));
    }
  }

  /** The frames of the stream and what is said about them. */
  function Outcome(accepted: Result<seq<Frame>, Error>, policy: Policy): Result<Evidence, Error> {
    match accepted
    case Err(e) => Err(e)
    case Ok(frames) =>
      if frames == [] || Strip(Content(frames)) == [] then Err(InvalidResponse) else Ok(EvidenceOf(frames, policy))
  }

  lemma OutcomeIs(policy: Policy)
    ensures forall e :: Outcome(Err(e), policy) == Err(e)
    ensures forall frames | frames != [] ::
              Outcome(Ok(frames), policy) ==
              if Strip(Content(frames)) == [] then Err(InvalidResponse) else Ok(EvidenceOf(frames, policy))
  {
    hide Strip, Content, EvidenceOf;
  }

  lemma NothingSeen(policy: Policy)
    ensures Content([]) == [] && ProgressOf([], policy) == Progress(0, 0, 0, None, None, 0, [], false)
  {
  }

  lemma LineAt(received: seq<Received>, i: nat)
    requires i < |received|
    ensures |LinesOf(received)| == |received| && LinesOf(received)[i] == LineOf(received[i])
  {
    hide LineOf;
  }

  lemma LineCount(received: seq<Received>)
    ensures |LinesOf(received)| == |received|
  {
    hide LineOf;
  }

  /** The loop of _stream_chat_request, for any frame parser. */
  method ReadStream(received: seq<Received>, parse: Json -> Result<Frame, Error>, policy: Policy)
    returns (r: Result<Evidence, Error>)
    requires policy.Coherent()
    ensures r == Outcome(Frames(LinesOf(received), parse, 0), policy)
  {
    hide *;
    NothingSeen(policy);
    LineCount(received);
    OutcomeIs(policy);
    var content: string := [];
    var progress := Progress(0, 0, 0, None, None, 0, [], false);
    var final: Option<Usage> := None;
    ghost var lines := LinesOf(received);
    ghost var whole := Frames(lines, parse, 0);
    ghost var seen: seq<Frame> := [];
    assert lines[0..] == lines;
    AfterNothing(whole);
    var i := 0;
    while i < |received| && final.None?
      invariant 0 <= i <= |received|
      invariant final.None? ==> whole == After(seen, Frames(lines[i..], parse, progress.contentBytes))
      invariant final.Some? ==> seen != [] && whole == Ok(seen) && final == Some(seen[|seen| - 1].usage)
      invariant content == Content(seen) && progress == ProgressOf(seen, policy)
    {
      WholeAt(lines, i, parse, progress.contentBytes, seen);
      LineAt(received, i);
      match LineOf(received[i]) {
        case Idle => return Err(Timeout);
        case Unreadable => return Err(HttpError);
        case End => return Err(InvalidCompletion);
        case Oversized => return Err(ResponseTooLarge);
        case Blank =>
        case Undecodable => return Err(InvalidResponse);
        case Decoded(value) =>
          var parsed := parse(value);
          if parsed.Err? {
            return Err(parsed.error);
          }
          var frame := parsed.value;
          var recorded := Record(progress, frame, policy, seen);
          if recorded.Err? {
            return Err(recorded.error);
          }
          AppendContent(seen, frame);
          progress := recorded.value;
          content := content + frame.content;
          if frame.done {
            if !frame.hasReason {
              return Err(InvalidCompletion);
            }
            final := Some(frame.usage);
          }
          seen := seen + [frame];
      }
      i := i + 1;
    }
    if final.None? {
      FramesEnd(lines, parse, progress.contentBytes);
      AfterErrors(seen);
      return Err(InvalidCompletion);
    }
    r := Finish(content, final.value, progress, policy, seen);
  }

  /**
   * _stream_chat_request from the bytes of the response on. It returns the evidence about the accepted frames, and
   * the checks it makes on its own evidence never fail.
   */
  method StreamChat(received: seq<Received>, model: string, policy: Policy) returns (r: Result<Evidence, Error>)
    requires policy.Coherent()
    ensures r == Outcome(Frames(LinesOf(received), (value: Json) => ParseFrame(value, model), 0), policy)
    ensures r.Err? ==> !r.error.Observability?
  {
    var parse := (value: Json) => ParseFrame(value, model);
    forall value
      ensures parse(value).Err? ==> !parse(value).error.Observability?
    {
      ParseErrors(value, model);
    }
    NoObservabilityError(LinesOf(received), parse, 0);
    hide Frames, LinesOf, ParseFrame, Strip, Content, EvidenceOf;
    r := ReadStream(received, parse, policy);
  }

  // ----- The lines a provider sends -----------------------------------------------------------

  lemma PrintedNotBlank(v: Json, style: J.Style)
    requires v.Obj?
    ensures var bytes := Encode(J.Print(v, style) + "\n"); bytes != [] && bytes[0] == 0x7B
  {
    hide J.WriteFields;
    var text := J.Print(v, style) + "\n";
    assert text[0] == '{' && EncodeChar('{') == [0x7B];
  }

  lemma LoadsPrinted(v: Json, style: J.Style)
    requires v.Obj? && JsonRoundTrip.Writable(v)
    ensures J.Loads(J.Print(v, style) + "\n") == Some(v)
  {
    var text := J.Print(v, style);
    assert text != [] && text[0] == '{';
    JsonRoundTrip.ReadWritten(v, style, []);
    hide J.Read, J.Write, J.Print, JsonRoundTrip.Writable;
    JsonRoundTrip.ReadMore(text, "\n");
    assert [] + "\n" == "\n";
    var line := text + "\n";
    assert line[0] == '{';
    assert "\n"[1..] == [];
  }

  /** A JSON object on a line of its own is received as that object, in whatever style it was printed. */
  lemma PrintedLine(v: Json, style: J.Style)
    requires v.Obj? && JsonRoundTrip.Writable(v)
    requires |Encode(J.Print(v, style) + "\n")| <= MAX_FRAME_BYTES
    ensures LineOf(Bytes(Encode(J.Print(v, style) + "\n"))) == Decoded(v)
  {
    hide Encode, Decode, J.Loads, J.Print, JsonRoundTrip.Writable;
    var text := J.Print(v, style) + "\n";
    PrintedNotBlank(v, style);
    DecodeEncoded(text);
    LoadsPrinted(v, style);
    assert !IsBlankByte(Encode(text)[0]);
  }

  // ----- What the evidence says ---------------------------------------------------------------

  lemma {:induction false} ContentFromFront(frame: Frame, rest: seq<Frame>)
    ensures Content([frame] + rest) == frame.content + Content(rest)
  {
    if rest != [] {
      var i := |rest| - 1;
      ContentFromFront(frame, rest[..i]);
      assert ([frame] + rest)[..i + 1] == [frame] + rest[..i];
    } else {
      assert [frame] + rest == [frame];
      assert [frame][..0] == [];
    }
  }

  /** An accepted stream ends at its first frame that is done, and its content stays within the bound. */
  lemma {:induction false} AcceptedFrames(lines: seq<Line>, parse: Json -> Result<Frame, Error>, used: nat)
    requires Frames(lines, parse, used).Ok?
    ensures var frames := Frames(lines, parse, used).value;
            && frames != [] && frames[|frames| - 1].done && frames[|frames| - 1].hasReason
            && (forall i | 0 <= i < |frames| - 1 :: !frames[i].done)
            && used + |Encode(Content(frames))| <= MAX_CONTENT_BYTES
  {
    hide Encode;
    var frames := Frames(lines, parse, used).value;
    match lines[0]
    case Blank => AcceptedFrames(lines[1..], parse, used);
    case Decoded(value) =>
      var frame := parse(value).value;
      if frame.done {
        ContentFromFront(frame, []);
        assert [frame] + [] == frames;
        assert frame.content + [] == frame.content;
      } else {
        var total := used + |Encode(frame.content)|;
        AcceptedFrames(lines[1..], parse, total);
        var rest := Frames(lines[1..], parse, total).value;
        ContentFromFront(frame, rest);
        EncodeConcat(frame.content, Content(rest));
        assert forall i | 1 <= i < |frames| :: frames[i] == rest[i - 1];
      }
    case _ =>
  }

  /** An observability error is not among the errors a stream can end in. */
  lemma {:induction false} NoObservabilityError(lines: seq<Line>, parse: Json -> Result<Frame, Error>, used: nat)
    requires forall value :: parse(value).Err? ==> !parse(value).error.Observability?
    ensures var r := Frames(lines, parse, used); r.Err? ==> !r.error.Observability?
  {
    if lines != [] {
      if lines[0].Blank? {
        NoObservabilityError(lines[1..], parse, used);
      } else if lines[0].Decoded? && parse(lines[0].value).Ok? {
        NoObservabilityError(lines[1..], parse, used + |Encode(parse(lines[0].value).value.content)|);
      }
    }
  }

  lemma ParseErrors(value: Json, model: string)
    ensures var r := ParseFrame(value, model); r.Err? ==> !r.error.Observability?
  {
  }

  /** The ascending indices of the frames with content. */
  predicate IndexContent(r: seq<nat>, frames: seq<Frame>) {
    && (forall i | 0 <= i < |r| :: r[i] < |frames| && frames[r[i]].content != [])
    && (forall i, j | 0 <= i < j < |r| :: r[i] < r[j])
    && (forall k | 0 <= k < |frames| && frames[k].content != [] :: k in r)
  }

  lemma {:induction false} ContentFramesAre(frames: seq<Frame>)
    ensures IndexContent(ContentFrames(frames), frames)
  {
    hide IndexContent;
    if frames == [] {
      NoIndices();
    } else {
      var n := |frames| - 1;
      ContentFramesAre(frames[..n]);
      IndicesAdd(ContentFrames(frames[..n]), frames);
    }
  }

  lemma NoIndices()
    ensures IndexContent([], [])
  {
  }

  lemma IndicesAdd(before: seq<nat>, frames: seq<Frame>)
    requires frames != [] && IndexContent(before, frames[..|frames| - 1])
    ensures IndexContent(before + if frames[|frames| - 1].content != [] then [|frames| - 1] else [], frames)
  {
    var n := |frames| - 1;
    assert forall k | 0 <= k < n :: frames[..n][k] == frames[k];
    if frames[n].content != [] {
      var r := before + [n];
      assert r[|before|] == n;
      forall k | 0 <= k < |frames| && frames[k].content != []
        ensures k in r
      {
        if k < n {
          assert k in before;
        }
      }
    } else {
      assert before + [] == before;
    }
  }

  /** Without content frames there is no content. */
  lemma {:induction false} NoContentFrames(frames: seq<Frame>)
    requires ContentFrames(frames) == []
    ensures Content(frames) == []
  {
    if frames != [] {
      NoContentFrames(frames[..|frames| - 1]);
    }
  }

  /** First and last are the first and the last frame with content, and they exist when there is content. */
  lemma ContentFrameBounds(frames: seq<Frame>, policy: Policy)
    ensures var p := ProgressOf(frames, policy);
            && (Content(frames) != [] ==> p.firstContentFrame.Some?)
            && (p.firstContentFrame.Some? <==> p.lastContentFrame.Some?)
            && (p.firstContentFrame.Some? ==>
                  var first, last := p.firstContentFrame.value, p.lastContentFrame.value;
                  && first <= last < p.frameCount
                  && frames[first].content != [] && frames[last].content != []
                  && forall k | 0 <= k < |frames| && frames[k].content != [] :: first <= k <= last)
  {
    hide Content, ContentFrames, AllDiagnostics, ThinkingBytes, Retain, Encode;
    ContentFramesAre(frames);
    var r := ContentFrames(frames);
    if r == [] {
      NoContentFrames(frames);
    } else {
      assert r[0] < |frames| && r[|r| - 1] < |frames| && r[0] <= r[|r| - 1];
      forall k | 0 <= k < |frames| && frames[k].content != []
        ensures r[0] <= k <= r[|r| - 1]
      {
        var i :| 0 <= i < |r| && r[i] == k;
      }
    }
  }

  predicate Describes(d: Diagnostic, frames: seq<Frame>, policy: Policy) {
    && d.frameIndex < |frames|
    && Noteworthy(frames[d.frameIndex])
    && var f := frames[d.frameIndex];
       d == DiagnosticOf(d.frameIndex, f.done, f.thinking, f.content, policy)
  }

  lemma {:induction false} DiagnosticsDescribe(frames: seq<Frame>, policy: Policy)
    ensures forall d | d in AllDiagnostics(frames, policy) :: Describes(d, frames, policy)
  {
    if frames != [] {
      var n := |frames| - 1;
      DiagnosticsDescribe(frames[..n], policy);
      assert DiagnosticOf(n, frames[n].done, frames[n].thinking, frames[n].content, policy).frameIndex == n;
      hide DiagnosticOf, Noteworthy;
    }
  }

  predicate InFrameOrder(ds: seq<Diagnostic>) {
    forall i, j | 0 <= i < j < |ds| :: ds[i].frameIndex < ds[j].frameIndex
  }

  lemma InOrderAdd(before: seq<Diagnostic>, last: Diagnostic)
    requires InFrameOrder(before) && forall d | d in before :: d.frameIndex < last.frameIndex
    ensures InFrameOrder(before + [last])
  {
    assert forall i | 0 <= i < |before| :: before[i] in before;
  }

  lemma {:induction false} DiagnosticsAscend(frames: seq<Frame>, policy: Policy)
    ensures InFrameOrder(AllDiagnostics(frames, policy))
  {
    if frames != [] {
      var n := |frames| - 1;
      var f := frames[n];
      var before := AllDiagnostics(frames[..n], policy);
      var last := DiagnosticOf(n, f.done, f.thinking, f.content, policy);
      assert last.frameIndex == n;
      DiagnosticsAscend(frames[..n], policy);
      DiagnosticsDescribe(frames[..n], policy);
      assert forall d | d in before :: d.frameIndex < n;
      assert AllDiagnostics(frames, policy) == if Noteworthy(f) then before + [last] else before;
      hide *;
      InOrderAdd(before, last);
    }
  }

  lemma {:induction false} DiagnosticsCover(frames: seq<Frame>, policy: Policy, k: nat)
    requires k < |frames| && Noteworthy(frames[k])
    ensures exists d | d in AllDiagnostics(frames, policy) :: d.frameIndex == k
  {
    var n := |frames| - 1;
    var f := frames[n];
    var last := DiagnosticOf(n, f.done, f.thinking, f.content, policy);
    assert last.frameIndex == n;
    hide DiagnosticOf, Noteworthy;
    var before := AllDiagnostics(frames[..n], policy);
    if k < n {
      assert frames[..n][k] == frames[k];
      DiagnosticsCover(frames[..n], policy, k);
      var d :| d in before && d.frameIndex == k;
      assert d in AllDiagnostics(frames, policy);
    } else {
      assert AllDiagnostics(frames, policy) == before + [last];
      assert last in before + [last];
    }
  }

  /** The diagnostics describe exactly the noteworthy frames, one each, in frame order. */
  lemma DiagnosticsAre(frames: seq<Frame>, policy: Policy)
    ensures var ds := AllDiagnostics(frames, policy);
            && (forall d | d in ds :: Describes(d, frames, policy))
            && InFrameOrder(ds)
            && (forall k | 0 <= k < |frames| && Noteworthy(frames[k]) :: exists d | d in ds :: d.frameIndex == k)
  {
    DiagnosticsDescribe(frames, policy);
    DiagnosticsAscend(frames, policy);
    hide AllDiagnostics, Describes, Noteworthy;
    forall k | 0 <= k < |frames| && Noteworthy(frames[k])
      ensures exists d | d in AllDiagnostics(frames, policy) :: d.frameIndex == k
    {
      DiagnosticsCover(frames, policy, k);
    }
  }
}
