/** The stream from the provider's side: frames told by their members, and what becomes of them. */
module ProviderStream {
  import opened Wrappers
  import opened Json
  import J = JsonText
  import JsonRoundTrip
  import opened Utf8
  import opened Text
  import opened ContentEvidence
  import opened ContentStream

  // ----- One frame by its members -------------------------------------------------------------

  /** The text under that key of the message; an absent one counts as empty. */
  function TextAt(frame: Json, key: string): string {
    match At(frame, ["message", key])
    case Some(Str(s)) => s
    case _ => []
  }

  predicate TextOrAbsent(frame: Json, key: string) {
    At(frame, ["message", key]).Some? ==> At(frame, ["message", key]).value.Str?
  }

  function CountAt(frame: Json, key: string): Option<nat> {
    match At(frame, [key])
    case Some(Int(n)) => if n >= 0 then Some(n) else None
    case _ => None
  }

  /** The token counts the frame gives; their sum only when both are there. */
  function UsageAt(frame: Json): Usage {
    match (CountAt(frame, "prompt_eval_count"), CountAt(frame, "eval_count"))
    case (Some(prompt), Some(completion)) => Usage(Some(prompt), Some(completion), Some(prompt + completion))
    case (prompt, completion) => Usage(prompt, completion, None)
  }

  /** The frame says how the answer ended. */
  ghost predicate GivesReason(frame: Json) {
    exists s :: s != [] && At(frame, ["done_reason"]) == Some(Str(s))
  }

  /** A frame of that model, done or not. */
  predicate Sent(frame: Json, model: string, done: bool) {
    && frame.Obj?
    && At(frame, ["model"]) == Some(Str(model))
    && At(frame, ["done"]) == Some(Bool(done))
    && At(frame, ["message", "role"]) == Some(Str("assistant"))
    && At(frame, ["message", "tool_calls"]) == None
    && TextOrAbsent(frame, "thinking") && TextOrAbsent(frame, "content")
  }

  lemma MessagePaths(frame: Json, key: string)
    ensures At(frame, ["message", key]) ==
            match Member(frame, "message") case Some(message) => Member(message, key) case None => None
    ensures At(frame, [key]) == Member(frame, key)
  {
    AtTwo(frame, "message", key);
    AtOne(frame, key);
  }

  lemma NoMember()
    ensures forall v: Json, key :: !v.Obj? ==> Member(v, key) == None
  {
  }

  lemma FieldMeans(frame: Json, key: string)
    requires Member(frame, "message").Some?
    ensures var field := TextField(Member(frame, "message").value, key);
            && (field.Some? <==> TextOrAbsent(frame, key))
            && (field.Some? ==> field.value == TextAt(frame, key))
  {
    MessagePaths(frame, key);
    hide Member, At;
  }

  /** The checks on a frame in the order they are made, told by its members. */
  lemma FrameChecked(frame: Json, model: string)
    ensures ParseFrame(frame, model).Ok? ==> Sent(frame, model, ParseFrame(frame, model).value.done)
    ensures match ParseFrame(frame, model)
            case Ok(_) => true
            case Err(e) =>
              if !frame.Obj? then e == InvalidResponse
              else if At(frame, ["model"]) != Some(Str(model)) then e == ModelMismatch
              else if At(frame, ["done"]).None? || !At(frame, ["done"]).value.Bool? then e == InvalidCompletion
              else if At(frame, ["message", "role"]) != Some(Str("assistant")) then e == InvalidResponse
              else if At(frame, ["message", "tool_calls"]).Some? then e == ToolCallRejected
              else e == InvalidResponse && !(TextOrAbsent(frame, "thinking") && TextOrAbsent(frame, "content"))
  {
    hide Get, At, UsageOf, HasReason, TextField, TextOrAbsent;
    MessagePaths(frame, "model");
    MessagePaths(frame, "done");
    MessagePaths(frame, "role");
    MessagePaths(frame, "tool_calls");
    if Member(frame, "message").Some? {
      FieldMeans(frame, "thinking");
      FieldMeans(frame, "content");
    }
    NoMember();
  }

  /** An accepted frame is taken for what its members say. */
  lemma FrameIs(frame: Json, model: string)
    requires ParseFrame(frame, model).Ok?
    ensures var f := ParseFrame(frame, model).value;
            && At(frame, ["done"]) == Some(Bool(f.done))
            && f.thinking == TextAt(frame, "thinking") && f.content == TextAt(frame, "content")
            && (f.hasReason <==> GivesReason(frame))
            && f.usage == UsageAt(frame)
  {
    hide Member, At, UsageOf, HasReason, TextField, TextAt, UsageAt, GivesReason, TextOrAbsent;
    MessagePaths(frame, "done");
    ReasonMeans(frame);
    UsageMeans(frame);
    if Member(frame, "message").Some? {
      FieldMeans(frame, "thinking");
      FieldMeans(frame, "content");
    }
  }

  lemma ReasonMeans(frame: Json)
    ensures HasReason(frame) <==> GivesReason(frame)
  {
    MessagePaths(frame, "done_reason");
    hide Member, At;
  }

  lemma UsageMeans(frame: Json)
    ensures UsageOf(frame) == UsageAt(frame)
  {
    MessagePaths(frame, "prompt_eval_count");
    MessagePaths(frame, "eval_count");
    hide Member, At;
  }

  /** A frame with these members is accepted. */
  lemma SentAccepted(frame: Json, model: string, done: bool)
    requires Sent(frame, model, done)
    ensures ParseFrame(frame, model).Ok? && ParseFrame(frame, model).value.done == done
  {
    FrameChecked(frame, model);
    if ParseFrame(frame, model).Ok? {
      FrameIs(frame, model);
    }
    hide ParseFrame, At, TextOrAbsent;
  }

  // ----- A whole stream -----------------------------------------------------------------------

  /** The texts under that key, one after the other. */
  function JoinAt(frames: seq<Json>, key: string): string {
    if frames == [] then [] else TextAt(frames[0], key) + JoinAt(frames[1..], key)
  }

  /** What is received when a provider prints one frame a line. */
  predicate Delivers(received: seq<Received>, frames: seq<Json>, style: J.Style) {
    && |frames| <= |received|
    && forall i | 0 <= i < |frames| ::
         && frames[i].Obj? && JsonRoundTrip.Writable(frames[i])
         && received[i] == Bytes(Encode(J.Print(frames[i], style) + "\n"))
         && |Encode(J.Print(frames[i], style) + "\n")| <= MAX_FRAME_BYTES
  }

  /** Only the last frame is done, and it says how the answer ended. */
  ghost predicate Completes(frames: seq<Json>, model: string) {
    && frames != []
    && (forall i | 0 <= i < |frames| :: Sent(frames[i], model, i == |frames| - 1))
    && GivesReason(frames[|frames| - 1])
  }

  function Parsed(frames: seq<Json>, model: string): seq<Frame>
    requires forall i | 0 <= i < |frames| :: ParseFrame(frames[i], model).Ok?
  {
    seq(|frames|, i requires 0 <= i < |frames| => ParseFrame(frames[i], model).value)
  }

  lemma CompletesParses(frames: seq<Json>, model: string)
    requires Completes(frames, model)
    ensures forall i | 0 <= i < |frames| ::
              && ParseFrame(frames[i], model).Ok?
              && ParseFrame(frames[i], model).value.done == (i == |frames| - 1)
              && ParseFrame(frames[i], model).value.thinking == TextAt(frames[i], "thinking")
              && ParseFrame(frames[i], model).value.content == TextAt(frames[i], "content")
    ensures ParseFrame(frames[|frames| - 1], model).value.hasReason
  {
    hide ParseFrame, TextAt, GivesReason, Sent;
    forall i | 0 <= i < |frames|
      ensures ParseFrame(frames[i], model).Ok?
      ensures ParseFrame(frames[i], model).value.done == (i == |frames| - 1)
      ensures ParseFrame(frames[i], model).value.thinking == TextAt(frames[i], "thinking")
      ensures ParseFrame(frames[i], model).value.content == TextAt(frames[i], "content")
    {
      SentAccepted(frames[i], model, i == |frames| - 1);
      FrameIs(frames[i], model);
    }
    FrameIs(frames[|frames| - 1], model);
  }

  lemma DeliveredLine(received: seq<Received>, frames: seq<Json>, style: J.Style, i: nat)
    requires Delivers(received, frames, style) && i < |frames|
    ensures LinesOf(received)[i] == Decoded(frames[i])
  {
    hide LineOf, Encode, J.Print;
    PrintedLine(frames[i], style);
    LineAt(received, i);
  }

  lemma EnoughReceived(received: seq<Received>, frames: seq<Json>, style: J.Style)
    requires Delivers(received, frames, style)
    ensures |frames| <= |received|
  {
  }

  lemma SomeFrame(frames: seq<Json>, model: string)
    requires Completes(frames, model)
    ensures frames != []
  {
  }

  /** From frame `i` on, when `used` bytes of content came before it. */
  lemma {:induction false} FramesDelivered(received: seq<Received>, frames: seq<Json>, model: string, style: J.Style,
                                           i: nat, used: nat, parse: Json -> Result<Frame, Error>)
    requires Delivers(received, frames, style) && Completes(frames, model) && i < |frames|
    requires forall value :: parse(value) == ParseFrame(value, model)
    requires used + |Encode(JoinAt(frames[i..], "content"))| <= MAX_CONTENT_BYTES
    ensures forall k | 0 <= k < |frames| :: ParseFrame(frames[k], model).Ok?
    ensures Frames(LinesOf(received)[i..], parse, used) == Ok(Parsed(frames, model)[i..])
    decreases |frames| - i
  {
    hide *;
    CompletesParses(frames, model);
    LineCount(received);
    EnoughReceived(received, frames, style);
    DeliveredLine(received, frames, style, i);
    FramesAt(LinesOf(received), i, parse, used);
    JoinNext(frames, i, "content");
    var f := ParseFrame(frames[i], model).value;
    EncodeConcat(f.content, JoinAt(frames[i + 1..], "content"));
    ParsedNext(frames, model, i);
    var total := used + |Encode(f.content)|;
    WithFrameIs(f, LinesOf(received)[i + 1..], parse, total);
    if i + 1 < |frames| {
      FramesDelivered(received, frames, model, style, i + 1, total, parse);
    } else {
      ParsedEnd(frames, model);
      assert [f] + [] == [f];
    }
  }

  lemma WithFrameIs(frame: Frame, more: seq<Line>, parse: Json -> Result<Frame, Error>, total: nat)
    requires total <= MAX_CONTENT_BYTES
    ensures frame.done && frame.hasReason ==> WithFrame(frame, more, parse, total) == Ok([frame])
    ensures !frame.done ==>
              WithFrame(frame, more, parse, total) ==
              match Frames(more, parse, total) case Err(e) => Err(e) case Ok(frames) => Ok([frame] + frames)
  {
    hide Frames;
  }

  lemma JoinNext(frames: seq<Json>, i: nat, key: string)
    requires i < |frames|
    ensures JoinAt(frames[i..], key) == TextAt(frames[i], key) + JoinAt(frames[i + 1..], key)
  {
    hide TextAt;
    assert frames[i..][1..] == frames[i + 1..];
  }

  lemma ParsedNext(frames: seq<Json>, model: string, i: nat)
    requires i < |frames| && forall k | 0 <= k < |frames| :: ParseFrame(frames[k], model).Ok?
    ensures |Parsed(frames, model)| == |frames|
    ensures Parsed(frames, model)[i..] == [ParseFrame(frames[i], model).value] + Parsed(frames, model)[i + 1..]
  {
    hide ParseFrame;
  }

  lemma ParsedEnd(frames: seq<Json>, model: string)
    requires forall k | 0 <= k < |frames| :: ParseFrame(frames[k], model).Ok?
    ensures Parsed(frames, model)[|frames|..] == []
  {
    hide ParseFrame;
  }

  // ----- What is made of it -------------------------------------------------------------------

  lemma {:induction false} JoinParsed(frames: seq<Json>, model: string, i: nat)
    requires i <= |frames| && Completes(frames, model)
    ensures forall k | 0 <= k < |frames| :: ParseFrame(frames[k], model).Ok?
    ensures Content(Parsed(frames, model)[i..]) == JoinAt(frames[i..], "content")
    ensures ThinkingBytes(Parsed(frames, model)[i..]) == |Encode(JoinAt(frames[i..], "thinking"))|
    decreases |frames| - i
  {
    hide *;
    CompletesParses(frames, model);
    if i < |frames| {
      JoinParsed(frames, model, i + 1);
      JoinNext(frames, i, "content");
      JoinNext(frames, i, "thinking");
      ParsedNext(frames, model, i);
      var frame, rest := ParseFrame(frames[i], model).value, Parsed(frames, model)[i + 1..];
      ContentFromFront(frame, rest);
      ThinkingFromFront(frame, rest);
      EncodeConcat(frame.thinking, JoinAt(frames[i + 1..], "thinking"));
    } else {
      ParsedEnd(frames, model);
      assert frames[i..] == [];
      NothingJoined();
    }
  }

  lemma NothingJoined()
    ensures Content([]) == [] && ThinkingBytes([]) == 0
    ensures JoinAt([], "content") == JoinAt([], "thinking") == [] && Encode([]) == []
  {
  }

  lemma {:induction false} ThinkingFromFront(frame: Frame, rest: seq<Frame>)
    ensures ThinkingBytes([frame] + rest) == |Encode(frame.thinking)| + ThinkingBytes(rest)
  {
    hide Encode;
    if rest != [] {
      var i := |rest| - 1;
      ThinkingFromFront(frame, rest[..i]);
      assert ([frame] + rest)[..i + 1] == [frame] + rest[..i];
    } else {
      assert [frame] + rest == [frame];
      assert [frame][..0] == [];
    }
  }

  /**
   * A stream of well-formed frames, one a line, the last one done: what is returned is the texts of its content
   * members in order, the size of its thinking members, and the usage of its last frame, whatever follows that frame.
   */
  lemma StreamDelivered(received: seq<Received>, frames: seq<Json>, model: string, style: J.Style, policy: Policy,
                        parse: Json -> Result<Frame, Error>)
    requires Delivers(received, frames, style) && Completes(frames, model)
    requires forall value :: parse(value) == ParseFrame(value, model)
    requires |Encode(JoinAt(frames, "content"))| <= MAX_CONTENT_BYTES
    ensures var content := JoinAt(frames, "content");
            match Outcome(Frames(LinesOf(received), parse, 0), policy)
            case Err(e) => Strip(content) == [] && e == InvalidResponse
            case Ok(evidence) =>
              && Strip(content) != [] && evidence.content == content
              && evidence.usage == UsageAt(frames[|frames| - 1])
              && evidence.progress.thinkingBytes == |Encode(JoinAt(frames, "thinking"))|
              && evidence.progress.contentBytes == |Encode(content)| && evidence.progress.frameCount == |frames|
  {
    hide *;
    CompletesParses(frames, model);
    SomeFrame(frames, model);
    var parsed, last := Parsed(frames, model), |frames| - 1;
    WholeSlice(LinesOf(received));
    WholeSlice(frames);
    WholeSlice(parsed);
    FramesDelivered(received, frames, model, style, 0, 0, parse);
    JoinParsed(frames, model, 0);
    ParsedNext(frames, model, last);
    ParsedEnd(frames, model);
    assert parsed[last..][0] == parsed[last];
    FrameIs(frames[last], model);
    OutcomeIs(policy);
    EvidenceHolds(parsed, policy);
  }

  lemma WholeSlice<T>(s: seq<T>)
    ensures s[0..] == s
  {
  }

  lemma EvidenceHolds(frames: seq<Frame>, policy: Policy)
    requires frames != []
    ensures var e := EvidenceOf(frames, policy);
            && e.content == Content(frames) && e.usage == frames[|frames| - 1].usage
            && e.progress.thinkingBytes == ThinkingBytes(frames)
            && e.progress.contentBytes == |Encode(Content(frames))| && e.progress.frameCount == |frames|
  {
    hide Content, ThinkingBytes, Encode, ContentFrames, AllDiagnostics;
  }

  // ----- Streams that break off ---------------------------------------------------------------

  /** White space only, as bytes.strip takes it: blanks, tabs, line and page breaks. */
  predicate BlankBytes(bytes: seq<Byte>) {
    forall i | 0 <= i < |bytes| :: bytes[i] == 32 || 9 <= bytes[i] <= 13
  }

  /** The value a line of bytes holds. */
  function ValueIn(bytes: seq<Byte>): Option<Json> {
    match Decode(bytes)
    case Some(text) => J.Loads(text)
    case None => None
  }

  /** How the stream ends when this is what comes next. */
  predicate Breaks(next: Option<Received>, model: string, e: Error) {
    match next
    case None => e == InvalidCompletion
    case Some(Silence) => e == Timeout
    case Some(Failure) => e == HttpError
    case Some(Bytes(bytes)) =>
      if bytes == [] then e == InvalidCompletion
      else if |bytes| > 0x100000 then e == ResponseTooLarge
      else
        && !BlankBytes(bytes)
        && if ValueIn(bytes).None? then e == InvalidResponse
           else ParseFrame(ValueIn(bytes).value, model) == Err(e)
  }

  /** Frames of that model that are not the last one. */
  predicate Underway(frames: seq<Json>, model: string) {
    forall i | 0 <= i < |frames| :: Sent(frames[i], model, false)
  }

  lemma BreaksAt(received: seq<Received>, i: nat, model: string, e: Error,
                 parse: Json -> Result<Frame, Error>, used: nat)
    requires i <= |received| && Breaks(if i < |received| then Some(received[i]) else None, model, e)
    requires forall value :: parse(value) == ParseFrame(value, model)
    ensures i <= |LinesOf(received)| && Frames(LinesOf(received)[i..], parse, used) == Err(e)
  {
    LineCount(received);
    if i < |received| {
      LineAt(received, i);
      BreaksLine(received[i], model, e);
      FramesAt(LinesOf(received), i, parse, used);
      hide LineOf, LinesOf, Breaks, ParseFrame, Frames, WithFrame;
    } else {
      hide LineOf, ParseFrame, LinesOf;
      assert LinesOf(received)[i..] == [];
    }
  }

  lemma BreaksLine(received: Received, model: string, e: Error)
    requires Breaks(Some(received), model, e)
    ensures match LineOf(received)
            case Idle => e == Timeout
            case Unreadable => e == HttpError
            case End => e == InvalidCompletion
            case Oversized => e == ResponseTooLarge
            case Blank => false
            case Undecodable => e == InvalidResponse
            case Decoded(value) => ParseFrame(value, model) == Err(e)
  {
    hide ParseFrame, Decode, J.Loads;
  }

  /** From frame `i` on, when `used` bytes of content came before it and nothing but an error comes behind. */
  lemma {:induction false} FramesBroken(received: seq<Received>, frames: seq<Json>, model: string, style: J.Style,
                                        i: nat, used: nat, parse: Json -> Result<Frame, Error>, e: Error)
    requires Delivers(received, frames, style) && Underway(frames, model) && i <= |frames|
    requires Breaks(if |frames| < |received| then Some(received[|frames|]) else None, model, e)
    requires forall value :: parse(value) == ParseFrame(value, model)
    requires used + |Encode(JoinAt(frames[i..], "content"))| <= MAX_CONTENT_BYTES
    ensures i <= |LinesOf(received)| && Frames(LinesOf(received)[i..], parse, used) == Err(e)
    decreases |frames| - i
  {
    hide *;
    LineCount(received);
    EnoughReceived(received, frames, style);
    if i == |frames| {
      BreaksAt(received, i, model, e, parse, used);
    } else {
      DeliveredLine(received, frames, style, i);
      FramesAt(LinesOf(received), i, parse, used);
      UnderwayAt(frames, model, i);
      JoinNext(frames, i, "content");
      var f := ParseFrame(frames[i], model).value;
      EncodeConcat(f.content, JoinAt(frames[i + 1..], "content"));
      var total := used + |Encode(f.content)|;
      WithFrameIs(f, LinesOf(received)[i + 1..], parse, total);
      FramesBroken(received, frames, model, style, i + 1, total, parse, e);
    }
  }

  lemma UnderwayAt(frames: seq<Json>, model: string, i: nat)
    requires Underway(frames, model) && i < |frames|
    ensures ParseFrame(frames[i], model).Ok? && !ParseFrame(frames[i], model).value.done
    ensures ParseFrame(frames[i], model).value.content == TextAt(frames[i], "content")
  {
    hide ParseFrame, TextAt, Sent;
    SentAccepted(frames[i], model, false);
    FrameIs(frames[i], model);
  }

  /**
   * A stream that breaks off behind any number of well-formed frames ends in the error of what comes next: silence, a
   * failed read, the end, a line over the bound, a line that is no JSON, or a frame that fails a check.
   */
  lemma StreamBroken(received: seq<Received>, frames: seq<Json>, model: string, style: J.Style, policy: Policy,
                     parse: Json -> Result<Frame, Error>, e: Error)
    requires Delivers(received, frames, style) && Underway(frames, model)
    requires Breaks(if |frames| < |received| then Some(received[|frames|]) else None, model, e)
    requires forall value :: parse(value) == ParseFrame(value, model)
    requires |Encode(JoinAt(frames, "content"))| <= MAX_CONTENT_BYTES
    ensures Outcome(Frames(LinesOf(received), parse, 0), policy) == Err(e)
  {
    hide *;
    WholeSlice(LinesOf(received));
    WholeSlice(frames);
    FramesBroken(received, frames, model, style, 0, 0, parse, e);
    OutcomeIs(policy);
  }

  /** A blank line changes nothing. */
  lemma BlankLineSkipped(received: seq<Received>, i: nat, bytes: seq<Byte>,
                         parse: Json -> Result<Frame, Error>, used: nat)
    requires i < |received| && received[i] == Bytes(bytes) && 0 < |bytes| <= 0x100000 && BlankBytes(bytes)
    ensures i < |LinesOf(received)|
    ensures Frames(LinesOf(received)[i..], parse, used) == Frames(LinesOf(received)[i + 1..], parse, used)
  {
    LineAt(received, i);
    BlankIs(bytes);
    hide *;
    FramesAt(LinesOf(received), i, parse, used);
  }

  lemma BlankIs(bytes: seq<Byte>)
    requires 0 < |bytes| <= 0x100000 && BlankBytes(bytes)
    ensures LineOf(Bytes(bytes)) == Blank
  {
    hide Decode, J.Loads;
  }
}
