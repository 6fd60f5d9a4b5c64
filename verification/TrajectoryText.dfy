/** The rewritten trajectory text, and when the validator reads its events back. */
module TrajectoryText {
  import opened Wrappers
  import opened Json
  import opened JsonText
  import opened JsonRoundTrip
  import opened JsonNumbers
  import opened CapsuleClearing
  import T = Text

  /** json.dumps(..., ensure_ascii=False) with its default separators. */
  const STYLE := Style(false, true)

  function EventText(event: Json): string {
    Print(event, STYLE)
  }

  // ----- Which texts are one line -------------------------------------------------------------

  /** A line break that the printer does not escape. */
  predicate BareBreak(c: char) {
    c == '\U{85}' || c == '\U{2028}' || c == '\U{2029}'
  }

  predicate NoBareBreak(s: string) {
    forall i | 0 <= i < |s| :: !BareBreak(s[i])
  }

  /** No string or key anywhere in the value holds such a break. */
  predicate Plain(v: Json) {
    match v
    case Str(s) => NoBareBreak(s)
    case Arr(items) => forall i | 0 <= i < |items| :: Plain(items[i])
    case Obj(fields) => forall i | 0 <= i < |fields| :: NoBareBreak(fields[i].key) && Plain(fields[i].value)
    case _ => true
  }

  lemma OneLineConcat(a: string, b: string)
    ensures T.OneLine(a + b) <==> T.OneLine(a) && T.OneLine(b)
  {
    if T.OneLine(a + b) {
      assert forall i | 0 <= i < |b| :: b[i] == (a + b)[|a| + i];
      assert forall i | 0 <= i < |a| :: a[i] == (a + b)[i];
    }
  }

  lemma CharLine(c: char, tail: string)
    ensures T.OneLine(WriteChar(c, STYLE, tail)) <==> !BareBreak(c) && T.OneLine(tail)
  {
    hide T.OneLine;
    var whole := WriteChar(c, STYLE, tail);
    var front := WriteChar(c, STYLE, []);
    assert whole == front + tail;
    OneLineConcat(front, tail);
    FrontLine(c);
  }

  lemma FrontLine(c: char)
    ensures T.OneLine(WriteChar(c, STYLE, [])) <==> !BareBreak(c)
  {
    if ShortEscape(c).Some? {
      hide WriteLong;
      assert WriteChar(c, STYLE, []) == ['\\', ShortEscape(c).value];
    } else if c as int < 0x20 {
      HexLine(c as int);
      assert WriteChar(c, STYLE, []) == WriteHex4(c as int, []);
    } else {
      hide WriteLong;
      assert WriteChar(c, STYLE, []) == [c];
      assert !BareBreak(c) <==> !T.IsBreak(c);
      assert T.OneLine([c]) <==> !T.IsBreak([c][0]);
    }
  }

  lemma HexDigitLine(d: int)
    requires 0 <= d < 16
    ensures !T.IsBreak(HexDigit(d))
  {
  }

  lemma HexLine(unit: int)
    requires 0 <= unit < 0x10000
    ensures T.OneLine(WriteHex4(unit, []))
  {
    hide HexDigit;
    forall d | 0 <= d < 16
      ensures !T.IsBreak(HexDigit(d))
    {
      HexDigitLine(d);
    }
  }

  lemma {:induction false} CharsLine(s: string, tail: string)
    ensures T.OneLine(WriteChars(s, STYLE, tail)) <==> NoBareBreak(s) && T.OneLine(tail)
  {
    hide T.OneLine, WriteChar;
    if s == [] {
      OneLineConcat(['"'], tail);
      assert T.OneLine(['"']) by { OneQuote(); }
    } else {
      CharsLine(s[1..], tail);
      CharLine(s[0], WriteChars(s[1..], STYLE, tail));
      assert NoBareBreak(s) <==> !BareBreak(s[0]) && NoBareBreak(s[1..]);
    }
  }

  lemma OneQuote()
    ensures T.OneLine(['"'])
  {
  }

  lemma NatLine(n: nat, tail: string)
    ensures T.OneLine(WriteNat(n, tail)) <==> T.OneLine(tail)
  {
    hide T.OneLine;
    var digit := ['0' + (n % 10) as char];
    assert T.OneLine(digit) by { OneDigit(n % 10); }
    OneLineConcat(digit, tail);
    if n >= 10 {
      NatLine(n / 10, digit + tail);
    }
  }

  lemma OneDigit(d: nat)
    requires d < 10
    ensures T.OneLine(['0' + d as char])
  {
  }

  lemma NumberLine(s: string)
    requires FloatText(s)
    ensures T.OneLine(s)
  {
    FloatChars(s);
    hide FloatText;
  }

  lemma ScalarLine(v: Json, tail: string)
    requires Finite(v) && !v.Arr? && !v.Obj?
    ensures T.OneLine(Write(v, STYLE, tail)) <==> Plain(v) && T.OneLine(tail)
  {
    match v {
      case Null =>
        assert T.OneLine("null");
        OneLineConcat("null", tail);
      case Bool(b) =>
        assert T.OneLine("true") && T.OneLine("false");
        OneLineConcat(if b then "true" else "false", tail);
      case Int(n) =>
        NatLine(if n < 0 then -n else n, tail);
        assert T.OneLine(['-']);
        OneLineConcat(['-'], WriteNat(if n < 0 then -n else n, tail));
      case Real(lexeme) =>
        NumberLine(lexeme);
        OneLineConcat(lexeme, tail);
      case Str(s) =>
        OneQuote();
        CharsLine(s, tail);
        OneLineConcat(['"'], WriteChars(s, STYLE, tail));
    }
  }

  lemma Separated(c: char, text: string)
    ensures [c] + Gap(STYLE, text) == [c, ' '] + text
  {
  }

  lemma Marks()
    ensures T.OneLine("[") && T.OneLine("]") && T.OneLine("{") && T.OneLine("}") && T.OneLine(", ") && T.OneLine(": ")
    ensures T.OneLine("[]") && T.OneLine("{}")
  {
  }

  /** The text of a value is one line exactly when no string in it holds an unescaped break. */
  lemma {:induction false} ValueLine(v: Json, tail: string)
    requires Finite(v)
    ensures T.OneLine(Write(v, STYLE, tail)) <==> Plain(v) && T.OneLine(tail)
    decreases v, 0
  {
    Marks();
    match v {
      case Arr(items) =>
        hide T.OneLine, Write;
        if items == [] {
          OneLineConcat("[]", tail);
          assert Write(v, STYLE, tail) == "[]" + tail;
        } else {
          ItemsLine(items, tail);
          OneLineConcat("[", WriteItems(items, STYLE, tail));
        }
      case Obj(fields) =>
        hide T.OneLine, Write;
        if fields == [] {
          OneLineConcat("{}", tail);
          assert Write(v, STYLE, tail) == "{}" + tail;
        } else {
          FieldsLine(fields, tail);
          OneLineConcat("{", WriteFields(fields, STYLE, tail));
        }
      case _ => ScalarLine(v, tail);
    }
  }

  lemma {:induction false} ItemsLine(items: seq<Json>, tail: string)
    requires items != [] && forall i | 0 <= i < |items| :: Finite(items[i])
    ensures T.OneLine(WriteItems(items, STYLE, tail))
       <==> (forall i | 0 <= i < |items| :: Plain(items[i])) && T.OneLine(tail)
    decreases items, 1
  {
    Marks();
    hide T.OneLine, Write, Plain, Finite;
    if |items| == 1 {
      ValueLine(items[0], "]" + tail);
      OneLineConcat("]", tail);
    } else {
      var rest := items[1..];
      ItemsLine(rest, tail);
      Separated(',', WriteItems(rest, STYLE, tail));
      OneLineConcat(", ", WriteItems(rest, STYLE, tail));
      ValueLine(items[0], ", " + WriteItems(rest, STYLE, tail));
      assert forall i | 1 <= i < |items| :: items[i] == rest[i - 1];
      assert forall i | 0 <= i < |rest| :: rest[i] == items[i + 1];
    }
  }

  predicate PlainField(f: Field) {
    NoBareBreak(f.key) && Plain(f.value)
  }

  lemma {:induction false} FieldLine(f: Field, tail: string)
    requires Finite(f.value)
    ensures T.OneLine(WriteField(f, STYLE, tail)) <==> PlainField(f) && T.OneLine(tail)
    decreases f, 1
  {
    Marks();
    OneQuote();
    hide T.OneLine, Write, Plain, WriteChars, NoBareBreak;
    ValueLine(f.value, tail);
    var after := ": " + Write(f.value, STYLE, tail);
    Separated(':', Write(f.value, STYLE, tail));
    OneLineConcat(": ", Write(f.value, STYLE, tail));
    CharsLine(f.key, after);
    OneLineConcat(['"'], WriteChars(f.key, STYLE, after));
  }

  lemma {:induction false} FieldsLine(fields: seq<Field>, tail: string)
    requires fields != [] && forall i | 0 <= i < |fields| :: Finite(fields[i].value)
    ensures T.OneLine(WriteFields(fields, STYLE, tail))
       <==> (forall i | 0 <= i < |fields| :: PlainField(fields[i])) && T.OneLine(tail)
    decreases fields, 1
  {
    Marks();
    hide T.OneLine, WriteField, PlainField, Finite;
    if |fields| == 1 {
      FieldLine(fields[0], "}" + tail);
      OneLineConcat("}", tail);
    } else {
      var rest := fields[1..];
      FieldsLine(rest, tail);
      Separated(',', WriteFields(rest, STYLE, tail));
      OneLineConcat(", ", WriteFields(rest, STYLE, tail));
      FieldLine(fields[0], ", " + WriteFields(rest, STYLE, tail));
      assert forall i | 1 <= i < |fields| :: fields[i] == rest[i - 1];
      assert forall i | 0 <= i < |rest| :: rest[i] == fields[i + 1];
    }
  }

  /**
   * A rewritten event is read back as one line exactly when none of its strings holds U+0085, U+2028 or
   * U+2029: those are written unescaped, and the validator splits its lines at them.
   */
  lemma EventIsOneLine(event: Json)
    requires Finite(event)
    ensures T.SplitLines(EventText(event)) == [EventText(event)] <==> Plain(event)
  {
    ValueLine(event, []);
    WriteStart(event, STYLE, []);
    hide Write, Plain;
    OneLineSplit(EventText(event));
  }

  lemma OneLineSplit(text: string)
    requires text != []
    ensures T.SplitLines(text) == [text] <==> T.OneLine(text)
  {
    var n := T.LineEnd(text);
    if n < |text| {
      assert T.SplitLines(text)[0] == text[..n] && |text[..n]| < |text|;
    }
  }

  // ----- Rewriting a trajectory ---------------------------------------------------------------

  /** A line of the new text: a blank line as it was, or the text of a cleared event. */
  datatype Piece = Kept(line: string) | Rewritten(event: Json)

  function PieceText(p: Piece): string {
    match p
    case Kept(line) => line
    case Rewritten(event) => EventText(event)
  }

  /** One line of _clear_trajectory; None is the exception it raises. */
  function RewriteLine(line: string): Option<Piece> {
    if T.Strip(line) == [] then Some(Kept(line))
    else
      match Loads(line)
      case None => None
      case Some(event) =>
        match ClearedEvent(event)
        case None => None
        case Some(cleared) => if StrictJson(cleared) then Some(Rewritten(cleared)) else None
  }

  function RewriteLines(lines: seq<string>): Option<seq<Piece>> {
    if lines == [] then Some([])
    else
      match (RewriteLine(lines[0]), RewriteLines(lines[1..]))
      case (Some(p), Some(rest)) => Some([p] + rest)
      case _ => None
  }

  /** "\n".join */
  function Joined(pieces: seq<Piece>): string {
    if pieces == [] then []
    else if |pieces| == 1 then PieceText(pieces[0])
    else PieceText(pieces[0]) + (['\n'] + Joined(pieces[1..]))
  }

  /** _clear_trajectory, as far as the pieces it joins. */
  method ClearTrajectory(text: string) returns (r: Option<seq<Piece>>)
    ensures r == RewriteLines(T.SplitLines(text))
  {
    hide RewriteLine, T.SplitLines;
    var lines := T.SplitLines(text);
    var pieces: seq<Piece> := [];
    assert lines[0..] == lines;
    assert RewriteLines(lines) == After(pieces, RewriteLines(lines)) by {
      AfterNothing(RewriteLines(lines));
    }
    for i := 0 to |lines|
      invariant RewriteLines(lines) == After(pieces, RewriteLines(lines[i..]))
    {
      assert lines[i..][1..] == lines[i + 1..];
      match RewriteLine(lines[i]) {
        case None =>
          return None;
        case Some(p) =>
          AfterPiece(pieces, p, RewriteLines(lines[i + 1..]));
          pieces := pieces + [p];
      }
    }
    assert pieces + [] == pieces;
    r := Some(pieces);
  }

  function After(pieces: seq<Piece>, rest: Option<seq<Piece>>): Option<seq<Piece>> {
    match rest
    case None => None
    case Some(more) => Some(pieces + more)
  }

  lemma AfterNothing(rest: Option<seq<Piece>>)
    ensures After([], rest) == rest
  {
    if rest.Some? {
      assert [] + rest.value == rest.value;
    }
  }

  lemma AfterPiece(pieces: seq<Piece>, p: Piece, rest: Option<seq<Piece>>)
    ensures After(pieces, match rest case Some(more) => Some([p] + more) case None => None) == After(pieces + [p], rest)
  {
    if rest.Some? {
      assert pieces + ([p] + rest.value) == pieces + [p] + rest.value;
    }
  }

  // ----- Reading it back ----------------------------------------------------------------------

  /** The protected-field check of the trajectory lines. */
  function CheckLines(lines: seq<string>): Check {
    if lines == [] then Passes
    else if T.Strip(lines[0]) == [] then CheckLines(lines[1..])
    else
      match Loads(lines[0])
      case None => Raises
      case Some(event) => if CheckEvent(event).Passes? then CheckLines(lines[1..]) else CheckEvent(event)
  }

  /** The events the validator decodes. */
  function EventsIn(lines: seq<string>): seq<Json> {
    if lines == [] then []
    else
      (if T.Strip(lines[0]) == [] then []
       else match Loads(lines[0]) case Some(event) => [event] case None => [])
        + EventsIn(lines[1..])
  }

  function EventsOf(pieces: seq<Piece>): seq<Json> {
    if pieces == [] then []
    else (match pieces[0] case Rewritten(event) => [event] case Kept(_) => []) + EventsOf(pieces[1..])
  }

  predicate AllPlain(pieces: seq<Piece>) {
    forall p | p in pieces && p.Rewritten? :: Plain(p.event)
  }

  /** What every piece is. */
  predicate Sound(p: Piece) {
    match p
    case Kept(line) => T.OneLine(line) && T.Strip(line) == []
    case Rewritten(event) => event.Obj? && Writable(event) && CheckEvent(event).Passes?
  }

  lemma {:induction false} ClearedLoaded(v: Json, path: Path)
    requires Loaded(v)
    ensures Loaded(Cleared(v, path))
    decreases v, 0
  {
    if path != [] {
      match v {
        case Arr(items) =>
          forall i | 0 <= i < |items|
            ensures Loaded(ClearedItems(items, path[1..])[i])
          {
            ClearedItem(items, path[1..], i);
            ClearedLoaded(items[i], path[1..]);
          }
        case Obj(fields) => FieldsLoaded(fields, path);
        case _ =>
      }
    }
  }

  lemma {:induction false} FieldsLoaded(fields: seq<Field>, path: Path)
    requires path != [] && forall i | 0 <= i < |fields| :: Loaded(fields[i].value)
    ensures forall i | 0 <= i < |ClearedFields(fields, path)| :: Loaded(ClearedFields(fields, path)[i].value)
    decreases fields, 1
  {
    hide Cleared, Loaded;
    if fields != [] {
      ClearedLoaded(fields[0].value, path[1..]);
      FieldsLoaded(fields[1..], path);
    }
  }

  lemma ClearedEventIs(event: Json)
    requires WellFormed(event) && Loaded(event) && ClearedEvent(event).Some?
    ensures var c := ClearedEvent(event).value;
            c.Obj? && WellFormed(c) && Loaded(c) && CheckEvent(c).Passes?
  {
    EventPasses(event);
    var p, q := ObservationPath(FAILURE_FIELD), ObservationPath(NODE_FIELD);
    ClearedWellFormed(event, p);
    ClearedWellFormed(Cleared(event, p), q);
    ClearedLoaded(event, p);
    ClearedLoaded(Cleared(event, p), q);
    hide WellFormed, Loaded, Inner, IsObservation, CheckEvent;
  }

  lemma RewriteSound(line: string)
    requires T.OneLine(line) && RewriteLine(line).Some?
    ensures Sound(RewriteLine(line).value)
  {
    if T.Strip(line) != [] {
      var event := Loads(line).value;
      ReadLoaded(SkipSpace(line));
      ReadWellFormed(SkipSpace(line));
      hide Read, T.Strip, ClearedEvent, CheckEvent, WellFormed, Loaded, Finite, StrictJson;
      ClearedEventIs(event);
      StrictIsFinite(ClearedEvent(event).value);
    }
  }

  lemma {:induction false} LinesAreLines(s: string)
    ensures forall line | line in T.SplitLines(s) :: T.OneLine(line)
    decreases |s|
  {
    if s != [] && T.LineEnd(s) < |s| {
      LinesAreLines(T.AfterLine(s));
    }
  }

  lemma {:induction false} RewriteLinesSound(lines: seq<string>)
    requires (forall line | line in lines :: T.OneLine(line)) && RewriteLines(lines).Some?
    ensures forall p | p in RewriteLines(lines).value :: Sound(p)
  {
    hide T.OneLine, RewriteLine, Sound;
    if lines != [] {
      RewriteSound(lines[0]);
      RewriteLinesSound(lines[1..]);
    }
  }

  lemma NotBlank(text: string)
    requires text != [] && text[0] == '{'
    ensures T.Strip(text) != []
  {
    T.StripEmpty(text);
    assert !T.IsBlank(text[0]);
    hide T.Strip;
  }

  /** The text of an event reads back, and no part of it does. */
  lemma EventReadsBack(event: Json)
    requires event.Obj? && Writable(event)
    ensures EventText(event) != [] && EventText(event)[0] == '{'
    ensures Loads(EventText(event)) == Some(event)
    ensures forall k | 0 <= k < |EventText(event)| :: Loads(EventText(event)[..k]) == None
  {
    var text := EventText(event);
    ReadWritten(event, STYLE, []);
    WriteStart(event, STYLE, []);
    forall k | 0 <= k < |text|
      ensures Loads(text[..k]) == None
    {
      ProperPrefixUnreadable(event, STYLE, k);
    }
    assert text[0] == '{' by {
      hide Read;
    }
    hide Read, Write;
    assert SkipSpace(text) == text;
  }

  /** A line of the text followed by others, read back. */
  lemma CheckCons(line: string, rest: seq<string>)
    ensures CheckLines([line] + rest) ==
            if T.Strip(line) == [] then CheckLines(rest)
            else match Loads(line)
                 case None => Raises
                 case Some(event) => if CheckEvent(event).Passes? then CheckLines(rest) else CheckEvent(event)
    ensures EventsIn([line] + rest) ==
            (if T.Strip(line) == [] then [] else match Loads(line) case Some(event) => [event] case None => [])
              + EventsIn(rest)
  {
    hide T.Strip, Loads, CheckEvent;
    assert ([line] + rest)[1..] == rest;
  }

  lemma BrokenEvent(event: Json, more: string)
    requires event.Obj? && Writable(event) && !Plain(event)
    ensures CheckLines(T.SplitLines(EventText(event) + more)) == Raises
  {
    var text := EventText(event);
    EventReadsBack(event);
    ValueLine(event, []);
    hide Write, Plain, Loads, Print, EventText;
    var n := T.LineEnd(text);
    BreakInside(text, more);
    T.SplitLinesStep(text + more);
    assert (text + more)[..n] == text[..n];
    hide T.SplitLines, T.LineEnd, T.AfterLine;
    assert n > 0 && text[..n][0] == '{';
    NotBlank(text[..n]);
    CheckCons(text[..n], T.SplitLines(T.AfterLine(text + more)));
  }

  lemma BreakInside(text: string, more: string)
    requires text != [] && text[0] == '{' && !T.OneLine(text)
    ensures 0 < T.LineEnd(text) < |text| && T.LineEnd(text + more) == T.LineEnd(text)
  {
    var n := T.LineEnd(text);
    assert n < |text|;
    T.LineEndIs(text + more, n);
  }

  /** One sound piece in front of what is read back. */
  lemma PieceReadsBack(p: Piece, rest: seq<string>)
    requires Sound(p) && (p.Rewritten? ==> Plain(p.event))
    ensures T.OneLine(PieceText(p)) && CheckLines([PieceText(p)] + rest) == CheckLines(rest)
    ensures EventsIn([PieceText(p)] + rest) == EventsOf([p]) + EventsIn(rest)
  {
    CheckCons(PieceText(p), rest);
    OnePiece(p);
    match p {
      case Kept(line) =>
      case Rewritten(event) =>
        EventReadsBack(event);
        ValueLine(event, []);
        hide Write, Plain, Loads;
        NotBlank(EventText(event));
    }
  }

  lemma OnePiece(p: Piece)
    ensures EventsOf([p]) == if p.Rewritten? then [p.event] else []
  {
    assert [p][1..] == [];
  }

  lemma SplitEmptyOrOne(text: string)
    requires T.OneLine(text)
    ensures T.SplitLines(text) == if text == [] then [] else [text]
  {
    if text != [] {
      OneLineSplit(text);
    }
  }

  /** The joined text, read back piece by piece. */
  lemma {:induction false} PiecesReadBack(pieces: seq<Piece>)
    requires forall p | p in pieces :: Sound(p)
    ensures CheckLines(T.SplitLines(Joined(pieces))) == if AllPlain(pieces) then Passes else Raises
    ensures AllPlain(pieces) ==> EventsIn(T.SplitLines(Joined(pieces))) == EventsOf(pieces)
  {
    if pieces != [] {
      var p, rest := pieces[0], pieces[1..];
      assert p in pieces && forall q :: q in pieces <==> q == p || q in rest;
      var plain := p.Rewritten? ==> Plain(p.event);
      assert AllPlain(pieces) <==> plain && AllPlain(rest);
      hide Sound, Plain, CheckEvent, T.SplitLines, CheckLines, EventsIn, PieceText, AllPlain;
      PiecesReadBack(rest);
      if !plain {
        BrokenPiece(p, if |pieces| == 1 then [] else ['\n'] + Joined(rest));
        assert |pieces| == 1 ==> PieceText(p) + [] == PieceText(p);
      } else if |pieces| == 1 {
        LastPiece(p);
        assert pieces == [p] && rest == [];
        NothingJoined();
      } else {
        PieceReadsBack(p, T.SplitLines(Joined(rest)));
        T.SplitAtBreak(PieceText(p), '\n', Joined(rest));
        OnePiece(p);
      }
    }
  }

  lemma NothingJoined()
    ensures AllPlain([])
  {
  }

  lemma LastPiece(p: Piece)
    requires Sound(p) && (p.Rewritten? ==> Plain(p.event))
    ensures CheckLines(T.SplitLines(PieceText(p))) == Passes
    ensures EventsIn(T.SplitLines(PieceText(p))) == EventsOf([p])
  {
    PieceReadsBack(p, []);
    SplitEmptyOrOne(PieceText(p));
    assert EventsIn([]) == [] && CheckLines([]) == Passes;
    OnePiece(p);
    hide Sound, Plain, CheckEvent, T.SplitLines, EventsOf;
    assert [PieceText(p)] + [] == [PieceText(p)];
    assert EventsOf([p]) + [] == EventsOf([p]);
    if PieceText(p) == [] {
      EmptyPiece(p);
    }
  }

  lemma EmptyPiece(p: Piece)
    requires Sound(p) && PieceText(p) == []
    ensures p.Kept?
  {
    if p.Rewritten? {
      EventReadsBack(p.event);
    }
  }

  lemma BrokenPiece(p: Piece, more: string)
    requires Sound(p) && p.Rewritten? && !Plain(p.event)
    ensures CheckLines(T.SplitLines(PieceText(p) + more)) == Raises
  {
    BrokenEvent(p.event, more);
  }

  /**
   * The rewritten trajectory passes the validator's check, which then decodes exactly the cleared events, if no
   * cleared event holds an unescaped break; otherwise the validator fails to decode a line.
   */
  lemma TrajectoryReadsBack(text: string, pieces: seq<Piece>)
    requires RewriteLines(T.SplitLines(text)) == Some(pieces)
    ensures CheckLines(T.SplitLines(Joined(pieces))) == if AllPlain(pieces) then Passes else Raises
    ensures AllPlain(pieces) ==> EventsIn(T.SplitLines(Joined(pieces))) == EventsOf(pieces)
  {
    hide RewriteLine, Sound, T.OneLine, T.SplitLines;
    LinesAreLines(text);
    RewriteLinesSound(T.SplitLines(text));
    PiecesReadBack(pieces);
  }

  // ----- An event that is split ---------------------------------------------------------------

  const SEPARATOR := '\U{2028}'

  /** An observation event with a line separator in one of its strings. */
  function SplitEvent(): Json {
    Obj([Field("event_type", Str("observation")), Field("note", Str([SEPARATOR]))])
  }

  /** Clearing accepts it and leaves it as it is, its text is no one line, and the validator cannot decode that. */
  lemma SplitEventFails()
    ensures IsObservation(SplitEvent()) && ClearedEvent(SplitEvent()) == Some(SplitEvent())
    ensures |T.SplitLines(EventText(SplitEvent()))| == 2
    ensures CheckLines(T.SplitLines(EventText(SplitEvent()))) == Raises
  {
    var event := SplitEvent();
    SplitEventIs();
    assert EventText(event) + [] == EventText(event);
    hide *;
    BrokenEvent(event, []);
    SplitEventText();
  }

  lemma SplitEventIs()
    ensures var event := SplitEvent();
            && event.Obj? && Writable(event) && !Plain(event)
            && IsObservation(event) && ClearedEvent(event) == Some(event)
  {
    var event := SplitEvent();
    SplitEventWritable();
    SplitEventInner();
    NotReached(event, ObservationPath(FAILURE_FIELD));
    NotReached(event, ObservationPath(NODE_FIELD));
    hide Cleared, SplitEvent, Inner, IsObservation, Writable, Plain;
  }

  lemma SplitEventWritable()
    ensures Writable(SplitEvent()) && !Plain(SplitEvent())
  {
    assert BareBreak([SEPARATOR][0]) && !Plain(SplitEvent().fields[1].value);
  }

  lemma SplitEventInner()
    ensures SplitEvent().Obj? && IsObservation(SplitEvent()) && Inner(SplitEvent()) == Some(Obj([]))
  {
    var fields := SplitEvent().fields;
    GetAt(fields, 0);
    assert !HasKey(fields, "payload") && Get(fields, "payload") == None;
    assert Get([], "observation") == None && Get([], "payload") == None;
  }

  lemma NotReached(event: Json, path: Path)
    requires event == SplitEvent() && path != [] && path[0] == "payload"
    ensures Cleared(event, path) == event
  {
    var fields := event.fields;
    assert ClearedField(fields[0], path) == [fields[0]] && ClearedField(fields[1], path) == [fields[1]];
    assert fields[1..] == [fields[1]] && fields[1..][1..] == [];
    assert ClearedFields([], path) == [];
    assert ClearedFields(fields[1..], path) == [fields[1]];
  }

  lemma BreakBehind(front: string, rest: string)
    requires T.OneLine(front) && T.LineEnd(rest) < |rest|
    ensures T.LineEnd(front + rest) == |front| + T.LineEnd(rest)
    ensures T.AfterLine(front + rest) == T.AfterLine(rest)
  {
    var s, n := front + rest, T.LineEnd(rest);
    assert s[|front| + n] == rest[n];
    T.LineEndIs(s, |front| + n);
    hide *;
    AfterLineIs(s);
    AfterLineIs(rest);
    CharBehind(front, rest, n);
    SliceBehind(front, rest, n + 1);
    if n + 2 <= |rest| {
      CharBehind(front, rest, n + 1);
      SliceBehind(front, rest, n + 2);
    }
  }

  lemma AfterLineIs(s: string)
    requires T.LineEnd(s) < |s|
    ensures var n := T.LineEnd(s);
            T.AfterLine(s) ==
            if n + 1 < |s| && s[n] == '\r' && s[n + 1] == '\n' then s[n + 2..] else s[n + 1..]
  {
    T.CrLfAt(s, T.LineEnd(s));
    hide T.LineEnd, T.StartsWith, T.IsBreak;
  }

  lemma CharBehind(front: string, rest: string, k: nat)
    requires k < |rest|
    ensures (front + rest)[|front| + k] == rest[k]
  {
  }

  lemma SliceBehind(front: string, rest: string, k: nat)
    requires k <= |rest|
    ensures (front + rest)[|front| + k..] == rest[k..]
  {
  }

  /** Text without a break in front of other text starts no further line. */
  lemma LinesBehind(front: string, rest: string)
    requires T.OneLine(front) && rest != []
    ensures |T.SplitLines(front + rest)| == |T.SplitLines(rest)|
  {
    var s, n := front + rest, T.LineEnd(rest);
    if n < |rest| {
      BreakBehind(front, rest);
      hide *;
      T.SplitLinesStep(s);
      T.SplitLinesStep(rest);
    } else {
      OneLineConcat(front, rest);
      OneLineSplit(s);
      OneLineSplit(rest);
    }
  }

  /** The same for a field with a plain key whose text value goes on with `rest`. */
  lemma FieldLines(key: string, rest: string)
    requires (forall i | 0 <= i < |key| :: Verbatim(key[i])) && rest != []
    ensures |T.SplitLines(['"'] + WriteChars(key, STYLE, ": " + (['"'] + rest)))| == |T.SplitLines(rest)|
  {
    WriteVerbatim(key, STYLE, ": " + (['"'] + rest));
    Marks();
    OneQuote();
    VerbatimLine(key);
    hide T.SplitLines, T.OneLine, WriteChars;
    LinesBehind(['"'], rest);
    LinesBehind(": ", ['"'] + rest);
    LinesBehind(['"'], ": " + (['"'] + rest));
    LinesBehind(key, ['"'] + (": " + (['"'] + rest)));
    LinesBehind(['"'], key + (['"'] + (": " + (['"'] + rest))));
  }

  lemma VerbatimLine(s: string)
    requires forall i | 0 <= i < |s| :: Verbatim(s[i])
    ensures T.OneLine(s)
  {
  }

  lemma SplitEventText()
    ensures |T.SplitLines(EventText(SplitEvent()))| == 2
  {
    VerbatimEvent();
    hide *;
    var noteField := WriteField(Field("note", Str([SEPARATOR])), STYLE, ['}']);
    NoteLines();
    SplitEventWritten();
    Marks();
    TextLines("observation", noteField);
    var after := WriteChars("observation", STYLE, ", " + noteField);
    FieldLines("event_type", after);
    LinesBehind("{", ['"'] + WriteChars("event_type", STYLE, ": " + (['"'] + after)));
  }

  lemma VerbatimEvent()
    ensures forall i | 0 <= i < |"event_type"| :: Verbatim("event_type"[i])
    ensures forall i | 0 <= i < |"observation"| :: Verbatim("observation"[i])
  {
  }

  /** A plain text value in front of another field. */
  lemma TextLines(s: string, next: string)
    requires (forall i | 0 <= i < |s| :: Verbatim(s[i])) && next != []
    ensures WriteChars(s, STYLE, ", " + next) != []
    ensures |T.SplitLines(WriteChars(s, STYLE, ", " + next))| == |T.SplitLines(next)|
  {
    WriteVerbatim(s, STYLE, ", " + next);
    VerbatimLine(s);
    Marks();
    OneQuote();
    hide *;
    LinesBehind(", ", next);
    LinesBehind(['"'], ", " + next);
    LinesBehind(s, ['"'] + (", " + next));
  }

  lemma SplitEventWritten()
    ensures var noteField := WriteField(Field("note", Str([SEPARATOR])), STYLE, ['}']);
            EventText(SplitEvent()) ==
            "{" + (['"'] + WriteChars("event_type", STYLE,
                  ": " + (['"'] + WriteChars("observation", STYLE, ", " + noteField))))
  {
    var fields := SplitEvent().fields;
    var note := Field("note", Str([SEPARATOR]));
    assert fields[1..] == [note];
    assert WriteFields([note], STYLE, []) == WriteField(note, STYLE, ['}']) by {
      assert ['}'] + [] == ['}'];
      hide WriteField;
    }
    var noteField := WriteField(note, STYLE, ['}']);
    hide WriteChars;
    Separated(',', noteField);
    var value := Write(Str("observation"), STYLE, ", " + noteField);
    Separated(':', value);
    assert value == ['"'] + WriteChars("observation", STYLE, ", " + noteField);
    assert WriteFields(fields, STYLE, []) == WriteField(fields[0], STYLE, ", " + noteField);
  }

  lemma NoteLines()
    ensures var noteField := WriteField(Field("note", Str([SEPARATOR])), STYLE, ['}']);
            noteField != [] && |T.SplitLines(noteField)| == 2
  {
    var end := "\"}";
    var rest := [SEPARATOR] + end;
    assert [SEPARATOR][1..] == [];
    assert WriteChars([], STYLE, ['}']) == end;
    assert WriteChar(SEPARATOR, STYLE, end) == rest;
    assert WriteChars([SEPARATOR], STYLE, ['}']) == rest;
    assert [] + ([SEPARATOR] + end) == rest;
    OneQuote();
    Marks();
    VerbatimLine("note");
    OneLineConcat(['"'], "}");
    assert T.OneLine(end);
    T.SplitAtBreak([], SEPARATOR, end);
    SplitEmptyOrOne(end);
    Separated(':', ['"'] + rest);
    FieldLines("note", rest);
    assert WriteField(Field("note", Str([SEPARATOR])), STYLE, ['}']) ==
           ['"'] + WriteChars("note", STYLE, ": " + (['"'] + rest)) by {
      hide WriteChars;
    }
  }
}
