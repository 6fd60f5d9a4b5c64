/** Finding the top-level JSON objects in free text. */
module JsonScan {
  import opened Wrappers
  import opened Json
  import opened JsonText
  import opened JsonRoundTrip
  import T = Text

  const ESC: char := '\U{1B}'

  // ----- Control sequences (section 5.4 of ECMA-48) -------------------------------------------

  /** The longest prefix of characters between `low` and `high`. */
  function TakeRange(s: string, low: char, high: char): (n: nat)
    ensures n <= |s|
  {
    if s != [] && low <= s[0] <= high then 1 + TakeRange(s[1..], low, high) else 0
  }

  /** The length of the control sequence at the start of `s`: introducer, parameters, intermediates, final. */
  function ControlSequence(s: string): (r: Option<nat>)
    ensures r.Some? ==> 3 <= r.value <= |s|
  {
    if |s| < 2 || s[0] != ESC || s[1] != '[' then None
    else
      var parameters := 2 + TakeRange(s[2..], '0', '?');
      var intermediates := parameters + TakeRange(s[parameters..], ' ', '/');
      if intermediates < |s| && '@' <= s[intermediates] <= '~' then Some(intermediates + 1) else None
  }

  /** _strip_ansi: every control sequence is removed, from left to right. */
  function StripAnsi(s: string): string
    decreases |s|
  {
    if s == [] then []
    else
      match ControlSequence(s)
      case Some(n) => StripAnsi(s[n..])
      case None => [s[0]] + StripAnsi(s[1..])
  }

  lemma {:induction false} StripAnsiFree(a: string, b: string)
    requires ESC !in a
    ensures StripAnsi(a + b) == a + StripAnsi(b)
  {
    if a == [] {
      assert a + b == b;
    } else {
      assert (a + b)[1..] == a[1..] + b;
      StripAnsiFree(a[1..], b);
    }
  }

  /** A control sequence as a terminal takes it: introducer, parameters, intermediates and a final character. */
  predicate Sequence(s: string, parameters: string, intermediates: string, final: char) {
    && s == [ESC, '['] + (parameters + (intermediates + [final]))
    && (forall i | 0 <= i < |parameters| :: '0' <= parameters[i] <= '?')
    && (forall i | 0 <= i < |intermediates| :: ' ' <= intermediates[i] <= '/')
    && '@' <= final <= '~'
  }

  lemma {:induction false} TakeRangeIs(front: string, rest: string, low: char, high: char)
    requires forall i | 0 <= i < |front| :: low <= front[i] <= high
    requires rest == [] || !(low <= rest[0] <= high)
    ensures TakeRange(front + rest, low, high) == |front| && (front + rest)[|front|..] == rest
  {
    if front == [] {
      assert front + rest == rest;
    } else {
      assert (front + rest)[1..] == front[1..] + rest;
      TakeRangeIs(front[1..], rest, low, high);
    }
  }

  lemma SequenceFound(s: string, parameters: string, intermediates: string, final: char, more: string)
    requires Sequence(s, parameters, intermediates, final)
    ensures ControlSequence(s + more) == Some(|s|)
  {
    var t, behind := s + more, intermediates + ([final] + more);
    assert t[2..] == parameters + behind;
    TakeRangeIs(parameters, behind, '0', '?');
    assert t[2 + |parameters|..] == behind;
    TakeRangeIs(intermediates, [final] + more, ' ', '/');
    hide TakeRange;
    assert t[2 + |parameters| + |intermediates|] == final;
  }

  /**
   * A control sequence between two texts disappears, whatever its parameters, intermediates and final character
   * are.
   */
  lemma SequenceStripped(a: string, s: string, parameters: string, intermediates: string, final: char, b: string)
    requires ESC !in a && Sequence(s, parameters, intermediates, final)
    ensures StripAnsi(a + (s + b)) == a + StripAnsi(b)
  {
    StripAnsiFree(a, s + b);
    SequenceFound(s, parameters, intermediates, final, b);
    hide ControlSequence;
    assert (s + b)[|s|..] == b;
  }

  /** Does a control sequence begin the text? */
  ghost predicate StartsSequence(s: string) {
    exists n, parameters, intermediates, final ::
      0 <= n <= |s| && Sequence(s[..n], parameters, intermediates, final)
  }

  lemma {:induction false} TakenRange(s: string, low: char, high: char)
    ensures forall i | 0 <= i < TakeRange(s, low, high) :: low <= s[i] <= high
  {
    if s != [] && low <= s[0] <= high {
      TakenRange(s[1..], low, high);
      assert forall i | 1 <= i < |s| :: s[i] == s[1..][i - 1];
    }
  }

  lemma SequenceBounds(s: string) returns (p: nat, i: nat)
    requires ControlSequence(s).Some?
    ensures 2 <= p <= i < |s| && ControlSequence(s).value == i + 1
    ensures p == 2 + TakeRange(s[2..], '0', '?') && i == p + TakeRange(s[p..], ' ', '/')
    ensures s[0] == ESC && s[1] == '[' && '@' <= s[i] <= '~'
  {
    hide TakeRange;
    p := 2 + TakeRange(s[2..], '0', '?');
    i := p + TakeRange(s[p..], ' ', '/');
  }

  lemma FiveParts(s: string, p: nat, i: nat)
    requires 2 <= p <= i < |s|
    ensures s[..i + 1] == [s[0], s[1]] + (s[2..p] + (s[p..i] + [s[i]]))
  {
  }

  /** The sequence at the start of a text, by its parts. */
  lemma SequenceAt(s: string) returns (parameters: string, intermediates: string, final: char)
    requires ControlSequence(s).Some?
    ensures Sequence(s[..ControlSequence(s).value], parameters, intermediates, final)
  {
    hide TakeRange, ControlSequence;
    var p, i := SequenceBounds(s);
    TakenRange(s[2..], '0', '?');
    TakenRange(s[p..], ' ', '/');
    FiveParts(s, p, i);
    parameters, intermediates, final := s[2..p], s[p..i], s[i];
  }

  lemma ControlSequenceIs(s: string)
    ensures ControlSequence(s).Some? <==> StartsSequence(s)
  {
    hide ControlSequence, Sequence;
    if ControlSequence(s).Some? {
      var parameters, intermediates, final := SequenceAt(s);
    }
    if StartsSequence(s) {
      var n, parameters, intermediates, final :| 0 <= n <= |s| && Sequence(s[..n], parameters, intermediates, final);
      SequenceFound(s[..n], parameters, intermediates, final, s[n..]);
      assert s[..n] + s[n..] == s;
    }
  }

  /** A character with which no control sequence begins stays. */
  lemma StripAnsiKeeps(s: string)
    requires s != [] && !StartsSequence(s)
    ensures StripAnsi(s) == [s[0]] + StripAnsi(s[1..])
  {
    ControlSequenceIs(s);
    hide ControlSequence, StartsSequence;
  }

  lemma {:induction false} TakeRangeMore(s: string, more: string, low: char, high: char)
    requires s != [] && !(low <= s[|s| - 1] <= high)
    ensures TakeRange(s + more, low, high) == TakeRange(s, low, high) < |s|
  {
    if low <= s[0] <= high {
      assert (s + more)[1..] == s[1..] + more;
      TakeRangeMore(s[1..], more, low, high);
    }
  }

  /** No control sequence reaches across a newline. */
  lemma ControlSequenceMore(s: string, more: string)
    requires s != [] && s[|s| - 1] == '\n'
    ensures ControlSequence(s + more) == ControlSequence(s)
    ensures match ControlSequence(s) case Some(n) => n < |s| case None => true
  {
    hide TakeRange;
    if |s| >= 2 && s[0] == ESC && s[1] == '[' {
      var t := s + more;
      assert t[2..] == s[2..] + more;
      TakeRangeMore(s[2..], more, '0', '?');
      var p := 2 + TakeRange(s[2..], '0', '?');
      assert t[p..] == s[p..] + more;
      TakeRangeMore(s[p..], more, ' ', '/');
    }
  }

  /** How much of a non-empty text one step of the removal reads, and what it keeps of that. */
  function StripStep(s: string): (r: (nat, string))
    requires s != []
    ensures 1 <= r.0 <= |s|
  {
    match ControlSequence(s)
    case Some(n) => (n, [])
    case None => (1, [s[0]])
  }

  lemma StripAnsiStep(s: string)
    requires s != []
    ensures StripAnsi(s) == StripStep(s).1 + StripAnsi(s[StripStep(s).0..])
  {
  }

  lemma StripStepMore(s: string, more: string)
    requires s != [] && s[|s| - 1] == '\n'
    ensures StripStep(s + more) == StripStep(s)
    ensures StripStep(s).0 == |s| ==> StripStep(s).1 == ['\n']
  {
    ControlSequenceMore(s, more);
    hide ControlSequence;
  }

  lemma {:induction false} StripAnsiLast(s: string)
    requires s != [] && s[|s| - 1] == '\n'
    ensures StripAnsi(s) != [] && StripAnsi(s)[|StripAnsi(s)| - 1] == '\n'
    decreases |s|
  {
    StripStepMore(s, []);
    StripAnsiStep(s);
    assert StripAnsi([]) == [];
    hide *;
    var n := StripStep(s).0;
    if n < |s| {
      StripAnsiLast(s[n..]);
    }
  }

  /** One step of the removal keeps `kept` and goes on with `rest`, with or without more text behind. */
  lemma StripAnsiSplit(s: string, more: string) returns (kept: string, rest: string)
    requires s != [] && s[|s| - 1] == '\n'
    ensures StripAnsi(s) == kept + StripAnsi(rest)
    ensures StripAnsi(s + more) == kept + StripAnsi(rest + more)
    ensures |rest| < |s| && (rest != [] ==> rest[|rest| - 1] == '\n')
  {
    hide *;
    StripAnsiStep(s);
    StripStepMore(s, more);
    StripAnsiStep(s + more);
    var n := StripStep(s).0;
    kept, rest := StripStep(s).1, s[n..];
    T.DropAppend(s, more, n);
  }

  /** Text that ends in a newline is stripped the same whatever follows it. */
  lemma {:induction false} StripAnsiMore(s: string, more: string)
    requires s != [] && s[|s| - 1] == '\n'
    ensures StripAnsi(s + more) == StripAnsi(s) + StripAnsi(more)
    decreases |s|
  {
    assert StripAnsi([]) == [];
    hide *;
    var kept, rest := StripAnsiSplit(s, more);
    if rest == [] {
      assert rest + more == more && kept + [] == kept;
    } else {
      StripAnsiMore(rest, more);
      T.AppendAssoc(kept, StripAnsi(rest), StripAnsi(more));
    }
  }

  /** Removal is one pass: what a removal brings together can form a new control sequence. */
  lemma StripAnsiNotIdempotent()
    ensures var s := [ESC, ESC, '[', 'm', '[', 'm'];
            StripAnsi(s) == [ESC, '[', 'm'] && StripAnsi(StripAnsi(s)) == []
  {
    var s := [ESC, ESC, '[', 'm', '[', 'm'];
    assert s[1..] == [ESC, '[', 'm', '[', 'm'];
    assert s[1..][2..] == ['m', '[', 'm'] && s[1..][3..] == ['[', 'm'];
    assert ControlSequence(s[1..]) == Some(3);
    assert ['[', 'm'][1..] == ['m'] && ['m'][1..] == [];
    assert StripAnsi(['[', 'm']) == ['[', 'm'];
    var t := [ESC, '[', 'm'];
    assert t[2..] == ['m'] && t[3..] == [];
    assert ControlSequence(t) == Some(3);
  }

  // ----- The scan -----------------------------------------------------------------------------

  /** The objects the scan finds: at an opening brace the value that decodes there, else one step on. */
  function Objects(s: string): seq<Json>
    decreases |s|
  {
    if s == [] then []
    else if s[0] != '{' then Objects(s[1..])
    else
      match Read(s)
      case None => Objects(s[1..])
      case Some((v, rest)) => [v] + Objects(rest)
  }

  /** What decodes at an opening brace is an object. */
  lemma BraceReadsObject(s: string)
    requires s != [] && s[0] == '{' && Read(s).Some?
    ensures Read(s).value.0.Obj?
  {
  }

  lemma SuffixOf(s: string, rest: string, more: string)
    requires T.EndsWith(s, rest) && T.EndsWith(rest, more)
    ensures T.EndsWith(s, more)
  {
    T.EndsWithTrans(s, rest, more);
  }

  lemma {:induction false} SkipSpaceSuffix(s: string)
    ensures T.EndsWith(s, SkipSpace(s))
  {
    if s != [] && IsSpace(s[0]) {
      SkipSpaceSuffix(s[1..]);
      SuffixOf(s, s[1..], SkipSpace(s[1..]));
    }
  }

  lemma {:induction false} ReadCharsSuffix(s: string)
    requires ReadChars(s).Some?
    ensures T.EndsWith(s, ReadChars(s).value.1)
    decreases |s|
  {
    var rest := ReadChars(s).value.1;
    if s[0] == '"' {
    } else if s[0] == '\\' {
      var after := ReadEscape(s[1..]).value.1;
      assert T.EndsWith(s[1..], after);
      ReadCharsSuffix(after);
      SuffixOf(s[1..], after, rest);
      SuffixOf(s, s[1..], rest);
    } else {
      ReadCharsSuffix(s[1..]);
      SuffixOf(s, s[1..], rest);
    }
  }

  lemma DropSuffix(s: string, k: nat)
    requires k <= |s|
    ensures T.EndsWith(s, s[k..])
  {
  }

  lemma SkipFractionSuffix(s: string)
    ensures T.EndsWith(s, SkipFraction(s))
  {
    hide TakeDigits;
  }

  lemma SkipExponentSuffix(s: string)
    ensures T.EndsWith(s, SkipExponent(s))
  {
    hide TakeDigits;
  }

  lemma ReadNumberSuffix(s: string)
    requires ReadNumber(s).Some?
    ensures T.EndsWith(s, ReadNumber(s).value.1)
  {
    hide TakeWhole, SkipFraction, SkipExponent, T.EndsWith, DigitsValue;
    var body := Unsigned(s);
    var afterWhole := body[|TakeWhole(body)|..];
    DropSuffix(s, 0);
    DropSuffix(s, |s| - |body|);
    DropSuffix(body, |TakeWhole(body)|);
    SuffixOf(s, body, afterWhole);
    SkipFractionSuffix(afterWhole);
    SkipExponentSuffix(SkipFraction(afterWhole));
    SuffixOf(s, afterWhole, SkipFraction(afterWhole));
    SuffixOf(s, SkipFraction(afterWhole), SkipInexact(afterWhole));
  }

  lemma ReadWordSuffix(s: string)
    requires ReadWord(s).Some?
    ensures T.EndsWith(s, ReadWord(s).value.1)
  {
  }

  /** The text left after a value is the end of the text it was read from. */
  lemma {:induction false} ReadSuffix(s: string)
    requires Read(s).Some?
    ensures T.EndsWith(s, Read(s).value.1)
    decreases |s|, 0
  {
    hide ReadNumber, ReadWord, ReadChars, ReadItems, ReadFields, SkipSpace, T.EndsWith;
    var rest := Read(s).value.1;
    DropSuffix(s, 1);
    if s[0] == '"' {
      ReadCharsSuffix(s[1..]);
      SuffixOf(s, s[1..], rest);
    } else if s[0] == '{' || s[0] == '[' {
      var body := SkipSpace(s[1..]);
      SkipSpaceSuffix(s[1..]);
      SuffixOf(s, s[1..], body);
      if body != [] {
        DropSuffix(body, 1);
      }
      if s[0] == '{' && body[0] != '}' {
        ReadFieldsSuffix(body, []);
      } else if s[0] == '[' && body[0] != ']' {
        ReadItemsSuffix(body);
      }
      SuffixOf(s, body, rest);
    } else if ReadWord(s).Some? {
      ReadWordSuffix(s);
    } else {
      ReadNumberSuffix(s);
    }
  }

  lemma {:induction false} ReadItemsSuffix(s: string)
    requires ReadItems(s).Some?
    ensures T.EndsWith(s, ReadItems(s).value.1)
    decreases |s|, 1
  {
    hide Read;
    var afterValue := Read(s).value.1;
    var rest := SkipSpace(afterValue);
    ReadSuffix(s);
    SkipSpaceSuffix(afterValue);
    SuffixOf(s, afterValue, rest);
    SuffixOf(s, rest, rest[1..]);
    if rest[0] == ',' {
      SkipSpaceSuffix(rest[1..]);
      ReadItemsSuffix(SkipSpace(rest[1..]));
      SuffixOf(s, rest[1..], SkipSpace(rest[1..]));
      SuffixOf(s, SkipSpace(rest[1..]), ReadItems(s).value.1);
    }
  }

  lemma {:induction false} ReadFieldSuffix(s: string)
    requires ReadField(s).Some?
    ensures T.EndsWith(s, ReadField(s).value.1)
    decreases |s|, 1
  {
    hide Read;
    ReadCharsSuffix(s[1..]);
    var afterKey := ReadChars(s[1..]).value.1;
    SuffixOf(s, s[1..], afterKey);
    var colon := SkipSpace(afterKey);
    SkipSpaceSuffix(afterKey);
    SuffixOf(s, afterKey, colon);
    SuffixOf(s, colon, colon[1..]);
    SkipSpaceSuffix(colon[1..]);
    SuffixOf(s, colon[1..], SkipSpace(colon[1..]));
    ReadSuffix(SkipSpace(colon[1..]));
    SuffixOf(s, SkipSpace(colon[1..]), ReadField(s).value.1);
  }

  lemma {:induction false} ReadFieldsSuffix(s: string, acc: seq<Field>)
    requires ReadFields(s, acc).Some?
    ensures T.EndsWith(s, ReadFields(s, acc).value.1)
    decreases |s|, 2
  {
    hide ReadField, Put;
    var (f, afterField) := ReadField(s).value;
    var rest := SkipSpace(afterField);
    ReadFieldSuffix(s);
    SkipSpaceSuffix(afterField);
    SuffixOf(s, afterField, rest);
    SuffixOf(s, rest, rest[1..]);
    if rest[0] == ',' {
      SkipSpaceSuffix(rest[1..]);
      ReadFieldsSuffix(SkipSpace(rest[1..]), Put(acc, f.key, f.value));
      SuffixOf(s, rest[1..], SkipSpace(rest[1..]));
      SuffixOf(s, SkipSpace(rest[1..]), ReadFields(s, acc).value.1);
    }
  }

  /** _json_objects: the scanning loop over the stripped text. */
  method JsonObjects(text: string) returns (objects: seq<Json>)
    ensures objects == Objects(StripAnsi(text))
  {
    hide *;
    objects := [];
    var clean := StripAnsi(text);
    var offset := 0;
    assert clean[0..] == clean;
    ObjectsEnd(clean);
    while offset < |clean|
      invariant 0 <= offset <= |clean|
      invariant Objects(clean) == objects + Objects(clean[offset..])
      decreases |clean| - offset
    {
      ObjectsAt(clean, offset);
      if clean[offset] != '{' {
        offset := offset + 1;
        continue;
      }
      match Read(clean[offset..]) {
        case None =>
          offset := offset + 1;
        case Some((candidate, rest)) =>
          T.AppendAssoc(objects, [candidate], Objects(rest));
          objects := objects + [candidate];
          offset := |clean| - |rest|;
      }
    }
  }

  lemma ObjectsEnd(s: string)
    ensures Objects(s[|s|..]) == []
  {
  }

  /** What the scan makes of the text from an offset on. */
  lemma ObjectsAt(clean: string, offset: nat)
    requires offset < |clean|
    ensures clean[offset] != '{' || Read(clean[offset..]).None? ==>
              Objects(clean[offset..]) == Objects(clean[offset + 1..])
    ensures clean[offset] == '{' && Read(clean[offset..]).Some? ==>
              var (candidate, rest) := Read(clean[offset..]).value;
              && candidate.Obj? && |rest| < |clean| - offset && clean[|clean| - |rest|..] == rest
              && Objects(clean[offset..]) == [candidate] + Objects(rest)
  {
    hide Read;
    var s := clean[offset..];
    assert s[1..] == clean[offset + 1..] && s[0] == clean[offset];
    if s[0] == '{' && Read(s).Some? {
      ReadSuffix(s);
      BraceReadsObject(s);
    }
  }

  // ----- The decomposition is greedy and unique -----------------------------------------------

  datatype Span = Span(start: nat, end: nat, value: Json)

  /** No opening brace between `from` and `to` starts a decodable value. */
  ghost predicate NothingBetween(s: string, from: nat, to: nat)
    requires to <= |s|
  {
    forall i | from <= i < to && s[i] == '{' :: Read(s[i..]) == None
  }

  /** The spans follow each other from `from` on, each decodes to its value, and nothing outside them does. */
  ghost predicate Greedy(s: string, from: nat, spans: seq<Span>)
    requires from <= |s|
    decreases |spans|
  {
    if spans == [] then NothingBetween(s, from, |s|)
    else
      var span := spans[0];
      && from <= span.start < span.end <= |s|
      && s[span.start] == '{'
      && NothingBetween(s, from, span.start)
      && Read(s[span.start..]) == Some((span.value, s[span.end..]))
      && Greedy(s, span.end, spans[1..])
  }

  function Values(spans: seq<Span>): seq<Json> {
    if spans == [] then [] else [spans[0].value] + Values(spans[1..])
  }

  /** A greedy decomposition, constructed. */
  lemma {:induction false} GreedyExists(s: string, from: nat) returns (spans: seq<Span>)
    requires from <= |s|
    ensures Greedy(s, from, spans) && Values(spans) == Objects(s[from..])
    decreases |s| - from
  {
    hide Read;
    if from == |s| {
      spans := [];
    } else {
      assert s[from..][1..] == s[from + 1..];
      if s[from] == '{' && Read(s[from..]).Some? {
        var (v, rest) := Read(s[from..]).value;
        ReadSuffix(s[from..]);
        var end := |s| - |rest|;
        assert s[end..] == rest;
        var more := GreedyExists(s, end);
        spans := [Span(from, end, v)] + more;
        assert spans[1..] == more;
      } else {
        spans := GreedyExists(s, from + 1);
        GreedyEarlier(s, from, spans);
      }
    }
  }

  lemma GreedyEarlier(s: string, from: nat, spans: seq<Span>)
    requires from < |s| && (s[from] == '{' ==> Read(s[from..]) == None) && Greedy(s, from + 1, spans)
    ensures Greedy(s, from, spans)
  {
    hide Read;
  }

  /** There is only one greedy decomposition, and the scan returns its values. */
  lemma {:induction false} GreedyUnique(s: string, from: nat, a: seq<Span>, b: seq<Span>)
    requires from <= |s| && Greedy(s, from, a) && Greedy(s, from, b)
    ensures a == b
    decreases |a|
  {
    hide Read;
    if a != [] && b != [] {
      assert a[0].start == b[0].start;
      assert s[a[0].end..] == s[b[0].end..];
      assert |s[a[0].end..]| == |s| - a[0].end && |s[b[0].end..]| == |s| - b[0].end;
      GreedyUnique(s, a[0].end, a[1..], b[1..]);
      assert a == [a[0]] + a[1..] && b == [b[0]] + b[1..];
    }
  }

  lemma ObjectsAreGreedy(s: string, spans: seq<Span>)
    requires Greedy(s, 0, spans)
    ensures Objects(s) == Values(spans)
  {
    var found := GreedyExists(s, 0);
    assert s[0..] == s;
    GreedyUnique(s, 0, spans, found);
  }

  // ----- Prose and objects --------------------------------------------------------------------

  /** A piece of model output: text without braces, or the text of one JSON object. */
  datatype Piece = Prose(text: string) | Object(text: string, value: Json)

  predicate ValidPiece(p: Piece) {
    && ESC !in p.text
    && match p
       case Prose(text) => '{' !in text
       case Object(text, value) => text != [] && text[0] == '{' && Read(text) == Some((value, []))
  }

  function Render(pieces: seq<Piece>): string {
    if pieces == [] then [] else pieces[0].text + Render(pieces[1..])
  }

  function ObjectsOf(pieces: seq<Piece>): seq<Json> {
    if pieces == [] then []
    else (if pieces[0].Object? then [pieces[0].value] else []) + ObjectsOf(pieces[1..])
  }

  lemma {:induction false} ObjectsAfterProse(a: string, b: string)
    requires '{' !in a
    ensures Objects(a + b) == Objects(b)
  {
    if a == [] {
      assert a + b == b;
    } else {
      assert (a + b)[1..] == a[1..] + b;
      ObjectsAfterProse(a[1..], b);
    }
  }

  lemma ObjectsAfterObject(text: string, value: Json, b: string)
    requires text != [] && text[0] == '{' && Read(text) == Some((value, []))
    ensures Objects(text + b) == [value] + Objects(b)
  {
    BraceReadsObject(text);
    ReadMore(text, b);
    assert [] + b == b;
  }

  /** The scan of prose and object texts finds exactly the objects, in order. */
  lemma {:induction false} ScanPieces(pieces: seq<Piece>)
    requires forall i | 0 <= i < |pieces| :: ValidPiece(pieces[i])
    ensures Objects(StripAnsi(Render(pieces))) == ObjectsOf(pieces)
  {
    hide Read;
    if pieces != [] {
      var p, rest := pieces[0], Render(pieces[1..]);
      ScanPieces(pieces[1..]);
      StripAnsiFree(p.text, rest);
      if p.Prose? {
        ObjectsAfterProse(p.text, StripAnsi(rest));
      } else {
        ObjectsAfterObject(p.text, p.value, StripAnsi(rest));
      }
    }
  }

  // ----- Printed objects are pieces -----------------------------------------------------------

  /** No control characters, and under ensure_ascii nothing but the printable characters of ASCII. */
  predicate Shows(s: string, style: Style) {
    forall i | 0 <= i < |s| :: ' ' <= s[i] && (style.ascii ==> s[i] <= '~')
  }

  lemma ShowsConcat(a: string, b: string, style: Style)
    ensures Shows(a + b, style) <==> Shows(a, style) && Shows(b, style)
  {
    assert forall i | 0 <= i < |a| :: (a + b)[i] == a[i];
    assert forall i | 0 <= i < |b| :: (a + b)[|a| + i] == b[i];
  }

  lemma HexDigitShows(d: int)
    requires 0 <= d < 16
    ensures ' ' <= HexDigit(d) <= '~'
  {
  }

  lemma HexShows(unit: int, tail: string, style: Style)
    requires 0 <= unit < 0x10000 && Shows(tail, style)
    ensures Shows(WriteHex4(unit, tail), style)
  {
    var q := unit / 0x10;
    HexDigitShows(q / 0x10 / 0x10);
    HexDigitShows(q / 0x10 % 0x10);
    HexDigitShows(q % 0x10);
    HexDigitShows(unit % 0x10);
    hide HexDigit;
  }

  lemma LongShows(c: char, tail: string, style: Style)
    requires Shows(tail, style)
    ensures Shows(WriteLong(c, tail), style)
  {
    hide WriteHex4, Shows;
    if c as int < 0x10000 {
      HexShows(c as int, tail, style);
    } else {
      HexShows(LowUnit(c as int), tail, style);
      HexShows(HighUnit(c as int), WriteHex4(LowUnit(c as int), tail), style);
    }
  }

  lemma CharShows(c: char, style: Style, tail: string)
    requires Shows(tail, style)
    ensures Shows(WriteChar(c, style, tail), style)
  {
    if ShortEscape(c).None? && (c as int < 0x20 || (style.ascii && 0x7F <= c as int)) {
      LongShows(c, tail, style);
    }
    hide WriteLong;
  }

  lemma {:induction false} CharsShow(s: string, style: Style, tail: string)
    requires Shows(tail, style)
    ensures Shows(WriteChars(s, style, tail), style)
  {
    hide WriteChar;
    if s != [] {
      CharsShow(s[1..], style, tail);
      CharShows(s[0], style, WriteChars(s[1..], style, tail));
    }
  }

  /** Written text holds no control character: those are escaped. Under ensure_ascii it is ASCII throughout. */
  lemma {:induction false} WriteShows(v: Json, style: Style, tail: string)
    requires Finite(v) && Shows(tail, style)
    ensures Shows(Write(v, style, tail), style)
    decreases v, 0
  {
    hide WriteChars, WriteItems, WriteFields, FloatText, WriteInt;
    match v
    case Int(n) => IntShows(n, style, tail);
    case Real(lexeme) =>
      FloatShows(lexeme, style);
      ShowsConcat(lexeme, tail, style);
    case Str(s) => CharsShow(s, style, tail);
    case Arr(items) =>
      if items != [] {
        ItemsShow(items, style, tail);
      }
    case Obj(fields) =>
      if fields != [] {
        FieldsShow(fields, style, tail);
      }
    case Bool(b) => ShowsConcat(if b then "true" else "false", tail, style);
    case Null => ShowsConcat("null", tail, style);
  }

  lemma IntShows(n: int, style: Style, tail: string)
    requires Shows(tail, style)
    ensures Shows(WriteInt(n, tail), style)
  {
    var d := WrittenDigits(if n < 0 then -n else n, tail);
    ShowsConcat(d, tail, style);
  }

  lemma FloatShows(lexeme: string, style: Style)
    requires FloatText(lexeme)
    ensures Shows(lexeme, style)
  {
    hide FloatText;
    FloatChars(lexeme);
  }

  lemma {:induction false} ItemsShow(items: seq<Json>, style: Style, tail: string)
    requires items != [] && (forall i | 0 <= i < |items| :: Finite(items[i])) && Shows(tail, style)
    ensures Shows(WriteItems(items, style, tail), style)
    decreases items, 1
  {
    hide Write;
    var after := if |items| == 1 then [']'] + tail else [','] + Gap(style, WriteItems(items[1..], style, tail));
    if |items| > 1 {
      ItemsShow(items[1..], style, tail);
    }
    WriteShows(items[0], style, after);
  }

  lemma {:induction false} FieldsShow(fields: seq<Field>, style: Style, tail: string)
    requires fields != [] && (forall i | 0 <= i < |fields| :: Finite(fields[i].value)) && Shows(tail, style)
    ensures Shows(WriteFields(fields, style, tail), style)
    decreases fields, 1
  {
    hide Write, WriteChars;
    var f := fields[0];
    var after := if |fields| == 1 then ['}'] + tail else [','] + Gap(style, WriteFields(fields[1..], style, tail));
    if |fields| > 1 {
      FieldsShow(fields[1..], style, tail);
    }
    assert f.value < f;
    WriteShows(f.value, style, after);
    CharsShow(f.key, style, [':'] + Gap(style, Write(f.value, style, after)));
    assert WriteFields(fields, style, tail) == WriteField(f, style, after);
  }

  lemma ShownHasNoEsc(s: string, style: Style)
    requires Shows(s, style)
    ensures ESC !in s
  {
  }

  /** In particular there is no escape character in it. */
  lemma PrintNoEsc(v: Json, style: Style)
    requires Finite(v)
    ensures ESC !in Print(v, style)
  {
    hide Write;
    WriteShows(v, style, []);
    ShownHasNoEsc(Print(v, style), style);
  }

  /** The printed text of an object is a piece, whatever the writer's style. */
  lemma PrintedPiece(v: Json, style: Style)
    requires v.Obj? && Writable(v)
    ensures ValidPiece(Object(Print(v, style), v))
  {
    PrintNoEsc(v, style);
    ReadWritten(v, style, []);
    assert Print(v, style)[0] == '{';
  }
}
