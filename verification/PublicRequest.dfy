/** The public request inside the model message, and its recovery by the synthetic executables. */
module PublicRequest {
  import opened Wrappers
  import opened Json
  import JsonText
  import opened JsonRoundTrip
  import opened CanonicalJson
  import opened Text

  const START: string := "=== BEGIN PUBLIC REQUEST ==="
  const END: string := "=== END PUBLIC REQUEST ==="

  /** How an adapter lays the request out: text before, one separator around the request, text after. */
  datatype Layout = Layout(lead: string, separator: char, trailer: string, ascii: bool) {

    /** The text before does not use the first character of the delimiters; the separator is white space. */
    predicate Valid() {
      '=' !in lead && (separator == '\n' || separator == ' ')
    }
  }

  /** `text` between two delimiters, with the same gap on either side of it. */
  function Embed(lead: string, start: string, gap: string, text: string, end: string, trailer: string): string {
    lead + (start + (gap + (text + (gap + (end + trailer)))))
  }

  function Build(layout: Layout, request: Json): string {
    Embed(layout.lead, START, [layout.separator], Dumps(request, layout.ascii), END, layout.trailer)
  }

  /** The text between the first `start` and the first `end` after it. */
  function Between(message: string, start: string, end: string): Option<string> {
    match Find(message, start)
    case None => None
    case Some(i) =>
      var body := message[i + |start|..];
      match Find(body, end)
      case None => None
      case Some(j) => Some(body[..j])
  }

  /** The payload as an object, or an empty one. */
  function Decoded(payload: string): Json {
    match JsonText.Loads(Strip(payload))
    case Some(Obj(fields)) => Obj(fields)
    case _ => Obj([])
  }

  /** _request_from_message: the text between the delimiters, decoded; an empty object when anything is missing. */
  function Recover(message: string): Json {
    match Between(message, START, END)
    case None => Obj([])
    case Some(payload) => Decoded(payload)
  }

  // ----- The braces around canonical text -----------------------------------------------------

  lemma GapEnds(style: JsonText.Style, text: string, ending: string)
    requires EndsWith(text, ending)
    ensures EndsWith(JsonText.Gap(style, text), ending)
  {
    EndsWithMore([' '], text, ending);
    hide EndsWith;
  }

  lemma WriteCharEnds(c: char, style: JsonText.Style, tail: string)
    ensures EndsWith(JsonText.WriteChar(c, style, tail), tail)
  {
  }

  lemma {:induction false} WriteCharsEnds(s: string, style: JsonText.Style, tail: string)
    ensures EndsWith(JsonText.WriteChars(s, style, tail), tail)
  {
    if s != [] {
      var rest := JsonText.WriteChars(s[1..], style, tail);
      WriteCharsEnds(s[1..], style, tail);
      WriteCharEnds(s[0], style, rest);
      EndsWithTrans(JsonText.WriteChar(s[0], style, rest), rest, tail);
    }
  }

  lemma {:induction false} WriteEnds(v: Json, style: JsonText.Style, tail: string)
    ensures EndsWith(JsonText.Write(v, style, tail), tail)
    decreases v, 0
  {
    match v
    case Int(n) =>
      var d := WrittenDigits(if n < 0 then -n else n, tail);
    case Str(s) =>
      hide EndsWith;
      WriteCharsEnds(s, style, tail);
      EndsWithMore(['"'], JsonText.WriteChars(s, style, tail), tail);
    case Arr(items) =>
      hide EndsWith;
      EndsWithSelf(tail);
      EndsWithMore([']'], tail, tail);
      EndsWithMore(['['], [']'] + tail, tail);
      if items != [] {
        WriteItemsEnds(items, style, tail);
        EndsWithMore(['['], JsonText.WriteItems(items, style, tail), tail);
      }
    case Obj(fields) =>
      hide EndsWith;
      EndsWithSelf(tail);
      EndsWithMore(['}'], tail, tail);
      EndsWithMore(['{'], ['}'] + tail, tail);
      if fields != [] {
        WriteFieldsEnds(fields, style, tail);
        EndsWithTrans(JsonText.WriteFields(fields, style, tail), ['}'] + tail, tail);
        EndsWithMore(['{'], JsonText.WriteFields(fields, style, tail), tail);
      }
    case _ =>
  }

  lemma {:induction false} WriteItemsEnds(items: seq<Json>, style: JsonText.Style, tail: string)
    requires items != []
    ensures EndsWith(JsonText.WriteItems(items, style, tail), tail)
    decreases items, 1
  {
    EndsWithSelf(tail);
    EndsWithMore([']'], tail, tail);
    hide EndsWith;
    var after := if |items| == 1 then [']'] + tail
                 else [','] + JsonText.Gap(style, JsonText.WriteItems(items[1..], style, tail));
    if |items| > 1 {
      WriteItemsEnds(items[1..], style, tail);
      GapEnds(style, JsonText.WriteItems(items[1..], style, tail), tail);
      EndsWithMore([','], JsonText.Gap(style, JsonText.WriteItems(items[1..], style, tail)), tail);
    }
    WriteEnds(items[0], style, after);
    EndsWithTrans(JsonText.Write(items[0], style, after), after, tail);
  }

  lemma {:induction false} WriteFieldsEnds(fields: seq<Field>, style: JsonText.Style, tail: string)
    requires fields != []
    ensures EndsWith(JsonText.WriteFields(fields, style, tail), ['}'] + tail)
    decreases fields, 1
  {
    EndsWithSelf(['}'] + tail);
    hide EndsWith;
    var after := if |fields| == 1 then ['}'] + tail
                 else [','] + JsonText.Gap(style, JsonText.WriteFields(fields[1..], style, tail));
    if |fields| > 1 {
      WriteFieldsEnds(fields[1..], style, tail);
      GapEnds(style, JsonText.WriteFields(fields[1..], style, tail), ['}'] + tail);
      EndsWithMore([','], JsonText.Gap(style, JsonText.WriteFields(fields[1..], style, tail)), ['}'] + tail);
    }
    var f := fields[0];
    var value := JsonText.Write(f.value, style, after);
    assert f.value < f;
    WriteEnds(f.value, style, after);
    EndsWithTrans(value, after, ['}'] + tail);
    GapEnds(style, value, ['}'] + tail);
    var colon := [':'] + JsonText.Gap(style, value);
    EndsWithMore([':'], JsonText.Gap(style, value), ['}'] + tail);
    WriteCharsEnds(f.key, style, colon);
    EndsWithTrans(JsonText.WriteChars(f.key, style, colon), colon, ['}'] + tail);
    EndsWithMore(['"'], JsonText.WriteChars(f.key, style, colon), ['}'] + tail);
  }

  /** The text of an object begins and ends with a brace. */
  lemma PrintBraces(v: Json, style: JsonText.Style)
    requires v.Obj?
    ensures var text := JsonText.Print(v, style);
            |text| >= 2 && text[0] == '{' && text[|text| - 1] == '}'
  {
    if v.fields != [] {
      WriteFieldsEnds(v.fields, style, []);
      var text := JsonText.WriteFields(v.fields, style, []);
      assert text[|text| - 1..][0] == '}';
    }
  }

  lemma DumpsBraces(request: Json, ascii: bool)
    requires request.Obj?
    ensures var text := Dumps(request, ascii);
            |text| >= 2 && text[0] == '{' && text[|text| - 1] == '}'
  {
    PrintBraces(Canonical(request), JsonText.Compact(ascii));
    hide JsonText.Write;
  }

  // ----- Recovery -----------------------------------------------------------------------------

  lemma FindStart(lead: string, start: string, body: string)
    requires start != [] && start[0] !in lead
    ensures Find(lead + (start + body), start) == Some(|lead|)
    ensures (lead + (start + body))[|lead| + |start|..] == body
  {
    assert (start + body)[..|start|] == start;
    FindSkips(lead, start + body, start);
  }

  /** Where `end` is found after a text that ends in a character `end` does not use. */
  lemma FindEnd(gap: string, text: string, end: string, trailer: string)
    requires end != [] && text != [] && end[0] !in gap && text[|text| - 1] !in end
    ensures Find(gap + (text + (gap + (end + trailer))), end) ==
            match Find(text, end)
            case Some(k) => Some(|gap| + k)
            case None => Some(|gap| + (|text| + |gap|))
  {
    assert (end + trailer)[..|end|] == end;
    FindSkips(gap, end + trailer, end);
    FindAfter(text, gap + (end + trailer), end);
    FindSkips(gap, text + (gap + (end + trailer)), end);
  }

  lemma BetweenBody(message: string, lead: string, start: string, body: string, end: string)
    requires message == lead + (start + body) && start != [] && start[0] !in lead
    ensures Between(message, start, end) == match Find(body, end) case Some(j) => Some(body[..j]) case None => None
  {
    FindStart(lead, start, body);
  }

  lemma FrontInterrupted(gap: string, text: string, rest: string, k: nat)
    requires k <= |text|
    ensures |gap| + k <= |gap + (text + rest)| && (gap + (text + rest))[..|gap| + k] == gap + text[..k]
  {
  }

  lemma FrontWhole(gap: string, text: string, rest: string)
    ensures var front := |gap| + (|text| + |gap|);
            front <= |gap + (text + (gap + rest))| && (gap + (text + (gap + rest)))[..front] == gap + (text + gap)
  {
  }

  /** What lies between the delimiters: the text and its gaps, or the text up to an `end` of its own. */
  lemma BetweenEmbedded(lead: string, start: string, gap: string, text: string, end: string, trailer: string)
    requires start != [] && end != [] && text != []
    requires start[0] !in lead && end[0] !in gap && text[|text| - 1] !in end
    ensures Between(Embed(lead, start, gap, text, end, trailer), start, end) ==
            match Find(text, end)
            case Some(k) => Some(gap + text[..k])
            case None => Some(gap + (text + gap))
  {
    hide *;
    var body := EmbedBody(lead, start, gap, text, end, trailer);
    BetweenBody(Embed(lead, start, gap, text, end, trailer), lead, start, body, end);
  }

  /** The message behind its start delimiter, and what stands there in front of the end delimiter. */
  lemma EmbedBody(lead: string, start: string, gap: string, text: string, end: string, trailer: string)
    returns (body: string)
    requires end != [] && text != [] && end[0] !in gap && text[|text| - 1] !in end
    ensures Embed(lead, start, gap, text, end, trailer) == lead + (start + body)
    ensures match Find(body, end)
            case Some(j) =>
              body[..j] == (match Find(text, end)
                            case Some(k) => gap + text[..k]
                            case None => gap + (text + gap))
            case None => false
  {
    var rest := end + trailer;
    body := gap + (text + (gap + rest));
    FindEnd(gap, text, end, trailer);
    hide Find;
    match Find(text, end)
    case Some(k) =>
      FrontInterrupted(gap, text, gap + rest, k);
    case None =>
      FrontWhole(gap, text, rest);
  }

  lemma {:induction false} StripRightPrefix(s: string, k: nat)
    requires k <= |s|
    ensures |StripRight(s[..k])| <= k && StripRight(s[..k]) == s[..|StripRight(s[..k])|]
  {
    if k > 0 && IsBlank(s[k - 1]) {
      assert s[..k][..k - 1] == s[..k - 1];
      StripRightPrefix(s, k - 1);
    }
  }

  lemma StripLeftSeparator(separator: char, s: string)
    requires IsBlank(separator) && (s == [] || !IsBlank(s[0]))
    ensures StripLeft([separator] + s) == s
  {
    assert ([separator] + s)[1..] == s;
  }

  /** What an interrupted canonical text is worth: nothing. */
  lemma RecoverInterrupted(request: Json, ascii: bool, separator: char, k: nat)
    requires request.Obj? && Writable(request) && IsBlank(separator)
    requires k < |Dumps(request, ascii)|
    ensures JsonText.Loads(Strip([separator] + Dumps(request, ascii)[..k])) == None
  {
    var canonical := Dumps(request, ascii);
    DumpsBraces(request, ascii);
    CanonicalSame(request);
    StripLeftSeparator(separator, canonical[..k]);
    StripRightPrefix(canonical, k);
    ProperPrefixUnreadable(Canonical(request), JsonText.Compact(ascii), |StripRight(canonical[..k])|);
  }

  lemma RecoverWhole(request: Json, ascii: bool, separator: char)
    requires request.Obj? && Writable(request) && IsBlank(separator)
    ensures JsonText.Loads(Strip([separator] + (Dumps(request, ascii) + [separator]))) == Some(Canonical(request))
  {
    var canonical := Dumps(request, ascii);
    DumpsBraces(request, ascii);
    StripLeftSeparator(separator, canonical + [separator]);
    assert (canonical + [separator])[..|canonical|] == canonical;
    assert StripRight(canonical + [separator]) == StripRight(canonical) == canonical;
    LoadsDumps(request, ascii);
  }

  /** The delimiters, as far as the search for them needs to know. */
  lemma Delimiters()
    ensures START != [] && END != [] && START[0] == '=' && END[0] == '='
    ensures '}' !in END && ' ' != END[0]
  {
  }

  /** What the payload between the delimiters decodes to, for any end delimiter. */
  lemma RecoverPayload(request: Json, ascii: bool, separator: char, end: string)
    requires request.Obj? && Writable(request) && IsBlank(separator) && end != []
    ensures var canonical := Dumps(request, ascii);
            match Find(canonical, end)
            case Some(k) => JsonText.Loads(Strip([separator] + canonical[..k])) == None
            case None => JsonText.Loads(Strip([separator] + (canonical + [separator]))) == Some(Canonical(request))
  {
    hide *;
    FindFirst(Dumps(request, ascii), end);
    match Find(Dumps(request, ascii), end)
    case Some(k) =>
      RecoverInterrupted(request, ascii, separator, k);
    case None =>
      RecoverWhole(request, ascii, separator);
  }

  lemma RecoverIs(layout: Layout, request: Json)
    ensures Recover(Build(layout, request)) ==
            match Between(Embed(layout.lead, START, [layout.separator],
                                Dumps(request, layout.ascii), END, layout.trailer),
                          START, END)
            case None => Obj([])
            case Some(payload) => Decoded(payload)
  {
    hide Between, Dumps, Embed, Decoded;
  }

  lemma DecodedIs(payload: string)
    ensures match JsonText.Loads(Strip(payload))
            case None => Decoded(payload) == Obj([])
            case Some(v) => v.Obj? ==> Decoded(payload) == v
  {
    hide JsonText.Loads, Strip;
  }

  lemma LayoutIs(layout: Layout)
    requires layout.Valid()
    ensures '=' !in layout.lead && layout.separator != '=' && IsBlank(layout.separator)
  {
  }

  lemma ContainsIs(s: string, pattern: string)
    ensures Contains(s, pattern) <==> Find(s, pattern).Some?
  {
    hide Find;
  }

  lemma CanonicalIsObject(request: Json)
    requires request.Obj?
    ensures Canonical(request).Obj?
  {
    hide CanonicalFields;
  }

  /**
   * A recovered request is the request that was sent, exactly when the END delimiter does not occur in its
   * canonical text; otherwise recovery gives an empty object, never some other request.
   */
  lemma RecoverBuilt(layout: Layout, request: Json)
    requires layout.Valid() && request.Obj? && Writable(request)
    ensures Recover(Build(layout, request)) ==
            if Contains(Dumps(request, layout.ascii), END) then Obj([]) else Canonical(request)
    ensures Same(Canonical(request), request)
  {
    hide *;
    RecoverIs(layout, request);
    LayoutIs(layout);
    Delimiters();
    DumpsBraces(request, layout.ascii);
    CanonicalSame(request);
    ContainsIs(Dumps(request, layout.ascii), END);
    CanonicalIsObject(request);
    BetweenEmbedded(layout.lead, START, [layout.separator], Dumps(request, layout.ascii), END, layout.trailer);
    RecoverPayload(request, layout.ascii, layout.separator, END);
    var text, gap := Dumps(request, layout.ascii), [layout.separator];
    match Find(text, END) {
      case Some(k) => DecodedIs(gap + text[..k]);
      case None => DecodedIs(gap + (text + gap));
    }
  }

  // ----- A request that holds the delimiter ---------------------------------------------------

  lemma ContainsAt(front: string, pattern: string, back: string)
    ensures Contains(front + (pattern + back), pattern)
  {
    var s := front + (pattern + back);
    FindFirst(s, pattern);
    assert s[|front|..] == pattern + back;
    hide Find;
    assert StartsWith(s[|front|..], pattern);
  }

  function DelimiterRequest(): Json {
    Obj([Field("note", Str(END))])
  }

  /** The text of an object with one plain text field. */
  lemma NoteText(key: string, s: string, style: JsonText.Style)
    requires !style.spaced
    requires (forall i | 0 <= i < |key| :: Verbatim(key[i])) && forall i | 0 <= i < |s| :: Verbatim(s[i])
    ensures JsonText.Print(Obj([Field(key, Str(s))]), style) ==
            ['{'] + (['"'] + (key + (['"'] + ([':'] + (['"'] + (s + (['"'] + ['}'])))))))
  {
    var f := Field(key, Str(s));
    WriteVerbatim(s, style, ['}']);
    WriteVerbatim(key, style, [':'] + (['"'] + (s + (['"'] + ['}']))));
    hide JsonText.WriteChars;
    assert ['}'] + [] == ['}'];
    assert JsonText.WriteFields([f], style, []) == JsonText.WriteField(f, style, ['}']);
  }

  lemma Regroup(key: string, s: string)
    ensures ['{'] + (['"'] + (key + (['"'] + ([':'] + (['"'] + (s + (['"'] + ['}']))))))) ==
            (['{', '"'] + key + ['"', ':', '"']) + (s + ['"', '}'])
  {
  }

  lemma NoteIsCanonical()
    ensures DelimiterRequest() == Obj([Field("note", Str(END))])
    ensures forall ascii :: Dumps(DelimiterRequest(), ascii) ==
                            JsonText.Print(Obj([Field("note", Str(END))]), JsonText.Compact(ascii))
    ensures forall ascii :: !JsonText.Compact(ascii).spaced
  {
    hide JsonText.Print;
    assert DelimiterRequest().fields[1..] == [] && CanonicalFields([]) == [];
    assert Canonical(DelimiterRequest()) == DelimiterRequest();
  }

  lemma NoteIsVerbatim()
    ensures (forall i | 0 <= i < |END| :: Verbatim(END[i])) && forall i | 0 <= i < |"note"| :: Verbatim("note"[i])
  {
  }

  lemma DelimiterText(ascii: bool)
    ensures Contains(Dumps(DelimiterRequest(), ascii), END)
  {
    NoteIsCanonical();
    NoteIsVerbatim();
    hide *;
    NoteText("note", END, JsonText.Compact(ascii));
    Regroup("note", END);
    ContainsAt(['{', '"'] + "note" + ['"', ':', '"'], END, ['"', '}']);
  }

  /** A request with the END delimiter in one of its texts is lost: what is recovered is an empty object. */
  lemma DelimiterRequestLost(layout: Layout)
    requires layout.Valid()
    ensures Recover(Build(layout, DelimiterRequest())) == Obj([]) != DelimiterRequest()
  {
    assert WellFormed(Str(END));
    DelimiterText(layout.ascii);
    RecoverBuilt(layout, DelimiterRequest());
    hide Recover, Build, Dumps, Find, Canonical;
  }
}
