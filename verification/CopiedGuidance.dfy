/**
 * From the guidance to the accepted directive: what happens when the output copies a directive that the prompt
 * shows.
 */
module CopiedGuidance {
  import opened Wrappers
  import opened Json
  import opened JsonText
  import opened JsonRoundTrip
  import opened JsonScan
  import opened DirectiveValidator
  import opened DirectiveExtraction
  import opened ObservationLookup
  import P = PromptGuidance

  // ----- The text that is copied --------------------------------------------------------------

  /** How the guidance prints the directives it shows. */
  const SHOWN: Style := Compact(false)

  /** Text between the objects: no brace opens in it and no control sequence begins. */
  predicate Prosaic(text: string) {
    '{' !in text && ESC !in text
  }

  /** The validator's judgement in the shape of the request. */
  function JudgeOf(request: Json): Judge {
    (candidate: Json) => Validate(candidate, request, P.ShapeOf(request))
  }

  lemma ExtractOne(d: Json, judge: Judge)
    ensures Extract([d], judge) == Ok(d) <==> judge(d).Accepted?
  {
    var objects := [d];
    assert objects[..0] == [];
    assert Valid(objects, judge) == if judge(d).Accepted? then [d] else [];
    assert judge(objects[0]).Raised? ==> AnyRaises(objects, judge);
  }

  /** One object between prose is extracted exactly when it is accepted. */
  lemma OneObject(d: Json, style: Style, before: string, after: string, judge: Judge)
    requires d.Obj? && Writable(d) && Prosaic(before) && Prosaic(after)
    ensures Extract(Objects(StripAnsi(before + Print(d, style) + after)), judge) == Ok(d) <==> judge(d).Accepted?
  {
    hide Print, Writable, Read, Extract, StripAnsi, Objects;
    var pieces := [Prose(before), Object(Print(d, style), d), Prose(after)];
    PrintedPiece(d, style);
    ScanPieces(pieces);
    OneRendered(pieces[0], pieces[1], pieces[2]);
    ExtractOne(d, judge);
  }

  lemma OneRendered(a: Piece, b: Piece, c: Piece)
    requires a.Prose? && b.Object? && c.Prose?
    ensures Render([a, b, c]) == a.text + b.text + c.text && ObjectsOf([a, b, c]) == [b.value]
  {
    var pieces := [a, b, c];
    assert pieces[1..] == [b, c] && [b, c][1..] == [c] && [c][1..] == [];
    assert Render([c]) == c.text && Render([b, c]) == b.text + c.text;
    assert ObjectsOf([c]) == [] && ObjectsOf([b, c]) == [b.value];
  }

  // ----- What is shown can be printed ---------------------------------------------------------

  lemma MemberWritable(v: Json, key: string)
    requires Writable(v) && Member(v, key).Some?
    ensures Writable(Member(v, key).value)
  {
    var i :| 0 <= i < |v.fields| && v.fields[i] == Field(key, Member(v, key).value);
  }

  lemma ItemWritable(items: seq<Json>, i: nat)
    requires i < |items| && Writable(Arr(items))
    ensures Writable(items[i])
  {
  }

  lemma ValueWritable(field: string, spec: Option<Json>)
    requires spec.Some? ==> Writable(spec.value)
    ensures Writable(P.IllustrativeValue(field, spec))
  {
    hide Writable, FloatText;
    if spec.Some? && spec.value.Obj? {
      if Member(spec.value, "example").Some? {
        MemberWritable(spec.value, "example");
      } else {
        EnumWritable(spec.value);
        TypedWritable(field, spec.value);
      }
    } else {
      PlainWritable(field);
    }
  }

  lemma PlainWritable(field: string)
    ensures Writable(P.Placeholder(field)) && Writable(Arr([])) && Writable(Obj([])) && Writable(Null)
    ensures (forall s :: Writable(Str(s))) && (forall n :: Writable(Int(n))) && (forall b :: Writable(Bool(b)))
  {
  }

  lemma EnumWritable(spec: Json)
    requires Writable(spec)
    ensures var values := P.EnumValues(spec);
            values.Some? ==> forall i | 0 <= i < |values.value| :: Writable(values.value[i])
  {
    hide Writable;
    if P.EnumValues(spec).Some? {
      MemberWritable(spec, "enum");
      var values := P.EnumValues(spec).value;
      forall i | 0 <= i < |values|
        ensures Writable(values[i])
      {
        ItemWritable(values, i);
      }
    }
  }

  lemma TypedWritable(field: string, spec: Json)
    requires Writable(spec)
    ensures Writable(P.TypedValue(field, spec))
  {
    PlainWritable(field);
    hide Writable, FloatText, P.Placeholder;
    if Member(spec, "minimum").Some? {
      MemberWritable(spec, "minimum");
    }
  }

  predicate FieldsWritable(fields: seq<Field>) {
    DistinctKeys(fields) && forall f | f in fields :: Writable(f.value)
  }

  lemma FieldsOf(fields: seq<Field>)
    ensures FieldsWritable(fields) <==> Writable(Obj(fields))
  {
  }

  lemma {:induction false} ArgumentsWritable(required: seq<Json>, properties: seq<Field>)
    requires FieldsWritable(properties)
    ensures FieldsWritable(P.IllustrativeArguments(required, properties))
  {
    hide Writable, P.IllustrativeValue, Put, DistinctKeys;
    if required == [] {
      NoFields();
    } else {
      var n := |required| - 1;
      ArgumentsWritable(required[..n], properties);
      match required[n]
      case Str(field) =>
        var spec := Get(properties, field);
        var before, value := P.IllustrativeArguments(required[..n], properties), P.IllustrativeValue(field, spec);
        ValueWritable(field, spec);
        PutKeepsDistinct(before, field, value);
        PutMembers(before, field, value);
      case _ =>
    }
  }

  lemma NoFields()
    ensures FieldsWritable([])
  {
  }

  lemma ActionWritable(name: string, request: Json)
    requires Writable(request)
    ensures Writable(P.IllustrativeAction(name, request))
  {
    hide Writable, P.IllustrativeArguments, Get;
    var contract := Member(Contracts(request), name);
    var arguments: seq<Field> := [];
    NoFields();
    if contract.Some? && contract.value.Obj? {
      ContractWritable(name, request);
      PropertiesWritable(contract.value);
      ArgumentsWritable(Required(contract.value), Properties(contract.value));
      arguments := P.IllustrativeArguments(Required(contract.value), Properties(contract.value));
    }
    FieldsOf(arguments);
    ThreeWritable(Field("kind", Str("action")), Field("name", Str(name)), Field("arguments", Obj(arguments)));
  }

  lemma ContractWritable(name: string, request: Json)
    requires Writable(request) && Member(Contracts(request), name).Some?
    ensures Writable(Member(Contracts(request), name).value)
  {
    hide Writable;
    MemberWritable(request, "action_contracts");
    MemberWritable(Contracts(request), name);
  }

  lemma PropertiesWritable(contract: Json)
    requires contract.Obj? && Writable(contract)
    ensures FieldsWritable(Properties(contract))
  {
    hide Writable, FieldsWritable;
    if Member(contract, "properties").Some? {
      MemberWritable(contract, "properties");
    }
    FieldsOf(Properties(contract));
    FieldsOf(contract.fields);
  }

  lemma ThreeWritable(a: Field, b: Field, c: Field)
    requires a.key != b.key && a.key != c.key && b.key != c.key
    requires a.value.Str? && b.value.Str? && Writable(c.value)
    ensures Writable(Obj([a, b, c]))
  {
  }

  lemma ConstrainedWritable(request: Json, kind: string, field: string, fallback: Json)
    requires Writable(request) && Writable(fallback)
    ensures Writable(P.Constrained(request, kind, field, fallback))
  {
    hide Writable, P.Constraint;
    if P.Constraint(request, kind, field).Some? {
      ConstraintWritable(request, kind, field);
      var constraint := P.Constraint(request, kind, field).value;
      EnumWritable(constraint);
      if Member(constraint, "example").Some? {
        MemberWritable(constraint, "example");
      }
    }
  }

  lemma ConstraintWritable(request: Json, kind: string, field: string)
    requires Writable(request) && P.Constraint(request, kind, field).Some?
    ensures Writable(P.Constraint(request, kind, field).value)
  {
    hide Writable, Get;
    MemberWritable(request, "directive_schema");
    var schema := Member(request, "directive_schema").value;
    MemberWritable(schema, kind);
    MemberWritable(Member(schema, kind).value, "constraints");
    MemberWritable(Member(Member(schema, kind).value, "constraints").value, field);
  }

  lemma HypothesisWritable(request: Json, kind: string)
    requires Writable(request)
    ensures Writable(P.HypothesisExample(request, kind))
  {
    PlainWritable(kind);
    hide Writable, P.Constrained, P.RuntimeFlag;
    ConstrainedWritable(request, kind, "hypothesis_id", Str("hypothesis-1"));
    ConstrainedWritable(request, kind, "confidence", Str("low"));
    ConstrainedWritable(request, kind, "evidence_refs", Arr([]));
    var fields := P.HypothesisExample(request, kind).fields;
    assert DistinctKeys(fields);
    assert forall i | 0 <= i < |fields| :: Writable(fields[i].value);
    FieldsOf(fields);
  }

  lemma TransitionWritable(target: string)
    ensures Writable(P.TransitionExample(target))
  {
  }

  // ----- The lines that show a directive ------------------------------------------------------

  /** The directives of these lines can be printed. */
  predicate AllPrintable(lines: seq<P.Line>) {
    forall i | 0 <= i < |lines| ::
      P.Shown(lines[i]).Some? ==> P.Shown(lines[i]).value.Obj? && Writable(P.Shown(lines[i]).value)
  }

  lemma PrintableConcat(a: seq<P.Line>, b: seq<P.Line>)
    requires AllPrintable(a) && AllPrintable(b)
    ensures AllPrintable(a + b)
  {
    hide Writable;
  }

  lemma {:induction false} ActionsPrintable(request: Json, names: seq<Json>, source: Option<SourceLine>)
    requires Writable(request)
    ensures AllPrintable(P.ActionLines(request, names, source))
  {
    hide Writable, P.ActionLinesFor, AllPrintable;
    if names == [] {
      NothingPrintable();
    } else {
      var n := |names| - 1;
      ActionsPrintable(request, names[..n], source);
      ActionPrintable(request, names[n], source);
      PrintableConcat(P.ActionLines(request, names[..n], source), P.ActionLinesFor(request, names[n], source));
    }
  }

  lemma NothingPrintable()
    ensures AllPrintable([])
  {
  }

  lemma ActionPrintable(request: Json, name: Json, source: Option<SourceLine>)
    requires Writable(request)
    ensures AllPrintable(P.ActionLinesFor(request, name, source))
  {
    hide Writable, P.HasPlaceholder;
    if name.Str? && name.s != [] {
      ActionWritable(name.s, request);
      assert P.IllustrativeAction(name.s, request).Obj?;
      hide P.IllustrativeAction;
    }
  }

  lemma HypothesesPrintable(request: Json)
    requires Writable(request)
    ensures AllPrintable(P.HypothesisLines(request))
  {
    P.HypothesisLinesAre(request);
    hide *;
    HypothesisPrintable(request, "add_hypothesis");
    HypothesisPrintable(request, "revise_hypothesis");
    NothingPrintable();
    PrintableConcat(P.HypothesisLinesFor(request, "add_hypothesis"),
                    P.HypothesisLinesFor(request, "revise_hypothesis"));
  }

  lemma HypothesisPrintable(request: Json, kind: string)
    requires Writable(request)
    ensures AllPrintable(P.HypothesisLinesFor(request, kind))
  {
    hide Writable, P.IsKind;
    HypothesisWritable(request, kind);
    assert P.HypothesisExample(request, kind).Obj?;
    hide P.HypothesisExample;
  }

  lemma TransitionsPrintable(request: Json)
    ensures AllPrintable(P.TransitionLines(request))
  {
    hide Writable, P.IsKind, Names, P.TextNames;
    var targets := Names(request, "legal_transition_targets");
    if targets.Some? && |P.TextNames(targets.value)| == 1 {
      TransitionWritable(P.TextNames(targets.value)[0]);
    }
  }

  lemma FixedPrintable(request: Json)
    ensures AllPrintable([P.Opening] + P.ProofLines(request))
  {
    hide Writable;
  }

  lemma GuidancePrintable(request: Json, source: Option<SourceLine>)
    requires Writable(request)
    ensures AllPrintable(P.FrozenLines(request, source))
  {
    hide Writable, AllPrintable, P.ProofLines, P.HypothesisLines, P.ActionLines, P.TransitionLines, P.ShownActions;
    FixedPrintable(request);
    HypothesesPrintable(request);
    ActionsPrintable(request, P.ShownActions(request), source);
    TransitionsPrintable(request);
    var fixed := [P.Opening] + P.ProofLines(request);
    PrintableConcat(fixed, P.HypothesisLines(request));
    PrintableConcat(fixed + P.HypothesisLines(request), P.ActionLines(request, P.ShownActions(request), source));
    PrintableConcat(P.CommonLines(request, source), P.TransitionLines(request));
  }

  // ----- End to end ---------------------------------------------------------------------------

  /** Copied verbatim between any prose, the directive is the one that is extracted. */
  ghost predicate Followed(d: Json, request: Json) {
    forall before, after | Prosaic(before) && Prosaic(after) ::
      Extract(Objects(StripAnsi(before + Print(d, SHOWN) + after)), JudgeOf(request)) == Ok(d)
  }

  lemma FollowedIff(d: Json, request: Json)
    requires d.Obj? && Writable(d)
    ensures Followed(d, request) <==> Validate(d, request, P.ShapeOf(request)) == Accepted
  {
    hide Writable, Print, Extract, Objects, StripAnsi, Validate, P.ShapeOf, Prosaic;
    forall before, after | Prosaic(before) && Prosaic(after)
      ensures Extract(Objects(StripAnsi(before + Print(d, SHOWN) + after)), JudgeOf(request)) == Ok(d)
         <==> Validate(d, request, P.ShapeOf(request)) == Accepted
    {
      OneObject(d, SHOWN, before, after, JudgeOf(request));
    }
    NothingIsProsaic();
    assert [] + Print(d, SHOWN) + [] == Print(d, SHOWN);
  }

  lemma NothingIsProsaic()
    ensures Prosaic([])
  {
  }

  ghost predicate AllFollowed(lines: seq<P.Line>, request: Json) {
    forall i | 0 <= i < |lines| && P.Shown(lines[i]).Some? :: Followed(P.Shown(lines[i]).value, request)
  }

  /**
   * Output that copies a directive from the guidance is accepted as that directive, whichever one it copies and
   * whatever prose it puts around it, exactly when the request fits its own examples.
   */
  lemma GuidanceFollowed(request: Json, source: Option<SourceLine>)
    requires Writable(request)
    ensures P.RequestTeaches(request) <==> AllFollowed(P.FrozenLines(request, source), request)
  {
    var lines := P.FrozenLines(request, source);
    assert WellFormed(request);
    P.GuidanceShowsAccepted(request, source);
    GuidancePrintable(request, source);
    hide Writable, Followed, Validate, P.FrozenLines, P.RequestTeaches, P.Shown, P.ShapeOf;
    forall i | 0 <= i < |lines| && P.Shown(lines[i]).Some?
      ensures Followed(P.Shown(lines[i]).value, request) <==> P.ShowsAccepted(lines[i], request)
    {
      FollowedIff(P.Shown(lines[i]).value, request);
    }
  }

  // ----- With the request copied as well ------------------------------------------------------

  lemma TwoRendered(a: Piece, b: Piece, c: Piece, d: Piece, e: Piece)
    requires a.Prose? && b.Object? && c.Prose? && d.Object? && e.Prose?
    ensures Render([a, b, c, d, e]) == a.text + b.text + (c.text + d.text + e.text)
    ensures ObjectsOf([a, b, c, d, e]) == [b.value, d.value]
  {
    OneRendered(c, d, e);
    hide Render, ObjectsOf;
    RenderNext(a, [b, c, d, e]);
    RenderNext(b, [c, d, e]);
    assert [a] + [b, c, d, e] == [a, b, c, d, e] && [b] + [c, d, e] == [b, c, d, e];
    assert a.text + b.text + (c.text + d.text + e.text) == a.text + (b.text + (c.text + d.text + e.text));
  }

  lemma RenderNext(p: Piece, rest: seq<Piece>)
    ensures Render([p] + rest) == p.text + Render(rest)
    ensures ObjectsOf([p] + rest) == (if p.Object? then [p.value] else []) + ObjectsOf(rest)
  {
    assert ([p] + rest)[1..] == rest;
  }

  lemma ExtractBehindRejected(first: Json, d: Json, judge: Judge)
    requires judge(first).Rejected?
    ensures Extract([first, d], judge) == Ok(d) <==> judge(d).Accepted?
  {
    var objects := [first, d];
    assert objects[..1] == [first] && [first][..0] == [];
    assert Valid([first], judge) == [];
    assert Valid(objects, judge) == if judge(d).Accepted? then [d] else [];
    assert judge(objects[1]).Raised? ==> AnyRaises(objects, judge);
  }

  /** A copy of the whole request in front of the directive changes nothing. */
  lemma CopiedRequestHarmless(request: Json, copied: Style, d: Json, before: string, between: string, after: string)
    requires request.Obj? && Writable(request) && d.Obj? && Writable(d)
    requires Prosaic(before) && Prosaic(between) && Prosaic(after)
    ensures var text := before + Print(request, copied) + (between + Print(d, SHOWN) + after);
            (Extract(Objects(StripAnsi(text)), JudgeOf(request)) == Ok(d)
             <==> Validate(d, request, P.ShapeOf(request)) == Accepted)
  {
    hide Writable, Print, Read, Extract, Objects, StripAnsi, Validate, P.ShapeOf;
    var a, b, c := Prose(before), Object(Print(request, copied), request), Prose(between);
    var e, f := Object(Print(d, SHOWN), d), Prose(after);
    PrintedPiece(request, copied);
    PrintedPiece(d, SHOWN);
    ScanPieces([a, b, c, e, f]);
    TwoRendered(a, b, c, e, f);
    CopiedRequestRejected(request, P.ShapeOf(request));
    ExtractBehindRejected(request, d, JudgeOf(request));
  }
}
