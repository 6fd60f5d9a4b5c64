/** Accepting exactly one valid directive from free model text. */
module DirectiveExtraction {
  import opened Wrappers
  import opened Json
  import opened JsonScan
  import opened DirectiveValidator

  datatype Failure =
    | NoJsonObject
    | NoValidDirective(reason: Option<Rejection>)
    | AmbiguousOutput
    | TypeErrorRaised

  /** The judgement of one candidate. */
  type Judge = Json -> Verdict

  predicate AnyRaises(objects: seq<Json>, judge: Judge) {
    exists i | 0 <= i < |objects| :: judge(objects[i]).Raised?
  }

  function Valid(objects: seq<Json>, judge: Judge): seq<Json> {
    if objects == [] then []
    else
      var n := |objects| - 1;
      Valid(objects[..n], judge) + if judge(objects[n]).Accepted? then [objects[n]] else []
  }

  /** The outcome for the objects found in a text. */
  function Extract(objects: seq<Json>, judge: Judge): Result<Json, Failure> {
    if objects == [] then Err(NoJsonObject)
    else if AnyRaises(objects, judge) then Err(TypeErrorRaised)
    else
      var valid := Valid(objects, judge);
      if valid == [] then
        Err(NoValidDirective(if |objects| == 1 && judge(objects[0]).Rejected?
                             then Some(judge(objects[0]).reason) else None))
      else if |valid| > 1 then Err(AmbiguousOutput)
      else Ok(valid[0])
  }

  /** The outcome for requests without a directive schema: exactly one object, whatever it says. */
  function Only(objects: seq<Json>): Result<Json, Failure> {
    if objects == [] then Err(NoJsonObject) else if |objects| > 1 then Err(AmbiguousOutput) else Ok(objects[0])
  }

  /** Without a schema the directive is the one object there is; none and several are told apart. */
  lemma OnlyOne(objects: seq<Json>)
    ensures forall d :: Only(objects) == Ok(d) <==> objects == [d]
    ensures Only(objects) == Err(NoJsonObject) <==> objects == []
    ensures Only(objects) == Err(AmbiguousOutput) <==> |objects| > 1
  {
    if |objects| == 1 {
      assert objects == [objects[0]];
    }
  }

  /** The candidate loop of _extract_directive. */
  method ExtractValid(candidates: seq<Json>, judge: Judge) returns (r: Result<Json, Failure>)
    ensures r == Extract(candidates, judge)
  {
    if candidates == [] {
      return Err(NoJsonObject);
    }
    var valid: seq<Json> := [];
    for i := 0 to |candidates|
      invariant valid == Valid(candidates[..i], judge)
      invariant forall j | 0 <= j < i :: !judge(candidates[j]).Raised?
    {
      assert candidates[..i + 1][..i] == candidates[..i];
      match judge(candidates[i]) {
        case Raised => return Err(TypeErrorRaised);
        case Accepted => valid := valid + [candidates[i]];
        case Rejected(_) =>
      }
    }
    assert candidates[..|candidates|] == candidates;
    if valid == [] {
      var reason: Option<Rejection> := None;
      if |candidates| == 1 {
        match judge(candidates[0]) {
          case Rejected(why) => reason := Some(why);
          case _ =>
        }
      }
      return Err(NoValidDirective(reason));
    }
    if |valid| > 1 {
      return Err(AmbiguousOutput);
    }
    return Ok(valid[0]);
  }

  /** _extract_directive of the OpenCode transport. */
  method ExtractDirective(text: string, request: Json) returns (r: Result<Json, Failure>)
    ensures var objects := Objects(StripAnsi(text));
            r == if HasSchema(request, MapShape) then Extract(objects, (c: Json) => Validate(c, request, MapShape))
                 else Only(objects)
  {
    hide Validate, HasSchema, Objects, StripAnsi, Extract;
    var candidates := JsonObjects(text);
    if HasSchema(request, MapShape) {
      r := ExtractValid(candidates, (c: Json) => Validate(c, request, MapShape));
    } else {
      r := Only(candidates);
    }
  }

  /** extract_directive of the OpenCode Go adapter. */
  method ExtractDirectiveGo(text: string, request: Json) returns (r: Result<Json, Failure>)
    ensures r == Extract(Objects(StripAnsi(text)), (c: Json) => Validate(c, request, ListShape))
  {
    hide Validate, Objects, StripAnsi, Extract;
    var candidates := JsonObjects(text);
    r := ExtractValid(candidates, (c: Json) => Validate(c, request, ListShape));
  }

  // ----- Exactly one valid object -------------------------------------------------------------

  /** The valid objects are the objects judged valid, each as often as it occurs. */
  lemma {:induction false} ValidCounts(objects: seq<Json>, judge: Judge, v: Json)
    ensures multiset(Valid(objects, judge))[v] == if judge(v).Accepted? then multiset(objects)[v] else 0
  {
    if objects != [] {
      var n := |objects| - 1;
      ValidCounts(objects[..n], judge, v);
      assert objects == objects[..n] + [objects[n]];
    }
  }

  /** Extraction returns a directive exactly when no object raises and that directive is the one valid object. */
  lemma ExtractIff(objects: seq<Json>, judge: Judge, d: Json)
    ensures Extract(objects, judge) == Ok(d) <==> !AnyRaises(objects, judge) && Valid(objects, judge) == [d]
  {
  }

  /**
   * Model output made of prose and JSON objects yields a directive exactly when validation raises on none of its
   * objects and one of them, counted with repetitions, validates; nothing else about the text matters.
   */
  lemma ExtractFromPieces(pieces: seq<Piece>, judge: Judge, d: Json)
    requires forall i | 0 <= i < |pieces| :: ValidPiece(pieces[i])
    ensures Extract(Objects(StripAnsi(Render(pieces))), judge) == Ok(d)
       <==> !AnyRaises(ObjectsOf(pieces), judge) && judge(d).Accepted? && forall v :: judge(v).Accepted? ==>
              multiset(ObjectsOf(pieces))[v] == if v == d then 1 else 0
  {
    hide ValidPiece;
    var objects := ObjectsOf(pieces);
    ScanPieces(pieces);
    ExtractIff(objects, judge, d);
    OneValid(objects, judge, d);
  }

  lemma OneValid(objects: seq<Json>, judge: Judge, d: Json)
    ensures Valid(objects, judge) == [d]
       <==> judge(d).Accepted? && forall v :: judge(v).Accepted? ==> multiset(objects)[v] == if v == d then 1 else 0
  {
    var valid := Valid(objects, judge);
    forall v
      ensures multiset(valid)[v] == if judge(v).Accepted? then multiset(objects)[v] else 0
    {
      ValidCounts(objects, judge, v);
    }
    if valid == [d] {
      forall v | judge(v).Accepted?
        ensures multiset(objects)[v] == if v == d then 1 else 0
      {
        assert multiset(valid)[v] == multiset(objects)[v];
        assert multiset(valid) == multiset{d};
      }
      assert d in multiset(valid);
    }
    if judge(d).Accepted? && forall v :: judge(v).Accepted? ==> multiset(objects)[v] == if v == d then 1 else 0 {
      assert multiset(valid) == multiset{d};
      assert |multiset(valid)| == |valid| == 1;
      assert valid[0] in multiset(valid);
    }
  }

  /**
   * Objects that do not validate, such as a copied request (CopiedRequestRejected), can be added, removed or moved
   * about without any effect on which directive is accepted, as long as validation goes on raising, or goes on not
   * raising.
   */
  lemma OnlyValidObjectsMatter(a: seq<Piece>, b: seq<Piece>, judge: Judge)
    requires forall i | 0 <= i < |a| :: ValidPiece(a[i])
    requires forall i | 0 <= i < |b| :: ValidPiece(b[i])
    requires AnyRaises(ObjectsOf(a), judge) <==> AnyRaises(ObjectsOf(b), judge)
    requires multiset(Valid(ObjectsOf(a), judge)) == multiset(Valid(ObjectsOf(b), judge))
    ensures forall d :: Extract(Objects(StripAnsi(Render(a))), judge) == Ok(d)
                   <==> Extract(Objects(StripAnsi(Render(b))), judge) == Ok(d)
  {
    hide ValidPiece;
    ScanPieces(a);
    ScanPieces(b);
    var va, vb := Valid(ObjectsOf(a), judge), Valid(ObjectsOf(b), judge);
    forall d
      ensures Extract(ObjectsOf(a), judge) == Ok(d) <==> Extract(ObjectsOf(b), judge) == Ok(d)
    {
      ExtractIff(ObjectsOf(a), judge, d);
      ExtractIff(ObjectsOf(b), judge, d);
      SingletonByCount(va, vb, d);
    }
  }

  /** No directive has a member with the name of the request's schema. */
  lemma SchemaKeyRejected(candidate: Json, request: Json, shape: Shape)
    requires candidate.Obj? && HasKey(candidate.fields, "directive_schema")
    ensures Validate(candidate, request, shape).Rejected?
  {
    hide CheckKind, HasSchema, Offers, Member, Get;
    var i :| 0 <= i < |candidate.fields| && candidate.fields[i].key == "directive_schema";
    forall kind
      ensures !KnownFields(candidate.fields, TopLevelFields(kind))
    {
      assert candidate.fields[i].key !in TopLevelFields(kind);
    }
  }

  /**
   * A request that is copied into the output never counts as a directive for itself, and never makes validation
   * raise.
   */
  lemma CopiedRequestRejected(request: Json, shape: Shape)
    ensures Validate(request, request, shape).Rejected?
  {
    hide CheckKind, KnownFields, Offers;
    if HasSchema(request, shape) {
      SchemaKeyRejected(request, request, shape);
    }
  }

  lemma SingletonByCount(a: seq<Json>, b: seq<Json>, d: Json)
    requires multiset(a) == multiset(b)
    ensures a == [d] <==> b == [d]
  {
    assert |b| == |multiset(b)| && |a| == |multiset(a)|;
    if |a| == 1 {
      assert a[0] in multiset(a) && b[0] in multiset(b);
      assert a[0] in multiset(b);
    }
  }

  // ----- When validation cannot raise ---------------------------------------------------------

  predicate SpecsHashable(properties: seq<Field>) {
    forall i | 0 <= i < |properties| :: properties[i].value.Obj? ==> Hashable(TypeName(properties[i].value))
  }

  /** Every action contract names types and required arguments by hashable values. */
  predicate ContractsHashable(request: Json) {
    var contracts := Contracts(request).fields;
    forall i | 0 <= i < |contracts| && contracts[i].value.Obj? ::
      && (forall j | 0 <= j < |Required(contracts[i].value)| :: Hashable(Required(contracts[i].value)[j]))
      && SpecsHashable(Properties(contracts[i].value))
  }

  lemma {:induction false} RequiredNeverRaises(required: seq<Json>, arguments: seq<Field>)
    requires forall j | 0 <= j < |required| :: Hashable(required[j])
    ensures CheckRequired(required, arguments) != Raised
  {
    if required != [] {
      RequiredNeverRaises(required[1..], arguments);
    }
  }

  lemma {:induction false} PropertiesNeverRaise(properties: seq<Field>, arguments: seq<Field>)
    requires SpecsHashable(properties)
    ensures CheckProperties(properties, arguments) != Raised
  {
    hide TypeName, HasType, EnumAllows, MinLength;
    if properties != [] {
      assert forall i | 0 <= i < |properties| - 1 :: properties[1..][i] == properties[i + 1];
      PropertiesNeverRaise(properties[1..], arguments);
    }
  }

  lemma ArgumentsNeverRaise(contract: Json, arguments: seq<Field>)
    requires contract.Obj? ==> forall j | 0 <= j < |Required(contract)| :: Hashable(Required(contract)[j])
    requires contract.Obj? ==> SpecsHashable(Properties(contract))
    ensures CheckArguments(contract, arguments) != Raised
  {
    hide Required, Properties, Closed, KeysWithin;
    if contract.Obj? {
      RequiredNeverRaises(Required(contract), arguments);
      PropertiesNeverRaise(Properties(contract), arguments);
    }
  }

  lemma ActionNeverRaises(candidate: Json, request: Json)
    requires ContractsHashable(request)
    ensures CheckAction(candidate, request) != Raised
  {
    hide Required, Properties, CheckArguments, Contracts, Names, SpecsHashable;
    match Member(candidate, "name")
    case Some(Str(name)) =>
      var contract := Get(Contracts(request).fields, name);
      if contract.Some? {
        var i :| 0 <= i < |Contracts(request).fields| && Contracts(request).fields[i] == Field(name, contract.value);
        var arguments := Member(candidate, "arguments");
        if arguments.Some? && arguments.value.Obj? {
          ArgumentsNeverRaise(contract.value, arguments.value.fields);
        }
      }
    case _ =>
  }

  /** For such a request no candidate whatever makes the validator raise. */
  lemma NeverRaises(candidate: Json, request: Json, shape: Shape)
    requires ContractsHashable(request)
    ensures Validate(candidate, request, shape) != Raised
  {
    hide CheckAction, CheckTransition, CheckHypothesis, CheckStatus, HasSchema, Offers, KnownFields, ContractsHashable;
    ActionNeverRaises(candidate, request);
    OthersNeverRaise(candidate, request);
  }

  lemma OthersNeverRaise(candidate: Json, request: Json)
    ensures CheckTransition(candidate, request) != Raised
    ensures CheckHypothesis(candidate) != Raised && CheckStatus(candidate) != Raised
  {
    hide IsHypothesisId, IsText, IsOneOf, IsEvidence, Names;
  }
}
