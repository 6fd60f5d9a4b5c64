/** The request-specific part of the prompt: the legal directives it shows, and the two prompt profiles. */
module PromptGuidance {
  import opened Wrappers
  import opened Json
  import opened Utf8
  import T = Text
  import CanonicalJson
  import opened DirectiveValidator
  import opened ObservationLookup
  import opened ObservationOrder
  import M = DirectiveMeaning

  // ----- Example directives -------------------------------------------------------------------

  /** The least value of a numeric property, zero when it names none. */
  function LeastNumber(spec: Json, realToo: bool): Json {
    match Member(spec, "minimum")
    case Some(Int(n)) => Int(n)
    case Some(Real(lexeme)) => if realToo then Real(lexeme) else Int(0)
    case _ => Int(0)
  }

  function Placeholder(field: string): Json {
    Str("<" + field + ">")
  }

  /** A value of the declared type. */
  function TypedValue(field: string, spec: Json): Json {
    match TypeName(spec)
    case Str("boolean") => Bool(true)
    case Str("integer") => LeastNumber(spec, false)
    case Str("number") => LeastNumber(spec, true)
    case Str("array") => Arr([])
    case Str("object") => Obj([])
    case Str("null") => Null
    case _ => Placeholder(field)
  }

  function EnumValues(spec: Json): Option<seq<Json>> {
    match Member(spec, "enum")
    case Some(Arr(values)) => Some(values)
    case _ => None
  }

  /** _illustrative_argument_value. */
  function IllustrativeValue(field: string, spec: Option<Json>): Json {
    if spec.None? || !spec.value.Obj? then Placeholder(field)
    else
      var values := EnumValues(spec.value);
      if Member(spec.value, "example").Some? then Member(spec.value, "example").value
      else if values.Some? && values.value != [] then values.value[0]
      else TypedValue(field, spec.value)
  }

  /** One argument for every required field that is named by a text. */
  function IllustrativeArguments(required: seq<Json>, properties: seq<Field>): seq<Field> {
    if required == [] then []
    else
      var n := |required| - 1;
      var before := IllustrativeArguments(required[..n], properties);
      match required[n]
      case Str(field) => Put(before, field, IllustrativeValue(field, Get(properties, field)))
      case _ => before
  }

  /** illustrative_action_directive. */
  function IllustrativeAction(name: string, request: Json): Json {
    var contract := Member(Contracts(request), name);
    var arguments :=
      if contract.Some? && contract.value.Obj? then
        IllustrativeArguments(Required(contract.value), Properties(contract.value))
      else [];
    Obj([Field("kind", Str("action")), Field("name", Str(name)), Field("arguments", Obj(arguments))])
  }

  /** The constraints the request puts on the fields of a hypothesis kind. */
  function Constraint(request: Json, kind: string, field: string): Option<Json> {
    match Member(request, "directive_schema")
    case Some(schema) =>
      (match Member(schema, kind)
       case Some(entry) =>
         (match Member(entry, "constraints")
          case Some(constraints) => Member(constraints, field)
          case None => None)
       case None => None)
    case None => None
  }

  function Constrained(request: Json, kind: string, field: string, fallback: Json): Json {
    match Constraint(request, kind, field)
    case Some(constraint) =>
      var values := EnumValues(constraint);
      if Member(constraint, "example").Some? then Member(constraint, "example").value
      else if values.Some? && |values.value| == 1 then values.value[0]
      else fallback
    case None => fallback
  }

  function RuntimeFlag(request: Json, kind: string): bool {
    match Constraint(request, kind, "requires_runtime_evidence")
    case Some(constraint) =>
      var values := EnumValues(constraint);
      values.Some? && |values.value| == 1 && values.value[0] == Bool(true)
    case None => false
  }

  function HypothesisExample(request: Json, kind: string): Json {
    Obj([Field("kind", Str(kind)),
         Field("hypothesis_id", Constrained(request, kind, "hypothesis_id", Str("hypothesis-1"))),
         Field("statement", Str("bounded hypothesis")),
         Field("confidence", Constrained(request, kind, "confidence", Str("low"))),
         Field("evidence_refs", Constrained(request, kind, "evidence_refs", Arr([]))),
         Field("requires_runtime_evidence", Bool(RuntimeFlag(request, kind)))])
  }

  // ----- What a shown action holds, read off the request --------------------------------------

  function Otherwise(given: Option<Json>, fallback: Json): Json {
    match given
    case Some(value) => value
    case None => fallback
  }

  /** The value made up for a field: its declared type and its least value decide. */
  predicate MadeUp(v: Json, field: string, name: Option<Json>, least: Option<Json>) {
    if name == Some(Str("boolean")) then v == Bool(true)
    else if name == Some(Str("integer")) then v == if least.Some? && least.value.Int? then least.value else Int(0)
    else if name == Some(Str("number")) then
      v == if least.Some? && (least.value.Int? || least.value.Real?) then least.value else Int(0)
    else if name == Some(Str("array")) then v == Arr([])
    else if name == Some(Str("object")) then v == Obj([])
    else if name == Some(Str("null")) then v == Null
    else v == Str("<" + field + ">")
  }

  /** The value shown for a field with this specification: an example, the first value of an enum, or a made-up one. */
  predicate Illustrates(v: Json, field: string, spec: Json) {
    match (At(spec, ["example"]), At(spec, ["enum"]))
    case (Some(example), _) => v == example
    case (None, Some(Arr(values))) =>
      if values != [] then v == values[0] else MadeUp(v, field, At(spec, ["type"]), At(spec, ["minimum"]))
    case _ => MadeUp(v, field, At(spec, ["type"]), At(spec, ["minimum"]))
  }

  lemma TypedValueIs(field: string, spec: Json)
    ensures MadeUp(TypedValue(field, spec), field, Member(spec, "type"), Member(spec, "minimum"))
  {
    hide Member;
  }

  lemma IllustrativeValueIs(field: string, spec: Option<Json>)
    ensures Illustrates(IllustrativeValue(field, spec), field, Otherwise(spec, Null))
  {
    var value := Otherwise(spec, Null);
    M.AtKeys(value);
    TypedValueIs(field, value);
    assert !value.Obj? ==> forall key :: Member(value, key) == None;
    hide At, Member, TypedValue, MadeUp;
    assert MadeUp(Placeholder(field), field, None, None) by {
      NothingDeclared(field);
    }
  }

  lemma NothingDeclared(field: string)
    ensures MadeUp(Placeholder(field), field, None, None)
  {
  }

  /**
   * A shown action has an argument for every field its contract requires and no other, and each illustrates its
   * specification.
   */
  lemma ShownActionHolds(name: string, request: Json, contract: Json, field: string)
    requires At(request, ["action_contracts", name]) == Some(contract) && contract.Obj?
    ensures var d := IllustrativeAction(name, request);
            var asked := At(contract, ["required"]);
            var shown, spec := At(d, ["arguments", field]), Otherwise(At(M.Declared(contract), [field]), Null);
            && At(d, ["kind"]) == Some(Str("action")) && At(d, ["name"]) == Some(Str(name))
            && (shown.Some? <==> asked.Some? && asked.value.Arr? && Str(field) in asked.value.items)
            && (shown.Some? ==> Illustrates(shown.value, field, spec))
  {
    hide *;
    var d := IllustrativeAction(name, request);
    M.ContractIs(request, name);
    ActionFields(name, request, contract);
    AtOne(d, "kind");
    AtOne(d, "name");
    AtTwo(d, "arguments", field);
    M.RequiredList(contract);
    M.DeclaredIs(contract);
    AtOne(M.Declared(contract), field);
    ObjectMember(IllustrativeArguments(Required(contract), Properties(contract)), field);
    ObjectMember(Properties(contract), field);
    IllustrativeAt(Required(contract), Properties(contract), field);
    IllustrativeValueIs(field, Get(Properties(contract), field));
  }

  lemma ObjectMember(fields: seq<Field>, key: string)
    ensures Member(Obj(fields), key) == Get(fields, key)
  {
    hide Get;
  }

  lemma ActionFields(name: string, request: Json, contract: Json)
    requires Member(Contracts(request), name) == Some(contract) && contract.Obj?
    ensures var d := IllustrativeAction(name, request);
            && Member(d, "kind") == Some(Str("action")) && Member(d, "name") == Some(Str(name))
            && Member(d, "arguments") == Some(Obj(IllustrativeArguments(Required(contract), Properties(contract))))
  {
    hide Contracts, Required, Properties, IllustrativeArguments, Get;
    var fields := IllustrativeAction(name, request).fields;
    ThreeFields(fields[0], fields[1], fields[2]);
  }

  // ----- What a shown hypothesis holds, read off the request ----------------------------------

  /** What the request gives for a field of a hypothesis: an example, or else the only value of an enum. */
  function Given(request: Json, kind: string, field: string): Option<Json> {
    var constraint := ["directive_schema", kind, "constraints", field];
    match (At(request, constraint + ["example"]), At(request, constraint + ["enum"]))
    case (Some(example), _) => Some(example)
    case (None, Some(Arr(values))) => if |values| == 1 then Some(values[0]) else None
    case _ => None
  }

  lemma ConstraintIs(request: Json, kind: string, field: string)
    ensures At(request, ["directive_schema", kind, "constraints", field]) == Constraint(request, kind, field)
  {
    hide Member, At;
    AtTwo(request, "directive_schema", kind);
    assert ["directive_schema", kind] + ["constraints", field] == ["directive_schema", kind, "constraints", field];
    AtMore(request, "directive_schema", kind, ["constraints", field]);
    if At(request, ["directive_schema", kind]).Some? {
      AtTwo(At(request, ["directive_schema", kind]).value, "constraints", field);
    }
  }

  lemma BelowConstraint(request: Json, kind: string, field: string, key: string)
    ensures At(request, ["directive_schema", kind, "constraints", field] + [key]) ==
            match Constraint(request, kind, field) case Some(constraint) => Member(constraint, key) case None => None
  {
    hide *;
    ConstraintIs(request, kind, field);
    AtConcat(request, ["directive_schema", kind, "constraints", field], [key]);
    if Constraint(request, kind, field).Some? {
      AtOne(Constraint(request, kind, field).value, key);
    }
  }

  lemma ConstrainedIs(request: Json, kind: string, field: string, fallback: Json)
    ensures Constrained(request, kind, field, fallback) == Otherwise(Given(request, kind, field), fallback)
  {
    BelowConstraint(request, kind, field, "example");
    BelowConstraint(request, kind, field, "enum");
    hide At, Constraint, Member;
  }

  lemma RuntimeFlagIs(request: Json, kind: string)
    ensures RuntimeFlag(request, kind)
       <==> At(request, ["directive_schema", kind, "constraints", "requires_runtime_evidence", "enum"]) ==
            Some(Arr([Bool(true)]))
  {
    var path := ["directive_schema", kind, "constraints", "requires_runtime_evidence"];
    BelowConstraint(request, kind, "requires_runtime_evidence", "enum");
    assert path + ["enum"] == ["directive_schema", kind, "constraints", "requires_runtime_evidence", "enum"];
    hide At, Constraint, Member;
    assert forall v: Json :: [v][0] == v;
    assert forall vs: seq<Json> :: |vs| == 1 ==> vs == [vs[0]];
  }

  /**
   * A shown hypothesis holds what the request gives for its fields and the defaults where it gives nothing; it asks
   * for runtime evidence exactly when true is the only value allowed.
   */
  lemma ShownHypothesisHolds(request: Json, kind: string)
    ensures var d := HypothesisExample(request, kind);
            && At(d, ["kind"]) == Some(Str(kind))
            && At(d, ["hypothesis_id"]) == Some(Otherwise(Given(request, kind, "hypothesis_id"), Str("hypothesis-1")))
            && At(d, ["statement"]) == Some(Str("bounded hypothesis"))
            && At(d, ["confidence"]) == Some(Otherwise(Given(request, kind, "confidence"), Str("low")))
            && At(d, ["evidence_refs"]) == Some(Otherwise(Given(request, kind, "evidence_refs"), Arr([])))
            && At(d, ["requires_runtime_evidence"]) ==
               Some(Bool(At(request, ["directive_schema", kind, "constraints", "requires_runtime_evidence", "enum"]) ==
                         Some(Arr([Bool(true)]))))
  {
    hide *;
    var d := HypothesisExample(request, kind);
    HypothesisMembers(request, kind);
    ConstrainedIs(request, kind, "hypothesis_id", Str("hypothesis-1"));
    ConstrainedIs(request, kind, "confidence", Str("low"));
    ConstrainedIs(request, kind, "evidence_refs", Arr([]));
    RuntimeFlagIs(request, kind);
    AtOne(d, "kind");
    AtOne(d, "hypothesis_id");
    AtOne(d, "statement");
    AtOne(d, "confidence");
    AtOne(d, "evidence_refs");
    AtOne(d, "requires_runtime_evidence");
  }

  /**
   * The value shown for a field with an enum is one of the enum exactly when the example is, or else the enum has one
   * value or happens to hold the default.
   */
  lemma ShownWithinEnum(request: Json, kind: string, field: string, fallback: Json, values: seq<Json>)
    requires At(request, ["directive_schema", kind, "constraints", field, "enum"]) == Some(Arr(values))
    ensures Otherwise(Given(request, kind, field), fallback) in values
       <==> match At(request, ["directive_schema", kind, "constraints", field, "example"])
            case Some(example) => example in values
            case None => |values| == 1 || fallback in values
  {
    hide At;
    var path := ["directive_schema", kind, "constraints", field];
    assert path + ["enum"] == ["directive_schema", kind, "constraints", field, "enum"];
    assert path + ["example"] == ["directive_schema", kind, "constraints", field, "example"];
  }

  function TransitionExample(target: string): Json {
    Obj([Field("kind", Str("transition")), Field("target_state", Str(target)),
         Field("reason", Str("advance using the sole legal target"))])
  }

  // ----- Which examples the validator accepts: actions ----------------------------------------

  predicate LongEnough(value: Json, spec: Json) {
    TypeName(spec) == Str("string") && value.Str? ==> MinLength(spec) <= |value.s|
  }

  /** The property specification fits the value shown for it, read off the specification alone. */
  predicate SpecTeaches(field: string, spec: Json) {
    var example, values := Member(spec, "example"), EnumValues(spec);
    && Hashable(TypeName(spec))
    && if example.Some? then
         HasType(example.value, TypeName(spec)) && EnumAllows(spec, example.value) && LongEnough(example.value, spec)
       else if values.Some? then
         values.value != [] && HasType(values.value[0], TypeName(spec)) && LongEnough(values.value[0], spec)
       else
         TypeName(spec) == Str("string") ==> MinLength(spec) <= |field| + 2
  }

  lemma MemberWellFormed(v: Json, key: string)
    requires WellFormed(v) && Member(v, key).Some?
    ensures WellFormed(Member(v, key).value)
  {
    var i :| 0 <= i < |v.fields| && v.fields[i] == Field(key, Member(v, key).value);
  }

  /** The value of the declared type is of that type, and long enough exactly when the placeholder is. */
  lemma TypedValueFits(field: string, spec: Json)
    ensures var v := TypedValue(field, spec);
            && HasType(v, TypeName(spec))
            && (LongEnough(v, spec) <==> (TypeName(spec) == Str("string") ==> MinLength(spec) <= |field| + 2))
  {
    hide MinLength;
  }

  /** The validator accepts the value shown for a property exactly when the specification fits it. */
  lemma SpecTeachesIff(field: string, spec: Json)
    requires spec.Obj? && WellFormed(spec)
    ensures CheckProperty(field, spec, IllustrativeValue(field, Some(spec))) == Accepted <==> SpecTeaches(field, spec)
  {
    hide Get, HasType, MinLength, TypedValue, WellFormed;
    var example, values := Member(spec, "example"), EnumValues(spec);
    if example.None? {
      if values.Some? && values.value != [] {
        FirstAmong(spec);
      } else {
        TypedValueFits(field, spec);
      }
    }
  }

  lemma FirstAmong(spec: Json)
    requires WellFormed(spec) && EnumValues(spec).Some? && EnumValues(spec).value != []
    ensures Among(EnumValues(spec).value[0], EnumValues(spec).value)
  {
    MemberWellFormed(spec, "enum");
    EqualReflexive(EnumValues(spec).value[0]);
  }

  lemma {:induction false} IllustrativeAt(required: seq<Json>, properties: seq<Field>, field: string)
    ensures Get(IllustrativeArguments(required, properties), field) ==
            if Str(field) in required then Some(IllustrativeValue(field, Get(properties, field))) else None
  {
    hide Get, IllustrativeValue;
    if required != [] {
      var n := |required| - 1;
      IllustrativeAt(required[..n], properties, field);
      assert required == required[..n] + [required[n]];
      match required[n]
      case Str(other) =>
        GetPut(IllustrativeArguments(required[..n], properties), other,
               IllustrativeValue(other, Get(properties, other)), field);
      case _ =>
    } else {
      NothingIn(field);
    }
  }

  lemma NothingIn(field: string)
    ensures Get([], field) == None
  {
  }

  lemma {:induction false} RequiredPresent(required: seq<Json>, arguments: seq<Field>)
    ensures CheckRequired(required, arguments) == Accepted
       <==> forall i | 0 <= i < |required| :: required[i].Str? && HasKey(arguments, required[i].s)
  {
    hide HasKey;
    if required != [] {
      RequiredPresent(required[1..], arguments);
      assert forall i | 1 <= i < |required| :: required[i] == required[1..][i - 1];
    }
  }

  predicate PropertyAccepted(f: Field, arguments: seq<Field>) {
    f.value.Obj? && Get(arguments, f.key).Some? ==>
      CheckProperty(f.key, f.value, Get(arguments, f.key).value) == Accepted
  }

  lemma {:induction false} PropertiesAccepted(properties: seq<Field>, arguments: seq<Field>)
    ensures CheckProperties(properties, arguments) == Accepted
       <==> forall i | 0 <= i < |properties| :: PropertyAccepted(properties[i], arguments)
  {
    hide CheckProperty, Get;
    if properties != [] {
      PropertiesAccepted(properties[1..], arguments);
      assert forall i | 1 <= i < |properties| :: properties[i] == properties[1..][i - 1];
    }
  }

  /** The contract fits the example shown for it: read off the contract alone. */
  predicate ContractTeaches(contract: Json)
    requires contract.Obj?
  {
    var required, properties := Required(contract), Properties(contract);
    && (forall i | 0 <= i < |required| :: required[i].Str?)
    && (Closed(contract) ==> forall i | 0 <= i < |required| :: required[i].Str? ==> HasKey(properties, required[i].s))
    && (forall i | 0 <= i < |properties| && properties[i].value.Obj? && Str(properties[i].key) in required ::
          SpecTeaches(properties[i].key, properties[i].value))
  }

  lemma PropertiesWellFormed(contract: Json)
    requires contract.Obj? && WellFormed(contract)
    ensures var ps := Properties(contract);
            DistinctKeys(ps) && forall i | 0 <= i < |ps| :: WellFormed(ps[i].value)
  {
    if Member(contract, "properties").Some? {
      MemberWellFormed(contract, "properties");
    }
  }

  lemma IllustrativeRequired(required: seq<Json>, properties: seq<Field>)
    ensures CheckRequired(required, IllustrativeArguments(required, properties)) == Accepted
       <==> forall i | 0 <= i < |required| :: required[i].Str?
  {
    hide Get, IllustrativeArguments;
    var arguments := IllustrativeArguments(required, properties);
    RequiredPresent(required, arguments);
    forall i | 0 <= i < |required| && required[i].Str?
      ensures HasKey(arguments, required[i].s)
    {
      IllustrativeAt(required, properties, required[i].s);
    }
  }

  lemma IllustrativeKeys(required: seq<Json>, properties: seq<Field>, declared: seq<Field>)
    ensures KeysWithin(IllustrativeArguments(required, properties), declared)
       <==> forall i | 0 <= i < |required| :: required[i].Str? ==> HasKey(declared, required[i].s)
  {
    hide IllustrativeArguments, HasKey, Get;
    var arguments := IllustrativeArguments(required, properties);
    forall k
      ensures HasKey(arguments, k) <==> Str(k) in required
    {
      IllustrativeAt(required, properties, k);
    }
    KeysWithinByName(arguments, declared);
    assert forall k :: Str(k) in required ==> exists i | 0 <= i < |required| :: required[i] == Str(k);
  }

  lemma KeysWithinByName(fields: seq<Field>, declared: seq<Field>)
    ensures KeysWithin(fields, declared) <==> forall k :: HasKey(fields, k) ==> HasKey(declared, k)
  {
    if forall k :: HasKey(fields, k) ==> HasKey(declared, k) {
      forall i | 0 <= i < |fields|
        ensures HasKey(declared, fields[i].key)
      {
        assert HasKey(fields, fields[i].key);
      }
    }
  }

  lemma IllustrativeProperties(contract: Json)
    requires contract.Obj? && WellFormed(contract)
    ensures var required, properties := Required(contract), Properties(contract);
            (CheckProperties(properties, IllustrativeArguments(required, properties)) == Accepted
             <==> forall i | 0 <= i < |properties| && properties[i].value.Obj? && Str(properties[i].key) in required ::
                    SpecTeaches(properties[i].key, properties[i].value))
  {
    hide IllustrativeArguments, Get, CheckProperty, SpecTeaches, IllustrativeValue, Required, Properties;
    var required, properties := Required(contract), Properties(contract);
    var arguments := IllustrativeArguments(required, properties);
    PropertiesAccepted(properties, arguments);
    PropertiesWellFormed(contract);
    forall i | 0 <= i < |properties| && properties[i].value.Obj?
      ensures PropertyAccepted(properties[i], arguments)
         <==> (Str(properties[i].key) in required ==> SpecTeaches(properties[i].key, properties[i].value))
    {
      IllustrativeAt(required, properties, properties[i].key);
      GetAt(properties, i);
      SpecTeachesIff(properties[i].key, properties[i].value);
    }
  }

  /** The validator accepts the arguments shown for an action exactly when the contract fits its own example. */
  lemma ContractTeachesIff(contract: Json)
    requires contract.Obj? && WellFormed(contract)
    ensures CheckArguments(contract, IllustrativeArguments(Required(contract), Properties(contract))) == Accepted
       <==> ContractTeaches(contract)
  {
    hide IllustrativeArguments, CheckProperties, CheckRequired, KeysWithin, SpecTeaches, Required, Properties, Closed,
         HasKey;
    var required, properties := Required(contract), Properties(contract);
    IllustrativeRequired(required, properties);
    IllustrativeKeys(required, properties, properties);
    IllustrativeProperties(contract);
  }

  // ----- Which examples the validator accepts: directives -------------------------------------

  predicate HasContract(name: string, request: Json) {
    var contract := Member(Contracts(request), name);
    contract.Some? && contract.value.Obj?
  }

  /** The action is offered, allowed and has a contract object. */
  predicate ActionLegal(name: string, request: Json, shape: Shape) {
    var allowed := Names(request, "allowed_actions");
    && Offers(request, shape, "action")
    && (allowed.Some? ==> Str(name) in allowed.value)
    && HasContract(name, request)
  }

  function ExampleArguments(name: string, request: Json): Json
    requires HasContract(name, request)
  {
    var contract := Member(Contracts(request), name).value;
    Obj(IllustrativeArguments(Required(contract), Properties(contract)))
  }

  lemma OffersHasSchema(request: Json, shape: Shape, kind: string)
    requires Offers(request, shape, kind)
    ensures HasSchema(request, shape)
  {
  }

  lemma ThreeFields(a: Field, b: Field, c: Field)
    requires a.key != b.key && a.key != c.key && b.key != c.key
    ensures var d := Obj([a, b, c]);
            Member(d, a.key) == Some(a.value) && Member(d, b.key) == Some(b.value) && Member(d, c.key) == Some(c.value)
  {
    var fields := [a, b, c];
    GetAt(fields, 0);
    GetAt(fields, 1);
    GetAt(fields, 2);
  }

  /**
   * A concrete action shown in the guidance is accepted by the validator exactly when its contract fits its own
   * example and the example is strict JSON within the byte bound.
   */
  lemma ShownActionAccepted(name: string, request: Json, shape: Shape)
    requires WellFormed(request) && ActionLegal(name, request, shape)
    ensures var contract := Member(Contracts(request), name).value;
            var arguments := ExampleArguments(name, request);
            (Validate(IllustrativeAction(name, request), request, shape) == Accepted
             <==> && ContractTeaches(contract)
                  && StrictJson(arguments) && |Encode(CanonicalJson.Dumps(arguments, false))| <= MAX_ARGUMENT_BYTES)
  {
    LegalHasContract(name, request, shape);
    ShownActionIs(name, request);
    CheckedAction(name, request, shape);
    ShownArgumentsIs(name, request);
    var contract := Member(Contracts(request), name).value;
    hide *;
    ContractWellFormed(name, request);
    ContractTeachesIff(contract);
    ValidatedByKind(IllustrativeAction(name, request), request, shape, "action");
  }

  lemma LegalHasContract(name: string, request: Json, shape: Shape)
    requires ActionLegal(name, request, shape)
    ensures Offers(request, shape, "action") && HasContract(name, request)
  {
    hide Offers, HasContract, Names;
  }

  lemma ShownActionIs(name: string, request: Json)
    requires HasContract(name, request)
    ensures var d := IllustrativeAction(name, request);
            && d.Obj? && KnownFields(d.fields, TopLevelFields("action"))
            && Member(d, "kind") == Some(Str("action")) && Member(d, "name") == Some(Str(name))
            && Member(d, "arguments") == Some(ExampleArguments(name, request))
    ensures Member(Contracts(request), name).Some? && Member(Contracts(request), name).value.Obj?
  {
    hide Get, Contracts, IllustrativeArguments;
    var arguments := ExampleArguments(name, request);
    ThreeFields(Field("kind", Str("action")), Field("name", Str(name)), Field("arguments", arguments));
  }

  lemma ShownArgumentsIs(name: string, request: Json)
    requires HasContract(name, request)
    ensures ExampleArguments(name, request).Obj?
    ensures var contract := Member(Contracts(request), name).value;
            ExampleArguments(name, request).fields == IllustrativeArguments(Required(contract), Properties(contract))
  {
    hide Contracts, IllustrativeArguments, Get;
  }

  lemma ValidatedByKind(d: Json, request: Json, shape: Shape, kind: string)
    requires d.Obj? && Offers(request, shape, kind)
    requires Member(d, "kind") == Some(Str(kind)) && KnownFields(d.fields, TopLevelFields(kind))
    ensures Validate(d, request, shape) == CheckKind(kind, d, request)
  {
    OffersHasSchema(request, shape, kind);
    hide Member, Offers, HasSchema, KnownFields, TopLevelFields, CheckKind;
  }

  lemma CheckedAction(name: string, request: Json, shape: Shape)
    requires ActionLegal(name, request, shape)
    requires Member(IllustrativeAction(name, request), "name") == Some(Str(name))
    requires Member(IllustrativeAction(name, request), "arguments") == Some(ExampleArguments(name, request))
    ensures var contract := Member(Contracts(request), name).value;
            var arguments := ExampleArguments(name, request);
            (CheckKind("action", IllustrativeAction(name, request), request) == Accepted
             <==> && CheckArguments(contract, arguments.fields) == Accepted
                  && StrictJson(arguments) && |Encode(CanonicalJson.Dumps(arguments, false))| <= MAX_ARGUMENT_BYTES)
  {
    hide Get, Offers, Names, StrictJson, IllustrativeArguments, CheckArguments, Contracts, Encode,
         CanonicalJson.Dumps, IllustrativeAction;
  }

  lemma ContractWellFormed(name: string, request: Json)
    requires WellFormed(request) && Member(Contracts(request), name).Some?
    ensures WellFormed(Member(Contracts(request), name).value)
  {
    MemberWellFormed(request, "action_contracts");
    MemberWellFormed(Contracts(request), name);
  }

  lemma {:induction false} EncodeLength(s: string)
    ensures |Encode(s)| <= 4 * |s|
  {
    if s != [] {
      EncodeLength(s[1..]);
    }
  }

  predicate Printable(s: string) {
    forall i | 0 <= i < |s| :: ' ' <= s[i] <= '~'
  }

  lemma PlainWhen(s: string, maximum: nat)
    requires s != [] && Printable(s) && s[0] != ' ' && s[|s| - 1] != ' ' && 4 * |s| <= maximum
    ensures PlainText(s, maximum)
  {
    EncodeLength(s);
    hide Encode;
  }

  lemma StatementPlain()
    ensures IsText(Some(Str("bounded hypothesis")), MAX_STATEMENT_BYTES)
  {
    hide PlainText;
    PlainWhen("bounded hypothesis", MAX_STATEMENT_BYTES);
  }

  lemma ReasonPlain()
    ensures IsText(Some(Str("advance using the sole legal target")), MAX_REASON_BYTES)
  {
    hide PlainText;
    PlainWhen("advance using the sole legal target", MAX_REASON_BYTES);
  }

  /** The transition shown for a sole legal target is always accepted. */
  lemma ShownTransitionAccepted(target: string, request: Json, shape: Shape)
    requires Offers(request, shape, "transition")
    requires var legal := Names(request, "legal_transition_targets"); legal.Some? && Str(target) in legal.value
    ensures Validate(TransitionExample(target), request, shape) == Accepted
  {
    hide *;
    TransitionIs(target);
    ReasonPlain();
    CheckedTransition(TransitionExample(target), target, request);
    ValidatedByKind(TransitionExample(target), request, shape, "transition");
  }

  lemma TransitionIs(target: string)
    ensures var d := TransitionExample(target);
            && d.Obj? && KnownFields(d.fields, TopLevelFields("transition"))
            && Member(d, "kind") == Some(Str("transition")) && Member(d, "target_state") == Some(Str(target))
            && Member(d, "reason") == Some(Str("advance using the sole legal target"))
  {
    hide Get;
    ThreeFields(Field("kind", Str("transition")), Field("target_state", Str(target)),
                Field("reason", Str("advance using the sole legal target")));
  }

  lemma CheckedTransition(d: Json, target: string, request: Json)
    requires Member(d, "target_state") == Some(Str(target)) && IsText(Member(d, "reason"), MAX_REASON_BYTES)
    requires var legal := Names(request, "legal_transition_targets"); legal.Some? && Str(target) in legal.value
    ensures CheckKind("transition", d, request) == Accepted
  {
    hide Member, Names, IsText;
  }

  lemma HypothesisMembers(request: Json, kind: string)
    ensures var d := HypothesisExample(request, kind);
            && Member(d, "kind") == Some(Str(kind))
            && Member(d, "hypothesis_id") == Some(Constrained(request, kind, "hypothesis_id", Str("hypothesis-1")))
            && Member(d, "statement") == Some(Str("bounded hypothesis"))
            && Member(d, "confidence") == Some(Constrained(request, kind, "confidence", Str("low")))
            && Member(d, "evidence_refs") == Some(Constrained(request, kind, "evidence_refs", Arr([])))
            && Member(d, "requires_runtime_evidence") == Some(Bool(RuntimeFlag(request, kind)))
  {
    hide Constrained, RuntimeFlag, Get;
    var fields := HypothesisExample(request, kind).fields;
    assert DistinctKeys(fields);
    GetAt(fields, 0);
    GetAt(fields, 1);
    GetAt(fields, 2);
    GetAt(fields, 3);
    GetAt(fields, 4);
    GetAt(fields, 5);
  }

  /** What the request gives for the fields of a hypothesis, where it gives something, is legal there. */
  predicate HypothesisTeaches(request: Json, kind: string) {
    var id, confidence := Given(request, kind, "hypothesis_id"), Given(request, kind, "confidence");
    var evidence := Given(request, kind, "evidence_refs");
    && (id.Some? ==> IsHypothesisId(id))
    && (confidence.Some? ==> IsOneOf(confidence, CONFIDENCE_VALUES))
    && (evidence.Some? ==> IsEvidence(evidence))
  }

  /**
   * A hypothesis shown in the guidance is accepted exactly when the request gives a legal id, a legal confidence and
   * legal evidence, where it gives any: the defaults, the statement and the flag are always right.
   */
  lemma ShownHypothesisAccepted(request: Json, kind: string, shape: Shape)
    requires kind == "add_hypothesis" || kind == "revise_hypothesis"
    requires Offers(request, shape, kind)
    ensures Validate(HypothesisExample(request, kind), request, shape) == Accepted <==> HypothesisTeaches(request, kind)
  {
    var d := HypothesisExample(request, kind);
    CheckedHypothesis(d, kind, request);
    StatementPlain();
    hide *;
    HypothesisMembers(request, kind);
    HypothesisFieldsKnown(request, kind);
    ValidatedByKind(d, request, shape, kind);
    TeachesIs(request, kind);
  }

  lemma TeachesIs(request: Json, kind: string)
    ensures HypothesisTeaches(request, kind)
       <==> && IsHypothesisId(Some(Constrained(request, kind, "hypothesis_id", Str("hypothesis-1"))))
            && IsOneOf(Some(Constrained(request, kind, "confidence", Str("low"))), CONFIDENCE_VALUES)
            && IsEvidence(Some(Constrained(request, kind, "evidence_refs", Arr([]))))
  {
    DefaultsLegal();
    ConstrainedIs(request, kind, "hypothesis_id", Str("hypothesis-1"));
    ConstrainedIs(request, kind, "confidence", Str("low"));
    ConstrainedIs(request, kind, "evidence_refs", Arr([]));
    hide Constrained, Given, IsHypothesisId, IsOneOf, IsEvidence, CONFIDENCE_VALUES;
  }

  lemma CheckedHypothesis(d: Json, kind: string, request: Json)
    requires kind == "add_hypothesis" || kind == "revise_hypothesis"
    ensures CheckKind(kind, d, request) == Accepted
       <==> && IsHypothesisId(Member(d, "hypothesis_id"))
            && IsText(Member(d, "statement"), MAX_STATEMENT_BYTES)
            && IsOneOf(Member(d, "confidence"), CONFIDENCE_VALUES)
            && IsEvidence(Member(d, "evidence_refs"))
            && Member(d, "requires_runtime_evidence").Some? && Member(d, "requires_runtime_evidence").value.Bool?
  {
    hide Member, IsText, IsHypothesisId, IsOneOf, IsEvidence;
  }

  lemma HypothesisFieldsKnown(request: Json, kind: string)
    requires kind == "add_hypothesis" || kind == "revise_hypothesis"
    ensures var d := HypothesisExample(request, kind);
            d.Obj? && KnownFields(d.fields, TopLevelFields(kind))
  {
    hide Constrained, RuntimeFlag;
  }

  /** Without constraints the defaults are legal. */
  lemma DefaultsLegal()
    ensures IsHypothesisId(Some(Str("hypothesis-1")))
    ensures IsOneOf(Some(Str("low")), CONFIDENCE_VALUES) && IsEvidence(Some(Arr([])))
  {
    EncodeLength("hypothesis-1");
    hide Encode;
    assert T.StripLeft("hypothesis-1") == "hypothesis-1";
    assert T.StripRight("hypothesis-1") == "hypothesis-1";
  }

  // ----- The guidance lines -------------------------------------------------------------------

  datatype Profile = FrozenScientific | InteractiveProvider

  /** The lines of the guidance; the constructors without arguments stand for fixed sentences. */
  datatype Line =
    | Opening
    | NextActions(names: seq<Json>)
    | LegalHypothesis(directive: Json)
    | ReplaceEvidence
    | LegalAction(directive: Json)
    | PlaceholdersAreStructural
    | BreakpointIsShape
    | PatchRules(source: Option<SourceLine>)
    | CurrentDiagnosis
    | LegalDiagnosis(directive: Json)
    | DiagnosisEvidence
    | LegalTransition(directive: Json)
    | TransitionChoice(targets: seq<string>)

  /** The directive kinds of the request: the keys of an object, the texts of a list. */
  predicate IsKind(request: Json, kind: string) {
    match Member(request, "directive_schema")
    case Some(Obj(kinds)) => HasKey(kinds, kind)
    case Some(Arr(kinds)) => Str(kind) in kinds
    case _ => false
  }

  function ProofLines(request: Json): seq<Line> {
    match Member(request, "proof_gate")
    case Some(gate) =>
      (match Member(gate, "next_required_actions")
       case Some(Arr(names)) => if forall i | 0 <= i < |names| :: names[i].Str? then [NextActions(names)] else []
       case _ => [])
    case None => []
  }

  function HypothesisLinesFor(request: Json, kind: string): seq<Line> {
    if !IsKind(request, kind) then []
    else [LegalHypothesis(HypothesisExample(request, kind))] +
         if kind == "revise_hypothesis" then [ReplaceEvidence] else []
  }

  function HypothesisLines(request: Json): seq<Line> {
    match Member(request, "directive_schema")
    case Some(Obj(_)) =>
      HypothesisLinesFor(request, "add_hypothesis") + HypothesisLinesFor(request, "revise_hypothesis")
    case _ => []
  }

  predicate IsPlaceholder(value: Json) {
    value.Str? && value.s != [] && value.s[0] == '<' && value.s[|value.s| - 1] == '>'
  }

  predicate HasPlaceholder(directive: Json) {
    match Member(directive, "arguments")
    case Some(Obj(arguments)) => exists i | 0 <= i < |arguments| :: IsPlaceholder(arguments[i].value)
    case _ => false
  }

  function ActionLinesFor(request: Json, name: Json, source: Option<SourceLine>): seq<Line> {
    if !name.Str? || name.s == [] then []
    else
      var example := IllustrativeAction(name.s, request);
      [LegalAction(example)]
        + (if HasPlaceholder(example) then [PlaceholdersAreStructural] else [])
        + (if name.s == "start_pdb_session" then [BreakpointIsShape] else [])
        + (if name.s == "apply_patch" then [PatchRules(source)] else [])
  }

  function ActionLines(request: Json, names: seq<Json>, source: Option<SourceLine>): seq<Line> {
    if names == [] then []
    else
      var n := |names| - 1;
      ActionLines(request, names[..n], source) + ActionLinesFor(request, names[n], source)
  }

  /** The actions the guidance goes through: none unless the action kind is offered with a list of allowed actions. */
  function ShownActions(request: Json): seq<Json> {
    var allowed := Names(request, "allowed_actions");
    if IsKind(request, "action") && allowed.Some? then allowed.value else []
  }

  const DIAGNOSIS_ACTION: string := "express_root_cause_hypothesis"

  /** The extra lines of the interactive profile; `diagnose` builds the diagnosis example. */
  function DiagnosisLines(request: Json, diagnose: Json -> Option<Json>): seq<Line> {
    if Str(DIAGNOSIS_ACTION) !in ShownActions(request) then []
    else
      match diagnose(request)
      case None => []
      case Some(diagnosis) =>
        var arguments := Member(diagnosis, "arguments");
        [CurrentDiagnosis, LegalDiagnosis(diagnosis)]
          + if arguments.Some? && Member(arguments.value, "evidence_refs").Some? then [DiagnosisEvidence] else []
  }

  function TextNames(names: seq<Json>): seq<string> {
    if names == [] then [] else (if names[0].Str? then [names[0].s] else []) + TextNames(names[1..])
  }

  function TransitionLines(request: Json): seq<Line> {
    var targets := Names(request, "legal_transition_targets");
    if !IsKind(request, "transition") || targets.None? then []
    else
      var legal := TextNames(targets.value);
      if |legal| == 1 then [LegalTransition(TransitionExample(legal[0]))]
      else if legal != [] then [TransitionChoice(legal)]
      else []
  }

  /** Everything before the diagnosis lines. */
  function CommonLines(request: Json, source: Option<SourceLine>): seq<Line> {
    [Opening] + ProofLines(request) + HypothesisLines(request) + ActionLines(request, ShownActions(request), source)
  }

  function FrozenLines(request: Json, source: Option<SourceLine>): seq<Line> {
    CommonLines(request, source) + TransitionLines(request)
  }

  function InteractiveLines(request: Json, source: Option<SourceLine>, diagnose: Json -> Option<Json>): seq<Line> {
    CommonLines(request, source) + DiagnosisLines(request, diagnose) + TransitionLines(request)
  }

  /** The observations a profile looks the breakpoint up in. */
  function Observed(request: Json, profile: Profile): seq<Json> {
    if profile.FrozenScientific? then Candidates(request) else Unique(Candidates(request))
  }

  /** The loop over the allowed actions. */
  method AppendActions(lines: seq<Line>, request: Json, names: seq<Json>, source: Option<SourceLine>)
    returns (r: seq<Line>, diagnosisAdvertised: bool)
    ensures r == lines + ActionLines(request, names, source)
    ensures diagnosisAdvertised <==> Str(DIAGNOSIS_ACTION) in names
  {
    r, diagnosisAdvertised := lines, false;
    assert lines + ActionLines(request, [], source) == lines;
    hide ActionLinesFor, ActionLines, DIAGNOSIS_ACTION, IllustrativeAction, HasPlaceholder;
    for i := 0 to |names|
      invariant r == lines + ActionLines(request, names[..i], source)
      invariant diagnosisAdvertised <==> Str(DIAGNOSIS_ACTION) in names[..i]
    {
      OneMoreAction(lines, request, names, i, source);
      SkippedAction(request, names[i], source);
      if names[i].Str? && names[i].s != [] {
        var name := names[i].s;
        var example := IllustrativeAction(name, request);
        ghost var before := r;
        r := r + [LegalAction(example)];
        if HasPlaceholder(example) {
          r := r + [PlaceholdersAreStructural];
        }
        if name == "start_pdb_session" {
          r := r + [BreakpointIsShape];
        }
        if name == "apply_patch" {
          r := r + [PatchRules(source)];
        }
        ActionLinesAre(before, r, request, name, source);
        if name == DIAGNOSIS_ACTION {
          diagnosisAdvertised := true;
        }
      }
    }
    assert names[..|names|] == names;
  }

  lemma ActionLinesAre(before: seq<Line>, after: seq<Line>, request: Json, name: string, source: Option<SourceLine>)
    requires name != []
    requires var example := IllustrativeAction(name, request);
             var shown := before + [LegalAction(example)];
             var noted := if HasPlaceholder(example) then shown + [PlaceholdersAreStructural] else shown;
             var shaped := if name == "start_pdb_session" then noted + [BreakpointIsShape] else noted;
             after == if name == "apply_patch" then shaped + [PatchRules(source)] else shaped
    ensures after == before + ActionLinesFor(request, Str(name), source)
  {
    hide IllustrativeAction, HasPlaceholder;
  }

  lemma OneMoreAction(lines: seq<Line>, request: Json, names: seq<Json>, i: nat, source: Option<SourceLine>)
    requires i < |names|
    ensures lines + ActionLines(request, names[..i + 1], source) ==
            lines + ActionLines(request, names[..i], source) + ActionLinesFor(request, names[i], source)
    ensures forall name :: name in names[..i + 1] <==> name in names[..i] || name == names[i]
  {
    hide ActionLinesFor;
    assert names[..i + 1][..i] == names[..i];
    assert names[..i + 1] == names[..i] + [names[i]];
    T.AppendAssoc(lines, ActionLines(request, names[..i], source), ActionLinesFor(request, names[i], source));
  }

  lemma SkippedAction(request: Json, name: Json, source: Option<SourceLine>)
    ensures !name.Str? || name.s == [] ==> ActionLinesFor(request, name, source) == [] && name != Str(DIAGNOSIS_ACTION)
  {
  }

  /** build_request_guidance: both builders, which differ in the profile they pass on and in the diagnosis. */
  method BuildRequestGuidance(request: Json, profile: Profile, diagnose: Json -> Option<Json>)
    returns (lines: seq<Line>, source: Option<SourceLine>)
    ensures Answers(CollectAll(Observed(request, profile)), source)
    ensures lines == if profile.FrozenScientific? then FrozenLines(request, source)
                     else InteractiveLines(request, source, diagnose)
  {
    hide Collect, IsKind, ShownActions, ProofLines, HypothesisLines, ActionLines, TransitionLines, DIAGNOSIS_ACTION,
         Candidates, Unique, Answers;
    if profile.FrozenScientific? {
      source := BreakpointSourceFrozen(request);
    } else {
      source := BreakpointSourceInteractive(request);
    }
    lines := [Opening] + ProofLines(request) + HypothesisLines(request);
    var diagnosisAdvertised;
    lines, diagnosisAdvertised := AppendActions(lines, request, ShownActions(request), source);
    if profile.InteractiveProvider? && diagnosisAdvertised {
      lines := lines + DiagnosisLines(request, diagnose);
    }
    lines := lines + TransitionLines(request);
  }

  lemma DiagnosisLinesAre(request: Json, diagnose: Json -> Option<Json>)
    ensures var ls := DiagnosisLines(request, diagnose);
            && (forall k | 0 <= k < |ls| ::
                  ls[k].CurrentDiagnosis? || ls[k].LegalDiagnosis? || ls[k].DiagnosisEvidence?)
            && (Str(DIAGNOSIS_ACTION) !in ShownActions(request) ==> ls == [])
  {
    hide ShownActions, DIAGNOSIS_ACTION;
  }

  /**
   * With well-kept observations the interactive guidance is the frozen guidance with the diagnosis lines inserted
   * at one place, and the two are identical when the diagnosis action is not offered.
   */
  lemma InteractiveExtendsFrozen(request: Json, diagnose: Json -> Option<Json>,
                                 frozen: Option<SourceLine>, interactive: Option<SourceLine>)
    requires WellKept(Candidates(request))
    requires Answers(CollectAll(Observed(request, FrozenScientific)), frozen)
    requires Answers(CollectAll(Observed(request, InteractiveProvider)), interactive)
    ensures var f, i := FrozenLines(request, frozen), InteractiveLines(request, interactive, diagnose);
            var at, inserted := |CommonLines(request, frozen)|, DiagnosisLines(request, diagnose);
            && at <= |f| && i == f[..at] + inserted + f[at..]
            && (forall k | 0 <= k < |inserted| ::
                  inserted[k].CurrentDiagnosis? || inserted[k].LegalDiagnosis? || inserted[k].DiagnosisEvidence?)
            && (Str(DIAGNOSIS_ACTION) !in ShownActions(request) ==> i == f)
  {
    hide CommonLines, TransitionLines, Collect, ShownActions, Candidates, Unique, Answers, DiagnosisLines,
         DIAGNOSIS_ACTION, WellKept;
    LookupsAgree(request, frozen, interactive);
    DiagnosisLinesAre(request, diagnose);
    var f := FrozenLines(request, frozen);
    var at := |CommonLines(request, frozen)|;
    assert f[..at] == CommonLines(request, frozen) && f[at..] == TransitionLines(request);
    assert f[..at] + [] + f[at..] == f;
  }

  // ----- All the directives the guidance shows ------------------------------------------------

  /** The shape in which the request gives its directive schema, and with it the validator it is for. */
  function ShapeOf(request: Json): Shape {
    match Member(request, "directive_schema")
    case Some(Arr(_)) => ListShape
    case _ => MapShape
  }

  /** The directive a line shows; the diagnosis is built elsewhere. */
  function Shown(line: Line): Option<Json> {
    match line
    case LegalHypothesis(d) => Some(d)
    case LegalAction(d) => Some(d)
    case LegalTransition(d) => Some(d)
    case _ => None
  }

  /** A line that shows a directive shows one the validator accepts. */
  predicate ShowsAccepted(line: Line, request: Json) {
    Shown(line).Some? ==> Validate(Shown(line).value, request, ShapeOf(request)) == Accepted
  }

  /** The action has a contract that fits its own example, which is strict JSON within the byte bound. */
  predicate ActionTeaches(name: string, request: Json) {
    && ActionLegal(name, request, ShapeOf(request))
    && ContractTeaches(Member(Contracts(request), name).value)
    && StrictJson(ExampleArguments(name, request))
    && |Encode(CanonicalJson.Dumps(ExampleArguments(name, request), false))| <= MAX_ARGUMENT_BYTES
  }

  /** The request puts only fitting values into the examples: read off its contracts and constraints. */
  predicate RequestTeaches(request: Json) {
    && (forall name | name in ShownActions(request) && name.Str? && name.s != [] :: ActionTeaches(name.s, request))
    && (ShapeOf(request).MapShape? ==> HypothesesTeach(request))
  }

  /** Only a schema that is an object makes the guidance show hypotheses. */
  predicate HypothesesTeach(request: Json) {
    && (IsKind(request, "add_hypothesis") ==> HypothesisTeaches(request, "add_hypothesis"))
    && (IsKind(request, "revise_hypothesis") ==> HypothesisTeaches(request, "revise_hypothesis"))
  }

  /** For either shape the guidance and the validator take the same kinds as offered. */
  lemma KindOffered(request: Json, kind: string)
    ensures IsKind(request, kind) <==> Offers(request, ShapeOf(request), kind)
  {
  }

  lemma AcceptedIsLegal(name: string, request: Json, shape: Shape)
    requires Validate(IllustrativeAction(name, request), request, shape) == Accepted
    ensures ActionLegal(name, request, shape)
  {
    hide Get, Offers, HasSchema, Names, StrictJson, CheckProperties, CheckRequired, IllustrativeArguments, Contracts,
         Closed, KeysWithin, Required, Properties;
    var d := IllustrativeAction(name, request);
    ThreeFields(d.fields[0], d.fields[1], d.fields[2]);
    assert CheckAction(d, request) == Accepted;
  }

  lemma ShownActionIff(name: string, request: Json)
    requires WellFormed(request)
    ensures Validate(IllustrativeAction(name, request), request, ShapeOf(request)) == Accepted
       <==> ActionTeaches(name, request)
  {
    hide Validate, ContractTeaches, ActionLegal, StrictJson, IllustrativeAction, Contracts, Encode,
         CanonicalJson.Dumps, ShapeOf;
    var shape := ShapeOf(request);
    if ActionLegal(name, request, shape) {
      ShownActionAccepted(name, request, shape);
    } else if Validate(IllustrativeAction(name, request), request, shape) == Accepted {
      AcceptedIsLegal(name, request, shape);
    }
  }

  predicate AllShow(lines: seq<Line>, request: Json) {
    forall i | 0 <= i < |lines| :: ShowsAccepted(lines[i], request)
  }

  lemma AllShowConcat(a: seq<Line>, b: seq<Line>, request: Json)
    ensures AllShow(a + b, request) <==> AllShow(a, request) && AllShow(b, request)
  {
    hide ShowsAccepted;
    var c := a + b;
    assert forall i | 0 <= i < |a| :: c[i] == a[i];
    assert forall i | 0 <= i < |b| :: c[|a| + i] == b[i];
  }

  lemma ActionLinesShow(request: Json, name: Json, source: Option<SourceLine>)
    requires WellFormed(request)
    ensures AllShow(ActionLinesFor(request, name, source), request)
       <==> (name.Str? && name.s != [] ==> ActionTeaches(name.s, request))
  {
    hide Validate, ActionTeaches, IllustrativeAction, HasPlaceholder, ShapeOf;
    if name.Str? && name.s != [] {
      var lines := ActionLinesFor(request, name, source);
      ShownActionIff(name.s, request);
      assert lines[0] == LegalAction(IllustrativeAction(name.s, request));
      assert forall i | 1 <= i < |lines| ::
        lines[i].PlaceholdersAreStructural? || lines[i].BreakpointIsShape? || lines[i].PatchRules?;
    }
  }

  lemma {:induction false} AllActionLinesShow(request: Json, names: seq<Json>, source: Option<SourceLine>)
    requires WellFormed(request)
    ensures AllShow(ActionLines(request, names, source), request)
       <==> forall name | name in names && name.Str? && name.s != [] :: ActionTeaches(name.s, request)
  {
    hide AllShow, ActionLinesFor, ActionTeaches, WellFormed;
    if names == [] {
      NoLinesShow(request);
    } else {
      var n := |names| - 1;
      AllActionLinesShow(request, names[..n], source);
      ActionLinesShow(request, names[n], source);
      AllShowConcat(ActionLines(request, names[..n], source), ActionLinesFor(request, names[n], source), request);
      assert names == names[..n] + [names[n]];
    }
  }

  lemma NoLinesShow(request: Json)
    ensures AllShow([], request)
  {
  }

  lemma HypothesisLinesForShow(request: Json, kind: string)
    requires kind == "add_hypothesis" || kind == "revise_hypothesis"
    ensures AllShow(HypothesisLinesFor(request, kind), request)
       <==> (IsKind(request, kind) ==> HypothesisTeaches(request, kind))
  {
    hide Validate, HypothesisTeaches, HypothesisExample, IsKind, Offers, ShapeOf;
    KindOffered(request, kind);
    if IsKind(request, kind) {
      ShownHypothesisIff(request, kind);
      var lines := HypothesisLinesFor(request, kind);
      assert lines[0] == LegalHypothesis(HypothesisExample(request, kind));
      assert forall i | 1 <= i < |lines| :: lines[i].ReplaceEvidence?;
    }
  }

  lemma HypothesisLinesAre(request: Json)
    ensures HypothesisLines(request) ==
            if ShapeOf(request).ListShape? then []
            else HypothesisLinesFor(request, "add_hypothesis") + HypothesisLinesFor(request, "revise_hypothesis")
  {
    hide HypothesisExample;
  }

  lemma HypothesisLinesShow(request: Json)
    ensures AllShow(HypothesisLines(request), request) <==> (ShapeOf(request).MapShape? ==> HypothesesTeach(request))
  {
    HypothesisLinesAre(request);
    hide AllShow, HypothesisTeaches, IsKind, ShapeOf, HypothesisLinesFor, HypothesisLines;
    var add, revise := HypothesisLinesFor(request, "add_hypothesis"), HypothesisLinesFor(request, "revise_hypothesis");
    HypothesisLinesForShow(request, "add_hypothesis");
    HypothesisLinesForShow(request, "revise_hypothesis");
    AllShowConcat(add, revise, request);
    NoLinesShow(request);
  }

  lemma ShownHypothesisIff(request: Json, kind: string)
    requires kind == "add_hypothesis" || kind == "revise_hypothesis"
    requires Offers(request, ShapeOf(request), kind)
    ensures Validate(HypothesisExample(request, kind), request, ShapeOf(request)) == Accepted
       <==> HypothesisTeaches(request, kind)
  {
    hide Validate, HypothesisExample, Offers, HypothesisTeaches, ShapeOf;
    ShownHypothesisAccepted(request, kind, ShapeOf(request));
  }

  lemma {:induction false} TextNamesAre(names: seq<Json>, name: string)
    ensures name in TextNames(names) <==> Str(name) in names
  {
    if names != [] {
      TextNamesAre(names[1..], name);
    }
  }

  lemma TransitionLinesShow(request: Json)
    ensures AllShow(TransitionLines(request), request)
  {
    hide Validate, TransitionExample, IsKind, Offers, ShapeOf, Names, TextNames;
    KindOffered(request, "transition");
    var targets := Names(request, "legal_transition_targets");
    if IsKind(request, "transition") && targets.Some? && |TextNames(targets.value)| == 1 {
      var target := TextNames(targets.value)[0];
      TextNamesAre(targets.value, target);
      ShownTransitionAccepted(target, request, ShapeOf(request));
      ShowsOne(LegalTransition(TransitionExample(target)), request);
    }
  }

  lemma ShowsOne(line: Line, request: Json)
    requires ShowsAccepted(line, request)
    ensures AllShow([line], request)
  {
    hide ShowsAccepted;
  }

  lemma FixedLinesShow(request: Json)
    ensures AllShow([Opening] + ProofLines(request), request)
  {
    var lines := ProofLines(request);
    assert forall i | 0 <= i < |lines| :: lines[i].NextActions?;
  }

  /**
   * Every concrete directive the guidance shows is accepted by the validator of the request's shape exactly when the
   * request's own contracts and constraints fit the examples made from them.
   */
  lemma GuidanceShowsAccepted(request: Json, source: Option<SourceLine>)
    requires WellFormed(request)
    ensures AllShow(FrozenLines(request, source), request) <==> RequestTeaches(request)
  {
    hide AllShow, ActionLines, ProofLines, TransitionLines, ShownActions, HypothesisLines, HypothesesTeach,
         ActionTeaches, WellFormed,
      ShapeOf;
    var fixed, actions := [Opening] + ProofLines(request), ActionLines(request, ShownActions(request), source);
    FixedLinesShow(request);
    HypothesisLinesShow(request);
    AllActionLinesShow(request, ShownActions(request), source);
    TransitionLinesShow(request);
    AllShowConcat(fixed, HypothesisLines(request), request);
    AllShowConcat(fixed + HypothesisLines(request), actions, request);
    AllShowConcat(CommonLines(request, source), TransitionLines(request), request);
  }
}
