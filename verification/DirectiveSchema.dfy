/** The JSON Schema the AGY adapter generates from a request, and what it means for the validator. */
module DirectiveSchema {
  import opened Wrappers
  import opened Json
  import opened DirectiveValidator
  import opened Utf8
  import CanonicalJson

  // ----- The keywords used (JSON Schema Core and Validation 2020-12) --------------------------

  datatype Schema =
    | Type(name: string)
    | Const(value: Json)
    | Enum(values: seq<Json>)
    | ListOf(item: Schema)
    | ClosedObject(required: set<string>, properties: map<string, Schema>)
    | OneOf(variants: seq<Schema>)

  predicate IsType(v: Json, name: string) {
    match name
    case "string" => v.Str?
    case "boolean" => v.Bool?
    case "object" => v.Obj?
    case _ => false
  }

  /** Does `v` satisfy the schema? `OneOf` asks for exactly one variant (section 10.2.1.3 of Core). */
  predicate Satisfies(v: Json, schema: Schema)
    decreases schema
  {
    match schema
    case Type(name) => IsType(v, name)
    case Const(value) => v == value
    case Enum(values) => v in values
    case ListOf(item) => v.Arr? && forall i | 0 <= i < |v.items| :: Satisfies(v.items[i], item)
    case ClosedObject(required, properties) =>
      && v.Obj?
      && (forall key | key in required :: HasKey(v.fields, key))
      && forall i | 0 <= i < |v.fields| ::
           v.fields[i].key in properties && Satisfies(v.fields[i].value, properties[v.fields[i].key])
    case OneOf(variants) =>
      exists i | 0 <= i < |variants| ::
        && Satisfies(v, variants[i])
        && forall j | 0 <= j < |variants| && j != i :: !Satisfies(v, variants[j])
  }

  // ----- The generated schema -----------------------------------------------------------------

  datatype Failure = NoKinds | NoVariants

  function Kinds(request: Json): seq<Json> {
    match Member(request, "directive_schema")
    case Some(Arr(kinds)) => kinds
    case _ => []
  }

  function NamesOrNone(request: Json, key: string): seq<Json> {
    var names := Names(request, key);
    if names.Some? then names.value else []
  }

  function Texts(items: seq<Json>): seq<Json> {
    if items == [] then [] else (if items[0].Str? then [items[0]] else []) + Texts(items[1..])
  }

  /** The allowed actions that have an argument contract. */
  function ActionNames(allowed: seq<Json>, contracts: Json): seq<Json>
    requires contracts.Obj?
  {
    if allowed == [] then []
    else
      (if allowed[0].Str? && HasKey(contracts.fields, allowed[0].s) then [allowed[0]] else [])
        + ActionNames(allowed[1..], contracts)
  }

  function Strings(values: seq<string>): seq<Json> {
    seq(|values|, i requires 0 <= i < |values| => Str(values[i]))
  }

  function ActionVariant(names: seq<Json>): Schema {
    ClosedObject({"kind", "name", "arguments"},
                 map["kind" := Const(Str("action")), "name" := Enum(names), "arguments" := Type("object")])
  }

  function TransitionVariant(targets: seq<Json>): Schema {
    ClosedObject({"kind", "target_state", "reason"},
                 map["kind" := Const(Str("transition")), "target_state" := Enum(targets), "reason" := Type("string")])
  }

  function HypothesisVariant(kind: string): Schema {
    ClosedObject({"kind", "hypothesis_id", "statement", "confidence", "evidence_refs", "requires_runtime_evidence"},
                 map["kind" := Const(Str(kind)),
                     "hypothesis_id" := Type("string"),
                     "statement" := Type("string"),
                     "confidence" := Enum(Strings(CONFIDENCE_VALUES)),
                     "evidence_refs" := ListOf(Type("string")),
                     "requires_runtime_evidence" := Type("boolean")])
  }

  const STATUS_VARIANT: Schema :=
    ClosedObject({"kind", "hypothesis_id", "status"},
                 map["kind" := Const(Str("set_hypothesis_status")),
                     "hypothesis_id" := Type("string"),
                     "status" := Enum(Strings(STATUS_VALUES))])

  /** The variants for one directive kind: none or one. */
  function VariantsFor(kind: string, request: Json): seq<Schema> {
    if Str(kind) !in Kinds(request) then []
    else
      match kind
      case "action" =>
        var names := ActionNames(NamesOrNone(request, "allowed_actions"), Contracts(request));
        if names == [] then [] else [ActionVariant(names)]
      case "transition" =>
        var legal := NamesOrNone(request, "legal_transition_targets");
        if legal == [] then [] else [TransitionVariant(Texts(legal))]
      case "set_hypothesis_status" => [STATUS_VARIANT]
      case _ => [HypothesisVariant(kind)]
  }

  /** build_directive_json_schema. */
  method BuildDirectiveJsonSchema(request: Json) returns (r: Result<Schema, Failure>)
    ensures r == SchemaOf(request)
  {
    VariantsInOrder(request);
    ActionCase(request);
    TransitionCase(request);
    OtherCases(request);
    SchemaCases(request);
    hide *;
    ghost var a, b := VariantsFor("action", request), VariantsFor("transition", request);
    ghost var c := VariantsFor("add_hypothesis", request);
    ghost var d, e := VariantsFor("revise_hypothesis", request), VariantsFor("set_hypothesis_status", request);
    var kinds := Kinds(request);
    if kinds == [] {
      return Err(NoKinds);
    }
    var allowed := NamesOrNone(request, "allowed_actions");
    var legal := NamesOrNone(request, "legal_transition_targets");
    var variants: seq<Schema> := [];
    if Str("action") in kinds && allowed != [] {
      var actionNames := ActionNames(allowed, Contracts(request));
      if actionNames != [] {
        variants := variants + [ActionVariant(actionNames)];
      }
    }
    assert variants == a;
    ghost var before := variants;
    if Str("transition") in kinds && legal != [] {
      variants := variants + [TransitionVariant(Texts(legal))];
    }
    Extended(before, variants, b);
    before := variants;
    if Str("add_hypothesis") in kinds {
      variants := variants + [HypothesisVariant("add_hypothesis")];
    }
    Extended(before, variants, c);
    before := variants;
    if Str("revise_hypothesis") in kinds {
      variants := variants + [HypothesisVariant("revise_hypothesis")];
    }
    Extended(before, variants, d);
    before := variants;
    if Str("set_hypothesis_status") in kinds {
      variants := variants + [STATUS_VARIANT];
    }
    Extended(before, variants, e);
    if variants == [] {
      return Err(NoVariants);
    }
    if |variants| == 1 {
      return Ok(variants[0]);
    }
    return Ok(OneOf(variants));
  }

  lemma Extended(before: seq<Schema>, after: seq<Schema>, own: seq<Schema>)
    requires if own == [] then after == before else after == before + own
    ensures after == before + own
  {
  }

  lemma SchemaCases(request: Json)
    ensures var variants := Variants(KINDS, request);
            SchemaOf(request) == if Kinds(request) == [] then Err(NoKinds)
                                 else if variants == [] then Err(NoVariants)
                                 else if |variants| == 1 then Ok(variants[0])
                                 else Ok(OneOf(variants))
  {
    hide Kinds, Variants, KINDS;
  }

  lemma ActionCase(request: Json)
    ensures var names := ActionNames(NamesOrNone(request, "allowed_actions"), Contracts(request));
            VariantsFor("action", request) ==
            if Str("action") in Kinds(request) && names != [] then [ActionVariant(names)] else []
    ensures ActionNames([], Contracts(request)) == []
  {
    hide NamesOrNone, Kinds, ActionVariant;
  }

  lemma TransitionCase(request: Json)
    ensures var legal := NamesOrNone(request, "legal_transition_targets");
            VariantsFor("transition", request) ==
            if Str("transition") in Kinds(request) && legal != [] then [TransitionVariant(Texts(legal))] else []
  {
    hide NamesOrNone, Kinds, TransitionVariant, Texts;
  }

  lemma OtherCases(request: Json)
    ensures VariantsFor("add_hypothesis", request) ==
            if Str("add_hypothesis") in Kinds(request) then [HypothesisVariant("add_hypothesis")] else []
    ensures VariantsFor("revise_hypothesis", request) ==
            if Str("revise_hypothesis") in Kinds(request) then [HypothesisVariant("revise_hypothesis")] else []
    ensures VariantsFor("set_hypothesis_status", request) ==
            if Str("set_hypothesis_status") in Kinds(request) then [STATUS_VARIANT] else []
  {
    hide NamesOrNone, Kinds, HypothesisVariant;
  }

  const KINDS: seq<string> := ["action", "transition", "add_hypothesis", "revise_hypothesis", "set_hypothesis_status"]

  function Variants(kinds: seq<string>, request: Json): seq<Schema> {
    if kinds == [] then [] else VariantsFor(kinds[0], request) + Variants(kinds[1..], request)
  }

  function SchemaOf(request: Json): Result<Schema, Failure> {
    var variants := Variants(KINDS, request);
    if Kinds(request) == [] then Err(NoKinds)
    else if variants == [] then Err(NoVariants)
    else Ok(Combined(variants))
  }

  /** One variant stands for itself. */
  function Combined(variants: seq<Schema>): Schema
    requires variants != []
  {
    if |variants| == 1 then variants[0] else OneOf(variants)
  }

  lemma VariantsInOrder(request: Json)
    ensures Variants(KINDS, request) ==
            VariantsFor("action", request) + VariantsFor("transition", request) + VariantsFor("add_hypothesis", request)
              + VariantsFor("revise_hypothesis", request) + VariantsFor("set_hypothesis_status", request)
  {
    hide VariantsFor;
    var k1, k2 := KINDS[1..], KINDS[1..][1..];
    var k3, k4 := k2[1..], k2[1..][1..];
    assert k1 == ["transition", "add_hypothesis", "revise_hypothesis", "set_hypothesis_status"];
    assert k2 == ["add_hypothesis", "revise_hypothesis", "set_hypothesis_status"];
    assert k3 == ["revise_hypothesis", "set_hypothesis_status"];
    assert k4 == ["set_hypothesis_status"] && k4[1..] == [];
    var a, b := VariantsFor("action", request), VariantsFor("transition", request);
    var c := VariantsFor("add_hypothesis", request);
    var d, e := VariantsFor("revise_hypothesis", request), VariantsFor("set_hypothesis_status", request);
    assert Variants(k4, request) == e + [];
    assert Variants(k3, request) == d + (e + []);
    assert Variants(k2, request) == c + (d + (e + []));
    assert Variants(k1, request) == b + (c + (d + (e + [])));
    assert a + (b + (c + (d + (e + [])))) == a + b + c + d + e;
  }

  // ----- What the variants mean ---------------------------------------------------------------

  /** The kind a variant pins down. */
  function KindOf(schema: Schema): Option<string> {
    if schema.ClosedObject? && "kind" in schema.properties && "kind" in schema.required
       && schema.properties["kind"].Const? && schema.properties["kind"].value.Str? then
      Some(schema.properties["kind"].value.s)
    else None
  }

  lemma ActionKind(names: seq<Json>)
    ensures KindOf(ActionVariant(names)) == Some("action")
  {
  }

  lemma TransitionKind(targets: seq<Json>)
    ensures KindOf(TransitionVariant(targets)) == Some("transition")
  {
  }

  lemma HypothesisKind(kind: string)
    ensures KindOf(HypothesisVariant(kind)) == Some(kind)
  {
  }

  lemma StatusKind()
    ensures KindOf(STATUS_VARIANT) == Some("set_hypothesis_status")
  {
  }

  lemma KindsAre(kind: string)
    ensures kind in KINDS
       <==> kind == "action" || kind == "transition" || kind == "add_hypothesis" || kind == "revise_hypothesis"
                               || kind == "set_hypothesis_status"
  {
  }

  lemma AtMostOneVariant(kind: string, request: Json)
    ensures |VariantsFor(kind, request)| <= 1
  {
    hide Kinds, NamesOrNone, ActionNames, Contracts, ActionVariant, TransitionVariant, HypothesisVariant, Texts,
         STATUS_VARIANT;
  }

  lemma VariantKinds(kind: string, request: Json)
    ensures |VariantsFor(kind, request)| <= 1
    ensures kind in KINDS && VariantsFor(kind, request) != [] ==> KindOf(VariantsFor(kind, request)[0]) == Some(kind)
  {
    hide *;
    AtMostOneVariant(kind, request);
    KindsAre(kind);
    ActionCase(request);
    ActionKind(ActionNames(NamesOrNone(request, "allowed_actions"), Contracts(request)));
    TransitionCase(request);
    TransitionKind(Texts(NamesOrNone(request, "legal_transition_targets")));
    OtherCases(request);
    HypothesisKind(kind);
    StatusKind();
  }

  lemma SatisfiesKind(d: Json, schema: Schema)
    requires d.Obj? && DistinctKeys(d.fields) && KindOf(schema).Some? && Satisfies(d, schema)
    ensures Member(d, "kind") == Some(Str(KindOf(schema).value))
  {
    assert HasKey(d.fields, "kind");
    var i :| 0 <= i < |d.fields| && d.fields[i].key == "kind";
    GetAt(d.fields, i);
  }

  /** A closed object that requires all it declares: the declared members, each as declared, and no others. */
  lemma ClosedMeaning(fields: seq<Field>, properties: map<string, Schema>)
    requires DistinctKeys(fields)
    ensures Satisfies(Obj(fields), ClosedObject(properties.Keys, properties))
       <==> && KnownFields(fields, properties.Keys)
            && forall key | key in properties ::
                 Get(fields, key).Some? && Satisfies(Get(fields, key).value, properties[key])
  {
    forall i | 0 <= i < |fields|
      ensures Get(fields, fields[i].key) == Some(fields[i].value)
    {
      GetAt(fields, i);
    }
    if Satisfies(Obj(fields), ClosedObject(properties.Keys, properties)) {
      forall key | key in properties
        ensures Get(fields, key).Some? && Satisfies(Get(fields, key).value, properties[key])
      {
        assert HasKey(fields, key);
        var i :| 0 <= i < |fields| && fields[i].key == key;
        assert Get(fields, fields[i].key) == Some(fields[i].value);
      }
    }
  }

  lemma {:induction false} ActionNamesAre(allowed: seq<Json>, contracts: Json, name: Json)
    requires contracts.Obj?
    ensures name in ActionNames(allowed, contracts)
       <==> name in allowed && name.Str? && HasKey(contracts.fields, name.s)
  {
    if allowed != [] {
      ActionNamesAre(allowed[1..], contracts, name);
    }
  }

  lemma {:induction false} TextsAre(items: seq<Json>, item: Json)
    ensures item in Texts(items) <==> item in items && item.Str?
  {
    if items != [] {
      TextsAre(items[1..], item);
    }
  }

  lemma StringsAre(values: seq<string>, value: Json)
    ensures value in Strings(values) <==> value.Str? && value.s in values
  {
    if value.Str? && value.s in values {
      var i :| 0 <= i < |values| && values[i] == value.s;
      assert Strings(values)[i] == value;
    }
  }

  // ----- Accepted directives, kind by kind ----------------------------------------------------

  /** A directive as the decoder delivers it, with its kind and no field beyond those of its kind. */
  predicate Enveloped(d: Json, kind: string) {
    && d.Obj? && DistinctKeys(d.fields)
    && Member(d, "kind") == Some(Str(kind))
    && KnownFields(d.fields, TopLevelFields(kind))
  }

  /** The member of that name is present and satisfies the schema. */
  predicate Holds(d: Json, key: string, schema: Schema) {
    Member(d, key).Some? && Satisfies(Member(d, key).value, schema)
  }

  lemma VariantMeaning(d: Json, kind: string, properties: map<string, Schema>)
    requires d.Obj? && DistinctKeys(d.fields)
    requires properties.Keys == TopLevelFields(kind) && "kind" in properties && properties["kind"] == Const(Str(kind))
    ensures Satisfies(d, ClosedObject(properties.Keys, properties))
       <==> Enveloped(d, kind) && forall key | key in properties && key != "kind" :: Holds(d, key, properties[key])
  {
    hide Get, KnownFields, TopLevelFields;
    ClosedMeaning(d.fields, properties);
    assert Satisfies(Str(kind), Const(Str(kind)));
  }

  lemma ActionMeaning(d: Json, names: seq<Json>)
    requires d.Obj? && DistinctKeys(d.fields)
    ensures Satisfies(d, ActionVariant(names))
       <==> Enveloped(d, "action") && Holds(d, "name", Enum(names)) && Holds(d, "arguments", Type("object"))
  {
    hide Satisfies, Enveloped, Holds, DistinctKeys;
    VariantMeaning(d, "action", ActionVariant(names).properties);
  }

  lemma TransitionMeaning(d: Json, targets: seq<Json>)
    requires d.Obj? && DistinctKeys(d.fields)
    ensures Satisfies(d, TransitionVariant(targets))
       <==> Enveloped(d, "transition") && Holds(d, "target_state", Enum(targets)) && Holds(d, "reason", Type("string"))
  {
    hide Satisfies, Enveloped, Holds, DistinctKeys;
    VariantMeaning(d, "transition", TransitionVariant(targets).properties);
  }

  lemma HypothesisMeaning(d: Json, kind: string)
    requires d.Obj? && DistinctKeys(d.fields) && (kind == "add_hypothesis" || kind == "revise_hypothesis")
    ensures Satisfies(d, HypothesisVariant(kind))
       <==> && Enveloped(d, kind)
            && Holds(d, "hypothesis_id", Type("string"))
            && Holds(d, "statement", Type("string"))
            && Holds(d, "confidence", Enum(Strings(CONFIDENCE_VALUES)))
            && Holds(d, "evidence_refs", ListOf(Type("string")))
            && Holds(d, "requires_runtime_evidence", Type("boolean"))
  {
    hide Satisfies, Enveloped, Holds, DistinctKeys;
    VariantMeaning(d, kind, HypothesisVariant(kind).properties);
  }

  lemma StatusMeaning(d: Json)
    requires d.Obj? && DistinctKeys(d.fields)
    ensures Satisfies(d, STATUS_VARIANT)
       <==> && Enveloped(d, "set_hypothesis_status")
            && Holds(d, "hypothesis_id", Type("string"))
            && Holds(d, "status", Enum(Strings(STATUS_VALUES)))
  {
    hide Satisfies, Enveloped, Holds, DistinctKeys;
    VariantMeaning(d, "set_hypothesis_status", STATUS_VARIANT.properties);
  }

  // ----- One variant for each kind ------------------------------------------------------------

  /** The variant of one of those kinds, and the only one of it. */
  predicate VariantOfOne(v: Schema, kinds: seq<string>, request: Json) {
    KindOf(v).Some? && KindOf(v).value in kinds && VariantsFor(KindOf(v).value, request) == [v]
  }

  /** The variants of those kinds: each is the one of its kind, no kind comes twice, and none of a kind is missing. */
  ghost predicate OnePerKind(vs: seq<Schema>, kinds: seq<string>, request: Json) {
    && (forall i | 0 <= i < |vs| :: VariantOfOne(vs[i], kinds, request))
    && (forall i, j | 0 <= i < j < |vs| :: KindOf(vs[i]) != KindOf(vs[j]))
    && (forall k | k in kinds && VariantsFor(k, request) != [] :: VariantsFor(k, request)[0] in vs)
  }

  lemma {:induction false} VariantsAre(kinds: seq<string>, request: Json)
    requires forall i | 0 <= i < |kinds| :: kinds[i] in KINDS
    requires forall i, j | 0 <= i < j < |kinds| :: kinds[i] != kinds[j]
    ensures OnePerKind(Variants(kinds, request), kinds, request)
  {
    hide VariantsFor, KindOf, KINDS;
    if kinds != [] {
      var k, rest := kinds[0], kinds[1..];
      var own, more := VariantsFor(k, request), Variants(rest, request);
      assert Variants(kinds, request) == own + more;
      assert kinds == [k] + rest;
      assert forall i | 0 <= i < |rest| :: rest[i] == kinds[i + 1];
      assert k !in rest;
      VariantKinds(k, request);
      hide *;
      VariantsAre(rest, request);
      VariantsCons(own, k, rest, more, request);
    }
  }

  lemma VariantOfMore(v: Schema, k: string, rest: seq<string>, request: Json)
    ensures VariantOfOne(v, rest, request) ==>
              VariantOfOne(v, [k] + rest, request) && (k !in rest ==> KindOf(v) != Some(k))
    ensures KindOf(v) == Some(k) && VariantsFor(k, request) == [v] ==> VariantOfOne(v, [k] + rest, request)
  {
    hide KindOf, VariantsFor;
  }

  lemma EachIsOne(own: seq<Schema>, k: string, rest: seq<string>, more: seq<Schema>, request: Json)
    requires own == VariantsFor(k, request) && |own| <= 1 && (own != [] ==> KindOf(own[0]) == Some(k))
    requires forall i | 0 <= i < |more| :: VariantOfOne(more[i], rest, request)
    ensures forall i | 0 <= i < |own + more| :: VariantOfOne((own + more)[i], [k] + rest, request)
  {
    hide KindOf, VariantsFor, VariantOfOne;
    forall i | 0 <= i < |own + more|
      ensures VariantOfOne((own + more)[i], [k] + rest, request)
    {
      var v := (own + more)[i];
      if i < |own| {
        assert own == [v];
      } else {
        assert v == more[i - |own|];
      }
      VariantOfMore(v, k, rest, request);
    }
  }

  lemma KindsApart(own: seq<Schema>, k: string, rest: seq<string>, more: seq<Schema>, request: Json)
    requires |own| <= 1 && (own != [] ==> KindOf(own[0]) == Some(k)) && k !in rest
    requires forall i | 0 <= i < |more| :: VariantOfOne(more[i], rest, request)
    requires forall i, j | 0 <= i < j < |more| :: KindOf(more[i]) != KindOf(more[j])
    ensures forall i, j | 0 <= i < j < |own + more| :: KindOf((own + more)[i]) != KindOf((own + more)[j])
  {
    hide KindOf, VariantOfOne;
    var n := |own|;
    forall i, j | 0 <= i < j < |own + more|
      ensures KindOf((own + more)[i]) != KindOf((own + more)[j])
    {
      assert (own + more)[j] == more[j - n];
      VariantOfMore(more[j - n], k, rest, request);
      if i < n {
        assert (own + more)[i] == own[0];
      } else {
        assert (own + more)[i] == more[i - n];
      }
    }
  }

  lemma NoneMissing(k: string, rest: seq<string>, more: seq<Schema>, request: Json)
    requires forall x | x in rest && VariantsFor(x, request) != [] :: VariantsFor(x, request)[0] in more
    ensures forall x | x in [k] + rest && VariantsFor(x, request) != [] ::
              VariantsFor(x, request)[0] in VariantsFor(k, request) + more
  {
    hide VariantsFor;
  }

  lemma VariantsCons(own: seq<Schema>, k: string, rest: seq<string>, more: seq<Schema>, request: Json)
    requires own == VariantsFor(k, request) && |own| <= 1 && (own != [] ==> KindOf(own[0]) == Some(k))
    requires k !in rest && OnePerKind(more, rest, request)
    ensures OnePerKind(own + more, [k] + rest, request)
  {
    hide KindOf, VariantsFor, VariantOfOne;
    EachIsOne(own, k, rest, more, request);
    KindsApart(own, k, rest, more, request);
    NoneMissing(k, rest, more, request);
  }

  lemma VariantAt(request: Json, i: nat)
    requires i < |Variants(KINDS, request)|
    ensures var v := Variants(KINDS, request)[i];
            KindOf(v).Some? && KindOf(v).value in KINDS && VariantsFor(KindOf(v).value, request) == [v]
  {
    KindsDistinct();
    hide VariantsFor, KindOf, KINDS, Variants;
    VariantsAre(KINDS, request);
  }

  lemma KindsDistinct()
    ensures forall i, j | 0 <= i < j < |KINDS| :: KINDS[i] != KINDS[j]
  {
  }

  /** The request yields a schema and `d` satisfies it. */
  predicate SatisfiesSchema(d: Json, request: Json) {
    SchemaOf(request).Ok? && Satisfies(d, SchemaOf(request).value)
  }

  lemma SomeVariant(d: Json, vs: seq<Schema>) returns (i: nat)
    requires vs != [] && Satisfies(d, Combined(vs))
    ensures i < |vs| && Satisfies(d, vs[i])
  {
    if |vs| == 1 {
      i := 0;
    } else {
      i :| 0 <= i < |vs| && Satisfies(d, vs[i]);
    }
  }

  lemma OnlyVariant(d: Json, vs: seq<Schema>, i: nat)
    requires i < |vs| && Satisfies(d, vs[i]) && forall j | 0 <= j < |vs| && j != i :: !Satisfies(d, vs[j])
    ensures Satisfies(d, Combined(vs))
  {
    if |vs| > 1 {
      assert Satisfies(d, OneOf(vs));
    }
  }

  /** With several variants, `oneOf` is never ambiguous: only the variant of the directive's own kind can match. */
  lemma SchemaByKind(d: Json, request: Json, kind: string)
    requires d.Obj? && DistinctKeys(d.fields) && Member(d, "kind") == Some(Str(kind)) && kind in KINDS
    ensures SatisfiesSchema(d, request)
       <==> VariantsFor(kind, request) != [] && Satisfies(d, VariantsFor(kind, request)[0])
  {
    hide *;
    if SatisfiesSchema(d, request) {
      SchemaOfKind(d, request, kind);
    }
    if VariantsFor(kind, request) != [] && Satisfies(d, VariantsFor(kind, request)[0]) {
      KindSatisfiesSchema(d, request, kind);
    }
  }

  /** The variant a directive satisfies is the one of its kind. */
  lemma SchemaOfKind(d: Json, request: Json, kind: string)
    requires d.Obj? && DistinctKeys(d.fields) && Member(d, "kind") == Some(Str(kind))
    requires SatisfiesSchema(d, request)
    ensures VariantsFor(kind, request) != [] && Satisfies(d, VariantsFor(kind, request)[0])
  {
    SchemaIsCombined(d, request);
    hide *;
    var vs := Variants(KINDS, request);
    var i := SomeVariant(d, vs);
    VariantAt(request, i);
    SatisfiesKind(d, vs[i]);
  }

  lemma SchemaIsCombined(d: Json, request: Json)
    ensures var vs := Variants(KINDS, request);
            SatisfiesSchema(d, request) <==> vs != [] && Satisfies(d, Combined(vs))
  {
    NoKindsNoVariants(request);
    hide Variants, KINDS, Satisfies, Combined, Kinds;
  }

  lemma KindSatisfiesSchema(d: Json, request: Json, kind: string)
    requires d.Obj? && DistinctKeys(d.fields) && Member(d, "kind") == Some(Str(kind)) && kind in KINDS
    requires VariantsFor(kind, request) != [] && Satisfies(d, VariantsFor(kind, request)[0])
    ensures SatisfiesSchema(d, request)
  {
    hide *;
    var vs := Variants(KINDS, request);
    var i := VariantOfKind(request, kind);
    forall j | 0 <= j < |vs| && j != i
      ensures !Satisfies(d, vs[j])
    {
      if Satisfies(d, vs[j]) {
        VariantAt(request, j);
        SatisfiesKind(d, vs[j]);
        VariantsApart(request, i, j);
      }
    }
    OnlyVariant(d, vs, i);
    SchemaIsCombined(d, request);
  }

  lemma VariantOfKind(request: Json, kind: string) returns (i: nat)
    requires kind in KINDS && VariantsFor(kind, request) != []
    ensures i < |Variants(KINDS, request)| && Variants(KINDS, request)[i] == VariantsFor(kind, request)[0]
    ensures KindOf(Variants(KINDS, request)[i]) == Some(kind)
  {
    KindsDistinct();
    VariantKinds(kind, request);
    hide VariantsFor, KindOf, KINDS, Variants;
    VariantsAre(KINDS, request);
    i :| 0 <= i < |Variants(KINDS, request)| && Variants(KINDS, request)[i] == VariantsFor(kind, request)[0];
  }

  lemma VariantsApart(request: Json, i: nat, j: nat)
    requires i < |Variants(KINDS, request)| && j < |Variants(KINDS, request)| && i != j
    ensures KindOf(Variants(KINDS, request)[i]) != KindOf(Variants(KINDS, request)[j])
  {
    KindsDistinct();
    hide VariantsFor, KindOf, KINDS, Variants;
    VariantsAre(KINDS, request);
  }

  lemma {:induction false} NoVariantsFor(kinds: seq<string>, request: Json)
    requires Kinds(request) == []
    ensures Variants(kinds, request) == []
  {
    hide Kinds;
    if kinds != [] {
      NoVariantsFor(kinds[1..], request);
    }
  }

  lemma NoKindsNoVariants(request: Json)
    ensures Kinds(request) == [] ==> Variants(KINDS, request) == []
  {
    if Kinds(request) == [] {
      NoVariantsFor(KINDS, request);
    }
  }

  // ----- What the validator accepts satisfies the schema --------------------------------------

  lemma AcceptedAction(d: Json, request: Json)
    requires Enveloped(d, "action") && Str("action") in Kinds(request) && CheckAction(d, request) == Accepted
    ensures Names(request, "allowed_actions").Some? ==>
              VariantsFor("action", request) != [] && Satisfies(d, VariantsFor("action", request)[0])
    ensures Names(request, "allowed_actions").None? ==> VariantsFor("action", request) == []
  {
    var allowed := Names(request, "allowed_actions");
    CheckedMembers(d, request);
    ActionVariantsAre(request);
    hide *;
    if allowed.Some? {
      var name := Member(d, "name").value;
      var names := ActionNames(allowed.value, Contracts(request));
      ActionNamesAre(allowed.value, Contracts(request), name);
      ContractNamed(request, name.s);
      EnvelopedDistinct(d, "action");
      HoldsNamed(d, names);
      ActionMeaning(d, names);
    }
  }

  lemma ActionVariantsAre(request: Json)
    requires Str("action") in Kinds(request)
    ensures match Names(request, "allowed_actions")
            case None => VariantsFor("action", request) == []
            case Some(allowed) =>
              var names := ActionNames(allowed, Contracts(request));
              VariantsFor("action", request) == if names == [] then [] else [ActionVariant(names)]
  {
    hide Kinds, Names, Contracts, ActionVariant;
  }

  lemma ContractNamed(request: Json, name: string)
    requires Member(Contracts(request), name).Some?
    ensures HasKey(Contracts(request).fields, name)
  {
    hide Contracts;
  }

  lemma HoldsNamed(d: Json, names: seq<Json>)
    requires Member(d, "name").Some? && Member(d, "name").value in names
    requires Member(d, "arguments").Some? && Member(d, "arguments").value.Obj?
    ensures Holds(d, "name", Enum(names)) && Holds(d, "arguments", Type("object"))
  {
    hide Member;
  }

  /** What a passed action check says about name and arguments. */
  lemma CheckedMembers(d: Json, request: Json)
    requires CheckAction(d, request) == Accepted
    ensures Member(d, "name").Some? && Member(d, "name").value.Str?
    ensures Member(Contracts(request), Member(d, "name").value.s).Some?
    ensures Names(request, "allowed_actions").Some? ==>
              Member(d, "name").value in Names(request, "allowed_actions").value
    ensures Member(d, "arguments").Some? && Member(d, "arguments").value.Obj?
  {
    hide Member, CheckArguments, StrictJson, Names, Contracts, Encode, CanonicalJson.Dumps;
  }

  lemma EnvelopedDistinct(d: Json, kind: string)
    requires Enveloped(d, kind)
    ensures d.Obj? && DistinctKeys(d.fields) && Member(d, "kind") == Some(Str(kind))
    ensures KnownFields(d.fields, TopLevelFields(kind))
  {
  }

  lemma AcceptedTransition(d: Json, request: Json)
    requires Enveloped(d, "transition") && Str("transition") in Kinds(request)
    requires CheckTransition(d, request) == Accepted
    ensures VariantsFor("transition", request) != [] && Satisfies(d, VariantsFor("transition", request)[0])
  {
    hide Get, Kinds, Enveloped, Names, PlainText;
    var legal := Names(request, "legal_transition_targets").value;
    TextsAre(legal, Member(d, "target_state").value);
    EnvelopedDistinct(d, "transition");
    TransitionMeaning(d, Texts(legal));
  }

  lemma AcceptedHypothesis(d: Json, request: Json, kind: string)
    requires kind == "add_hypothesis" || kind == "revise_hypothesis"
    requires Enveloped(d, kind) && Str(kind) in Kinds(request) && CheckHypothesis(d) == Accepted
    ensures VariantsFor(kind, request) != [] && Satisfies(d, VariantsFor(kind, request)[0])
  {
    hide Get, Kinds, Enveloped, Names, PlainText, IsIdentifier, HypothesisVariant;
    EnvelopedDistinct(d, kind);
    HypothesisMeaning(d, kind);
    StringsAre(CONFIDENCE_VALUES, Member(d, "confidence").value);
    var refs := Member(d, "evidence_refs").value.items;
    assert forall i | 0 <= i < |refs| :: IsText(Some(refs[i]), MAX_EVIDENCE_REF_BYTES);
  }

  lemma AcceptedStatus(d: Json, request: Json)
    requires Enveloped(d, "set_hypothesis_status") && Str("set_hypothesis_status") in Kinds(request)
    requires CheckStatus(d) == Accepted
    ensures VariantsFor("set_hypothesis_status", request) != []
    ensures Satisfies(d, VariantsFor("set_hypothesis_status", request)[0])
  {
    hide Get, Kinds, Enveloped, Names, PlainText, IsIdentifier;
    EnvelopedDistinct(d, "set_hypothesis_status");
    StatusMeaning(d);
    StringsAre(STATUS_VALUES, Member(d, "status").value);
  }

  /** The kind, envelope and per-kind check of an accepted directive. */
  lemma AcceptedEnvelope(d: Json, request: Json) returns (kind: string)
    requires WellFormed(d) && Validate(d, request, ListShape) == Accepted
    ensures kind in KINDS && Enveloped(d, kind) && Str(kind) in Kinds(request)
    ensures CheckKind(kind, d, request) == Accepted
  {
    hide CheckAction, CheckTransition, CheckHypothesis, CheckStatus, KnownFields;
    kind := Member(d, "kind").value.s;
  }

  /**
   * Every directive the validator accepts satisfies the generated schema, and then exactly one of its variants,
   * except an action accepted while `allowed_actions` is not a list: for that the schema has no variant at all.
   */
  lemma AcceptedSatisfiesSchema(d: Json, request: Json)
    requires WellFormed(d) && Validate(d, request, ListShape) == Accepted
    ensures SatisfiesSchema(d, request)
       <==> (Member(d, "kind") == Some(Str("action")) ==> Names(request, "allowed_actions").Some?)
  {
    hide CheckAction, CheckTransition, CheckHypothesis, CheckStatus, Enveloped, Satisfies, SatisfiesSchema,
         VariantsFor, Names, Kinds, Get;
    var kind := AcceptedEnvelope(d, request);
    EnvelopedDistinct(d, kind);
    SchemaByKind(d, request, kind);
    match kind {
      case "action" => AcceptedAction(d, request);
      case "transition" => AcceptedTransition(d, request);
      case "set_hypothesis_status" => AcceptedStatus(d, request);
      case _ => AcceptedHypothesis(d, request, kind);
    }
  }

  /** A request that offers the action kind with one contract and says nothing about allowed actions. */
  function UnlistedRequest(): Json {
    Obj([Field("directive_schema", Arr([Str("action")])),
         Field("action_contracts", Obj([Field("run_tests", Obj([]))]))])
  }

  function UnlistedAction(): Json {
    Obj([Field("kind", Str("action")), Field("name", Str("run_tests")), Field("arguments", Obj([]))])
  }

  lemma UnlistedRequestMembers()
    ensures var request := UnlistedRequest();
            && Member(request, "directive_schema") == Some(Arr([Str("action")]))
            && Member(request, "controller") == None
            && Member(Contracts(request), "run_tests") == Some(Obj([]))
  {
    var request := UnlistedRequest();
    assert !HasKey(request.fields, "controller");
    hide Get;
    GetAt(request.fields, 0);
    GetAt(request.fields, 1);
    GetAt(request.fields[1].value.fields, 0);
  }

  lemma UnlistedActionMembers()
    ensures var d := UnlistedAction();
            && d.Obj? && WellFormed(d) && KnownFields(d.fields, TopLevelFields("action"))
            && Member(d, "kind") == Some(Str("action")) && Member(d, "name") == Some(Str("run_tests"))
            && Member(d, "arguments") == Some(Obj([]))
  {
    var d := UnlistedAction();
    hide Get;
    GetAt(d.fields, 0);
    GetAt(d.fields, 1);
    GetAt(d.fields, 2);
  }

  lemma EmptyArguments()
    ensures CheckArguments(Obj([]), []) == Accepted
    ensures StrictJson(Obj([])) && |Encode(CanonicalJson.Dumps(Obj([]), false))| <= MAX_ARGUMENT_BYTES
  {
    assert Get([], "required") == None && Get([], "properties") == None && Get([], "additional_properties") == None;
    assert CanonicalJson.Dumps(Obj([]), false) == "{}";
    assert "{}"[1..] == "}" && "}"[1..] == "";
    assert |Encode("")| == 0 && |EncodeChar('{')| == 1 && |EncodeChar('}')| == 1;
    assert |Encode("}")| == 1 && |Encode("{}")| == 2;
  }

  /** There the validator accepts an action that does not satisfy the generated schema: none is generated at all. */
  lemma UnlistedActionBeyondSchema()
    ensures Validate(UnlistedAction(), UnlistedRequest(), ListShape) == Accepted
    ensures !SatisfiesSchema(UnlistedAction(), UnlistedRequest())
  {
    var request, d := UnlistedRequest(), UnlistedAction();
    UnlistedRequestMembers();
    UnlistedActionMembers();
    hide UnlistedAction, UnlistedRequest, SatisfiesSchema, Contracts, WellFormed, Get;
    NoControllerNoNames(request);
    UnlistedVerdict(d, request);
    AcceptedSatisfiesSchema(d, request);
  }

  lemma NoControllerNoNames(request: Json)
    requires Member(request, "controller") == None
    ensures Names(request, "allowed_actions").None?
  {
    assert Get([], "allowed_actions") == None;
  }

  lemma UnlistedVerdict(d: Json, request: Json)
    requires d.Obj? && KnownFields(d.fields, TopLevelFields("action"))
    requires Member(request, "directive_schema") == Some(Arr([Str("action")]))
    requires Names(request, "allowed_actions").None?
    requires Member(Contracts(request), "run_tests") == Some(Obj([]))
    requires Member(d, "kind") == Some(Str("action")) && Member(d, "name") == Some(Str("run_tests"))
    requires Member(d, "arguments") == Some(Obj([]))
    ensures Validate(d, request, ListShape) == Accepted
  {
    EmptyArguments();
    hide Member, CheckArguments, StrictJson, Encode, CanonicalJson.Dumps, Contracts, KnownFields, TopLevelFields, Names;
  }

  // ----- What the schema leaves to the validator ----------------------------------------------

  /** The rejections a schema-conforming directive can still meet: text limits, argument contracts, evidence rules. */
  predicate BeyondSchema(verdict: Verdict) {
    match verdict
    case Accepted => true
    case Raised => true
    case Rejected(reason) =>
      || reason == NoArgumentContract || reason.MissingArgument? || reason == UnknownArgument
      || reason.WrongType? || reason.NotInEnum? || reason.TooShort?
      || reason == ArgumentsTooLarge || reason == ArgumentsNotStrict
      || reason == BadReason || reason == BadHypothesisId || reason == BadStatement || reason == BadEvidenceRefs
  }

  lemma {:induction false} RequiredBeyond(required: seq<Json>, arguments: seq<Field>)
    ensures BeyondSchema(CheckRequired(required, arguments))
  {
    if required != [] {
      RequiredBeyond(required[1..], arguments);
    }
  }

  lemma {:induction false} PropertiesBeyond(properties: seq<Field>, arguments: seq<Field>)
    ensures BeyondSchema(CheckProperties(properties, arguments))
  {
    hide TypeName, HasType, EnumAllows, MinLength;
    if properties != [] {
      PropertiesBeyond(properties[1..], arguments);
    }
  }

  lemma ArgumentsBeyond(contract: Json, arguments: seq<Field>)
    ensures BeyondSchema(CheckArguments(contract, arguments))
  {
    hide Required, Properties, Closed, KeysWithin;
    if contract.Obj? {
      RequiredBeyond(Required(contract), arguments);
      PropertiesBeyond(Properties(contract), arguments);
    }
  }

  lemma ActionBeyond(d: Json, request: Json)
    requires d.Obj? && DistinctKeys(d.fields)
    requires VariantsFor("action", request) != [] && Satisfies(d, VariantsFor("action", request)[0])
    ensures Enveloped(d, "action") && BeyondSchema(CheckAction(d, request))
  {
    TooLargeBeyond();
    hide *;
    var name, arguments := ActionMembers(d, request);
    ArgumentsBeyond(Member(Contracts(request), name).value, arguments);
    LastChecks(d, request, name, arguments);
  }

  lemma LastChecks(d: Json, request: Json, name: string, arguments: seq<Field>)
    requires Member(d, "name") == Some(Str(name)) && Member(d, "arguments") == Some(Obj(arguments))
    requires Member(Contracts(request), name).Some?
    requires Names(request, "allowed_actions").Some? ==> Str(name) in Names(request, "allowed_actions").value
    ensures var verdict := CheckAction(d, request);
            || verdict == CheckArguments(Member(Contracts(request), name).value, arguments) || verdict == Accepted
            || verdict == Rejected(ArgumentsNotStrict) || verdict == Rejected(ArgumentsTooLarge)
  {
    hide Member, CheckArguments, StrictJson, Names, Contracts, Encode, CanonicalJson.Dumps;
  }

  /** The action variant leaves a name that is allowed and has a contract, and arguments that are an object. */
  lemma ActionMembers(d: Json, request: Json) returns (name: string, arguments: seq<Field>)
    requires d.Obj? && DistinctKeys(d.fields)
    requires VariantsFor("action", request) != [] && Satisfies(d, VariantsFor("action", request)[0])
    ensures Enveloped(d, "action")
    ensures Member(d, "name") == Some(Str(name)) && Member(d, "arguments") == Some(Obj(arguments))
    ensures Member(Contracts(request), name).Some?
    ensures Names(request, "allowed_actions").Some? ==> Str(name) in Names(request, "allowed_actions").value
  {
    hide Get, Kinds, Enveloped, Names, Contracts;
    var allowed := NamesOrNone(request, "allowed_actions");
    ActionMeaning(d, ActionNames(allowed, Contracts(request)));
    ActionNamesAre(allowed, Contracts(request), Member(d, "name").value);
    name, arguments := Member(d, "name").value.s, Member(d, "arguments").value.fields;
  }

  lemma TooLargeBeyond()
    ensures BeyondSchema(Rejected(ArgumentsTooLarge)) && BeyondSchema(Rejected(ArgumentsNotStrict))
    ensures BeyondSchema(Accepted)
  {
  }

  lemma TransitionBeyond(d: Json, request: Json)
    requires d.Obj? && DistinctKeys(d.fields)
    requires VariantsFor("transition", request) != [] && Satisfies(d, VariantsFor("transition", request)[0])
    ensures Enveloped(d, "transition") && BeyondSchema(CheckTransition(d, request))
  {
    hide Get, Kinds, Enveloped, Names, PlainText;
    var legal := NamesOrNone(request, "legal_transition_targets");
    TransitionMeaning(d, Texts(legal));
    TextsAre(legal, Member(d, "target_state").value);
  }

  lemma HypothesisBeyond(d: Json, request: Json, kind: string)
    requires d.Obj? && DistinctKeys(d.fields) && (kind == "add_hypothesis" || kind == "revise_hypothesis")
    requires VariantsFor(kind, request) != [] && Satisfies(d, VariantsFor(kind, request)[0])
    ensures Enveloped(d, kind) && BeyondSchema(CheckHypothesis(d))
  {
    hide Get, Kinds, Enveloped, PlainText, IsIdentifier, HypothesisVariant, EvidenceRefs;
    HypothesisMeaning(d, kind);
    StringsAre(CONFIDENCE_VALUES, Member(d, "confidence").value);
  }

  lemma StatusBeyond(d: Json, request: Json)
    requires d.Obj? && DistinctKeys(d.fields)
    requires VariantsFor("set_hypothesis_status", request) != []
    requires Satisfies(d, VariantsFor("set_hypothesis_status", request)[0])
    ensures Enveloped(d, "set_hypothesis_status") && BeyondSchema(CheckStatus(d))
  {
    hide Get, Kinds, Enveloped, PlainText, IsIdentifier;
    StatusMeaning(d);
    StringsAre(STATUS_VALUES, Member(d, "status").value);
  }

  lemma ValidateEnveloped(d: Json, request: Json, kind: string)
    requires Enveloped(d, kind) && Str(kind) in Kinds(request)
    ensures Validate(d, request, ListShape) == CheckKind(kind, d, request)
  {
    hide CheckKind, KnownFields, TopLevelFields;
  }

  /** A variant is generated only for a kind the request offers. */
  lemma VariantOffered(kind: string, request: Json)
    requires VariantsFor(kind, request) != []
    ensures Str(kind) in Kinds(request)
  {
  }

  lemma SatisfiesObject(d: Json, schema: Schema)
    requires KindOf(schema).Some? && Satisfies(d, schema)
    ensures d.Obj?
  {
  }

  lemma SchemaKind(d: Json, request: Json) returns (kind: string)
    requires WellFormed(d) && SatisfiesSchema(d, request)
    ensures d.Obj? && DistinctKeys(d.fields) && kind in KINDS && Member(d, "kind") == Some(Str(kind))
  {
    hide VariantsFor, KINDS, Member, Kinds, Satisfies, Combined, KindOf;
    var vs := Variants(KINDS, request);
    var i := SomeVariant(d, vs);
    VariantAt(request, i);
    kind := KindOf(vs[i]).value;
    SatisfiesObject(d, vs[i]);
    SatisfiesKind(d, vs[i]);
  }

  /**
   * A directive that satisfies the generated schema has a legal envelope, kind, action name and target, and all
   * its fields have the right type: the validator can only find fault with what the schema does not express.
   */
  lemma SchemaSatisfyingVerdict(d: Json, request: Json)
    requires WellFormed(d) && SatisfiesSchema(d, request)
    ensures BeyondSchema(Validate(d, request, ListShape))
  {
    hide CheckAction, CheckTransition, CheckHypothesis, CheckStatus, Enveloped, Satisfies, SatisfiesSchema,
         VariantsFor, Names, Kinds, Get, BeyondSchema, Validate;
    var kind := SchemaKind(d, request);
    SchemaByKind(d, request, kind);
    VariantOffered(kind, request);
    match kind {
      case "action" => ActionBeyond(d, request);
      case "transition" => TransitionBeyond(d, request);
      case "set_hypothesis_status" => StatusBeyond(d, request);
      case _ => HypothesisBeyond(d, request, kind);
    }
    ValidateEnveloped(d, request, kind);
  }
}
