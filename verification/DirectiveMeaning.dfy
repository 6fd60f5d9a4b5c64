/** What an accepted directive holds, told by its own members and those of the request, with every limit written out. */
module DirectiveMeaning {
  import opened Wrappers
  import opened Json
  import T = Text
  import Utf8
  import CanonicalJson
  import opened DirectiveValidator

  // ----- Texts --------------------------------------------------------------------------------

  /** A text of at most `maximum` bytes that neither starts nor ends with white space and has no control character. */
  predicate Text(value: Option<Json>, maximum: nat) {
    && value.Some? && value.value.Str?
    && var s := value.value.s;
       && s != [] && !T.IsBlank(s[0]) && !T.IsBlank(s[|s| - 1])
       && (forall c | c in s :: '\U{20}' <= c && c != '\U{7F}')
       && |Utf8.Encode(s)| <= maximum
  }

  predicate Identifier(value: Option<Json>) {
    && Text(value, 128)
    && forall c | c in value.value.s ::
         'a' <= c <= 'z' || 'A' <= c <= 'Z' || '0' <= c <= '9' || c == '-' || c == '_' || c == '.'
  }

  predicate Evidence(value: Option<Json>) {
    && value.Some? && value.value.Arr? && |value.value.items| <= 64
    && (forall ref | ref in value.value.items :: Text(Some(ref), 256))
    && forall i, j | 0 <= i < j < |value.value.items| :: value.value.items[i] != value.value.items[j]
  }

  lemma Unstripped(s: string)
    ensures s != [] ==> (T.Strip(s) == s <==> !T.IsBlank(s[0]) && !T.IsBlank(s[|s| - 1]))
  {
    hide T.IsBlank;
    if s != [] {
      StripLeftShrinks(s);
    }
  }

  lemma {:induction false} StripLeftShrinks(s: string)
    ensures |T.StripLeft(s)| <= |s| && (s != [] && T.IsBlank(s[0]) ==> |T.StripLeft(s)| < |s|)
  {
    hide T.IsBlank;
    if s != [] && T.IsBlank(s[0]) {
      StripLeftShrinks(s[1..]);
    }
  }

  lemma TextIs(value: Option<Json>, maximum: nat)
    ensures IsText(value, maximum) <==> Text(value, maximum)
  {
    match value
    case Some(Str(s)) =>
      Unstripped(s);
      ControlIs(s);
      hide T.IsBlank, T.Strip, HasControl, Utf8.Encode;
    case _ =>
  }

  lemma ControlIs(s: string)
    ensures HasControl(s) <==> !(forall c | c in s :: '\U{20}' <= c && c != '\U{7F}')
  {
    if HasControl(s) {
      var i :| 0 <= i < |s| && (s[i] as int < 0x20 || s[i] as int == 0x7F);
      assert s[i] in s;
    }
  }

  lemma IdentifierChars(s: string)
    ensures IsIdentifier(s)
       <==> forall c | c in s ::
              'a' <= c <= 'z' || 'A' <= c <= 'Z' || '0' <= c <= '9' || c == '-' || c == '_' || c == '.'
  {
    if !IsIdentifier(s) {
      var i :| 0 <= i < |s| && !('a' <= s[i] <= 'z' || 'A' <= s[i] <= 'Z' || '0' <= s[i] <= '9' || s[i] == '-'
                                 || s[i] == '_' || s[i] == '.');
      assert s[i] in s;
    }
  }

  lemma IdentifierIs(value: Option<Json>)
    ensures IsHypothesisId(value) <==> Identifier(value)
  {
    TextIs(value, 128);
    hide IsText, Text, IsIdentifier;
    if IsText(value, 128) {
      IdentifierChars(value.value.s);
    }
  }

  lemma EvidenceIs(value: Option<Json>)
    ensures IsEvidence(value) <==> Evidence(value)
  {
    forall ref
      ensures IsText(ref, 256) <==> Text(ref, 256)
    {
      TextIs(ref, 256);
    }
    hide IsText, Text;
  }

  // ----- Action arguments ---------------------------------------------------------------------

  /** The value is of the type the specification names, among its values and long enough. */
  predicate Obeys(value: Json, spec: Json) {
    var name := At(spec, ["type"]);
    && (name.Some? ==> !name.value.Arr? && !name.value.Obj?)
    && (name == Some(Str("string")) ==> value.Str?)
    && (name == Some(Str("integer")) ==> value.Int?)
    && (name == Some(Str("number")) ==> value.Int? || value.Real?)
    && (name == Some(Str("boolean")) ==> value.Bool?)
    && (name == Some(Str("array")) ==> value.Arr?)
    && (name == Some(Str("object")) ==> value.Obj?)
    && (name == Some(Str("null")) ==> value.Null?)
    && (At(spec, ["enum"]).Some? && At(spec, ["enum"]).value.Arr? ==>
          exists other | other in At(spec, ["enum"]).value.items :: Equal(value, other))
    && (name == Some(Str("string")) && value.Str? ==>
          (match At(spec, ["min_length"])
           case Some(Int(n)) => n <= |value.s|
           case Some(Bool(b)) => b ==> value.s != []
           case _ => true))
  }

  /** Where the fields of the arguments are declared. */
  function Declared(contract: Json): Json {
    match At(contract, ["properties"])
    case Some(Obj(fields)) => Obj(fields)
    case _ => contract
  }

  /**
   * Every required argument is there; when the contract says so there is no undeclared one; and every argument obeys
   * its specification.
   */
  predicate Fits(arguments: Json, contract: Json)
    requires arguments.Obj? && contract.Obj?
  {
    && (match At(contract, ["required"])
        case Some(Arr(names)) => forall name | name in names :: name.Str? && At(arguments, [name.s]).Some?
        case _ => true)
    && (At(contract, ["additional_properties"]) == Some(Bool(false)) ==>
          forall f | f in arguments.fields :: At(Declared(contract), [f.key]).Some?)
    && (forall f | f in Declared(contract).fields && f.value.Obj? && At(arguments, [f.key]).Some? ::
          Obeys(At(arguments, [f.key]).value, f.value))
  }

  lemma AtKeys(v: Json)
    ensures forall key :: At(v, [key]) == Member(v, key)
  {
    forall key
      ensures At(v, [key]) == Member(v, key)
    {
      AtOne(v, key);
    }
  }

  lemma TypeIs(value: Json, name: Option<Json>)
    ensures HasType(value, match name case Some(n) => n case None => Null)
       <==> && (name == Some(Str("string")) ==> value.Str?)
            && (name == Some(Str("integer")) ==> value.Int?)
            && (name == Some(Str("number")) ==> value.Int? || value.Real?)
            && (name == Some(Str("boolean")) ==> value.Bool?)
            && (name == Some(Str("array")) ==> value.Arr?)
            && (name == Some(Str("object")) ==> value.Obj?)
            && (name == Some(Str("null")) ==> value.Null?)
  {
  }

  lemma LengthIs(spec: Json, s: string)
    ensures MinLength(spec) <= |s|
       <==> match Member(spec, "min_length")
            case Some(Int(n)) => n <= |s|
            case Some(Bool(b)) => b ==> s != []
            case _ => true
  {
    hide Member;
  }

  lemma EnumIs(spec: Json, value: Json)
    ensures EnumAllows(spec, value)
       <==> (Member(spec, "enum").Some? && Member(spec, "enum").value.Arr? ==>
               exists other | other in Member(spec, "enum").value.items :: Equal(value, other))
  {
    hide Member, Equal, Among;
    match Member(spec, "enum")
    case Some(Arr(values)) => AmongIs(value, values);
    case _ =>
  }

  lemma ObeysIs(field: string, spec: Json, value: Json)
    ensures CheckProperty(field, spec, value) == Accepted <==> Obeys(value, spec)
  {
    AtKeys(spec);
    TypeIs(value, Member(spec, "type"));
    EnumIs(spec, value);
    if value.Str? {
      LengthIs(spec, value.s);
    }
    hide At, Member, Equal, HasType, EnumAllows, MinLength;
  }

  lemma AmongIs(value: Json, values: seq<Json>)
    ensures Among(value, values) <==> exists other | other in values :: Equal(value, other)
  {
    hide Equal;
    if Among(value, values) {
      var i :| 0 <= i < |values| && Equal(value, values[i]);
      assert values[i] in values;
    }
  }

  lemma {:induction false} RequiredIs(required: seq<Json>, arguments: seq<Field>)
    ensures CheckRequired(required, arguments) == Accepted
       <==> forall name | name in required :: name.Str? && HasKey(arguments, name.s)
  {
    hide HasKey;
    if required != [] {
      RequiredIs(required[1..], arguments);
      assert required == [required[0]] + required[1..];
      assert required[0] in required;
      assert forall name :: name in required <==> name == required[0] || name in required[1..];
    }
  }

  predicate Holds(f: Field, arguments: seq<Field>) {
    f.value.Obj? && Get(arguments, f.key).Some? ==> Obeys(Get(arguments, f.key).value, f.value)
  }

  lemma PropertiesStep(properties: seq<Field>, arguments: seq<Field>)
    requires properties != []
    ensures CheckProperties(properties, arguments) == Accepted
       <==> Holds(properties[0], arguments) && CheckProperties(properties[1..], arguments) == Accepted
  {
    var argument := Get(arguments, properties[0].key);
    if argument.Some? {
      ObeysIs(properties[0].key, properties[0].value, argument.value);
    }
    hide CheckProperty, Get, Obeys;
  }

  lemma {:induction false} PropertiesAre(properties: seq<Field>, arguments: seq<Field>)
    ensures CheckProperties(properties, arguments) == Accepted <==> forall f | f in properties :: Holds(f, arguments)
  {
    hide Holds;
    if properties != [] {
      PropertiesAre(properties[1..], arguments);
      PropertiesStep(properties, arguments);
      assert properties == [properties[0]] + properties[1..];
    }
    hide CheckProperties;
  }

  /** The arguments are accepted exactly when they fit the contract. */
  lemma ArgumentsFit(contract: Json, arguments: Json)
    requires arguments.Obj?
    ensures CheckArguments(contract, arguments.fields) == Accepted <==> contract.Obj? && Fits(arguments, contract)
  {
    if contract.Obj? {
      DeclaredIs(contract);
      RequiredIs(Required(contract), arguments.fields);
      PropertiesAre(Properties(contract), arguments.fields);
      RequiredList(contract);
      AtKeys(arguments);
      AtKeys(contract);
      AtKeys(Declared(contract));
      MembersOf(arguments);
      MembersOf(Declared(contract));
      WithinIs(arguments.fields, Properties(contract));
      hide At, Member, Get, HasKey, Obeys, Required, Properties, Declared, CheckRequired, CheckProperties, KeysWithin;
    }
  }

  lemma MembersOf(v: Json)
    requires v.Obj?
    ensures forall key :: Member(v, key) == Get(v.fields, key) && (HasKey(v.fields, key) <==> Member(v, key).Some?)
  {
  }

  lemma DeclaredIs(contract: Json)
    requires contract.Obj?
    ensures Declared(contract) == Obj(Properties(contract))
  {
    AtOne(contract, "properties");
    hide At, Get;
  }

  lemma RequiredList(contract: Json)
    requires contract.Obj?
    ensures Required(contract) == match At(contract, ["required"]) case Some(Arr(names)) => names case _ => []
  {
    AtOne(contract, "required");
    hide At, Get;
  }

  lemma WithinIs(fields: seq<Field>, declared: seq<Field>)
    ensures KeysWithin(fields, declared) <==> forall f | f in fields :: HasKey(declared, f.key)
  {
    hide HasKey;
  }

  // ----- Directives ---------------------------------------------------------------------------

  /** The request offers directives of this kind. */
  predicate Offered(request: Json, shape: Shape, kind: string) {
    match At(request, ["directive_schema"])
    case Some(Obj(_)) => shape.MapShape? && At(request, ["directive_schema", kind]).Some?
    case Some(Arr(kinds)) => shape.ListShape? && Str(kind) in kinds
    case _ => false
  }

  /** The members a directive of this kind may have. */
  function KnownKeys(kind: string): seq<string> {
    if kind == "action" then ["kind", "name", "arguments"]
    else if kind == "transition" then ["kind", "target_state", "reason"]
    else if kind == "set_hypothesis_status" then ["kind", "hypothesis_id", "status"]
    else ["kind", "hypothesis_id", "statement", "confidence", "evidence_refs", "requires_runtime_evidence"]
  }

  predicate GoodAction(d: Json, request: Json) {
    && At(d, ["name"]).Some? && At(d, ["name"]).value.Str?
    && var name := At(d, ["name"]).value;
       var contract := At(request, ["action_contracts", name.s]);
       var allowed := At(request, ["controller", "allowed_actions"]);
       && contract.Some? && contract.value.Obj?
       && (allowed.Some? && allowed.value.Arr? ==> name in allowed.value.items)
       && At(d, ["arguments"]).Some? && At(d, ["arguments"]).value.Obj?
       && var arguments := At(d, ["arguments"]).value;
          && Fits(arguments, contract.value)
          && StrictJson(arguments) && |Utf8.Encode(CanonicalJson.Dumps(arguments, false))| <= 32768
  }

  predicate GoodTransition(d: Json, request: Json) {
    var targets := At(request, ["controller", "legal_transition_targets"]);
    && At(d, ["target_state"]).Some? && At(d, ["target_state"]).value.Str?
    && targets.Some? && targets.value.Arr? && At(d, ["target_state"]).value in targets.value.items
    && Text(At(d, ["reason"]), 2048)
  }

  predicate GoodHypothesis(d: Json) {
    && Identifier(At(d, ["hypothesis_id"]))
    && Text(At(d, ["statement"]), 4096)
    && At(d, ["confidence"]) in [Some(Str("low")), Some(Str("medium")), Some(Str("high"))]
    && Evidence(At(d, ["evidence_refs"]))
    && At(d, ["requires_runtime_evidence"]).Some? && At(d, ["requires_runtime_evidence"]).value.Bool?
  }

  predicate GoodStatus(d: Json) {
    && Identifier(At(d, ["hypothesis_id"]))
    && At(d, ["status"]) in [Some(Str("supported")), Some(Str("rejected")), Some(Str("discarded"))]
  }

  predicate Good(kind: string, d: Json, request: Json) {
    || (kind == "action" && GoodAction(d, request))
    || (kind == "transition" && GoodTransition(d, request))
    || ((kind == "add_hypothesis" || kind == "revise_hypothesis") && GoodHypothesis(d))
    || (kind == "set_hypothesis_status" && GoodStatus(d))
  }

  lemma OfferedIs(request: Json, shape: Shape, kind: string)
    ensures HasSchema(request, shape) && Offers(request, shape, kind) <==> Offered(request, shape, kind)
  {
    AtOne(request, "directive_schema");
    AtTwo(request, "directive_schema", kind);
    hide At, Get;
    match Member(request, "directive_schema")
    case Some(Obj(kinds)) => assert HasKey(kinds, kind) ==> kinds != [];
    case _ =>
  }

  lemma NamesAre(request: Json, key: string)
    ensures var listed := At(request, ["controller", key]);
            Names(request, key) == if listed.Some? && listed.value.Arr? then Some(listed.value.items) else None
  {
    AtTwo(request, "controller", key);
    NothingIn(key);
    hide At, Get;
    assert forall v: Json, k :: !v.Obj? ==> Member(v, k) == None;
  }

  lemma ContractIs(request: Json, name: string)
    ensures At(request, ["action_contracts", name]) == Member(Contracts(request), name)
  {
    AtTwo(request, "action_contracts", name);
    NothingIn(name);
    hide At, Get;
    assert forall v: Json, k :: !v.Obj? ==> Member(v, k) == None;
  }

  lemma NothingIn(key: string)
    ensures Get([], key) == None
  {
  }

  lemma CheckActionIs(d: Json, request: Json, name: string)
    requires Member(d, "name") == Some(Str(name))
    ensures var contract, allowed := Member(Contracts(request), name), Names(request, "allowed_actions");
            var arguments := Member(d, "arguments");
            CheckAction(d, request) == Accepted <==>
              && contract.Some? && (allowed.Some? ==> Str(name) in allowed.value)
              && arguments.Some? && arguments.value.Obj?
              && CheckArguments(contract.value, arguments.value.fields) == Accepted
              && StrictJson(arguments.value) && |Utf8.Encode(CanonicalJson.Dumps(arguments.value, false))| <= 32768
  {
    hide Member, Names, Contracts, CheckArguments, StrictJson, Utf8.Encode, CanonicalJson.Dumps;
  }

  lemma GoodActionIs(d: Json, request: Json, name: string)
    requires Member(d, "name") == Some(Str(name))
    ensures var contract, allowed := Member(Contracts(request), name), Names(request, "allowed_actions");
            var arguments := Member(d, "arguments");
            GoodAction(d, request) <==>
              && contract.Some? && contract.value.Obj? && (allowed.Some? ==> Str(name) in allowed.value)
              && arguments.Some? && arguments.value.Obj? && Fits(arguments.value, contract.value)
              && StrictJson(arguments.value) && |Utf8.Encode(CanonicalJson.Dumps(arguments.value, false))| <= 32768
  {
    hide At, Member, Names, Contracts, Fits, StrictJson, Utf8.Encode, CanonicalJson.Dumps;
    AtOne(d, "name");
    AtOne(d, "arguments");
    NamesAre(request, "allowed_actions");
    ContractIs(request, name);
  }

  lemma NamelessAction(d: Json, request: Json)
    requires Member(d, "name").None? || !Member(d, "name").value.Str?
    ensures CheckAction(d, request) != Accepted && !GoodAction(d, request)
  {
    hide At, Member, Names, Contracts, Fits, CheckArguments;
    AtOne(d, "name");
  }

  lemma ActionIs(d: Json, request: Json)
    ensures CheckAction(d, request) == Accepted <==> GoodAction(d, request)
  {
    hide *;
    if Member(d, "name").Some? && Member(d, "name").value.Str? {
      var name := Member(d, "name").value.s;
      CheckActionIs(d, request, name);
      GoodActionIs(d, request, name);
      var contract, arguments := Member(Contracts(request), name), Member(d, "arguments");
      if contract.Some? && arguments.Some? && arguments.value.Obj? {
        ArgumentsFit(contract.value, arguments.value);
      }
    } else {
      NamelessAction(d, request);
    }
  }

  lemma TransitionIs(d: Json, request: Json)
    ensures CheckTransition(d, request) == Accepted <==> GoodTransition(d, request)
  {
    AtOne(d, "target_state");
    AtOne(d, "reason");
    NamesAre(request, "legal_transition_targets");
    TextIs(Member(d, "reason"), 2048);
    hide At, Member, Names, IsText, Text;
  }

  lemma HypothesisIs(d: Json)
    ensures CheckHypothesis(d) == Accepted <==> GoodHypothesis(d)
  {
    hide At, Member, IsText, Text, IsHypothesisId, Identifier, IsEvidence, Evidence, IsOneOf;
    AtOne(d, "hypothesis_id");
    AtOne(d, "statement");
    AtOne(d, "confidence");
    AtOne(d, "evidence_refs");
    AtOne(d, "requires_runtime_evidence");
    IdentifierIs(Member(d, "hypothesis_id"));
    TextIs(Member(d, "statement"), 4096);
    EvidenceIs(Member(d, "evidence_refs"));
    OneOfIs(Member(d, "confidence"), "low", "medium", "high");
  }

  lemma StatusIs(d: Json)
    ensures CheckStatus(d) == Accepted <==> GoodStatus(d)
  {
    hide At, Member, IsHypothesisId, Identifier, IsOneOf;
    AtOne(d, "hypothesis_id");
    AtOne(d, "status");
    IdentifierIs(Member(d, "hypothesis_id"));
    OneOfIs(Member(d, "status"), "supported", "rejected", "discarded");
  }

  lemma OneOfIs(value: Option<Json>, a: string, b: string, c: string)
    ensures IsOneOf(value, [a, b, c]) <==> value in [Some(Str(a)), Some(Str(b)), Some(Str(c))]
  {
  }

  lemma KnownIs(kind: string, d: Json)
    requires d.Obj? && kind in ["action", "transition", "add_hypothesis", "revise_hypothesis", "set_hypothesis_status"]
    ensures KnownFields(d.fields, TopLevelFields(kind)) <==> forall f | f in d.fields :: f.key in KnownKeys(kind)
  {
    assert forall key :: key in TopLevelFields(kind) <==> key in KnownKeys(kind);
    hide TopLevelFields, KnownKeys;
  }

  lemma KindIs(kind: string, d: Json, request: Json)
    ensures CheckKind(kind, d, request) == Accepted <==> Good(kind, d, request)
    ensures Good(kind, d, request) ==>
              kind in ["action", "transition", "add_hypothesis", "revise_hypothesis", "set_hypothesis_status"]
  {
    ActionIs(d, request);
    TransitionIs(d, request);
    HypothesisIs(d);
    StatusIs(d);
    hide CheckAction, CheckTransition, CheckHypothesis, CheckStatus, GoodAction, GoodTransition, GoodHypothesis,
         GoodStatus;
  }

  /** The object is of a kind that is offered, with known members only. */
  predicate OfOfferedKind(d: Json, request: Json, shape: Shape, kind: string) {
    && d.Obj? && At(d, ["kind"]) == Some(Str(kind))
    && Offered(request, shape, kind)
    && forall f | f in d.fields :: f.key in KnownKeys(kind)
  }

  lemma ValidateKind(d: Json, request: Json, shape: Shape, kind: string)
    requires d.Obj? && Member(d, "kind") == Some(Str(kind))
    ensures Validate(d, request, shape) == Accepted
       <==> && HasSchema(request, shape) && Offers(request, shape, kind)
            && KnownFields(d.fields, TopLevelFields(kind)) && CheckKind(kind, d, request) == Accepted
  {
    hide Member, HasSchema, Offers, KnownFields, TopLevelFields, CheckKind;
  }

  lemma ValidateNoKind(d: Json, request: Json, shape: Shape)
    requires !d.Obj? || Member(d, "kind").None? || !Member(d, "kind").value.Str?
    ensures Validate(d, request, shape) != Accepted
  {
    hide Member, HasSchema, Offers, KnownFields, TopLevelFields, CheckKind;
  }

  lemma OfferedKindIs(d: Json, request: Json, shape: Shape, kind: string)
    ensures OfOfferedKind(d, request, shape, kind)
       <==> && d.Obj? && At(d, ["kind"]) == Some(Str(kind)) && Offered(request, shape, kind)
            && forall f | f in d.fields :: f.key in KnownKeys(kind)
  {
    hide At, Offered, KnownKeys;
  }

  /** A candidate is accepted exactly when it is an object of an offered kind, with known and good members only. */
  lemma AcceptedByMembers(d: Json, request: Json, shape: Shape)
    ensures Validate(d, request, shape) == Accepted
       <==> exists kind :: OfOfferedKind(d, request, shape, kind) && Good(kind, d, request)
  {
    hide *;
    AtOne(d, "kind");
    forall kind
      ensures OfOfferedKind(d, request, shape, kind) ==> d.Obj? && At(d, ["kind"]) == Some(Str(kind))
    {
      OfferedKindIs(d, request, shape, kind);
    }
    if d.Obj? && Member(d, "kind").Some? && Member(d, "kind").value.Str? {
      var kind := Member(d, "kind").value.s;
      ValidateKind(d, request, shape, kind);
      OfferedIs(request, shape, kind);
      KindIs(kind, d, request);
      OfferedKindIs(d, request, shape, kind);
      if Good(kind, d, request) {
        KnownIs(kind, d);
      }
    } else {
      ValidateNoKind(d, request, shape);
    }
  }

}
