/**
 * The strict protocol-1.3 validation of one candidate directive against the request it answers. The three
 * adapters carry the same validator; they differ only in the shape of `directive_schema`.
 */
module DirectiveValidator {
  import opened Wrappers
  import opened Json
  import opened Utf8
  import T = Text
  import CanonicalJson

  const MAX_ARGUMENT_BYTES: nat := 32768
  const MAX_REASON_BYTES: nat := 2048
  const MAX_STATEMENT_BYTES: nat := 4096
  const MAX_HYPOTHESIS_ID_BYTES: nat := 128
  const MAX_EVIDENCE_REF_BYTES: nat := 256
  const MAX_EVIDENCE_REF_COUNT: nat := 64

  const CONFIDENCE_VALUES: seq<string> := ["low", "medium", "high"]
  const STATUS_VALUES: seq<string> := ["supported", "rejected", "discarded"]

  datatype Rejection =
    | NotAnObject
    | NoDirectiveSchema
    | UnknownKind
    | UnknownTopLevelField
    | UnknownActionName
    | ActionNotAllowed
    | ArgumentsNotObject
    | NoArgumentContract
    | MissingArgument(name: Json)
    | UnknownArgument
    | WrongType(field: string)
    | NotInEnum(field: string)
    | TooShort(field: string)
    | ArgumentsTooLarge
    | ArgumentsNotStrict
    | TargetNotReachable
    | BadReason
    | BadHypothesisId
    | BadStatement
    | BadConfidence
    | BadEvidenceRefs
    | BadRuntimeFlag
    | BadStatus

  /** `Raised` stands for the TypeError of hashing a list or an object. */
  datatype Verdict = Accepted | Rejected(reason: Rejection) | Raised

  /** `directive_schema` is an object in the OpenCode transport and a list in the AGY and OpenCode Go adapters. */
  datatype Shape = MapShape | ListShape

  // ----- Text and values ----------------------------------------------------------------------

  predicate HasControl(s: string) {
    exists i | 0 <= i < |s| :: s[i] as int < 0x20 || s[i] as int == 0x7F
  }

  predicate PlainText(s: string, maximum: nat) {
    s != [] && s == T.Strip(s) && !HasControl(s) && |Encode(s)| <= maximum
  }

  /** _validate_text_field, true when it reports nothing. */
  predicate IsText(value: Option<Json>, maximum: nat) {
    match value
    case Some(Str(s)) => PlainText(s, maximum)
    case _ => false
  }

  predicate IsIdentifier(s: string) {
    forall i | 0 <= i < |s| ::
      'a' <= s[i] <= 'z' || 'A' <= s[i] <= 'Z' || '0' <= s[i] <= '9' || s[i] == '-' || s[i] == '_' || s[i] == '.'
  }

  predicate IsHypothesisId(value: Option<Json>) {
    IsText(value, MAX_HYPOTHESIS_ID_BYTES) && IsIdentifier(value.value.s)
  }

  predicate IsOneOf(value: Option<Json>, values: seq<string>) {
    match value
    case Some(Str(s)) => s in values
    case _ => false
  }

  predicate Among(value: Json, values: seq<Json>) {
    exists i | 0 <= i < |values| :: Equal(value, values[i])
  }

  predicate Hashable(value: Json) {
    !value.Arr? && !value.Obj?
  }

  // ----- Action arguments ---------------------------------------------------------------------

  /** The type names the validator knows; every other name admits every value. */
  predicate HasType(value: Json, name: Json) {
    match name
    case Str("string") => value.Str?
    case Str("integer") => value.Int?
    case Str("number") => value.Int? || value.Real?
    case Str("boolean") => value.Bool?
    case Str("array") => value.Arr?
    case Str("object") => value.Obj?
    case Str("null") => value.Null?
    case _ => true
  }

  function TypeName(spec: Json): Json {
    match Member(spec, "type")
    case Some(name) => name
    case None => Null
  }

  /** `min_length` when it is an int for isinstance, to which True and False belong. */
  function MinLength(spec: Json): int {
    match Member(spec, "min_length")
    case Some(Int(n)) => n
    case Some(Bool(b)) => if b then 1 else 0
    case _ => 0
  }

  predicate EnumAllows(spec: Json, value: Json) {
    match Member(spec, "enum")
    case Some(Arr(values)) => Among(value, values)
    case _ => true
  }

  function CheckProperty(field: string, spec: Json, value: Json): Verdict {
    if !Hashable(TypeName(spec)) then Raised
    else if !HasType(value, TypeName(spec)) then Rejected(WrongType(field))
    else if !EnumAllows(spec, value) then Rejected(NotInEnum(field))
    else if TypeName(spec) == Str("string") && value.Str? && |value.s| < MinLength(spec) then Rejected(TooShort(field))
    else Accepted
  }

  /** The first property, in contract order, whose argument is not acceptable. */
  function CheckProperties(properties: seq<Field>, arguments: seq<Field>): Verdict {
    if properties == [] then Accepted
    else
      var spec := properties[0].value;
      var argument := Get(arguments, properties[0].key);
      var first := if argument.None? || !spec.Obj? then Accepted
                   else CheckProperty(properties[0].key, spec, argument.value);
      if first != Accepted then first else CheckProperties(properties[1..], arguments)
  }

  /** The first required argument that is absent. */
  function CheckRequired(required: seq<Json>, arguments: seq<Field>): Verdict {
    if required == [] then Accepted
    else if !Hashable(required[0]) then Raised
    else if required[0].Str? && HasKey(arguments, required[0].s) then CheckRequired(required[1..], arguments)
    else Rejected(MissingArgument(required[0]))
  }

  /** The declared properties of a contract; a contract without a `properties` object declares itself. */
  function Properties(contract: Json): seq<Field>
    requires contract.Obj?
  {
    match Member(contract, "properties")
    case Some(Obj(properties)) => properties
    case _ => contract.fields
  }

  function Required(contract: Json): seq<Json> {
    match Member(contract, "required")
    case Some(Arr(required)) => required
    case _ => []
  }

  predicate Closed(contract: Json) {
    Member(contract, "additional_properties") == Some(Bool(false))
  }

  predicate KeysWithin(fields: seq<Field>, declared: seq<Field>) {
    forall i | 0 <= i < |fields| :: HasKey(declared, fields[i].key)
  }

  /** _validate_action_arguments, for the contract found under the action's name. */
  function CheckArguments(contract: Json, arguments: seq<Field>): Verdict {
    if !contract.Obj? then Rejected(NoArgumentContract)
    else
      var required := CheckRequired(Required(contract), arguments);
      if required != Accepted then required
      else if Closed(contract) && !KeysWithin(arguments, Properties(contract)) then Rejected(UnknownArgument)
      else CheckProperties(Properties(contract), arguments)
  }

  // ----- The request --------------------------------------------------------------------------

  predicate HasSchema(request: Json, shape: Shape) {
    match (shape, Member(request, "directive_schema"))
    case (MapShape, Some(Obj(kinds))) => kinds != []
    case (ListShape, Some(Arr(kinds))) => kinds != []
    case _ => false
  }

  predicate Offers(request: Json, shape: Shape, kind: string) {
    match (shape, Member(request, "directive_schema"))
    case (MapShape, Some(Obj(kinds))) => HasKey(kinds, kind)
    case (ListShape, Some(Arr(kinds))) => Str(kind) in kinds
    case _ => false
  }

  function Controller(request: Json): (r: Json)
    ensures r.Obj?
  {
    match Member(request, "controller")
    case Some(Obj(fields)) => Obj(fields)
    case _ => Obj([])
  }

  function Contracts(request: Json): (r: Json)
    ensures r.Obj?
  {
    match Member(request, "action_contracts")
    case Some(Obj(fields)) => Obj(fields)
    case _ => Obj([])
  }

  /** A list of names in the controller block, None when it is not a list. */
  function Names(request: Json, key: string): Option<seq<Json>> {
    match Member(Controller(request), key)
    case Some(Arr(names)) => Some(names)
    case _ => None
  }

  // ----- The five kinds -----------------------------------------------------------------------

  function TopLevelFields(kind: string): set<string> {
    match kind
    case "action" => {"kind", "name", "arguments"}
    case "transition" => {"kind", "target_state", "reason"}
    case "add_hypothesis" =>
      {"kind", "hypothesis_id", "statement", "confidence", "evidence_refs", "requires_runtime_evidence"}
    case "revise_hypothesis" =>
      {"kind", "hypothesis_id", "statement", "confidence", "evidence_refs", "requires_runtime_evidence"}
    case "set_hypothesis_status" => {"kind", "hypothesis_id", "status"}
    case _ => {}
  }

  function CheckAction(candidate: Json, request: Json): Verdict {
    match Member(candidate, "name")
    case Some(Str(name)) =>
      var contract := Member(Contracts(request), name);
      var allowed := Names(request, "allowed_actions");
      if contract.None? then Rejected(ActionNotAllowed)
      else if allowed.Some? && Str(name) !in allowed.value then Rejected(ActionNotAllowed)
      else
        var arguments := Member(candidate, "arguments");
        if arguments.None? || !arguments.value.Obj? then Rejected(ArgumentsNotObject)
        else
          var checked := CheckArguments(contract.value, arguments.value.fields);
          if checked != Accepted then checked
          else if !StrictJson(arguments.value) then Rejected(ArgumentsNotStrict)
          else if |Encode(CanonicalJson.Dumps(arguments.value, false))| > MAX_ARGUMENT_BYTES then
            Rejected(ArgumentsTooLarge)
          else Accepted
    case _ => Rejected(UnknownActionName)
  }

  function CheckTransition(candidate: Json, request: Json): Verdict {
    var target := Member(candidate, "target_state");
    var legal := Names(request, "legal_transition_targets");
    if target.None? || !target.value.Str? || legal.None? || target.value !in legal.value then
      Rejected(TargetNotReachable)
    else if !IsText(Member(candidate, "reason"), MAX_REASON_BYTES) then Rejected(BadReason)
    else Accepted
  }

  /** Every reference is a plain text and none is repeated. */
  predicate EvidenceRefs(refs: seq<Json>) {
    && (forall i | 0 <= i < |refs| :: IsText(Some(refs[i]), MAX_EVIDENCE_REF_BYTES))
    && (forall i, j | 0 <= i < j < |refs| :: refs[i] != refs[j])
  }

  predicate IsEvidence(value: Option<Json>) {
    match value
    case Some(Arr(refs)) => |refs| <= MAX_EVIDENCE_REF_COUNT && EvidenceRefs(refs)
    case _ => false
  }

  function CheckHypothesis(candidate: Json): Verdict {
    if !IsHypothesisId(Member(candidate, "hypothesis_id")) then Rejected(BadHypothesisId)
    else if !IsText(Member(candidate, "statement"), MAX_STATEMENT_BYTES) then Rejected(BadStatement)
    else if !IsOneOf(Member(candidate, "confidence"), CONFIDENCE_VALUES) then Rejected(BadConfidence)
    else if !IsEvidence(Member(candidate, "evidence_refs")) then Rejected(BadEvidenceRefs)
    else
      match Member(candidate, "requires_runtime_evidence")
      case Some(Bool(_)) => Accepted
      case _ => Rejected(BadRuntimeFlag)
  }

  function CheckStatus(candidate: Json): Verdict {
    if !IsHypothesisId(Member(candidate, "hypothesis_id")) then Rejected(BadHypothesisId)
    else if !IsOneOf(Member(candidate, "status"), STATUS_VALUES) then Rejected(BadStatus)
    else Accepted
  }

  predicate KnownFields(fields: seq<Field>, known: set<string>) {
    forall i | 0 <= i < |fields| :: fields[i].key in known
  }

  /** validate_directive_candidate. */
  function Validate(candidate: Json, request: Json, shape: Shape): Verdict {
    if !candidate.Obj? then Rejected(NotAnObject)
    else if !HasSchema(request, shape) then Rejected(NoDirectiveSchema)
    else
      match Member(candidate, "kind")
      case Some(Str(kind)) =>
        if !Offers(request, shape, kind) then Rejected(UnknownKind)
        else if !KnownFields(candidate.fields, TopLevelFields(kind)) then Rejected(UnknownTopLevelField)
        else CheckKind(kind, candidate, request)
      case _ => Rejected(UnknownKind)
  }

  function CheckKind(kind: string, candidate: Json, request: Json): Verdict {
    match kind
    case "action" => CheckAction(candidate, request)
    case "transition" => CheckTransition(candidate, request)
    case "add_hypothesis" => CheckHypothesis(candidate)
    case "revise_hypothesis" => CheckHypothesis(candidate)
    case "set_hypothesis_status" => CheckStatus(candidate)
    case _ => Rejected(UnknownKind)
  }

  // ----- The evidence loop --------------------------------------------------------------------

  /** The loop over the evidence references, with the set of references seen so far. */
  method CheckEvidenceRefs(refs: seq<Json>) returns (ok: bool)
    ensures ok == EvidenceRefs(refs)
  {
    hide PlainText;
    var seen: set<string> := {};
    for i := 0 to |refs|
      invariant forall j | 0 <= j < i :: IsText(Some(refs[j]), MAX_EVIDENCE_REF_BYTES)
      invariant forall j | 0 <= j < i :: refs[j].s in seen
      invariant forall s | s in seen :: exists j | 0 <= j < i :: refs[j] == Str(s)
      invariant forall j, k | 0 <= j < k < i :: refs[j] != refs[k]
    {
      if !IsText(Some(refs[i]), MAX_EVIDENCE_REF_BYTES) || refs[i].s in seen {
        return false;
      }
      seen := seen + {refs[i].s};
    }
    return true;
  }
}
