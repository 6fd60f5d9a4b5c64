/** Removing protected fields from evidence: path deletion on JSON trees, in place and as a function. */
module CapsuleClearing {
  import opened Wrappers
  import opened Json
  import Text

  const ANY: string := "*"

  type Path = seq<string>

  // ----- Deletion as a function ---------------------------------------------------------------

  /** `v` without what lies at `path`; "*" stands for every list item or dictionary value. */
  function Cleared(v: Json, path: Path): Json
    decreases v, 0
  {
    if path == [] then v
    else
      match v
      case Arr(items) => if path[0] == ANY then Arr(ClearedItems(items, path[1..])) else v
      case Obj(fields) => Obj(ClearedFields(fields, path))
      case _ => v
  }

  function ClearedItems(items: seq<Json>, path: Path): (r: seq<Json>)
    ensures |r| == |items|
    decreases items, 1
  {
    if items == [] then [] else [Cleared(items[0], path)] + ClearedItems(items[1..], path)
  }

  /** What becomes of one dictionary entry: it is kept, changed below, or deleted. */
  function ClearedField(f: Field, path: Path): seq<Field>
    requires path != []
    decreases f, 1
  {
    if path[0] != ANY && path[0] != f.key then [f]
    else if path[0] != ANY && |path| == 1 then []
    else [Field(f.key, Cleared(f.value, path[1..]))]
  }

  function ClearedFields(fields: seq<Field>, path: Path): seq<Field>
    requires path != []
    decreases fields, 1
  {
    if fields == [] then [] else ClearedField(fields[0], path) + ClearedFields(fields[1..], path)
  }

  // ----- Positions ----------------------------------------------------------------------------

  datatype Hop = Key(key: string) | Index(index: nat)

  function Child(v: Json, hop: Hop): Option<Json> {
    match hop
    case Key(key) => Member(v, key)
    case Index(i) => if v.Arr? && i < |v.items| then Some(v.items[i]) else None
  }

  /** What `v` holds at a position. */
  function AtPosition(v: Json, position: seq<Hop>): Option<Json>
    decreases |position|
  {
    if position == [] then Some(v)
    else
      match Child(v, position[0])
      case Some(child) => AtPosition(child, position[1..])
      case None => None
  }

  predicate HopMatches(hop: Hop, step: string) {
    step == ANY || hop == Key(step)
  }

  predicate Matches(position: seq<Hop>, path: Path) {
    && |position| == |path|
    && forall i | 0 <= i < |path| :: HopMatches(position[i], path[i])
  }

  /** Does the position lie at or below what the path deletes? */
  predicate Deleted(position: seq<Hop>, path: Path) {
    && path != []
    && path[|path| - 1] != ANY
    && |position| >= |path|
    && Matches(position[..|path|], path)
  }

  /** What clearing leaves at a position that held `found`. */
  function Left(found: Option<Json>, position: seq<Hop>, path: Path): Option<Json> {
    if Deleted(position, path) then None
    else
      match found
      case Some(u) =>
        if |position| < |path| && Matches(position, path[..|position|]) then Some(Cleared(u, path[|position|..]))
        else Some(u)
      case None => None
  }

  lemma {:induction false} ClearedItem(items: seq<Json>, path: Path, i: nat)
    requires i < |items|
    ensures ClearedItems(items, path)[i] == Cleared(items[i], path)
  {
    if i > 0 {
      ClearedItem(items[1..], path, i - 1);
    }
  }

  function ClearedEntry(found: Option<Json>, key: string, path: Path): Option<Json>
    requires path != []
  {
    match found
    case None => None
    case Some(u) =>
      if path[0] != ANY && path[0] != key then Some(u)
      else if path[0] != ANY && |path| == 1 then None
      else Some(Cleared(u, path[1..]))
  }

  /** Looking up a key after clearing. */
  lemma {:induction false} ClearedGet(fields: seq<Field>, path: Path, key: string)
    requires path != [] && DistinctKeys(fields)
    ensures Get(ClearedFields(fields, path), key) == ClearedEntry(Get(fields, key), key, path)
  {
    hide Cleared;
    if fields != [] {
      var f, rest := fields[0], fields[1..];
      var front, tail := ClearedField(f, path), ClearedFields(rest, path);
      ClearedGet(rest, path, key);
      if front == [] {
        assert front + tail == tail;
        if f.key == key {
          assert !HasKey(rest, key);
        }
      } else {
        assert (front + tail)[0] == front[0] && (front + tail)[1..] == tail;
      }
    }
  }

  /** The first hop into a cleared value. */
  lemma ClearedChild(v: Json, path: Path, hop: Hop)
    requires path != [] && WellFormed(v)
    ensures Child(Cleared(v, path), hop) ==
            if !HopMatches(hop, path[0]) then Child(v, hop)
            else if |path| == 1 && path[0] != ANY then None
            else match Child(v, hop) case Some(u) => Some(Cleared(u, path[1..])) case None => None
  {
    match v {
      case Obj(fields) =>
        match hop {
          case Key(key) => ClearedGet(fields, path, key);
          case Index(_) =>
        }
      case Arr(items) =>
        match hop {
          case Index(i) =>
            if path[0] == ANY && i < |items| {
              ClearedItem(items, path[1..], i);
            }
          case Key(_) =>
        }
      case _ =>
    }
  }

  lemma ChildWellFormed(v: Json, hop: Hop)
    requires WellFormed(v)
    ensures match Child(v, hop) case Some(u) => WellFormed(u) case None => true
  {
  }

  lemma MatchesTail(position: seq<Hop>, path: Path)
    requires position != [] && path != []
    ensures Matches(position, path) <==> HopMatches(position[0], path[0]) && Matches(position[1..], path[1..])
  {
    if HopMatches(position[0], path[0]) && Matches(position[1..], path[1..]) {
      assert forall i | 1 <= i < |path| :: position[i] == position[1..][i - 1] && path[i] == path[1..][i - 1];
    }
    if Matches(position, path) {
      assert forall i | 0 <= i < |path| - 1 :: position[1..][i] == position[i + 1] && path[1..][i] == path[i + 1];
    }
  }

  lemma LeftTail(found: Option<Json>, position: seq<Hop>, path: Path)
    requires position != [] && |path| > 1
    ensures Left(found, position, path) ==
            if HopMatches(position[0], path[0]) then Left(found, position[1..], path[1..]) else found
  {
    hide HopMatches, Cleared;
    if |position| >= |path| {
      MatchesTail(position[..|path|], path);
      assert position[..|path|][1..] == position[1..][..|path| - 1];
    } else {
      MatchesTail(position, path[..|position|]);
      assert path[..|position|][1..] == path[1..][..|position| - 1];
      assert path[1..][|position| - 1..] == path[|position|..];
    }
  }

  /** Exactly what lies at or below the path is gone, and every other position is unchanged. */
  lemma {:induction false} ClearedAt(v: Json, path: Path, position: seq<Hop>)
    requires WellFormed(v)
    ensures AtPosition(Cleared(v, path), position) == Left(AtPosition(v, position), position, path)
    decreases |position|
  {
    if path != [] && position != [] {
      ClearedChild(v, path, position[0]);
      ChildWellFormed(v, position[0]);
      var child := Child(v, position[0]);
      if |path| > 1 {
        LeftTail(AtPosition(v, position), position, path);
      } else {
        MatchesTail(position[..1], path);
        assert child.Some? ==> Cleared(child.value, path[1..]) == child.value;
      }
      hide HopMatches, Cleared, Child;
      if child.Some? && |path| > 1 {
        ClearedAt(child.value, path[1..], position[1..]);
      }
    } else {
      assert position == [] ==> path[..0] == [] && path[0..] == path;
    }
  }

  /** In particular a scalar survives exactly when the path does not reach it. */
  lemma ScalarSurvives(v: Json, path: Path, position: seq<Hop>, scalar: Json)
    requires WellFormed(v) && !scalar.Arr? && !scalar.Obj?
    ensures AtPosition(Cleared(v, path), position) == Some(scalar)
            <==> AtPosition(v, position) == Some(scalar) && !Deleted(position, path)
  {
    ClearedAt(v, path, position);
    match AtPosition(v, position) {
      case Some(u) =>
        if |position| < |path| {
          assert (u.Arr? <==> Cleared(u, path[|position|..]).Arr?) && (u.Obj? <==> Cleared(u, path[|position|..]).Obj?);
        }
      case None =>
    }
  }

  // ----- Clears combine -----------------------------------------------------------------------

  lemma {:induction false} ClearedFieldsConcat(a: seq<Field>, b: seq<Field>, path: Path)
    requires path != []
    ensures ClearedFields(a + b, path) == ClearedFields(a, path) + ClearedFields(b, path)
  {
    hide ClearedField;
    if a == [] {
      assert a + b == b;
    } else {
      assert (a + b)[1..] == a[1..] + b;
      ClearedFieldsConcat(a[1..], b, path);
    }
  }

  /** Two deletions can be made in either order. */
  lemma {:induction false} ClearsCommute(v: Json, p: Path, q: Path)
    ensures Cleared(Cleared(v, p), q) == Cleared(Cleared(v, q), p)
    decreases v, 0
  {
    if p != [] && q != [] {
      match v {
        case Arr(items) =>
          if p[0] == ANY && q[0] == ANY {
            ItemsCommute(items, p[1..], q[1..]);
          }
        case Obj(fields) => FieldsCommute(fields, p, q);
        case _ =>
      }
    }
  }

  lemma {:induction false} ItemsCommute(items: seq<Json>, p: Path, q: Path)
    ensures ClearedItems(ClearedItems(items, p), q) == ClearedItems(ClearedItems(items, q), p)
    decreases items, 1
  {
    hide Cleared;
    if items != [] {
      ClearsCommute(items[0], p, q);
      ItemsCommute(items[1..], p, q);
    }
  }

  function ClearedTwice(f: Field, p: Path, q: Path): seq<Field>
    requires p != [] && q != []
  {
    ClearedFields(ClearedField(f, p), q)
  }

  lemma OneField(f: Field, path: Path)
    requires path != []
    ensures ClearedFields([], path) == []
    ensures ClearedFields([f], path) == ClearedField(f, path)
  {
    assert [f][1..] == [];
    assert ClearedField(f, path) + [] == ClearedField(f, path);
  }

  lemma {:induction false} FieldCommutes(f: Field, p: Path, q: Path)
    requires p != [] && q != []
    ensures ClearedTwice(f, p, q) == ClearedTwice(f, q, p)
    decreases f, 1
  {
    ClearsCommute(f.value, p[1..], q[1..]);
    var fp, fq := Field(f.key, Cleared(f.value, p[1..])), Field(f.key, Cleared(f.value, q[1..]));
    OneField(f, p);
    OneField(f, q);
    OneField(fp, q);
    OneField(fq, p);
    hide Cleared, ClearedFields;
  }

  lemma {:induction false} FieldsCommute(fields: seq<Field>, p: Path, q: Path)
    requires p != [] && q != []
    ensures ClearedFields(ClearedFields(fields, p), q) == ClearedFields(ClearedFields(fields, q), p)
    decreases fields, 1
  {
    hide Cleared, ClearedField;
    if fields != [] {
      FieldCommutes(fields[0], p, q);
      FieldsCommute(fields[1..], p, q);
      ClearedFieldsConcat(ClearedField(fields[0], p), ClearedFields(fields[1..], p), q);
      ClearedFieldsConcat(ClearedField(fields[0], q), ClearedFields(fields[1..], q), p);
    }
  }

  /** Deleting twice is deleting once. */
  lemma {:induction false} ClearIdempotent(v: Json, p: Path)
    ensures Cleared(Cleared(v, p), p) == Cleared(v, p)
    decreases v, 0
  {
    if p != [] {
      match v {
        case Arr(items) =>
          if p[0] == ANY {
            ItemsIdempotent(items, p[1..]);
          }
        case Obj(fields) => FieldsIdempotent(fields, p);
        case _ =>
      }
    }
  }

  lemma {:induction false} ItemsIdempotent(items: seq<Json>, p: Path)
    ensures ClearedItems(ClearedItems(items, p), p) == ClearedItems(items, p)
    decreases items, 1
  {
    hide Cleared;
    if items != [] {
      ClearIdempotent(items[0], p);
      ItemsIdempotent(items[1..], p);
    }
  }

  lemma {:induction false} FieldsIdempotent(fields: seq<Field>, p: Path)
    requires p != []
    ensures ClearedFields(ClearedFields(fields, p), p) == ClearedFields(fields, p)
    decreases fields, 1
  {
    hide Cleared;
    if fields != [] {
      var f := fields[0];
      ClearIdempotent(f.value, p[1..]);
      OneField(f, p);
      OneField(Field(f.key, Cleared(f.value, p[1..])), p);
      FieldsIdempotent(fields[1..], p);
      ClearedFieldsConcat(ClearedField(f, p), ClearedFields(fields[1..], p), p);
    }
  }

  /** A path that ends in "*" deletes nothing. */
  lemma {:induction false} StarClearsNothing(v: Json, path: Path)
    requires path == [] || path[|path| - 1] == ANY
    ensures Cleared(v, path) == v
    decreases v, 0
  {
    if path != [] {
      match v {
        case Arr(items) => ItemsUntouched(items, path[1..]);
        case Obj(fields) => FieldsUntouched(fields, path);
        case _ =>
      }
    }
  }

  lemma {:induction false} ItemsUntouched(items: seq<Json>, path: Path)
    requires path == [] || path[|path| - 1] == ANY
    ensures ClearedItems(items, path) == items
    decreases items, 1
  {
    hide Cleared;
    if items != [] {
      StarClearsNothing(items[0], path);
      ItemsUntouched(items[1..], path);
    }
  }

  lemma {:induction false} FieldsUntouched(fields: seq<Field>, path: Path)
    requires path != [] && path[|path| - 1] == ANY
    ensures ClearedFields(fields, path) == fields
    decreases fields, 1
  {
    hide Cleared;
    if fields != [] {
      StarClearsNothing(fields[0].value, path[1..]);
      FieldsUntouched(fields[1..], path);
    }
  }

  // ----- The protected telemetry checks -------------------------------------------------------

  const REQUEST_PATH: Path := ["telemetry", ANY, "request"]
  const ARGUMENTS_PATH: Path := ["telemetry", ANY, "translated_directive", "arguments"]

  /** The record with every protected telemetry field cleared. */
  function ClearedCapsule(capsule: Json): Json {
    Cleared(Cleared(capsule, REQUEST_PATH), ARGUMENTS_PATH)
  }

  datatype Check = Passes | Survived(field: string) | Raises

  /** `"arguments" in (directive or {})`; a number or a true value cannot be searched. */
  function CheckDirective(directive: Option<Json>): Check {
    if directive.None? || !Truthy(directive.value) then Passes
    else
      match directive.value
      case Obj(fields) => if HasKey(fields, "arguments") then Survived("arguments") else Passes
      case Arr(items) => if Str("arguments") in items then Survived("arguments") else Passes
      case Str(s) => if Text.Contains(s, "arguments") then Survived("arguments") else Passes
      case _ => Raises
  }

  /** One telemetry record; only an object can be asked for its directive. */
  function CheckRecord(record: Json): Check {
    match record
    case Obj(fields) =>
      if HasKey(fields, "request") then Survived("request")
      else CheckDirective(Get(fields, "translated_directive"))
    case Arr(items) => if Str("request") in items then Survived("request") else Raises
    case Str(s) => if Text.Contains(s, "request") then Survived("request") else Raises
    case _ => Raises
  }

  function CheckRecords(records: seq<Json>): Check {
    if records == [] then Passes
    else if CheckRecord(records[0]).Passes? then CheckRecords(records[1..])
    else CheckRecord(records[0])
  }

  /** The directive of a record has nothing under "arguments" and can be searched for it. */
  predicate WithoutArguments(record: Json) {
    match At(record, ["translated_directive"])
    case None => true
    case Some(Obj(_)) => At(record, ["translated_directive", "arguments"]).None?
    case Some(Arr(items)) => Str("arguments") !in items
    case Some(Str(s)) => !Text.Contains(s, "arguments")
    case Some(other) => !Truthy(other)
  }

  /** An object that holds a protected field is reported with that field; it passes exactly when it holds none. */
  lemma RecordReported(record: Json)
    requires record.Obj?
    ensures At(record, ["request"]).Some? ==> CheckRecord(record) == Survived("request")
    ensures At(record, ["request"]).None? && At(record, ["translated_directive", "arguments"]).Some? ==>
              CheckRecord(record) == Survived("arguments")
    ensures CheckRecord(record).Passes? <==> At(record, ["request"]).None? && WithoutArguments(record)
  {
    AtOne(record, "request");
    AtOne(record, "translated_directive");
    AtTwo(record, "translated_directive", "arguments");
    NothingContains();
    hide At, Get, Text.Contains;
    assert forall v: Json, key :: !v.Obj? ==> Member(v, key) == None;
  }

  lemma NothingContains()
    ensures !Text.Contains("", "arguments")
  {
  }

  /** The loop over the telemetry of a capsule. */
  method CheckTelemetry(records: seq<Json>) returns (r: Check)
    ensures r == CheckRecords(records)
    ensures r.Passes? <==> forall record | record in records :: CheckRecord(record).Passes?
  {
    hide CheckRecord;
    assert records[0..] == records;
    for i := 0 to |records|
      invariant CheckRecords(records) == CheckRecords(records[i..])
      invariant forall record | record in records[..i] :: CheckRecord(record).Passes?
    {
      assert records[i..][1..] == records[i + 1..];
      assert records[..i + 1] == records[..i] + [records[i]];
      r := CheckRecord(records[i]);
      if !r.Passes? {
        return;
      }
    }
    assert records[..|records|] == records;
    r := Passes;
  }

  /** What a directive has to be for clearing to satisfy the check: its own arguments field does not matter. */
  predicate ClearableDirective(directive: Option<Json>) {
    || directive.None?
    || !Truthy(directive.value)
    || directive.value.Obj?
    || (directive.value.Arr? && Str("arguments") !in directive.value.items)
    || (directive.value.Str? && !Text.Contains(directive.value.s, "arguments"))
  }

  predicate ClearableRecord(record: Json) {
    record.Obj? && ClearableDirective(Get(record.fields, "translated_directive"))
  }

  function ClearedRecord(record: Json): Json {
    Cleared(Cleared(record, ["request"]), ["translated_directive", "arguments"])
  }

  /** After clearing, a record passes exactly when it is an object with a directive of an expected shape. */
  lemma ClearedRecordPasses(record: Json)
    requires WellFormed(record)
    ensures CheckRecord(ClearedRecord(record)).Passes? <==> ClearableRecord(record)
  {
    if record.Obj? {
      var p, q := ["request"], ["translated_directive", "arguments"];
      var once := Cleared(record, p);
      ClearedGet(record.fields, p, "request");
      ClearedGet(record.fields, p, "translated_directive");
      ClearedDistinct(record.fields, p);
      ClearedGet(once.fields, q, "request");
      ClearedGet(once.fields, q, "translated_directive");
      var directive := Get(record.fields, "translated_directive");
      if directive.Some? {
        ClearedDirective(directive.value);
      }
    }
  }

  lemma ClearedDirective(directive: Json)
    requires WellFormed(directive)
    ensures CheckDirective(Some(Cleared(directive, ["arguments"]))).Passes? <==> ClearableDirective(Some(directive))
  {
    if directive.Obj? {
      ClearedGet(directive.fields, ["arguments"], "arguments");
    }
  }

  lemma {:induction false} ClearedDistinct(fields: seq<Field>, path: Path)
    requires path != [] && DistinctKeys(fields)
    ensures DistinctKeys(ClearedFields(fields, path))
    ensures forall f | f in ClearedFields(fields, path) :: HasKey(fields, f.key)
  {
    hide Cleared;
    if fields != [] {
      ClearedDistinct(fields[1..], path);
      var front, tail := ClearedField(fields[0], path), ClearedFields(fields[1..], path);
      assert ClearedFields(fields, path) == front + tail;
      assert forall k | 0 <= k < |fields| - 1 :: fields[1..][k] == fields[k + 1];
      forall f | f in ClearedFields(fields, path)
        ensures HasKey(fields, f.key)
      {
        if f in tail {
          var k :| 0 <= k < |fields[1..]| && fields[1..][k].key == f.key;
          assert fields[k + 1].key == f.key;
        } else {
          assert f in front && fields[0].key == f.key;
        }
      }
      forall i | 0 <= i < |tail|
        ensures tail[i].key != fields[0].key
      {
        assert tail[i] in tail;
      }
    }
  }

  lemma {:induction false} PassesAll(records: seq<Json>)
    ensures CheckRecords(records).Passes? <==> forall i | 0 <= i < |records| :: CheckRecord(records[i]).Passes?
  {
    hide CheckRecord;
    if records != [] {
      PassesAll(records[1..]);
      assert forall i | 1 <= i < |records| :: records[i] == records[1..][i - 1];
      assert forall i | 0 <= i < |records| - 1 :: records[1..][i] == records[i + 1];
    }
  }

  predicate TelemetryIs(capsule: Json, records: seq<Json>) {
    Member(capsule, "telemetry") == Some(Arr(records))
  }

  lemma ClearedMember(capsule: Json, path: Path)
    requires WellFormed(capsule) && capsule.Obj? && |path| > 1 && path[0] == "telemetry"
    ensures match Member(capsule, "telemetry")
            case Some(t) => Member(Cleared(capsule, path), "telemetry") == Some(Cleared(t, path[1..]))
            case None => true
    ensures Cleared(capsule, path).Obj? && DistinctKeys(Cleared(capsule, path).fields)
  {
    ClearedGet(capsule.fields, path, "telemetry");
    ClearedDistinct(capsule.fields, path);
  }

  lemma TelemetryCleared(capsule: Json, records: seq<Json>)
    requires WellFormed(capsule) && TelemetryIs(capsule, records)
    ensures TelemetryIs(ClearedCapsule(capsule),
                        ClearedItems(ClearedItems(records, ["request"]), ["translated_directive", "arguments"]))
  {
    var once := Cleared(capsule, REQUEST_PATH);
    ClearedMember(capsule, REQUEST_PATH);
    ClearedGet(once.fields, ARGUMENTS_PATH, "telemetry");
    assert REQUEST_PATH[1..] == [ANY, "request"] && REQUEST_PATH[1..][1..] == ["request"];
    assert ARGUMENTS_PATH[1..] == [ANY, "translated_directive", "arguments"];
    assert ARGUMENTS_PATH[1..][1..] == ["translated_directive", "arguments"];
  }

  /**
   * The telemetry checks of a cleared capsule pass exactly when its records and directives have the expected
   * shapes.
   */
  lemma TelemetryPasses(capsule: Json, records: seq<Json>, cleared: seq<Json>)
    requires WellFormed(capsule) && TelemetryIs(capsule, records)
    requires TelemetryIs(ClearedCapsule(capsule), cleared)
    ensures CheckRecords(cleared).Passes? <==> forall i | 0 <= i < |records| :: ClearableRecord(records[i])
    ensures |cleared| == |records|
  {
    TelemetryCleared(capsule, records);
    assert forall i | 0 <= i < |records| :: WellFormed(records[i]);
    hide ClearedCapsule, CheckRecord, ClearableRecord, CheckRecords, WellFormed, Cleared;
    forall i | 0 <= i < |records|
      ensures cleared[i] == ClearedRecord(records[i])
      ensures CheckRecord(cleared[i]).Passes? <==> ClearableRecord(records[i])
    {
      ClearedItem(records, ["request"], i);
      ClearedItem(ClearedItems(records, ["request"]), ["translated_directive", "arguments"], i);
      ClearedRecordPasses(records[i]);
    }
    PassesAll(cleared);
  }

  // ----- The trajectory -----------------------------------------------------------------------

  const FAILURE_FIELD := "failure_output_raw"
  const NODE_FIELD := "node_id"

  /** `value or {}`. */
  function OrEmpty(value: Option<Json>): Json {
    if value.Some? && Truthy(value.value) then value.value else Obj([])
  }

  /** `(v.get(key) or {})` of a dictionary. */
  function Below(v: Json, key: string): Json
    requires v.Obj?
  {
    OrEmpty(Get(v.fields, key))
  }

  /** The observation payload inside an event; None when something on the way has no `get`. */
  function Inner(event: Json): Option<Json> {
    if !event.Obj? then None
    else
      var payload := Below(event, "payload");
      if !payload.Obj? then None
      else
        var observation := Below(payload, "observation");
        if !observation.Obj? then None else Some(Below(observation, "payload"))
  }

  predicate IsObservation(event: Json) {
    Member(event, "event_type") == Some(Str("observation"))
  }

  function ObservationPath(field: string): Path {
    ["payload", "observation", "payload", field]
  }

  /** _clear_trajectory on one event; None is the exception a malformed event raises. */
  function ClearedEvent(event: Json): Option<Json> {
    if !event.Obj? then None
    else if !IsObservation(event) then Some(event)
    else if Inner(event).None? || !Inner(event).value.Obj? then None
    else Some(Cleared(Cleared(event, ObservationPath(FAILURE_FIELD)), ObservationPath(NODE_FIELD)))
  }

  /** The protected-field check of one event. */
  function CheckEvent(event: Json): Check {
    if !event.Obj? then Raises
    else if !IsObservation(event) then Passes
    else
      match Inner(event)
      case Some(Obj(fields)) =>
        if HasKey(fields, FAILURE_FIELD) then Survived(FAILURE_FIELD)
        else if HasKey(fields, NODE_FIELD) then Survived(NODE_FIELD)
        else Passes
      case Some(Arr(items)) =>
        if Str(FAILURE_FIELD) in items then Survived(FAILURE_FIELD)
        else if Str(NODE_FIELD) in items then Survived(NODE_FIELD)
        else Passes
      case Some(Str(s)) =>
        if Text.Contains(s, FAILURE_FIELD) then Survived(FAILURE_FIELD)
        else if Text.Contains(s, NODE_FIELD) then Survived(NODE_FIELD)
        else Passes
      case _ => Raises
  }

  /** An observation event that holds a protected field is reported with the first one it holds. */
  lemma EventReported(event: Json)
    requires At(event, ["event_type"]) == Some(Str("observation"))
    ensures var failure := At(event, ["payload", "observation", "payload", "failure_output_raw"]);
            var node := At(event, ["payload", "observation", "payload", "node_id"]);
            if failure.Some? then CheckEvent(event) == Survived("failure_output_raw")
            else node.Some? ==> CheckEvent(event) == Survived("node_id")
  {
    AtOne(event, "event_type");
    InnerHolds(event, FAILURE_FIELD);
    InnerHolds(event, NODE_FIELD);
    hide At, Inner, Get;
  }

  lemma InnerHolds(event: Json, field: string)
    ensures var found := At(event, ["payload", "observation", "payload", field]);
            && (found.Some? ==> event.Obj? && Inner(event).Some? && Inner(event).value.Obj?)
            && (event.Obj? && Inner(event).Some? && Inner(event).value.Obj? ==>
                  found == Get(Inner(event).value.fields, field))
  {
    hide At, Get;
    assert ["payload", "observation", "payload", field] == ["payload", "observation"] + ["payload", field];
    AtMore(event, "payload", "observation", ["payload", field]);
    AtTwo(event, "payload", "observation");
    if At(event, ["payload", "observation"]).Some? {
      AtTwo(At(event, ["payload", "observation"]).value, "payload", field);
    }
    NothingBelow();
    assert forall v: Json, key :: !v.Obj? ==> Member(v, key) == None;
  }

  lemma NothingBelow()
    ensures forall key :: Get([], key) == None
  {
  }

  /** Clearing a dictionary along a longer path is clearing the entry at its first step. */
  lemma BelowCleared(v: Json, path: Path)
    requires WellFormed(v) && v.Obj? && |path| > 1 && path[0] != ANY
    ensures Cleared(v, path).Obj? && Below(Cleared(v, path), path[0]) == Cleared(Below(v, path[0]), path[1..])
    ensures WellFormed(Below(v, path[0])) && WellFormed(Cleared(v, path))
  {
    ClearedGet(v.fields, path, path[0]);
    ClearedWellFormed(v, path);
    match Get(v.fields, path[0]) {
      case None =>
      case Some(u) =>
        if !Truthy(u) {
          assert Cleared(u, path[1..]) == u || u.Obj? || u.Arr?;
        }
    }
  }

  lemma {:induction false} ClearedWellFormed(v: Json, path: Path)
    requires WellFormed(v)
    ensures WellFormed(Cleared(v, path))
    decreases v, 0
  {
    if path != [] {
      match v {
        case Arr(items) =>
          forall i | 0 <= i < |items|
            ensures WellFormed(ClearedItems(items, path[1..])[i])
          {
            ClearedItem(items, path[1..], i);
            ClearedWellFormed(items[i], path[1..]);
          }
        case Obj(fields) =>
          ClearedDistinct(fields, path);
          FieldsWellFormed(fields, path);
        case _ =>
      }
    }
  }

  lemma {:induction false} FieldsWellFormed(fields: seq<Field>, path: Path)
    requires path != [] && forall i | 0 <= i < |fields| :: WellFormed(fields[i].value)
    ensures forall i | 0 <= i < |ClearedFields(fields, path)| :: WellFormed(ClearedFields(fields, path)[i].value)
    decreases fields, 1
  {
    hide Cleared, WellFormed;
    if fields != [] {
      ClearedWellFormed(fields[0].value, path[1..]);
      FieldsWellFormed(fields[1..], path);
    }
  }

  lemma InnerCleared(event: Json, field: string)
    requires WellFormed(event) && IsObservation(event) && Inner(event).Some? && Inner(event).value.Obj?
    ensures var cleared := Cleared(event, ObservationPath(field));
            && WellFormed(cleared) && IsObservation(cleared) && WellFormed(Inner(event).value)
            && Inner(cleared) == Some(Cleared(Inner(event).value, [field]))
  {
    var path := ObservationPath(field);
    assert path[1..] == ["observation", "payload", field] && path[1..][1..] == ["payload", field];
    assert path[1..][1..][1..] == [field];
    ClearedGet(event.fields, path, "event_type");
    BelowCleared(event, path);
    var payload := Below(event, "payload");
    hide Cleared, Get, WellFormed;
    BelowCleared(payload, path[1..]);
    BelowCleared(Below(payload, "observation"), path[1..][1..]);
  }

  /** An event that clearing accepts passes the protected-field check afterwards; other events are untouched. */
  lemma EventPasses(event: Json)
    requires WellFormed(event) && ClearedEvent(event).Some?
    ensures CheckEvent(ClearedEvent(event).value).Passes?
    ensures !IsObservation(event) ==> ClearedEvent(event).value == event
  {
    if IsObservation(event) {
      var once := Cleared(event, ObservationPath(FAILURE_FIELD));
      InnerCleared(event, FAILURE_FIELD);
      var inner := Inner(event).value;
      assert Cleared(inner, [FAILURE_FIELD]).Obj?;
      InnerCleared(once, NODE_FIELD);
      InnerPasses(inner);
      hide Cleared, Inner, IsObservation;
    }
  }

  lemma InnerPasses(inner: Json)
    requires WellFormed(inner) && inner.Obj?
    ensures var twice := Cleared(Cleared(inner, [FAILURE_FIELD]), [NODE_FIELD]);
            twice.Obj? && !HasKey(twice.fields, FAILURE_FIELD) && !HasKey(twice.fields, NODE_FIELD)
  {
    var once := Cleared(inner, [FAILURE_FIELD]);
    ClearedGet(inner.fields, [FAILURE_FIELD], FAILURE_FIELD);
    ClearedDistinct(inner.fields, [FAILURE_FIELD]);
    ClearedGet(once.fields, [NODE_FIELD], FAILURE_FIELD);
    ClearedGet(once.fields, [NODE_FIELD], NODE_FIELD);
  }
}
