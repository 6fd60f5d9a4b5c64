/** JSON values as Python's json module builds them: objects are insertion-ordered dictionaries. */
module Json {
  import opened Wrappers

  datatype Field = Field(key: string, value: Json)

  /** A number with a fraction or an exponent (or NaN, Infinity) is kept as the text it was read from. */
  datatype Json =
    | Null
    | Bool(b: bool)
    | Int(n: int)
    | Real(lexeme: string)
    | Str(s: string)
    | Arr(items: seq<Json>)
    | Obj(fields: seq<Field>)

  predicate HasKey(fields: seq<Field>, key: string) {
    exists i | 0 <= i < |fields| :: fields[i].key == key
  }

  predicate DistinctKeys(fields: seq<Field>) {
    forall i, j | 0 <= i < j < |fields| :: fields[i].key != fields[j].key
  }

  /** Dictionary lookup. */
  function Get(fields: seq<Field>, key: string): (r: Option<Json>)
    ensures r.Some? <==> HasKey(fields, key)
    ensures r.Some? ==> exists i | 0 <= i < |fields| :: fields[i] == Field(key, r.value)
  {
    if fields == [] then None
    else if fields[0].key == key then
      assert fields[0] == Field(key, fields[0].value);
      Some(fields[0].value)
    else
      assert forall i | 1 <= i < |fields| :: fields[i] == fields[1..][i - 1];
      Get(fields[1..], key)
  }

  /** `value.get(key)` for a value that may not be an object at all. */
  function Member(value: Json, key: string): Option<Json> {
    if value.Obj? then Get(value.fields, key) else None
  }

  /** What lies below `value` under these keys, one dictionary after the other. */
  function At(value: Json, path: seq<string>): Option<Json> {
    if path == [] then Some(value)
    else
      match Member(value, path[0])
      case Some(below) => At(below, path[1..])
      case None => None
  }

  lemma AtNext(value: Json, key: string, rest: seq<string>)
    ensures At(value, [key] + rest) == match Member(value, key) case Some(below) => At(below, rest) case None => None
  {
    hide Member;
    assert ([key] + rest)[1..] == rest;
  }

  lemma AtOne(value: Json, key: string)
    ensures At(value, [key]) == Member(value, key)
  {
    hide Member;
    assert [key][1..] == [];
  }

  lemma AtTwo(value: Json, a: string, b: string)
    ensures At(value, [a, b]) == match Member(value, a) case Some(below) => Member(below, b) case None => None
  {
    hide Member, At;
    assert [a] + [b] == [a, b];
    AtNext(value, a, [b]);
    if Member(value, a).Some? {
      AtOne(Member(value, a).value, b);
    }
  }

  lemma AtMore(value: Json, a: string, b: string, rest: seq<string>)
    ensures At(value, [a, b] + rest) == match At(value, [a, b]) case Some(below) => At(below, rest) case None => None
  {
    AtConcat(value, [a, b], rest);
  }

  /** A path below a path. */
  lemma {:induction false} AtConcat(value: Json, path: seq<string>, rest: seq<string>)
    ensures At(value, path + rest) == match At(value, path) case Some(below) => At(below, rest) case None => None
    decreases |path|
  {
    hide Member;
    if path == [] {
      assert path + rest == rest;
    } else {
      assert (path + rest)[1..] == path[1..] + rest;
      match Member(value, path[0]) {
        case Some(below) => AtConcat(below, path[1..], rest);
        case None =>
      }
    }
  }

  /** Dictionary assignment: an existing key keeps its place, a new key goes last. */
  function Put(fields: seq<Field>, key: string, value: Json): seq<Field> {
    if fields == [] then [Field(key, value)]
    else if fields[0].key == key then [Field(key, value)] + fields[1..]
    else [fields[0]] + Put(fields[1..], key, value)
  }

  lemma {:induction false} GetPut(fields: seq<Field>, key: string, value: Json, k: string)
    ensures Get(Put(fields, key, value), k) == if k == key then Some(value) else Get(fields, k)
  {
    if fields != [] && fields[0].key != key {
      GetPut(fields[1..], key, value, k);
      assert Put(fields, key, value)[1..] == Put(fields[1..], key, value);
    }
  }

  /** A dictionary has each key once, at every level. */
  predicate WellFormed(v: Json) {
    match v
    case Arr(items) => forall i | 0 <= i < |items| :: WellFormed(items[i])
    case Obj(fields) =>
      && DistinctKeys(fields)
      && forall i | 0 <= i < |fields| :: WellFormed(fields[i].value)
    case _ => true
  }

  /** No NaN and no infinity: json.dumps refuses them under allow_nan=False. */
  predicate StrictJson(v: Json) {
    match v
    case Real(lexeme) => lexeme != "NaN" && lexeme != "Infinity" && lexeme != "-Infinity"
    case Arr(items) => forall i | 0 <= i < |items| :: StrictJson(items[i])
    case Obj(fields) => forall i | 0 <= i < |fields| :: StrictJson(fields[i].value)
    case _ => true
  }

  lemma {:induction false} GetAt(fields: seq<Field>, i: nat)
    requires DistinctKeys(fields) && i < |fields|
    ensures Get(fields, fields[i].key) == Some(fields[i].value)
  {
    if i > 0 {
      assert fields[i] == fields[1..][i - 1];
      GetAt(fields[1..], i - 1);
    }
  }

  lemma {:induction false} PutNew(fields: seq<Field>, key: string, value: Json)
    requires !HasKey(fields, key)
    ensures Put(fields, key, value) == fields + [Field(key, value)]
  {
    if fields != [] {
      assert fields[0].key != key;
      assert forall i | 0 <= i < |fields| - 1 :: fields[1..][i] == fields[i + 1];
      PutNew(fields[1..], key, value);
      assert fields == [fields[0]] + fields[1..];
    }
  }

  /** A number text with a digit other than zero, a NaN or an infinity. */
  predicate NonZero(lexeme: string) {
    lexeme != [] && lexeme[0] !in "eE" && (lexeme[0] in "123456789NI" || NonZero(lexeme[1..]))
  }

  /** bool(v). */
  predicate Truthy(v: Json) {
    match v
    case Null => false
    case Bool(b) => b
    case Int(n) => n != 0
    case Real(lexeme) => NonZero(lexeme)
    case Str(s) => s != []
    case Arr(items) => items != []
    case Obj(fields) => fields != []
  }

  /** Python's ==: True and False equal 1 and 0, dictionaries have the same keys and equal values, in any order. */
  predicate Equal(a: Json, b: Json) {
    match (a, b)
    case (Bool(x), Int(n)) => n == if x then 1 else 0
    case (Int(n), Bool(x)) => n == if x then 1 else 0
    case (Arr(xs), Arr(ys)) => |xs| == |ys| && forall i | 0 <= i < |xs| :: Equal(xs[i], ys[i])
    case (Obj(fs), Obj(gs)) =>
      && (forall j | 0 <= j < |gs| :: HasKey(fs, gs[j].key))
      && forall i | 0 <= i < |fs| ::
           assert fs[i].value < fs[i];
           var other := Get(gs, fs[i].key);
           other.Some? && Equal(fs[i].value, other.value)
    case _ => a == b
  }

  lemma EqualMember(a: Json, b: Json, key: string)
    requires Equal(a, b)
    ensures match (Member(a, key), Member(b, key))
            case (Some(x), Some(y)) => Equal(x, y)
            case (None, None) => true
            case _ => false
  {
    if a.Obj? {
      if HasKey(b.fields, key) {
        var j :| 0 <= j < |b.fields| && b.fields[j].key == key;
        assert HasKey(a.fields, b.fields[j].key);
      }
      if HasKey(a.fields, key) {
        var i :| 0 <= i < |a.fields| && a.fields[i] == Field(key, Get(a.fields, key).value);
      }
    }
  }

  lemma {:induction false} EqualReflexive(v: Json)
    requires WellFormed(v)
    ensures Equal(v, v)
  {
    match v
    case Arr(items) =>
      forall i | 0 <= i < |items|
        ensures Equal(items[i], items[i])
      {
        EqualReflexive(items[i]);
      }
    case Obj(fields) =>
      forall i | 0 <= i < |fields|
        ensures Get(fields, fields[i].key) == Some(fields[i].value) && Equal(fields[i].value, fields[i].value)
      {
        assert fields[i].value < fields[i];
        GetAt(fields, i);
        EqualReflexive(fields[i].value);
      }
    case _ =>
  }
}
