/** json.dumps with sort_keys: every dictionary is written in increasing key order. */
module CanonicalJson {
  import opened Wrappers
  import opened Json
  import opened JsonText
  import opened JsonRoundTrip

  /** Python's order on strings: code point by code point, a proper prefix first. */
  predicate Less(a: string, b: string) {
    b != [] && (a == [] || a[0] < b[0] || (a[0] == b[0] && Less(a[1..], b[1..])))
  }

  function Insert(f: Field, fields: seq<Field>): seq<Field> {
    if fields == [] || Less(f.key, fields[0].key) then [f] + fields
    else [fields[0]] + Insert(f, fields[1..])
  }

  function Canonical(v: Json): Json {
    match v
    case Arr(items) => Arr(CanonicalItems(items))
    case Obj(fields) => Obj(CanonicalFields(fields))
    case _ => v
  }

  function CanonicalItems(items: seq<Json>): seq<Json> {
    if items == [] then [] else [Canonical(items[0])] + CanonicalItems(items[1..])
  }

  function CanonicalFields(fields: seq<Field>): seq<Field> {
    if fields == [] then []
    else
      assert fields[0].value < fields[0];
      Insert(Field(fields[0].key, Canonical(fields[0].value)), CanonicalFields(fields[1..]))
  }

  /** json.dumps(v, sort_keys=True, separators=(",", ":"), ensure_ascii=ascii, allow_nan=False). */
  function Dumps(v: Json, ascii: bool): string {
    Print(Canonical(v), Compact(ascii))
  }

  // ----- The same dictionary ------------------------------------------------------------------

  /** The same value up to the order in which dictionaries were filled. */
  ghost predicate Same(a: Json, b: Json)
    decreases a, 0
  {
    match (a, b)
    case (Arr(xs), Arr(ys)) => |xs| == |ys| && forall i | 0 <= i < |xs| :: Same(xs[i], ys[i])
    case (Obj(fs), Obj(gs)) =>
      && (forall i | 0 <= i < |fs| :: FoundIn(fs[i], gs))
      && (forall j | 0 <= j < |gs| :: Covers(fs, gs[j]))
    case _ => a == b
  }

  ghost predicate FoundIn(f: Field, gs: seq<Field>)
    decreases f, 1
  {
    exists j | 0 <= j < |gs| :: f.key == gs[j].key && Same(f.value, gs[j].value)
  }

  ghost predicate Covers(fs: seq<Field>, g: Field)
    decreases fs, 1
  {
    exists i | 0 <= i < |fs| :: fs[i].key == g.key && Same(fs[i].value, g.value)
  }

  lemma {:induction false} InsertMembers(f: Field, fields: seq<Field>)
    ensures multiset(Insert(f, fields)) == multiset(fields) + multiset{f}
    ensures |Insert(f, fields)| == |fields| + 1
  {
    if fields != [] && !Less(f.key, fields[0].key) {
      InsertMembers(f, fields[1..]);
      assert fields == [fields[0]] + fields[1..];
    }
  }

  lemma InsertDistinct(f: Field, fields: seq<Field>)
    requires DistinctKeys(fields) && !HasKey(fields, f.key)
    ensures DistinctKeys(Insert(f, fields))
    ensures forall g :: g in Insert(f, fields) <==> g == f || g in fields
  {
    InsertMembers(f, fields);
    forall g
      ensures g in Insert(f, fields) <==> g == f || g in fields
    {
      assert g in multiset(Insert(f, fields)) <==> g in multiset(fields) + multiset{f};
    }
    InsertKeepsDistinct(f, fields);
  }

  lemma {:induction false} InsertKeepsDistinct(f: Field, fields: seq<Field>)
    requires DistinctKeys(fields) && !HasKey(fields, f.key)
    ensures DistinctKeys(Insert(f, fields))
  {
    if fields != [] && !Less(f.key, fields[0].key) {
      var rest := fields[1..];
      assert forall i | 0 <= i < |rest| :: rest[i] == fields[i + 1];
      InsertKeepsDistinct(f, rest);
      InsertMembers(f, rest);
      forall i | 0 <= i < |Insert(f, rest)|
        ensures Insert(f, rest)[i].key != fields[0].key
      {
        assert Insert(f, rest)[i] in multiset(Insert(f, rest));
        assert Insert(f, rest)[i] == f || Insert(f, rest)[i] in rest;
      }
    }
  }

  /** Canonical ordering changes only the order of members: same members, same keys, still writable. */
  lemma {:induction false} CanonicalSame(v: Json)
    requires Writable(v)
    ensures Same(Canonical(v), v) && Writable(Canonical(v))
    decreases v, 0
  {
    hide CanonicalItems, CanonicalFields, FloatText;
    match v
    case Arr(items) =>
      CanonicalItemsSame(items);
      hide Same;
      ItemsSame(CanonicalItems(items), items);
    case Obj(fields) =>
      CanonicalFieldsSame(fields);
      FieldsSame(CanonicalFields(fields), fields);
    case _ =>
  }

  lemma ItemsSame(r: seq<Json>, items: seq<Json>)
    requires |r| == |items| && forall i | 0 <= i < |r| :: Same(r[i], items[i]) && Writable(r[i])
    ensures Same(Arr(r), Arr(items)) && Writable(Arr(r))
  {
    hide FloatText;
  }

  lemma FieldsSame(r: seq<Field>, fields: seq<Field>)
    requires DistinctKeys(r) && forall g :: g in r <==> MemberOf(g, fields)
    requires forall j | 0 <= j < |fields| ::
               Same(Canonical(fields[j].value), fields[j].value) && Writable(Canonical(fields[j].value))
    ensures Same(Obj(r), Obj(fields)) && Writable(Obj(r))
  {
    hide Canonical, FloatText;
    forall i | 0 <= i < |r|
      ensures Writable(r[i].value) && FoundIn(r[i], fields)
    {
      assert r[i] in r;
      var j :| 0 <= j < |fields| && r[i] == CanonicalField(fields[j]);
      assert Same(r[i].value, fields[j].value);
    }
    forall j | 0 <= j < |fields|
      ensures Covers(r, fields[j])
    {
      assert CanonicalField(fields[j]) in r;
    }
  }

  lemma {:induction false} CanonicalItemsSame(items: seq<Json>)
    requires forall i | 0 <= i < |items| :: Writable(items[i])
    ensures var r := CanonicalItems(items);
            |r| == |items| && forall i | 0 <= i < |r| :: Same(r[i], items[i]) && Writable(r[i])
    decreases items, 1
  {
    if items != [] {
      CanonicalSame(items[0]);
      CanonicalItemsSame(items[1..]);
    }
  }

  function CanonicalField(f: Field): Field {
    Field(f.key, Canonical(f.value))
  }

  ghost predicate MemberOf(g: Field, fields: seq<Field>) {
    exists j | 0 <= j < |fields| :: g == CanonicalField(fields[j])
  }

  lemma {:induction false} CanonicalFieldsSame(fields: seq<Field>)
    requires DistinctKeys(fields) && forall i | 0 <= i < |fields| :: Writable(fields[i].value)
    ensures var r := CanonicalFields(fields);
            && DistinctKeys(r)
            && (forall g :: g in r <==> MemberOf(g, fields))
            && forall j | 0 <= j < |fields| ::
                 Same(Canonical(fields[j].value), fields[j].value) && Writable(Canonical(fields[j].value))
    decreases fields, 1
  {
    if fields != [] {
      var f := CanonicalField(fields[0]);
      var rest := fields[1..];
      assert forall i | 0 <= i < |rest| :: rest[i] == fields[i + 1];
      assert fields[0].value < fields[0];
      CanonicalSame(fields[0].value);
      CanonicalFieldsSame(rest);
      var sorted := CanonicalFields(rest);
      assert !HasKey(sorted, f.key) by {
        forall i | 0 <= i < |sorted|
          ensures sorted[i].key != f.key
        {
          assert sorted[i] in sorted;
        }
      }
      InsertDistinct(f, sorted);
      forall g
        ensures MemberOf(g, fields) <==> g == f || MemberOf(g, rest)
      {
        if MemberOf(g, fields) && g != f {
          var j :| 0 <= j < |fields| && g == CanonicalField(fields[j]);
          assert fields[j] == rest[j - 1];
        }
      }
    }
  }

  // ----- One text for one dictionary ----------------------------------------------------------

  lemma {:induction false} LessTrans(a: string, b: string, c: string)
    requires Less(a, b) && Less(b, c)
    ensures Less(a, c)
  {
    if a != [] && a[0] == b[0] == c[0] {
      LessTrans(a[1..], b[1..], c[1..]);
    }
  }

  lemma {:induction false} LessTotal(a: string, b: string)
    ensures !Less(a, a)
    ensures a == b || Less(a, b) || Less(b, a)
  {
    if a != [] {
      LessTotal(a[1..], if b != [] then b[1..] else []);
      if b != [] && a[0] == b[0] && a[1..] == b[1..] {
        assert a == [a[0]] + a[1..] == b;
      }
    }
  }

  /** The keys increase strictly. */
  ghost predicate Sorted(fields: seq<Field>) {
    forall i, j | 0 <= i < j < |fields| :: Less(fields[i].key, fields[j].key)
  }

  lemma {:induction false} InsertSorted(f: Field, fields: seq<Field>)
    requires Sorted(fields) && !HasKey(fields, f.key)
    ensures Sorted(Insert(f, fields))
  {
    if fields != [] {
      var head, rest := fields[0], fields[1..];
      assert head.key != f.key;
      assert forall i | 0 <= i < |rest| :: rest[i] == fields[i + 1];
      LessTotal(f.key, head.key);
      if Less(f.key, head.key) {
        forall i | 0 <= i < |rest|
          ensures Less(f.key, rest[i].key)
        {
          LessTrans(f.key, head.key, rest[i].key);
        }
      } else {
        InsertSorted(f, rest);
        InsertMembers(f, rest);
        forall i | 0 <= i < |Insert(f, rest)|
          ensures Less(head.key, Insert(f, rest)[i].key)
        {
          assert Insert(f, rest)[i] in multiset(Insert(f, rest));
          assert Insert(f, rest)[i] == f || Insert(f, rest)[i] in rest;
        }
      }
    }
  }

  lemma {:induction false} CanonicalSorted(fields: seq<Field>)
    requires DistinctKeys(fields) && forall i | 0 <= i < |fields| :: Writable(fields[i].value)
    ensures Sorted(CanonicalFields(fields))
  {
    if fields != [] {
      var rest := fields[1..];
      assert forall i | 0 <= i < |rest| :: rest[i] == fields[i + 1];
      CanonicalSorted(rest);
      CanonicalFieldsSame(rest);
      var sorted := CanonicalFields(rest);
      forall i | 0 <= i < |sorted|
        ensures sorted[i].key != fields[0].key
      {
        assert sorted[i] in sorted;
      }
      InsertSorted(CanonicalField(fields[0]), sorted);
    }
  }

  lemma {:induction false} SortedUnique(a: seq<Field>, b: seq<Field>)
    requires Sorted(a) && Sorted(b)
    requires forall f :: f in a <==> f in b
    ensures a == b
  {
    assert (a != [] ==> a[0] in a) && (b != [] ==> b[0] in b);
    if a != [] && b != [] {
      SameHead(a, b);
      assert a == [a[0]] + a[1..] && b == [b[0]] + b[1..];
      forall f
        ensures f in a[1..] <==> f in b[1..]
      {
        LessTotal(a[0].key, a[0].key);
        assert a[0] !in a[1..] && b[0] !in b[1..];
        assert f in a <==> f == a[0] || f in a[1..];
        assert f in b <==> f == b[0] || f in b[1..];
      }
      SortedUnique(a[1..], b[1..]);
    }
  }

  lemma SameHead(a: seq<Field>, b: seq<Field>)
    requires Sorted(a) && Sorted(b) && a != [] && b != []
    requires forall f :: f in a <==> f in b
    ensures a[0] == b[0]
  {
    assert a[0] in b && b[0] in a;
    var i :| 0 <= i < |b| && b[i] == a[0];
    var j :| 0 <= j < |a| && a[j] == b[0];
    if i > 0 && j > 0 {
      LessTrans(a[0].key, b[0].key, a[0].key);
      LessTotal(a[0].key, a[0].key);
    }
  }

  /** Two dictionaries with the same content have the same canonical form, whatever order they were filled in. */
  lemma {:induction false} CanonicalUnique(v: Json, w: Json)
    requires Writable(v) && Writable(w) && Same(v, w)
    ensures Canonical(v) == Canonical(w)
    decreases v, 0
  {
    match (v, w)
    case (Arr(xs), Arr(ys)) =>
      CanonicalItemsUnique(xs, ys);
    case (Obj(fs), Obj(gs)) =>
      CanonicalFieldsSame(fs);
      CanonicalFieldsSame(gs);
      CanonicalSorted(fs);
      CanonicalSorted(gs);
      forall f
        ensures MemberOf(f, fs) <==> MemberOf(f, gs)
      {
        SameMembers(f, fs, gs);
      }
      SortedUnique(CanonicalFields(fs), CanonicalFields(gs));
    case _ =>
  }

  lemma {:induction false} SameMembers(f: Field, fs: seq<Field>, gs: seq<Field>)
    requires Writable(Obj(fs)) && Writable(Obj(gs)) && Same(Obj(fs), Obj(gs))
    ensures MemberOf(f, fs) <==> MemberOf(f, gs)
    decreases fs, 1
  {
    if MemberOf(f, fs) {
      var i :| 0 <= i < |fs| && f == CanonicalField(fs[i]);
      assert FoundIn(fs[i], gs);
      var j :| 0 <= j < |gs| && fs[i].key == gs[j].key && Same(fs[i].value, gs[j].value);
      CanonicalUnique(fs[i].value, gs[j].value);
      assert f == CanonicalField(gs[j]);
    }
    if MemberOf(f, gs) {
      var j :| 0 <= j < |gs| && f == CanonicalField(gs[j]);
      assert Covers(fs, gs[j]);
      var i :| 0 <= i < |fs| && fs[i].key == gs[j].key && Same(fs[i].value, gs[j].value);
      CanonicalUnique(fs[i].value, gs[j].value);
      assert f == CanonicalField(fs[i]);
    }
  }

  lemma {:induction false} CanonicalItemsUnique(xs: seq<Json>, ys: seq<Json>)
    requires |xs| == |ys| && forall i | 0 <= i < |xs| :: Writable(xs[i]) && Writable(ys[i]) && Same(xs[i], ys[i])
    ensures CanonicalItems(xs) == CanonicalItems(ys)
    decreases xs, 1
  {
    if xs != [] {
      CanonicalUnique(xs[0], ys[0]);
      CanonicalItemsUnique(xs[1..], ys[1..]);
    }
  }

  /** What json.loads makes of the canonical text: the same value, with its dictionaries sorted. */
  lemma LoadsDumps(v: Json, ascii: bool)
    requires Writable(v)
    ensures Loads(Dumps(v, ascii)) == Some(Canonical(v)) && Same(Canonical(v), v)
  {
    CanonicalSame(v);
    WriteStart(Canonical(v), Compact(ascii), []);
    ReadWritten(Canonical(v), Compact(ascii), []);
  }
}
