/** Exactly when the plain lookup and the lookup over unique observations quote the same source line. */
module ObservationOrder {
  import opened Wrappers
  import opened Json
  import opened ObservationLookup

  // ----- Orders of ids ------------------------------------------------------------------------

  /** Each id once, at the place of its first occurrence. */
  function FirstOrder(ids: seq<string>): seq<string> {
    if ids == [] then []
    else
      var n := |ids| - 1;
      var before := FirstOrder(ids[..n]);
      if ids[n] in before then before else before + [ids[n]]
  }

  function Without(ids: seq<string>, id: string): seq<string> {
    if ids == [] then []
    else
      var n := |ids| - 1;
      Without(ids[..n], id) + if ids[n] == id then [] else [ids[n]]
  }

  /** Each id once, at the place of its last occurrence. */
  function LastOrder(ids: seq<string>): seq<string> {
    if ids == [] then []
    else
      var n := |ids| - 1;
      Without(LastOrder(ids[..n]), ids[n]) + [ids[n]]
  }

  /** The ids come in the same order by first occurrence as by last occurrence. */
  predicate SameOrder(ids: seq<string>) {
    FirstOrder(ids) == LastOrder(ids)
  }

  predicate Distinct(ids: seq<string>) {
    forall i, j | 0 <= i < j < |ids| :: ids[i] != ids[j]
  }

  lemma {:induction false} WithoutIs(ids: seq<string>, id: string)
    requires Distinct(ids)
    ensures Distinct(Without(ids, id)) && forall x :: x in Without(ids, id) <==> x in ids && x != id
  {
    if ids != [] {
      var n := |ids| - 1;
      var before := Without(ids[..n], id);
      WithoutIs(ids[..n], id);
      assert forall x :: x in ids <==> x in ids[..n] || x == ids[n];
      assert ids[n] !in ids[..n];
      if ids[n] != id {
        DistinctAdd(before, ids[n]);
      }
    }
  }

  lemma DistinctAdd(ids: seq<string>, id: string)
    requires Distinct(ids) && id !in ids
    ensures Distinct(ids + [id]) && forall x :: x in ids + [id] <==> x in ids || x == id
  {
  }

  lemma {:induction false} FirstOrderIs(ids: seq<string>)
    ensures Distinct(FirstOrder(ids)) && forall x :: x in FirstOrder(ids) <==> x in ids
  {
    if ids != [] {
      var n := |ids| - 1;
      FirstOrderIs(ids[..n]);
      assert forall x :: x in ids <==> x in ids[..n] || x == ids[n];
      if ids[n] !in FirstOrder(ids[..n]) {
        DistinctAdd(FirstOrder(ids[..n]), ids[n]);
      }
    }
  }

  lemma {:induction false} LastOrderIs(ids: seq<string>)
    ensures Distinct(LastOrder(ids)) && forall x :: x in LastOrder(ids) <==> x in ids
  {
    if ids != [] {
      var n := |ids| - 1;
      LastOrderIs(ids[..n]);
      WithoutIs(LastOrder(ids[..n]), ids[n]);
      assert forall x :: x in ids <==> x in ids[..n] || x == ids[n];
      DistinctAdd(Without(LastOrder(ids[..n]), ids[n]), ids[n]);
    }
  }

  /** `x` stands before `y`. */
  ghost predicate Before(ids: seq<string>, x: string, y: string) {
    exists i, j | 0 <= i < j < |ids| :: ids[i] == x && ids[j] == y
  }

  lemma BeforeTail(ids: seq<string>, x: string, y: string)
    requires ids != [] && Before(ids[1..], x, y)
    ensures Before(ids, x, y)
  {
    var i, j :| 0 <= i < j < |ids[1..]| && ids[1..][i] == x && ids[1..][j] == y;
    assert ids[i + 1] == x && ids[j + 1] == y;
  }

  lemma BeforeHead(ids: seq<string>, y: string)
    requires ids != [] && y in ids && y != ids[0]
    ensures Before(ids, ids[0], y)
  {
    var j :| 0 <= j < |ids| && ids[j] == y;
    assert ids[0] == ids[0] && ids[j] == y;
  }

  function Head(ids: seq<string>): (r: Option<string>)
    ensures r.None? <==> ids == []
    ensures r.Some? ==> r.value in ids && r.value == ids[0]
  {
    if ids == [] then None else Some(ids[0])
  }

  /** Two different orders of the same ids put some pair the other way round. */
  lemma {:induction false} Inversion(f: seq<string>, l: seq<string>) returns (x: string, y: string)
    requires Distinct(f) && Distinct(l) && f != l && forall id :: id in f <==> id in l
    ensures Before(f, x, y) && Before(l, y, x) && x != y
  {
    x, y := "", "";
    var p, q := Head(f), Head(l);
    if p.None? || q.None? {
      assert false;
    } else if f[0] == l[0] {
      forall id
        ensures id in f[1..] <==> id in l[1..]
      {
        assert id in f <==> id == f[0] || id in f[1..];
        assert id in l <==> id == l[0] || id in l[1..];
      }
      assert f == [f[0]] + f[1..] && l == [l[0]] + l[1..];
      x, y := Inversion(f[1..], l[1..]);
      BeforeTail(f, x, y);
      BeforeTail(l, y, x);
    } else {
      x, y := f[0], l[0];
      BeforeHead(f, y);
      BeforeHead(l, x);
    }
  }

  // ----- The last value -----------------------------------------------------------------------

  /** The value of the last id that has one. */
  function LastOf<T>(ids: seq<string>, value: string -> Option<T>): Option<T> {
    if ids == [] then None
    else
      var n := |ids| - 1;
      if value(ids[n]).Some? then value(ids[n]) else LastOf(ids[..n], value)
  }

  lemma {:induction false} LastOfWithout<T>(ids: seq<string>, id: string, value: string -> Option<T>)
    requires value(id).None?
    ensures LastOf(Without(ids, id), value) == LastOf(ids, value)
  {
    if ids != [] {
      var n := |ids| - 1;
      var before := Without(ids[..n], id);
      LastOfWithout(ids[..n], id, value);
      if ids[n] == id {
        assert before + [] == before;
      } else {
        assert (before + [ids[n]])[..|before|] == before;
      }
    }
  }

  /** Only the last occurrence of an id matters. */
  lemma {:induction false} LastOfOrder<T>(ids: seq<string>, value: string -> Option<T>)
    ensures LastOf(LastOrder(ids), value) == LastOf(ids, value)
  {
    if ids != [] {
      var n := |ids| - 1;
      var front := Without(LastOrder(ids[..n]), ids[n]);
      LastOfOrder(ids[..n], value);
      assert (front + [ids[n]])[..|front|] == front;
      if value(ids[n]).None? {
        LastOfWithout(LastOrder(ids[..n]), ids[n], value);
      }
    }
  }

  // ----- Observations named by their ids ------------------------------------------------------

  /** The ids of the observations that have one, in order. */
  function Ids(observations: seq<Json>): seq<string> {
    if observations == [] then []
    else
      var n := |observations| - 1;
      Ids(observations[..n]) + match Id(observations[n]) case Some(id) => [id] case None => []
  }

  function InOrder(ids: seq<string>, named: string -> Json): seq<Json> {
    seq(|ids|, i requires 0 <= i < |ids| => named(ids[i]))
  }

  /** Every observation object is the one its id names. */
  predicate Follows(observations: seq<Json>, named: string -> Json) {
    forall o | o in observations ::
      && (o.Obj? ==> Id(o).Some?)
      && match Id(o) case Some(id) => named(id) == o case None => true
  }

  function BreakpointOf(observation: Json): Option<int> {
    match Member(observation, "payload")
    case Some(Obj(fields)) => Breakpoint(Obj(fields))
    case _ => None
  }

  function TextAt(observation: Json, k: (string, int)): Option<string> {
    match Member(observation, "payload")
    case Some(Obj(fields)) => LastText(Lines(Obj(fields)), k)
    case _ => None
  }

  function Breakpoints(named: string -> Json): string -> Option<int> {
    id => BreakpointOf(named(id))
  }

  function TextsAt(named: string -> Json, k: (string, int)): string -> Option<string> {
    id => TextAt(named(id), k)
  }

  predicate HasText(c: Collected, k: (string, int), text: Option<string>) {
    match text
    case Some(t) => k in c.source && c.source[k] == t
    case None => k !in c.source
  }

  /** What a pass over observations with these ids collects. */
  ghost predicate Holds(c: Collected, ids: seq<string>, named: string -> Json) {
    && c.breakpoint == LastOf(ids, Breakpoints(named))
    && forall k :: HasText(c, k, LastOf(ids, TextsAt(named, k)))
  }

  lemma CollectHolds(c: Collected, ids: seq<string>, o: Json, id: string, named: string -> Json)
    requires Holds(c, ids, named) && named(id) == o
    ensures Holds(Collect(c, o), ids + [id], named)
  {
    hide Breakpoint, Lines, Store, LastText;
    var all, next := ids + [id], Collect(c, o);
    assert all[..|ids|] == ids;
    forall k
      ensures HasText(next, k, LastOf(all, TextsAt(named, k)))
    {
      assert HasText(c, k, LastOf(ids, TextsAt(named, k)));
      match Member(o, "payload") {
        case Some(Obj(fields)) => StoredAt(c.source, Lines(Obj(fields)), k);
        case _ =>
      }
    }
  }

  lemma {:induction false} CollectFollows(observations: seq<Json>, named: string -> Json)
    requires Follows(observations, named)
    ensures Holds(CollectAll(observations), Ids(observations), named)
  {
    hide Collect, Id, Holds;
    if observations == [] {
      NothingHolds(named);
    } else {
      var n := |observations| - 1;
      var o := observations[n];
      CollectFollows(observations[..n], named);
      assert o in observations;
      match Id(o) {
        case Some(id) => CollectHolds(CollectAll(observations[..n]), Ids(observations[..n]), o, id, named);
        case None =>
          NoEffect(CollectAll(observations[..n]), o);
          assert Ids(observations[..n]) + [] == Ids(observations[..n]);
      }
    }
  }

  lemma NothingHolds(named: string -> Json)
    ensures Holds(Collected(None, map[]), [], named)
  {
  }

  lemma HoldsUnique(c: Collected, d: Collected, ids: seq<string>, named: string -> Json)
    requires Holds(c, ids, named) && Holds(d, ids, named)
    ensures c == d
  {
    hide LastOf, TextsAt;
    forall k
      ensures (k in c.source <==> k in d.source) && (k in c.source ==> c.source[k] == d.source[k])
    {
      assert HasText(c, k, LastOf(ids, TextsAt(named, k))) && HasText(d, k, LastOf(ids, TextsAt(named, k)));
    }
    assert c.source == d.source;
  }

  /** A pass depends only on the order of the last occurrences. */
  lemma HoldsByLast(c: Collected, ids: seq<string>, named: string -> Json)
    requires Holds(c, ids, named)
    ensures Holds(c, LastOrder(ids), named)
  {
    hide LastOrder, LastOf, TextsAt, Breakpoints;
    LastOfOrder(ids, Breakpoints(named));
    forall k
      ensures HasText(c, k, LastOf(LastOrder(ids), TextsAt(named, k)))
    {
      LastOfOrder(ids, TextsAt(named, k));
      assert HasText(c, k, LastOf(ids, TextsAt(named, k)));
    }
  }

  lemma {:induction false} IdsNamed(observations: seq<Json>, named: string -> Json, id: string)
    requires Follows(observations, named) && id in Ids(observations)
    ensures Id(named(id)) == Some(id)
  {
    hide Id;
    var n := |observations| - 1;
    assert observations[n] in observations;
    if id in Ids(observations[..n]) {
      IdsNamed(observations[..n], named, id);
    }
  }

  /** The unique observations are those of the ids by first occurrence. */
  lemma {:induction false} UniqueFollows(observations: seq<Json>, named: string -> Json)
    requires Follows(observations, named)
    ensures Unique(observations) == InOrder(FirstOrder(Ids(observations)), named)
  {
    hide Id, PutById;
    if observations != [] {
      var n := |observations| - 1;
      var o, ids := observations[n], Ids(observations[..n]);
      UniqueFollows(observations[..n], named);
      FirstOrderIs(ids);
      assert o in observations;
      match Id(o) {
        case None =>
          assert ids + [] == ids;
        case Some(id) =>
          assert (ids + [id])[..|ids|] == ids;
          PutNamed(FirstOrder(ids), observations[..n], o, id, named);
      }
    }
  }

  lemma PutNamed(order: seq<string>, observations: seq<Json>, o: Json, id: string, named: string -> Json)
    requires Follows(observations, named) && forall x | x in order :: x in Ids(observations)
    requires Id(o) == Some(id) && named(id) == o
    ensures PutById(InOrder(order, named), o) == InOrder(if id in order then order else order + [id], named)
  {
    hide Id, PutById, Ids;
    var unique := InOrder(order, named);
    forall i | 0 <= i < |order|
      ensures Id(unique[i]) == Some(order[i])
    {
      IdsNamed(observations, named, order[i]);
    }
    if id in order {
      var i :| 0 <= i < |order| && order[i] == id;
      assert Id(unique[i]) == Some(id);
      PutByIdAgain(unique, o);
    } else {
      PutByIdNew(unique, o);
    }
  }

  lemma {:induction false} IdsAt(ids: seq<string>, named: string -> Json)
    requires forall id | id in ids :: Id(named(id)) == Some(id)
    ensures Ids(InOrder(ids, named)) == ids && Follows(InOrder(ids, named), named)
  {
    hide Id;
    if ids != [] {
      var n := |ids| - 1;
      IdsAt(ids[..n], named);
      assert InOrder(ids, named)[..n] == InOrder(ids[..n], named);
    }
  }

  /** What the two lookups collect: by last occurrence the one, by first occurrence the other. */
  lemma BothHold(observations: seq<Json>, named: string -> Json)
    requires Follows(observations, named)
    ensures Holds(CollectAll(observations), LastOrder(Ids(observations)), named)
    ensures Holds(CollectAll(Unique(observations)), FirstOrder(Ids(observations)), named)
  {
    var ids := Ids(observations);
    CollectFollows(observations, named);
    HoldsByLast(CollectAll(observations), ids, named);
    FirstOrderIs(ids);
    forall id | id in FirstOrder(ids)
      ensures Id(named(id)) == Some(id)
    {
      IdsNamed(observations, named, id);
    }
    hide *;
    UniqueFollows(observations, named);
    IdsAt(FirstOrder(ids), named);
    CollectFollows(Unique(observations), named);
  }

  // ----- The same order is enough -------------------------------------------------------------

  /** Ids are texts, an id always carries the same observation, and the order of the ids is the same either way. */
  predicate WellKept(candidates: seq<Json>) {
    Identified(candidates) && Consistent(candidates) && SameOrder(Ids(candidates))
  }

  /** The observation an id stands for. */
  function Named(observations: seq<Json>, id: string): Json {
    if observations == [] then Null
    else
      var n := |observations| - 1;
      if Id(observations[n]) == Some(id) then observations[n] else Named(observations[..n], id)
  }

  lemma {:induction false} NamedIs(observations: seq<Json>, i: nat, id: string)
    requires Consistent(observations) && i < |observations| && Id(observations[i]) == Some(id)
    ensures Named(observations, id) == observations[i]
  {
    hide Id;
    var n := |observations| - 1;
    if Id(observations[n]) != Some(id) {
      NamedIs(observations[..n], i, id);
    }
  }

  lemma ConsistentFollows(observations: seq<Json>)
    requires Identified(observations) && Consistent(observations)
    ensures Follows(observations, id => Named(observations, id))
  {
    hide Id, Named, Consistent;
    forall o | o in observations
      ensures (o.Obj? ==> Id(o).Some?) && match Id(o) case Some(id) => Named(observations, id) == o case None => true
    {
      var i :| 0 <= i < |observations| && observations[i] == o;
      if Id(o).Some? {
        NamedIs(observations, i, Id(o).value);
      }
    }
  }

  /** Then removing duplicates changes nothing that the lookup collects. */
  lemma UniqueCollectsTheSame(candidates: seq<Json>)
    requires WellKept(candidates)
    ensures CollectAll(Unique(candidates)) == CollectAll(candidates)
  {
    var named := id => Named(candidates, id);
    ConsistentFollows(candidates);
    hide Follows, CollectAll, Unique, Holds, Ids, Named, FirstOrder, LastOrder;
    BothHold(candidates, named);
    HoldsUnique(CollectAll(candidates), CollectAll(Unique(candidates)), LastOrder(Ids(candidates)), named);
  }

  /** Then the interactive and the frozen prompt quote the same source line. */
  lemma LookupsAgree(request: Json, frozen: Option<SourceLine>, interactive: Option<SourceLine>)
    requires Answers(CollectAll(Candidates(request)), frozen)
    requires Answers(CollectAll(Unique(Candidates(request))), interactive)
    requires WellKept(Candidates(request))
    ensures frozen == interactive
  {
    UniqueCollectsTheSame(Candidates(request));
    AnswerUnique(CollectAll(Candidates(request)), frozen, interactive);
  }

  // ----- And nothing less ---------------------------------------------------------------------

  function Observation(id: string, payload: Json): Json {
    Obj([Field("observation_id", Str(id)), Field("payload", payload)])
  }

  function Naming(payload: string -> Json): string -> Json {
    id => Observation(id, payload(id))
  }

  /** Observations with these ids, each id with the payload given for it. */
  function Observations(ids: seq<string>, payload: string -> Json): seq<Json> {
    InOrder(ids, Naming(payload))
  }

  /** Both lookups give the same answer. */
  ghost predicate Agree(observations: seq<Json>) {
    exists r :: Answers(CollectAll(observations), r) && Answers(CollectAll(Unique(observations)), r)
  }

  const FILE := "module.py"
  const TEXT := "pass"

  function SampleLine(number: int): Json {
    Obj([Field("path", Str(FILE)), Field("line_number", Int(number)), Field("text", Str(TEXT))])
  }

  /** A payload with a breakpoint at line `number` and the source of lines 1 and 2. */
  function SamplePayload(number: int): Json {
    Obj([Field("proof", Obj([Field("breakpoint_line", Int(number))])),
         Field("lines", Arr([SampleLine(1), SampleLine(2)]))])
  }

  /** `x` stops at line 1, `y` at line 2, and nothing else says anything. */
  function Sample(x: string, y: string): string -> Json {
    id => if id == x then SamplePayload(1) else if id == y then SamplePayload(2) else Null
  }

  lemma ObservationIs(id: string, payload: Json)
    ensures Id(Observation(id, payload)) == Some(id)
    ensures Member(Observation(id, payload), "payload") == Some(payload)
  {
    var fields := Observation(id, payload).fields;
    assert fields[1..][0] == Field("payload", payload);
  }

  lemma SampleLineIs(number: int)
    ensures SourceEntry(SampleLine(number)) == Some(SourceLine(FILE, number, TEXT))
  {
    var fields := SampleLine(number).fields;
    GetAt(fields, 0);
    GetAt(fields, 1);
    GetAt(fields, 2);
    hide Get;
  }

  lemma SampleTexts(k: (string, int))
    ensures LastText([SampleLine(1), SampleLine(2)], k) ==
            if k == (FILE, 1) || k == (FILE, 2) then Some(TEXT) else None
  {
    SampleLineIs(1);
    SampleLineIs(2);
    hide SourceEntry, SampleLine;
    var lines := [SampleLine(1), SampleLine(2)];
    assert lines[..1] == [SampleLine(1)] && [SampleLine(1)][..0] == [];
    assert LastText([], k) == None;
    assert LastText([SampleLine(1)], k) == if k == (FILE, 1) then Some(TEXT) else None;
  }

  lemma SamplePayloadIs(number: int, k: (string, int))
    ensures Breakpoint(SamplePayload(number)) == Some(number)
    ensures LastText(Lines(SamplePayload(number)), k) == if k == (FILE, 1) || k == (FILE, 2) then Some(TEXT) else None
  {
    var fields := SamplePayload(number).fields;
    GetAt(fields, 0);
    GetAt(fields, 1);
    GetAt(fields[0].value.fields, 0);
    SampleTexts(k);
    hide Get, SampleLine, LastText;
  }

  lemma SampleObservationIs(id: string, x: string, y: string, k: (string, int))
    requires x != y
    ensures var o := Observation(id, Sample(x, y)(id));
            && Id(o) == Some(id)
            && BreakpointOf(o) == (if id == x then Some(1) else if id == y then Some(2) else None)
            && TextAt(o, k) == if (id == x || id == y) && (k == (FILE, 1) || k == (FILE, 2)) then Some(TEXT) else None
  {
    ObservationIs(id, Sample(x, y)(id));
    SamplePayloadIs(1, k);
    SamplePayloadIs(2, k);
    hide Observation, Breakpoint, Lines, LastText, Id;
  }

  lemma {:induction false} LastOfPair<T>(ids: seq<string>, value: string -> Option<T>, x: string, y: string)
    requires Distinct(ids) && Before(ids, x, y) && value(y).Some?
    requires forall id | id != x && id != y :: value(id).None?
    ensures LastOf(ids, value) == value(y)
  {
    var n := |ids| - 1;
    var i, j :| 0 <= i < j < |ids| && ids[i] == x && ids[j] == y;
    if j < n {
      assert ids[..n][i] == x && ids[..n][j] == y;
      LastOfPair(ids[..n], value, x, y);
    }
  }

  lemma {:induction false} LastOfNone<T>(ids: seq<string>, value: string -> Option<T>)
    requires forall id :: value(id).None?
    ensures LastOf(ids, value) == None
  {
    if ids != [] {
      LastOfNone(ids[..|ids| - 1], value);
    }
  }

  /** What is collected from the sample when `y` comes last. */
  lemma SampleHolds(c: Collected, order: seq<string>, x: string, y: string, first: string, last: string)
    requires x != y && (first, last) in {(x, y), (y, x)} && Distinct(order) && Before(order, first, last)
    requires Holds(c, order, Naming(Sample(x, y)))
    ensures Answers(c, Some(SourceLine(FILE, if last == x then 1 else 2, TEXT)))
  {
    hide Observation, Sample;
    var named := Naming(Sample(x, y));
    var number := if last == x then 1 else 2;
    forall id
      ensures Breakpoints(named)(id) == if id == x then Some(1) else if id == y then Some(2) else None
    {
      SampleObservationIs(id, x, y, (FILE, 1));
    }
    forall id, k
      ensures TextsAt(named, k)(id) ==
              if (id == x || id == y) && (k == (FILE, 1) || k == (FILE, 2)) then Some(TEXT) else None
    {
      SampleObservationIs(id, x, y, k);
    }
    hide BreakpointOf, TextAt, LastOf;
    LastOfPair(order, Breakpoints(named), first, last);
    forall k
      ensures k in c.source <==> k == (FILE, 1) || k == (FILE, 2)
      ensures k in c.source ==> c.source[k] == TEXT
    {
      assert HasText(c, k, LastOf(order, TextsAt(named, k)));
      if k == (FILE, 1) || k == (FILE, 2) {
        LastOfPair(order, TextsAt(named, k), first, last);
      } else {
        LastOfNone(order, TextsAt(named, k));
      }
    }
    assert Places(c, number) == {(FILE, number)};
  }

  /** When the two orders differ in a pair, there are payloads for which the two lookups quote different lines. */
  lemma SampleDiffers(ids: seq<string>, x: string, y: string)
    requires x != y && Before(FirstOrder(ids), x, y) && Before(LastOrder(ids), y, x)
    ensures var observations := Observations(ids, Sample(x, y));
            && Answers(CollectAll(observations), Some(SourceLine(FILE, 1, TEXT)))
            && Answers(CollectAll(Unique(observations)), Some(SourceLine(FILE, 2, TEXT)))
  {
    var named := Naming(Sample(x, y));
    var observations := Observations(ids, Sample(x, y));
    forall id | id in ids
      ensures Id(named(id)) == Some(id)
    {
      ObservationIs(id, Sample(x, y)(id));
    }
    hide Observation, Sample, Id, CollectAll, Unique, Holds, FirstOrder, LastOrder, Answers, Before, Distinct;
    IdsAt(ids, named);
    BothHold(observations, named);
    FirstOrderIs(ids);
    LastOrderIs(ids);
    SampleHolds(CollectAll(observations), LastOrder(ids), x, y, y, x);
    SampleHolds(CollectAll(Unique(observations)), FirstOrder(ids), x, y, x, y);
  }

  lemma AnswersDiffer(c: Collected, d: Collected, a: SourceLine, b: SourceLine)
    requires Answers(c, Some(a)) && Answers(d, Some(b)) && a != b
    ensures !exists r :: Answers(c, r) && Answers(d, r)
  {
    hide Answers;
    if r :| Answers(c, r) && Answers(d, r) {
      AnswerUnique(c, r, Some(a));
      AnswerUnique(d, r, Some(b));
    }
  }

  lemma AnswerExists(c: Collected) returns (r: Option<SourceLine>)
    ensures Answers(c, r)
  {
    if c.breakpoint.Some? && |Places(c, c.breakpoint.value)| == 1 {
      var place :| place in Places(c, c.breakpoint.value);
      assert |Places(c, c.breakpoint.value) - {place}| == 0;
      assert Places(c, c.breakpoint.value) == {place};
      r := Some(SourceLine(place.0, c.breakpoint.value, c.source[place]));
    } else {
      r := None;
    }
  }

  lemma SameOrderAgrees(ids: seq<string>, payload: string -> Json)
    requires SameOrder(ids)
    ensures Agree(Observations(ids, payload))
  {
    var named := Naming(payload);
    var observations := Observations(ids, payload);
    forall id | id in ids
      ensures Id(named(id)) == Some(id)
    {
      ObservationIs(id, payload(id));
    }
    hide Observation, Id, CollectAll, Unique, Holds, FirstOrder, LastOrder, Answers;
    IdsAt(ids, named);
    BothHold(observations, named);
    HoldsUnique(CollectAll(observations), CollectAll(Unique(observations)), LastOrder(ids), named);
    var r := AnswerExists(CollectAll(observations));
    assert Answers(CollectAll(observations), r) && Answers(CollectAll(Unique(observations)), r);
  }

  /**
   * For a sequence of ids, the two lookups agree on every payload exactly when the ids come in the same order by
   * first occurrence as by last occurrence.
   */
  lemma OrderDecides(ids: seq<string>)
    ensures SameOrder(ids) <==> forall payload: string -> Json :: Agree(Observations(ids, payload))
  {
    hide Observations, Agree, FirstOrder, LastOrder, Distinct, Before;
    if SameOrder(ids) {
      forall payload: string -> Json
        ensures Agree(Observations(ids, payload))
      {
        SameOrderAgrees(ids, payload);
      }
    } else {
      FirstOrderIs(ids);
      LastOrderIs(ids);
      var x, y := Inversion(FirstOrder(ids), LastOrder(ids));
      SampleDisagrees(ids, x, y);
    }
  }

  lemma SampleDisagrees(ids: seq<string>, x: string, y: string)
    requires x != y && Before(FirstOrder(ids), x, y) && Before(LastOrder(ids), y, x)
    ensures !Agree(Observations(ids, Sample(x, y)))
  {
    var observations := Observations(ids, Sample(x, y));
    SampleDiffers(ids, x, y);
    AnswersDiffer(CollectAll(observations), CollectAll(Unique(observations)),
                  SourceLine(FILE, 1, TEXT), SourceLine(FILE, 2, TEXT));
  }

  // ----- A request on which the prompts differ ------------------------------------------------

  function Entry(observation: Json): Json {
    Obj([Field("last_observation", observation)])
  }

  /** A request with these observations in its history, and `current` as the controller's. */
  function RequestWith(history: seq<Json>, current: Json): Json {
    Obj([Field("history", Arr(seq(|history|, i requires 0 <= i < |history| => Entry(history[i])))),
         Field("controller", Entry(current))])
  }

  lemma EntryIs(observation: Json)
    ensures Entry(observation).Obj? && LastObservation(Entry(observation)) == observation
  {
  }

  lemma {:induction false} FromEntriesIs(history: seq<Json>)
    ensures FromEntries(seq(|history|, i requires 0 <= i < |history| => Entry(history[i]))) == history
  {
    hide Entry, LastObservation;
    if history != [] {
      var entries := seq(|history|, i requires 0 <= i < |history| => Entry(history[i]));
      var rest := history[1..];
      FromEntriesIs(rest);
      assert entries[1..] == seq(|rest|, i requires 0 <= i < |rest| => Entry(rest[i]));
      EntryIs(history[0]);
    }
  }

  lemma CandidatesOf(history: seq<Json>, current: Json)
    ensures Candidates(RequestWith(history, current)) == history + [current]
  {
    var fields := RequestWith(history, current).fields;
    GetAt(fields, 0);
    GetAt(fields, 1);
    hide Get, FromEntries, LastObservation, Entry;
    EntryIs(current);
    FromEntriesIs(history);
  }

  /**
   * An id that comes back after another one: the frozen prompt quotes the line of the observation that came back, the
   * interactive prompt the line of the one in between.
   */
  lemma OrderMatters()
    ensures var a, b := Observation("a", SamplePayload(1)), Observation("b", SamplePayload(2));
            var request := RequestWith([a, b], a);
            && Candidates(request) == [a, b, a] && Identified([a, b, a]) && Consistent([a, b, a])
            && Answers(CollectAll(Candidates(request)), Some(SourceLine(FILE, 1, TEXT)))
            && Answers(CollectAll(Unique(Candidates(request))), Some(SourceLine(FILE, 2, TEXT)))
  {
    var a, b := Observation("a", SamplePayload(1)), Observation("b", SamplePayload(2));
    CandidatesOf([a, b], a);
    assert [a, b] + [a] == [a, b, a];
    OrdersOfAba("a", "b");
    var ids := ["a", "b", "a"];
    SampleObservations();
    hide *;
    SampleDiffers(ids, "a", "b");
    SampleKept(a, b);
  }

  lemma SampleKept(a: Json, b: Json)
    requires a == Observation("a", SamplePayload(1)) && b == Observation("b", SamplePayload(2))
    ensures Identified([a, b, a]) && Consistent([a, b, a])
  {
    ObservationIs("a", SamplePayload(1));
    ObservationIs("b", SamplePayload(2));
    hide Id, Observation, SamplePayload;
  }

  lemma SampleObservations()
    ensures Observations(["a", "b", "a"], Sample("a", "b")) ==
            [Observation("a", SamplePayload(1)), Observation("b", SamplePayload(2)), Observation("a", SamplePayload(1))]
  {
    hide SamplePayload, Observation;
    assert "a" != "b";
    assert Sample("a", "b")("a") == SamplePayload(1) && Sample("a", "b")("b") == SamplePayload(2);
  }

  lemma OrdersOfAba(a: string, b: string)
    requires a != b
    ensures Before(FirstOrder([a, b, a]), a, b) && Before(LastOrder([a, b, a]), b, a)
  {
    NoOrders(a, b);
    hide *;
    OrdersNext([], a);
    OrdersNext([a], b);
    OrdersNext([a, b], a);
    WithoutNext([], a, b);
    WithoutNext([], a, a);
    WithoutNext([a], b, a);
    assert [] + [a] == [a] && [] + [b] == [b];
    assert [a] + [b] == [a, b] && [b] + [a] == [b, a] && [a, b] + [a] == [a, b, a];
    IsBefore([a, b], 0, 1);
    IsBefore([b, a], 0, 1);
  }

  lemma NoOrders(a: string, b: string)
    ensures FirstOrder([]) == LastOrder([]) == Without([], a) == Without([], b) == []
  {
  }

  lemma IsBefore(ids: seq<string>, i: nat, j: nat)
    requires i < j < |ids|
    ensures Before(ids, ids[i], ids[j])
  {
  }

  lemma OrdersNext(ids: seq<string>, id: string)
    ensures FirstOrder(ids + [id]) == if id in FirstOrder(ids) then FirstOrder(ids) else FirstOrder(ids) + [id]
    ensures LastOrder(ids + [id]) == Without(LastOrder(ids), id) + [id]
  {
    hide Without;
    assert (ids + [id])[..|ids|] == ids;
  }

  lemma WithoutNext(ids: seq<string>, next: string, id: string)
    ensures Without(ids + [next], id) == Without(ids, id) + if next == id then [] else [next]
  {
    assert (ids + [next])[..|ids|] == ids;
  }
}
