/** The eight-task baseline campaign: which manifests are run, and when the run counts as complete. */
module BaselineVerdict {
  import opened Wrappers
  import opened Json

  /** str.lower. */
  type Lower = string -> string

  /** A selected manifest and the algorithm its file name spells. */
  datatype Manifest = Manifest(path: string, algorithm: string)

  predicate Distinct<T(==)>(s: seq<T>) {
    forall i, j | 0 <= i < j < |s| :: s[i] != s[j]
  }

  predicate DistinctAlgorithms(catalogue: seq<Manifest>) {
    forall i, j | 0 <= i < j < |catalogue| :: catalogue[i].algorithm != catalogue[j].algorithm
  }

  function Members<T(==)>(s: seq<T>): set<T> {
    set x | x in s
  }

  /** The names that occur more than once. */
  function Repeated(s: seq<string>): set<string> {
    set x | x in s && multiset(s)[x] > 1
  }

  function Lowered(names: seq<string>, lower: Lower): seq<string> {
    seq(|names|, i requires 0 <= i < |names| => lower(names[i]))
  }

  function Algorithms(catalogue: seq<Manifest>): seq<string> {
    seq(|catalogue|, i requires 0 <= i < |catalogue| => catalogue[i].algorithm)
  }

  function Paths(catalogue: seq<Manifest>): seq<string> {
    seq(|catalogue|, i requires 0 <= i < |catalogue| => catalogue[i].path)
  }

  // ----- Selecting manifests ------------------------------------------------------------------

  datatype SelectError = UnknownNames(unknown: set<string>) | DuplicateNames(repeated: set<string>)

  /** `list(available.keys()).index(name)` */
  function Position(catalogue: seq<Manifest>, name: string): (k: nat)
    requires name in Algorithms(catalogue)
    ensures k < |catalogue| && catalogue[k].algorithm == name
  {
    if catalogue[0].algorithm == name then 0
    else
      assert Algorithms(catalogue) == [catalogue[0].algorithm] + Algorithms(catalogue[1..]);
      1 + Position(catalogue[1..], name)
  }

  /** sorted: the positions in ascending order. */
  function Insert(k: nat, sorted: seq<nat>): seq<nat> {
    if sorted == [] || k <= sorted[0] then [k] + sorted else [sorted[0]] + Insert(k, sorted[1..])
  }

  function SortedPositions(catalogue: seq<Manifest>, names: seq<string>): seq<nat>
    requires forall n | n in names :: n in Algorithms(catalogue)
  {
    if names == [] then [] else Insert(Position(catalogue, names[0]), SortedPositions(catalogue, names[1..]))
  }

  function PathsAt(catalogue: seq<Manifest>, positions: seq<nat>): seq<string> {
    if positions == [] then []
    else (if positions[0] < |catalogue| then [catalogue[positions[0]].path] else []) +
         PathsAt(catalogue, positions[1..])
  }

  /** select_manifests; `order` is the order in which the set of requested names happens to be listed. */
  function SelectManifests(catalogue: seq<Manifest>, only: seq<string>, lower: Lower, order: seq<string>)
    : Result<seq<string>, SelectError>
    requires Members(order) == Members(Lowered(only, lower))
  {
    if only == [] then Ok(Paths(catalogue))
    else
      var lowered := Lowered(only, lower);
      var unknown := Members(lowered) - Members(Algorithms(catalogue));
      if unknown != {} then Err(UnknownNames(unknown))
      else if Repeated(lowered) != {} then Err(DuplicateNames(Repeated(lowered)))
      else
        assert forall n | n in order :: n in Members(lowered) && n !in unknown;
        Ok(PathsAt(catalogue, SortedPositions(catalogue, order)))
  }

  /** The manifests whose algorithm is requested, in catalogue order. */
  function Picked(catalogue: seq<Manifest>, requested: set<string>): seq<string> {
    if catalogue == [] then []
    else (if catalogue[0].algorithm in requested then [catalogue[0].path] else []) + Picked(catalogue[1..], requested)
  }

  /** The positions of the requested manifests from `k` on. */
  function PickedPositions(catalogue: seq<Manifest>, requested: set<string>, k: nat): seq<nat>
    requires k <= |catalogue|
    decreases |catalogue| - k
  {
    if k == |catalogue| then []
    else (if catalogue[k].algorithm in requested then [k] else []) + PickedPositions(catalogue, requested, k + 1)
  }

  predicate Ascending(s: seq<nat>) {
    forall i, j | 0 <= i < j < |s| :: s[i] < s[j]
  }

  lemma AscendingCons(k: nat, tail: seq<nat>)
    requires Ascending(tail) && forall p: nat | p in tail :: k < p
    ensures Ascending([k] + tail) && forall p: nat :: p in [k] + tail <==> p == k || p in tail
  {
    forall i | 0 <= i < |tail|
      ensures k < tail[i]
    {
      assert tail[i] in tail;
    }
  }

  lemma {:induction false} PickedPositionsAre(catalogue: seq<Manifest>, requested: set<string>, k: nat)
    requires k <= |catalogue|
    ensures var s := PickedPositions(catalogue, requested, k);
            && Ascending(s)
            && forall p: nat :: p in s <==> k <= p < |catalogue| && catalogue[p].algorithm in requested
    decreases |catalogue| - k
  {
    if k < |catalogue| {
      PickedPositionsAre(catalogue, requested, k + 1);
      var tail := PickedPositions(catalogue, requested, k + 1);
      var s := PickedPositions(catalogue, requested, k);
      if catalogue[k].algorithm in requested {
        assert s == [k] + tail;
        hide PickedPositions;
        AscendingCons(k, tail);
      } else {
        assert s == tail;
      }
    }
  }

  lemma {:induction false} PickedPaths(catalogue: seq<Manifest>, requested: set<string>, k: nat)
    requires k <= |catalogue|
    ensures PathsAt(catalogue, PickedPositions(catalogue, requested, k)) == Picked(catalogue[k..], requested)
    decreases |catalogue| - k
  {
    if k < |catalogue| {
      PickedPaths(catalogue, requested, k + 1);
      assert catalogue[k..][1..] == catalogue[k + 1..] && catalogue[k..][0] == catalogue[k];
      var tail := PickedPositions(catalogue, requested, k + 1);
      if catalogue[k].algorithm in requested {
        assert PickedPositions(catalogue, requested, k) == [k] + tail;
        assert ([k] + tail)[1..] == tail;
      } else {
        assert PickedPositions(catalogue, requested, k) == tail;
      }
    }
  }

  lemma {:induction false} InsertAscending(k: nat, s: seq<nat>)
    requires Ascending(s) && k !in s
    ensures Ascending(Insert(k, s)) && forall p: nat :: p in Insert(k, s) <==> p == k || p in s
  {
    if s != [] && k > s[0] {
      InsertAscending(k, s[1..]);
      var tail := Insert(k, s[1..]);
      assert forall p | p in s :: p == s[0] || p in s[1..];
      assert Insert(k, s) == [s[0]] + tail;
      hide Insert;
      AscendingCons(s[0], tail);
    }
  }

  predicate Known(catalogue: seq<Manifest>, names: seq<string>) {
    forall n | n in names :: n in Algorithms(catalogue)
  }

  lemma {:induction false} SortedPositionsAre(catalogue: seq<Manifest>, names: seq<string>)
    requires Known(catalogue, names) && Distinct(names) && DistinctAlgorithms(catalogue)
    ensures var s := SortedPositions(catalogue, names);
            && Ascending(s)
            && forall p: nat :: p in s <==> p < |catalogue| && catalogue[p].algorithm in names
  {
    if names != [] {
      var k := Position(catalogue, names[0]);
      var tail := SortedPositions(catalogue, names[1..]);
      SortedPositionsAre(catalogue, names[1..]);
      assert names[0] !in names[1..];
      assert forall n :: n in names <==> n == names[0] || n in names[1..];
      InsertAscending(k, tail);
      forall p: nat
        ensures p in Insert(k, tail) <==> p < |catalogue| && catalogue[p].algorithm in names
      {
        if p < |catalogue| && catalogue[p].algorithm == names[0] {
          assert p == k;
        }
      }
    }
  }

  function First(s: seq<nat>): (r: Option<nat>)
    ensures r.None? <==> s == []
    ensures r.Some? ==> r.value in s && r.value == s[0]
  {
    if s == [] then None else Some(s[0])
  }

  lemma {:induction false} AscendingUnique(a: seq<nat>, b: seq<nat>)
    requires Ascending(a) && Ascending(b) && forall p: nat :: p in a <==> p in b
    ensures a == b
  {
    var first, other := First(a), First(b);
    if first.Some? && other.Some? {
      assert a[0] == b[0];
      forall p: nat
        ensures p in a[1..] <==> p in b[1..]
      {
        assert p in a <==> p == a[0] || p in a[1..];
        assert p in b <==> p == b[0] || p in b[1..];
      }
      AscendingUnique(a[1..], b[1..]);
      assert a == [a[0]] + a[1..] && b == [b[0]] + b[1..];
    }
  }

  /** What is selected, told without a sort: the requested part of the catalogue, in its own order. */
  function Selection(catalogue: seq<Manifest>, only: seq<string>, lower: Lower): Result<seq<string>, SelectError> {
    if only == [] then Ok(Paths(catalogue))
    else
      var lowered := Lowered(only, lower);
      var unknown := Members(lowered) - Members(Algorithms(catalogue));
      if unknown != {} then Err(UnknownNames(unknown))
      else if Repeated(lowered) != {} then Err(DuplicateNames(Repeated(lowered)))
      else Ok(Picked(catalogue, Members(lowered)))
  }

  /** Sorting the requested names by catalogue index is filtering the catalogue by them. */
  lemma SelectIsFilter(catalogue: seq<Manifest>, only: seq<string>, lower: Lower, order: seq<string>)
    requires DistinctAlgorithms(catalogue) && Distinct(order) && Members(order) == Members(Lowered(only, lower))
    ensures SelectManifests(catalogue, only, lower, order) == Selection(catalogue, only, lower)
  {
    var lowered := Lowered(only, lower);
    var requested := Members(lowered);
    if requested - Members(Algorithms(catalogue)) == {} {
      forall n | n in order
        ensures n in Algorithms(catalogue)
      {
        assert n in Members(order) && n !in requested - Members(Algorithms(catalogue));
      }
      SortedPositionsAre(catalogue, order);
      PickedPositionsAre(catalogue, requested, 0);
      assert forall n :: n in order <==> n in Members(order);
      AscendingUnique(SortedPositions(catalogue, order), PickedPositions(catalogue, requested, 0));
      PickedPaths(catalogue, requested, 0);
      assert catalogue[0..] == catalogue;
    }
  }

  /** The order and the case of the request do not matter. */
  lemma SelectionSame(catalogue: seq<Manifest>, a: seq<string>, b: seq<string>, lower: Lower)
    requires multiset(Lowered(a, lower)) == multiset(Lowered(b, lower))
    ensures Selection(catalogue, a, lower) == Selection(catalogue, b, lower)
  {
    var la, lb := Lowered(a, lower), Lowered(b, lower);
    assert forall n :: n in la <==> n in multiset(la);
    assert forall n :: n in lb <==> n in multiset(lb);
    assert Members(la) == Members(lb) && Repeated(la) == Repeated(lb);
    assert |multiset(la)| == |la| == |a| && |multiset(lb)| == |lb| == |b|;
  }

  // ----- The verdict --------------------------------------------------------------------------

  datatype Verdict = Complete | PartiallyBlocked

  function CompleteVerdict(solved: seq<string>, executed: seq<string>, declared: seq<string>): Verdict {
    if executed == declared && solved == declared then Complete else PartiallyBlocked
  }

  function ExitCodeFor(verdict: Verdict, executed: seq<string>, declared: seq<string>): int {
    if verdict.Complete? && executed == declared then 0 else 1
  }

  datatype Discrepancy =
    Discrepancy(missing: set<string>, extra: set<string>, notSolved: set<string>, duplicates: set<string>)

  function VerdictDiscrepancy(solved: seq<string>, executed: seq<string>, declared: seq<string>): Discrepancy {
    Discrepancy(
      Members(declared) - Members(executed),
      Members(executed) - Members(declared),
      Members(executed) - Members(solved),
      Repeated(executed))
  }

  const NONE := Discrepancy({}, {}, {}, {})

  /** One executed task: its algorithm in lower case, and whether its verdict was a pass. */
  datatype Task = Task(algorithm: string, passed: bool)

  function Executed(tasks: seq<Task>): seq<string> {
    if tasks == [] then [] else [tasks[0].algorithm] + Executed(tasks[1..])
  }

  function Solved(tasks: seq<Task>): seq<string> {
    if tasks == [] then []
    else (if tasks[0].passed then [tasks[0].algorithm] else []) + Solved(tasks[1..])
  }

  function ExitCode(tasks: seq<Task>, declared: seq<string>): int {
    ExitCodeFor(CompleteVerdict(Solved(tasks), Executed(tasks), declared), Executed(tasks), declared)
  }

  lemma {:induction false} TaskNames(tasks: seq<Task>)
    ensures |Executed(tasks)| == |tasks| && forall i | 0 <= i < |tasks| :: Executed(tasks)[i] == tasks[i].algorithm
    ensures forall name :: name in Solved(tasks) <==> Task(name, true) in tasks
  {
    if tasks != [] {
      TaskNames(tasks[1..]);
      assert tasks == [tasks[0]] + tasks[1..];
    }
  }

  predicate Ran(tasks: seq<Task>, name: string) {
    exists i | 0 <= i < |tasks| :: tasks[i].algorithm == name
  }

  predicate RanTwice(tasks: seq<Task>, name: string) {
    exists i, j | 0 <= i < j < |tasks| :: tasks[i].algorithm == tasks[j].algorithm == name
  }

  /**
   * What the report of a run says of a name: missing is a declared name that never ran, extra one that ran without
   * being declared, not solved one that ran and never passed, a duplicate one that ran at two places.
   */
  lemma DiscrepancyMeaning(tasks: seq<Task>, declared: seq<string>, name: string)
    ensures var d := VerdictDiscrepancy(Solved(tasks), Executed(tasks), declared);
            && (name in d.missing <==> name in declared && !Ran(tasks, name))
            && (name in d.extra <==> Ran(tasks, name) && name !in declared)
            && (name in d.notSolved <==> Ran(tasks, name) && Task(name, true) !in tasks)
            && (name in d.duplicates <==> RanTwice(tasks, name))
  {
    TaskNames(tasks);
    hide Executed, Solved, Repeated;
    RanIs(tasks, Executed(tasks), name);
    RepeatedMeans(Executed(tasks), name);
    hide Ran, RanTwice;
  }

  lemma RanIs(tasks: seq<Task>, executed: seq<string>, name: string)
    requires |executed| == |tasks| && forall i | 0 <= i < |tasks| :: executed[i] == tasks[i].algorithm
    ensures name in executed <==> Ran(tasks, name)
    ensures (exists i, j | 0 <= i < j < |executed| :: executed[i] == executed[j] == name) <==> RanTwice(tasks, name)
  {
    if i, j :| 0 <= i < j < |executed| && executed[i] == executed[j] == name {
      assert tasks[i].algorithm == tasks[j].algorithm == name;
    }
    if i, j :| 0 <= i < j < |tasks| && tasks[i].algorithm == tasks[j].algorithm == name {
      assert executed[i] == executed[j] == name;
    }
  }

  lemma {:induction false} SolvedAll(tasks: seq<Task>)
    ensures |Solved(tasks)| <= |Executed(tasks)|
    ensures |Solved(tasks)| == |Executed(tasks)| <==> forall i | 0 <= i < |tasks| :: tasks[i].passed
    ensures (forall i | 0 <= i < |tasks| :: tasks[i].passed) ==> Solved(tasks) == Executed(tasks)
  {
    if tasks != [] {
      SolvedAll(tasks[1..]);
      assert forall i | 1 <= i < |tasks| :: tasks[i] == tasks[1..][i - 1];
      assert forall i | 0 <= i < |tasks| - 1 :: tasks[1..][i] == tasks[i + 1];
    }
  }

  /** The campaign exits with 0 exactly when the declared list was executed in its order and every task passed. */
  lemma ExitZeroIff(tasks: seq<Task>, declared: seq<string>)
    ensures ExitCode(tasks, declared) == 0
       <==> Executed(tasks) == declared && forall i | 0 <= i < |tasks| :: tasks[i].passed
    ensures ExitCode(tasks, declared) in {0, 1}
  {
    SolvedAll(tasks);
  }

  lemma CountTwice(s: seq<string>, i: nat, j: nat)
    requires i < j < |s| && s[i] == s[j]
    ensures multiset(s)[s[i]] > 1
  {
    assert s == s[..j] + s[j..];
    assert s[..j][i] == s[i] && s[j..][0] == s[i];
    assert multiset(s)[s[i]] == multiset(s[..j])[s[i]] + multiset(s[j..])[s[i]];
  }

  lemma {:induction false} FoundTwice(s: seq<string>, name: string) returns (i: nat, j: nat)
    requires multiset(s)[name] > 1
    ensures i < j < |s| && s[i] == s[j] == name
  {
    assert s == [s[0]] + s[1..];
    assert multiset(s)[name] == multiset([s[0]])[name] + multiset(s[1..])[name];
    if s[0] == name {
      assert name in multiset(s[1..]);
      j :| j < |s| - 1 && s[1..][j] == name;
      i, j := 0, j + 1;
    } else {
      i, j := FoundTwice(s[1..], name);
      i, j := i + 1, j + 1;
    }
  }

  lemma RepeatedMeans(s: seq<string>, name: string)
    ensures name in Repeated(s) <==> exists i, j | 0 <= i < j < |s| :: s[i] == s[j] == name
  {
    if i, j :| 0 <= i < j < |s| && s[i] == s[j] == name {
      CountTwice(s, i, j);
    }
    if multiset(s)[name] > 1 {
      var i, j := FoundTwice(s, name);
    }
  }

  lemma RepeatedNone(s: seq<string>)
    ensures Repeated(s) == {} <==> Distinct(s)
  {
    if Distinct(s) {
      DistinctCounts(s);
      assert forall x | x in s :: multiset(s)[x] == 1;
    } else {
      var i, j :| 0 <= i < j < |s| && s[i] == s[j];
      assert s == s[..j] + s[j..];
      assert s[..j][i] == s[i] && s[j..][0] == s[j];
      assert s[i] in multiset(s[..j]) && s[j] in multiset(s[j..]);
      assert s[i] in Repeated(s);
    }
  }

  lemma {:induction false} DistinctCounts<T>(s: seq<T>)
    requires Distinct(s)
    ensures forall x | x in s :: multiset(s)[x] == 1
  {
    if s != [] {
      DistinctCounts(s[1..]);
      assert s == [s[0]] + s[1..];
      assert s[0] !in s[1..];
      assert s[0] !in multiset(s[1..]);
    }
  }

  /**
   * The report is free of discrepancies exactly when nothing ran twice and what ran is what was declared, all
   * solved.
   */
  lemma NoDiscrepancyIff(solved: seq<string>, executed: seq<string>, declared: seq<string>)
    ensures VerdictDiscrepancy(solved, executed, declared) == NONE <==>
            && Distinct(executed)
            && Members(executed) == Members(declared)
            && Members(executed) <= Members(solved)
  {
    RepeatedNone(executed);
    hide Members, Repeated, Distinct;
    NoDifference(Members(executed), Members(declared));
    NoDifference(Members(declared), Members(executed));
    NoDifference(Members(executed), Members(solved));
  }

  lemma NoDifference<T>(a: set<T>, b: set<T>)
    ensures a - b == {} <==> a <= b
  {
    if a - b == {} {
      assert forall x | x in a :: x !in a - b;
    }
  }

  /** With distinct declared names, a report without discrepancies forces a permutation of them, all solved. */
  lemma NoDiscrepancyPermutation(solved: seq<string>, executed: seq<string>, declared: seq<string>)
    requires Distinct(declared) && VerdictDiscrepancy(solved, executed, declared) == NONE
    ensures multiset(executed) == multiset(declared)
    ensures forall n | n in declared :: n in solved
  {
    NoDiscrepancyIff(solved, executed, declared);
    DistinctCounts(executed);
    DistinctCounts(declared);
    assert forall n :: n in executed <==> n in Members(executed);
    assert forall n :: n in declared <==> n in Members(declared);
    assert forall n :: n in solved <==> n in Members(solved);
    forall n
      ensures multiset(executed)[n] == multiset(declared)[n]
    {
      assert n in executed <==> n in multiset(executed);
      assert n in declared <==> n in multiset(declared);
    }
  }

  /** A complete campaign reports no discrepancy, provided the declared names are distinct - and only then. */
  lemma ExitZeroReport(tasks: seq<Task>, declared: seq<string>)
    requires ExitCode(tasks, declared) == 0
    ensures VerdictDiscrepancy(Solved(tasks), Executed(tasks), declared) == NONE <==> Distinct(declared)
  {
    ExitZeroIff(tasks, declared);
    SolvedAll(tasks);
    NoDiscrepancyIff(Solved(tasks), Executed(tasks), declared);
  }

  lemma {:induction false} SolvedRan(tasks: seq<Task>)
    ensures forall x | x in Solved(tasks) :: x in Executed(tasks)
  {
    if tasks != [] {
      SolvedRan(tasks[1..]);
    }
  }

  lemma {:induction false} AllPassed(tasks: seq<Task>)
    requires Distinct(Executed(tasks)) && forall x | x in Executed(tasks) :: x in Solved(tasks)
    ensures forall i | 0 <= i < |tasks| :: tasks[i].passed
  {
    if tasks != [] {
      var head, rest := tasks[0].algorithm, tasks[1..];
      var executed, solved := Executed(rest), Solved(rest);
      assert Executed(tasks) == [head] + executed;
      assert tasks[0].passed ==> Solved(tasks) == [head] + solved;
      assert !tasks[0].passed ==> Solved(tasks) == solved;
      SolvedRan(rest);
      hide Executed, Solved;
      HeadIsNew(head, executed);
      assert forall x | x in executed :: x in [head] + executed;
      assert head in [head] + executed;
      assert tasks[0].passed;
      assert forall x | x in [head] + solved :: x == head || x in solved;
      AllPassed(rest);
      assert forall i | 1 <= i < |tasks| :: tasks[i] == rest[i - 1];
    }
  }

  lemma HeadIsNew(head: string, rest: seq<string>)
    requires Distinct([head] + rest)
    ensures head !in rest && Distinct(rest)
  {
    var all := [head] + rest;
    forall i | 0 <= i < |rest|
      ensures rest[i] != head
    {
      assert all[i + 1] == rest[i] && all[0] == head;
    }
    forall i, j | 0 <= i < j < |rest|
      ensures rest[i] != rest[j]
    {
      assert all[i + 1] == rest[i] && all[j + 1] == rest[j];
    }
  }

  /** When the report shows no discrepancy, the exit code says whether the tasks ran in the declared order. */
  lemma ReportedExit(tasks: seq<Task>, declared: seq<string>)
    requires VerdictDiscrepancy(Solved(tasks), Executed(tasks), declared) == NONE
    ensures ExitCode(tasks, declared) == 0 <==> Executed(tasks) == declared
  {
    NoDiscrepancyIff(Solved(tasks), Executed(tasks), declared);
    forall x | x in Executed(tasks)
      ensures x in Solved(tasks)
    {
      assert x in Members(Executed(tasks));
      assert x in Members(Solved(tasks));
    }
    AllPassed(tasks);
    ExitZeroIff(tasks, declared);
  }

  /** The report cannot tell a complete campaign from one run in another order, which exits with 1. */
  lemma OrderIsNotReported(a: string, b: string)
    requires a != b
    ensures var tasks := [Task(b, true), Task(a, true)];
            && VerdictDiscrepancy(Solved(tasks), Executed(tasks), [a, b]) == NONE
            && ExitCode(tasks, [a, b]) == 1
  {
    var tasks := [Task(b, true), Task(a, true)];
    SolvedAll(tasks);
    assert tasks[1..] == [Task(a, true)] && tasks[1..][1..] == [];
    assert Executed(tasks[1..]) == [a] + Executed([]);
    assert Executed(tasks) == [b] + Executed(tasks[1..]);
    assert Executed(tasks)[0] == b;
    NoDiscrepancyIff(Solved(tasks), Executed(tasks), [a, b]);
  }

  // ----- The declaration ----------------------------------------------------------------------

  const EXPECTED_SELECTED_COUNT := 8

  datatype LoadError =
    | NoMapping
    | NoSelectedTasks
    | MalformedEntry(index: nat)
    | DuplicateEntries(names: set<string>)
    | WrongCount(count: nat)

  predicate GoodEntry(entry: Json) {
    match Member(entry, "algorithm")
    case Some(Str(name)) => name != []
    case _ => false
  }

  function AlgorithmOf(entry: Json, lower: Lower): string {
    match Member(entry, "algorithm")
    case Some(Str(name)) => lower(name)
    case _ => ""
  }

  function Declared(entries: seq<Json>, lower: Lower): seq<string> {
    seq(|entries|, i requires 0 <= i < |entries| => AlgorithmOf(entries[i], lower))
  }

  /** The array a pilot manifest declares its tasks in. */
  function SelectedTasks(data: Json): Option<seq<Json>> {
    match Member(data, "selected_tasks")
    case Some(Arr(entries)) => if entries != [] then Some(entries) else None
    case _ => None
  }

  /** load_declared_selected_algorithms, from the decoded manifest on. */
  method LoadDeclared(data: Json, lower: Lower) returns (r: Result<seq<string>, LoadError>)
    ensures r.Ok? <==>
            && SelectedTasks(data).Some?
            && (forall entry | entry in SelectedTasks(data).value :: GoodEntry(entry))
            && Distinct(Declared(SelectedTasks(data).value, lower))
            && |SelectedTasks(data).value| == EXPECTED_SELECTED_COUNT
    ensures r.Ok? ==> r.value == Declared(SelectedTasks(data).value, lower) && Distinct(r.value)
    ensures r == Err(NoMapping) <==> !data.Obj?
    ensures r == Err(NoSelectedTasks) <==> data.Obj? && SelectedTasks(data).None?
    ensures r.Err? && r.error.MalformedEntry? ==>
              && SelectedTasks(data).Some? && r.error.index < |SelectedTasks(data).value|
              && !GoodEntry(SelectedTasks(data).value[r.error.index])
              && forall i | 0 <= i < r.error.index :: GoodEntry(SelectedTasks(data).value[i])
    ensures r.Err? && r.error.DuplicateEntries? ==>
              && r.error.names != {}
              && SelectedTasks(data).Some? && r.error.names == Repeated(Declared(SelectedTasks(data).value, lower))
    ensures r.Err? && r.error.WrongCount? ==>
              SelectedTasks(data).Some? && r.error.count == |SelectedTasks(data).value| != EXPECTED_SELECTED_COUNT
  {
    hide GoodEntry, AlgorithmOf;
    if !data.Obj? {
      return Err(NoMapping);
    }
    match SelectedTasks(data) {
      case None =>
        return Err(NoSelectedTasks);
      case Some(entries) =>
        var algorithms: seq<string> := [];
        for i := 0 to |entries|
          invariant |algorithms| == i
          invariant forall k | 0 <= k < i :: GoodEntry(entries[k]) && algorithms[k] == AlgorithmOf(entries[k], lower)
        {
          if !GoodEntry(entries[i]) {
            return Err(MalformedEntry(i));
          }
          algorithms := algorithms + [AlgorithmOf(entries[i], lower)];
        }
        assert algorithms == Declared(entries, lower);
        RepeatedNone(algorithms);
        if Repeated(algorithms) != {} {
          return Err(DuplicateEntries(Repeated(algorithms)));
        }
        if |algorithms| != EXPECTED_SELECTED_COUNT {
          return Err(WrongCount(|algorithms|));
        }
        r := Ok(algorithms);
    }
  }

  /** The manifest declares these algorithms: eight entries, each naming one, no two the same in lower case. */
  predicate Declares(data: Json, names: seq<string>, lower: Lower) {
    match At(data, ["selected_tasks"])
    case Some(Arr(entries)) =>
      && |entries| == 8 && |names| == 8
      && (forall i | 0 <= i < 8 :: NamesAlgorithm(entries[i], names[i], lower))
      && forall i, j | 0 <= i < j < 8 :: names[i] != names[j]
    case _ => false
  }

  predicate NamesAlgorithm(entry: Json, name: string, lower: Lower) {
    match At(entry, ["algorithm"])
    case Some(Str(text)) => text != [] && lower(text) == name
    case _ => false
  }

  ghost predicate EntryIs(entry: Json, lower: Lower) {
    forall name :: NamesAlgorithm(entry, name, lower) <==> GoodEntry(entry) && AlgorithmOf(entry, lower) == name
  }

  lemma EntryMeans(entry: Json, lower: Lower)
    ensures EntryIs(entry, lower)
  {
    AtOne(entry, "algorithm");
    hide At, Member;
  }

  /** A manifest is accepted with these names exactly when it declares them. */
  lemma DeclaredMeans(data: Json, names: seq<string>, lower: Lower)
    ensures Declares(data, names, lower)
       <==> && SelectedTasks(data).Some?
            && (forall entry | entry in SelectedTasks(data).value :: GoodEntry(entry))
            && Declared(SelectedTasks(data).value, lower) == names && Distinct(names)
            && |SelectedTasks(data).value| == EXPECTED_SELECTED_COUNT
  {
    AtOne(data, "selected_tasks");
    hide At, Member, GoodEntry, AlgorithmOf, NamesAlgorithm;
    match Member(data, "selected_tasks")
    case Some(Arr(entries)) =>
      forall i | 0 <= i < |entries|
        ensures EntryIs(entries[i], lower)
      {
        EntryMeans(entries[i], lower);
      }
      if |entries| == 8 && |names| == 8 {
        EntriesMean(entries, names, lower);
      }
    case _ =>
  }

  lemma EntriesMean(entries: seq<Json>, names: seq<string>, lower: Lower)
    requires |entries| == |names|
    requires forall i | 0 <= i < |entries| :: EntryIs(entries[i], lower)
    ensures (forall i | 0 <= i < |entries| :: NamesAlgorithm(entries[i], names[i], lower))
       <==> (forall entry | entry in entries :: GoodEntry(entry)) && Declared(entries, lower) == names
  {
    hide GoodEntry, AlgorithmOf, NamesAlgorithm;
    var declared := Declared(entries, lower);
    assert forall i | 0 <= i < |entries| :: declared[i] == AlgorithmOf(entries[i], lower) && entries[i] in entries;
    if forall i | 0 <= i < |entries| :: NamesAlgorithm(entries[i], names[i], lower) {
      assert forall i | 0 <= i < |entries| :: declared[i] == names[i];
    }
  }
}
