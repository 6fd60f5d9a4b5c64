/** The breakpoint source line a prompt quotes: the plain lookup and the lookup over unique observations. */
module ObservationLookup {
  import opened Wrappers
  import opened Json

  datatype SourceLine = SourceLine(path: string, number: int, text: string)

  /** What a pass over observations collects: the last breakpoint, and the text last seen at each place. */
  datatype Collected = Collected(breakpoint: Option<int>, source: map<(string, int), string>)

  // ----- The observations of a request --------------------------------------------------------

  function History(request: Json): seq<Json> {
    match Member(request, "history")
    case Some(Arr(entries)) => entries
    case _ => []
  }

  function LastObservation(holder: Json): Json {
    match Member(holder, "last_observation")
    case Some(observation) => observation
    case None => Null
  }

  function FromEntries(entries: seq<Json>): seq<Json> {
    if entries == [] then []
    else (if entries[0].Obj? then [LastObservation(entries[0])] else []) + FromEntries(entries[1..])
  }

  function ControllerObservation(request: Json): Json {
    match Member(request, "controller")
    case Some(controller) => LastObservation(controller)
    case None => Null
  }

  /** History first, the controller's current observation last. */
  function Candidates(request: Json): seq<Json> {
    FromEntries(History(request)) + [ControllerObservation(request)]
  }

  /** The id of an observation object that has a textual one. */
  function Id(observation: Json): Option<string> {
    match Member(observation, "observation_id")
    case Some(Str(id)) => Some(id)
    case _ => None
  }

  // ----- Collecting ---------------------------------------------------------------------------

  function Breakpoint(payload: Json): Option<int> {
    match Member(payload, "proof")
    case Some(proof) => (match Member(proof, "breakpoint_line") case Some(Int(n)) => Some(n) case _ => None)
    case None => None
  }

  function SourceEntry(entry: Json): Option<SourceLine> {
    var path, number, text := Member(entry, "path"), Member(entry, "line_number"), Member(entry, "text");
    if path.Some? && path.value.Str? && number.Some? && number.value.Int? && text.Some? && text.value.Str? then
      Some(SourceLine(path.value.s, number.value.n, text.value.s))
    else None
  }

  function Lines(payload: Json): seq<Json> {
    match Member(payload, "lines")
    case Some(Arr(entries)) => entries
    case _ => []
  }

  function Store(source: map<(string, int), string>, entries: seq<Json>): map<(string, int), string> {
    if entries == [] then source
    else
      var n := |entries| - 1;
      var before := Store(source, entries[..n]);
      match SourceEntry(entries[n])
      case Some(line) => before[(line.path, line.number) := line.text]
      case None => before
  }

  /** The effect of one observation; anything without an object payload has none. */
  function Collect(c: Collected, observation: Json): Collected {
    match Member(observation, "payload")
    case Some(Obj(fields)) =>
      var payload := Obj(fields);
      var line := Breakpoint(payload);
      Collected(if line.Some? then line else c.breakpoint, Store(c.source, Lines(payload)))
    case _ => c
  }

  function CollectAll(observations: seq<Json>): Collected {
    if observations == [] then Collected(None, map[])
    else
      var n := |observations| - 1;
      Collect(CollectAll(observations[..n]), observations[n])
  }

  /** The places recorded for a line number. */
  function Places(c: Collected, number: int): set<(string, int)> {
    set k | k in c.source.Keys && k.1 == number
  }

  /** The one source line at the breakpoint, None when there is no breakpoint or not exactly one such line. */
  ghost predicate Answers(c: Collected, r: Option<SourceLine>) {
    match r
    case Some(line) =>
      && c.breakpoint == Some(line.number)
      && Places(c, line.number) == {(line.path, line.number)}
      && c.source[(line.path, line.number)] == line.text
    case None => c.breakpoint.Some? ==> |Places(c, c.breakpoint.value)| != 1
  }

  method Answer(c: Collected) returns (r: Option<SourceLine>)
    ensures Answers(c, r)
  {
    if c.breakpoint.None? {
      return None;
    }
    var number := c.breakpoint.value;
    var places := Places(c, number);
    if |places| != 1 {
      return None;
    }
    var place :| place in places;
    assert places == {place} by {
      assert |places - {place}| == 0;
    }
    return Some(SourceLine(place.0, number, c.source[place]));
  }

  /** The inner loop over the source lines of one observation. */
  method StoreLines(source: map<(string, int), string>, entries: seq<Json>) returns (r: map<(string, int), string>)
    ensures r == Store(source, entries)
  {
    r := source;
    for i := 0 to |entries|
      invariant r == Store(source, entries[..i])
    {
      assert entries[..i + 1][..i] == entries[..i];
      match SourceEntry(entries[i]) {
        case Some(line) => r := r[(line.path, line.number) := line.text];
        case None =>
      }
    }
    assert entries[..|entries|] == entries;
  }

  method CollectLoop(observations: seq<Json>) returns (c: Collected)
    ensures c == CollectAll(observations)
  {
    c := Collected(None, map[]);
    for i := 0 to |observations|
      invariant c == CollectAll(observations[..i])
    {
      assert observations[..i + 1][..i] == observations[..i];
      match Member(observations[i], "payload") {
        case Some(Obj(fields)) =>
          var line := Breakpoint(Obj(fields));
          if line.Some? {
            c := c.(breakpoint := line);
          }
          var source := StoreLines(c.source, Lines(Obj(fields)));
          c := c.(source := source);
        case _ =>
      }
    }
    assert observations[..|observations|] == observations;
  }

  /** _public_breakpoint_source_frozen. */
  method BreakpointSourceFrozen(request: Json) returns (r: Option<SourceLine>)
    ensures Answers(CollectAll(Candidates(request)), r)
  {
    var c := CollectLoop(Candidates(request));
    r := Answer(c);
  }

  // ----- Unique observations ------------------------------------------------------------------

  /** Dictionary assignment under the observation's id. */
  function PutById(unique: seq<Json>, observation: Json): seq<Json> {
    if unique == [] then [observation]
    else if Id(unique[0]) == Id(observation) then [observation] + unique[1..]
    else [unique[0]] + PutById(unique[1..], observation)
  }

  /** The observations that have an id, each id once: the place of its first occurrence, the value of its last. */
  function Unique(candidates: seq<Json>): seq<Json> {
    if candidates == [] then []
    else
      var n := |candidates| - 1;
      if Id(candidates[n]).Some? then PutById(Unique(candidates[..n]), candidates[n]) else Unique(candidates[..n])
  }

  /** _public_observations: the loop that fills the dictionary. */
  method PublicObservations(request: Json) returns (unique: seq<Json>)
    ensures unique == Unique(Candidates(request))
  {
    var candidates := Candidates(request);
    unique := [];
    for i := 0 to |candidates|
      invariant unique == Unique(candidates[..i])
    {
      assert candidates[..i + 1][..i] == candidates[..i];
      if Id(candidates[i]).Some? {
        unique := PutById(unique, candidates[i]);
      }
    }
    assert candidates[..|candidates|] == candidates;
  }

  /** _public_breakpoint_source_interactive. */
  method BreakpointSourceInteractive(request: Json) returns (r: Option<SourceLine>)
    ensures Answers(CollectAll(Unique(Candidates(request))), r)
  {
    var unique := PublicObservations(request);
    var c := CollectLoop(unique);
    r := Answer(c);
  }

  // ----- What a lookup depends on -------------------------------------------------------------

  lemma AnswerUnique(c: Collected, a: Option<SourceLine>, b: Option<SourceLine>)
    requires Answers(c, a) && Answers(c, b)
    ensures a == b
  {
    if a.Some? {
      var place := (a.value.path, a.value.number);
      assert |Places(c, a.value.number)| == |{place}| == 1;
      if b.Some? {
        assert (b.value.path, b.value.number) in {place};
      }
    }
  }

  /** The last text stored at a place, if any entry is for that place. */
  function LastText(entries: seq<Json>, k: (string, int)): Option<string> {
    if entries == [] then None
    else
      var n := |entries| - 1;
      match SourceEntry(entries[n])
      case Some(line) => if (line.path, line.number) == k then Some(line.text) else LastText(entries[..n], k)
      case None => LastText(entries[..n], k)
  }

  /** Behind the loop a place holds the last text stored there, or what it held before. */
  lemma {:induction false} StoredAt(source: map<(string, int), string>, entries: seq<Json>, k: (string, int))
    ensures match LastText(entries, k)
            case Some(text) => k in Store(source, entries) && Store(source, entries)[k] == text
            case None =>
              && (k in Store(source, entries) <==> k in source)
              && (k in source ==> Store(source, entries)[k] == source[k])
  {
    hide SourceEntry;
    if entries != [] {
      StoredAt(source, entries[..|entries| - 1], k);
    }
  }

  /** Every observation object has a textual id. */
  predicate Identified(candidates: seq<Json>) {
    forall i | 0 <= i < |candidates| :: candidates[i].Obj? ==> Id(candidates[i]).Some?
  }

  /** An id stands for one observation. */
  predicate Consistent(candidates: seq<Json>) {
    forall i, j | 0 <= i < j < |candidates| && Id(candidates[i]).Some? && Id(candidates[i]) == Id(candidates[j]) ::
      candidates[i] == candidates[j]
  }

  predicate Occurs(id: Option<string>, observations: seq<Json>) {
    exists i | 0 <= i < |observations| :: Id(observations[i]) == id
  }

  lemma {:induction false} PutByIdNew(unique: seq<Json>, observation: Json)
    requires !Occurs(Id(observation), unique)
    ensures PutById(unique, observation) == unique + [observation]
  {
    hide Id;
    if unique != [] {
      assert Id(unique[0]) != Id(observation);
      assert forall i | 0 <= i < |unique| - 1 :: unique[1..][i] == unique[i + 1];
      PutByIdNew(unique[1..], observation);
      assert unique == [unique[0]] + unique[1..];
    }
  }

  /** An observation that is already kept under its id leaves the dictionary as it is. */
  lemma {:induction false} PutByIdAgain(unique: seq<Json>, observation: Json)
    requires Occurs(Id(observation), unique)
    requires forall o | o in unique && Id(o) == Id(observation) :: o == observation
    ensures PutById(unique, observation) == unique
  {
    hide Id;
    if Id(unique[0]) == Id(observation) {
      assert unique[0] in unique;
    } else {
      var i :| 0 <= i < |unique| && Id(unique[i]) == Id(observation);
      assert unique[1..][i - 1] == unique[i];
      PutByIdAgain(unique[1..], observation);
    }
  }

  lemma NoEffect(c: Collected, observation: Json)
    requires !observation.Obj?
    ensures Collect(c, observation) == c
  {
  }
}
