/** Which source line a prompt quotes, told by the members of the observations. */
module LookupMeaning {
  import opened Wrappers
  import opened Json
  import opened ObservationLookup

  // ----- Observations by their members --------------------------------------------------------

  /** The entry gives this line of source. */
  predicate Gives(entry: Json, line: SourceLine) {
    && At(entry, ["path"]) == Some(Str(line.path))
    && At(entry, ["line_number"]) == Some(Int(line.number))
    && At(entry, ["text"]) == Some(Str(line.text))
  }

  /** The entries of an observation. */
  function EntriesOf(observation: Json): seq<Json> {
    match At(observation, ["payload", "lines"])
    case Some(Arr(entries)) => entries
    case _ => []
  }

  /** All the entries, in the order they are read. */
  function Entries(observations: seq<Json>): seq<Json> {
    if observations == [] then []
    else
      var n := |observations| - 1;
      Entries(observations[..n]) + EntriesOf(observations[n])
  }

  /** The breakpoint an observation proves. */
  function Proves(observation: Json): Option<int> {
    match At(observation, ["payload", "proof", "breakpoint_line"])
    case Some(Int(number)) => Some(number)
    case _ => None
  }

  /** The last observation that proves a breakpoint proves this one. */
  predicate LastProves(observations: seq<Json>, number: int) {
    exists i | 0 <= i < |observations| ::
      Proves(observations[i]) == Some(number) && forall j | i < j < |observations| :: Proves(observations[j]) == None
  }

  /** The last entry for the place of this line gives this line. */
  ghost predicate LastGives(entries: seq<Json>, line: SourceLine) {
    exists i | 0 <= i < |entries| ::
      && Gives(entries[i], line)
      && forall j, other | i < j < |entries| && Gives(entries[j], other) :: !SamePlace(other, line)
  }

  predicate SamePlace(a: SourceLine, b: SourceLine) {
    a.path == b.path && a.number == b.number
  }

  /**
   * The line a prompt quotes: its number is the breakpoint proved last, no other file gives a line of that number, and
   * its text is the one given last.
   */
  ghost predicate Quotes(observations: seq<Json>, line: SourceLine) {
    && LastProves(observations, line.number)
    && LastGives(Entries(observations), line)
    && forall entry, other | entry in Entries(observations) && Gives(entry, other) && other.number == line.number ::
         other.path == line.path
  }

  // ----- The functions read these members -----------------------------------------------------

  lemma GivesIs(entry: Json, line: SourceLine)
    ensures Gives(entry, line) <==> SourceEntry(entry) == Some(line)
  {
    AtOne(entry, "path");
    AtOne(entry, "line_number");
    AtOne(entry, "text");
    hide At, Member;
  }

  lemma PayloadPaths(observation: Json)
    ensures At(observation, ["payload", "lines"]) ==
            match Member(observation, "payload") case Some(payload) => Member(payload, "lines") case None => None
    ensures At(observation, ["payload", "proof", "breakpoint_line"]) ==
            match Member(observation, "payload")
            case Some(payload) =>
              (match Member(payload, "proof") case Some(proof) => Member(proof, "breakpoint_line") case None => None)
            case None => None
  {
    hide At, Member;
    AtTwo(observation, "payload", "lines");
    assert ["payload"] + ["proof", "breakpoint_line"] == ["payload", "proof", "breakpoint_line"];
    AtNext(observation, "payload", ["proof", "breakpoint_line"]);
    if Member(observation, "payload").Some? {
      AtTwo(Member(observation, "payload").value, "proof", "breakpoint_line");
    }
  }

  /** The effect of one observation. */
  lemma CollectIs(c: Collected, observation: Json)
    ensures var after := Collect(c, observation);
            && after.breakpoint == (if Proves(observation).Some? then Proves(observation) else c.breakpoint)
            && after.source == Store(c.source, EntriesOf(observation))
  {
    PayloadPaths(observation);
    hide At, Get;
    assert forall v: Json, key :: !v.Obj? ==> Member(v, key) == None;
    assert Store(c.source, []) == c.source;
    hide Store;
  }

  /** One more observation. */
  lemma ProvedBefore(observations: seq<Json>, last: Json, number: int)
    requires LastProves(observations, number) && Proves(last) == None
    ensures LastProves(observations + [last], number)
  {
    hide Proves;
    var more := observations + [last];
    var i :| 0 <= i < |observations| && Proves(observations[i]) == Some(number)
             && forall j | i < j < |observations| :: Proves(observations[j]) == None;
    assert Proves(more[i]) == Some(number);
  }

  lemma ProvedLast(observations: seq<Json>, last: Json, number: int)
    ensures Proves(last) == Some(number) ==> LastProves(observations + [last], number)
    ensures LastProves(observations + [last], number) ==>
              Proves(last) == Some(number) || (Proves(last) == None && LastProves(observations, number))
  {
    hide Proves;
    var more, n := observations + [last], |observations|;
    assert more[n] == last;
    if LastProves(more, number) {
      var i :| 0 <= i < |more| && Proves(more[i]) == Some(number)
               && forall j | i < j < |more| :: Proves(more[j]) == None;
      if i < n {
        assert Proves(observations[i]) == Some(number);
        forall j | i < j < n
          ensures Proves(observations[j]) == None
        {
          assert more[j] == observations[j];
        }
      }
    }
  }

  lemma {:induction false} BreakpointIs(observations: seq<Json>, number: int)
    ensures CollectAll(observations).breakpoint == Some(number) <==> LastProves(observations, number)
  {
    if observations != [] {
      var n := |observations| - 1;
      var before := observations[..n];
      BreakpointIs(before, number);
      CollectIs(CollectAll(before), observations[n]);
      hide Collect, Proves, LastProves;
      assert observations == before + [observations[n]];
      ProvedLast(before, observations[n], number);
      if LastProves(before, number) && Proves(observations[n]) == None {
        ProvedBefore(before, observations[n], number);
      }
    }
  }

  // ----- The texts that are stored ------------------------------------------------------------

  /** The map holds, for every place that is given, the text given last. */
  ghost predicate Holds(source: map<(string, int), string>, entries: seq<Json>) {
    forall line :: HeldAt(source, line) <==> LastGives(entries, line)
  }

  predicate HeldAt(source: map<(string, int), string>, line: SourceLine) {
    (line.path, line.number) in source && source[(line.path, line.number)] == line.text
  }

  /** The entry gives a line for another place, or none. */
  ghost predicate Elsewhere(entry: Json, line: SourceLine) {
    forall other | Gives(entry, other) :: !SamePlace(other, line)
  }

  lemma GivenBefore(entries: seq<Json>, entry: Json, line: SourceLine)
    requires LastGives(entries, line) && Elsewhere(entry, line)
    ensures LastGives(entries + [entry], line)
  {
    hide Gives, SamePlace;
    var more := entries + [entry];
    var i :| 0 <= i < |entries| && Gives(entries[i], line)
             && forall j, other | i < j < |entries| && Gives(entries[j], other) :: !SamePlace(other, line);
    assert Gives(more[i], line);
    forall j, other | i < j < |more| && Gives(more[j], other)
      ensures !SamePlace(other, line)
    {
      assert j < |entries| ==> more[j] == entries[j];
    }
  }

  lemma GivenNow(entries: seq<Json>, entry: Json, line: SourceLine)
    ensures Gives(entry, line) ==> LastGives(entries + [entry], line)
    ensures LastGives(entries + [entry], line) ==>
              Gives(entry, line) || (Elsewhere(entry, line) && LastGives(entries, line))
  {
    hide Gives, SamePlace;
    var more, n := entries + [entry], |entries|;
    assert more[n] == entry;
    if LastGives(more, line) {
      var i :| 0 <= i < |more| && Gives(more[i], line)
               && forall j, other | i < j < |more| && Gives(more[j], other) :: !SamePlace(other, line);
      if i < n {
        assert Gives(entries[i], line);
        forall j, other | i < j < n && Gives(entries[j], other)
          ensures !SamePlace(other, line)
        {
          assert more[j] == entries[j];
        }
      }
    }
  }

  lemma ElsewhereIs(entry: Json, line: SourceLine)
    ensures Elsewhere(entry, line)
       <==> SourceEntry(entry).None? || !SamePlace(SourceEntry(entry).value, line)
  {
    hide Gives, SourceEntry, SamePlace;
    forall other
      ensures Gives(entry, other) <==> SourceEntry(entry) == Some(other)
    {
      GivesIs(entry, other);
    }
  }

  /** One more entry. */
  lemma OneMore(entries: seq<Json>, entry: Json, line: SourceLine)
    ensures LastGives(entries + [entry], line) <==>
            match SourceEntry(entry)
            case Some(own) => own == line || (!SamePlace(own, line) && LastGives(entries, line))
            case None => LastGives(entries, line)
  {
    hide *;
    GivesIs(entry, line);
    ElsewhereIs(entry, line);
    GivenNow(entries, entry, line);
    if LastGives(entries, line) && Elsewhere(entry, line) {
      GivenBefore(entries, entry, line);
    }
  }

  lemma {:induction false} StoreHolds(source: map<(string, int), string>, before: seq<Json>, entries: seq<Json>)
    requires Holds(source, before)
    ensures Holds(Store(source, entries), before + entries)
  {
    if entries == [] {
      assert before + entries == before;
    } else {
      var n := |entries| - 1;
      StoreHolds(source, before, entries[..n]);
      assert before + entries == before + entries[..n] + [entries[n]];
      forall line
        ensures HeldAt(Store(source, entries), line) <==> LastGives(before + entries, line)
      {
        OneMore(before + entries[..n], entries[n], line);
        HeldStep(source, entries, line);
        assert HeldAt(Store(source, entries[..n]), line) <==> LastGives(before + entries[..n], line);
        hide LastGives, HeldAt, Store, SourceEntry;
      }
    }
  }

  lemma HeldStep(source: map<(string, int), string>, entries: seq<Json>, line: SourceLine)
    requires entries != []
    ensures var n := |entries| - 1;
            HeldAt(Store(source, entries), line) <==>
            match SourceEntry(entries[n])
            case Some(own) => own == line || (!SamePlace(own, line) && HeldAt(Store(source, entries[..n]), line))
            case None => HeldAt(Store(source, entries[..n]), line)
  {
    hide SourceEntry;
  }

  lemma {:induction false} SourceHolds(observations: seq<Json>)
    ensures Holds(CollectAll(observations).source, Entries(observations))
  {
    if observations != [] {
      var n := |observations| - 1;
      SourceHolds(observations[..n]);
      CollectIs(CollectAll(observations[..n]), observations[n]);
      StoreHolds(CollectAll(observations[..n]).source, Entries(observations[..n]), EntriesOf(observations[n]));
      hide Collect, EntriesOf, Store, Holds;
    }
  }

  // ----- The line that is quoted --------------------------------------------------------------

  /** What is given anywhere is given last somewhere. */
  lemma {:induction false} GivenLast(entries: seq<Json>, i: nat, line: SourceLine) returns (last: SourceLine)
    requires i < |entries| && Gives(entries[i], line)
    ensures SamePlace(last, line) && LastGives(entries, last)
    decreases |entries| - i
  {
    if j, other :| i < j < |entries| && Gives(entries[j], other) && SamePlace(other, line) {
      last := GivenLast(entries, j, other);
    } else {
      last := line;
    }
  }

  lemma OnlyPlace(c: Collected, entries: seq<Json>, line: SourceLine)
    requires Holds(c.source, entries) && HeldAt(c.source, line)
    ensures Places(c, line.number) == {(line.path, line.number)}
       <==> forall entry, other | entry in entries && Gives(entry, other) && other.number == line.number ::
              other.path == line.path
  {
    if Places(c, line.number) == {(line.path, line.number)} {
      forall entry, other | entry in entries && Gives(entry, other) && other.number == line.number
        ensures other.path == line.path
      {
        var i :| 0 <= i < |entries| && entries[i] == entry;
        var last := GivenLast(entries, i, other);
        assert HeldAt(c.source, last);
        assert (last.path, last.number) in Places(c, line.number);
      }
    } else {
      assert (line.path, line.number) in Places(c, line.number);
      var k :| k in Places(c, line.number) && k != (line.path, line.number);
      var other := SourceLine(k.0, k.1, c.source[k]);
      assert HeldAt(c.source, other);
      assert LastGives(entries, other);
      var i :| 0 <= i < |entries| && Gives(entries[i], other);
      assert entries[i] in entries;
    }
  }

  /** The lookup quotes a line exactly when the observations make it the line at the breakpoint. */
  lemma AnswerMeans(observations: seq<Json>, line: SourceLine)
    ensures Answers(CollectAll(observations), Some(line)) <==> Quotes(observations, line)
  {
    var c := CollectAll(observations);
    BreakpointIs(observations, line.number);
    SourceHolds(observations);
    hide CollectAll, LastProves, Entries;
    assert HeldAt(c.source, line) <==> LastGives(Entries(observations), line);
    if HeldAt(c.source, line) {
      OnlyPlace(c, Entries(observations), line);
    }
    hide Holds, LastGives;
    if Answers(c, Some(line)) {
      assert (line.path, line.number) in Places(c, line.number);
    }
  }

  // ----- Which observations those are ---------------------------------------------------------

  /** The observation an entry of the history carries; Null when it carries none. */
  function Carried(entry: Json): Json {
    match At(entry, ["last_observation"])
    case Some(observation) => observation
    case None => Null
  }

  /** The entries of a history that are objects; others carry nothing at all. */
  function Objects(entries: seq<Json>): seq<Json> {
    if entries == [] then [] else (if entries[0].Obj? then [entries[0]] else []) + Objects(entries[1..])
  }

  /** The observations of a request: those of its history in order, then the controller's own. */
  lemma CandidatesMean(request: Json)
    ensures var entries := match At(request, ["history"]) case Some(Arr(entries)) => Objects(entries) case _ => [];
            && |Candidates(request)| == |entries| + 1
            && (forall i | 0 <= i < |entries| :: Candidates(request)[i] == Carried(entries[i]))
            && Candidates(request)[|entries|] ==
               match At(request, ["controller", "last_observation"])
               case Some(observation) => observation
               case None => Null
  {
    AtOne(request, "history");
    AtTwo(request, "controller", "last_observation");
    CarriedFrom(History(request));
    hide At, Member, FromEntries, Carried, Objects;
    assert Objects([]) == [] by {
      NoObjects();
    }
  }

  lemma NoObjects()
    ensures Objects([]) == []
  {
  }

  lemma {:induction false} CarriedFrom(entries: seq<Json>)
    ensures |FromEntries(entries)| == |Objects(entries)|
    ensures forall i | 0 <= i < |Objects(entries)| :: FromEntries(entries)[i] == Carried(Objects(entries)[i])
  {
    if entries != [] {
      AtOne(entries[0], "last_observation");
      CarriedFrom(entries[1..]);
      hide At, Member;
    }
  }
}
