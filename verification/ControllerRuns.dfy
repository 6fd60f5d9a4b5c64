/** Runs of the debugging controller over its transition graph. */
module ControllerRuns {

  datatype State = Reproduce | Understand | RuntimeEvidence | Patch | Validate | Done | Failed

  function Transitions(s: State): set<State> {
    match s
    case Reproduce => {Understand, Failed}
    case Understand => {Understand, RuntimeEvidence, Patch, Failed}
    case RuntimeEvidence => {Understand, RuntimeEvidence, Patch, Failed}
    case Patch => {Patch, Understand, Validate, Failed}
    case Validate => {Done, Understand, RuntimeEvidence, Patch, Failed}
    case Done => {}
    case Failed => {}
  }

  predicate IsTransitionAllowed(current: State, target: State) {
    target in Transitions(current)
  }

  /** The states a controller visits, each step allowed; a run starts in Reproduce. */
  predicate Run(states: seq<State>) {
    && states != []
    && states[0] == Reproduce
    && forall i | 0 < i < |states| :: IsTransitionAllowed(states[i - 1], states[i])
  }

  function Visits(states: seq<State>, s: State): nat {
    if states == [] then 0
    else Visits(states[..|states| - 1], s) + if states[|states| - 1] == s then 1 else 0
  }

  predicate Terminal(s: State) {
    s == Done || s == Failed
  }

  /** What every run keeps: the start is never visited again, an end is never left, and a validation checks a patch. */
  lemma RunShape(states: seq<State>, i: nat)
    requires Run(states) && i < |states|
    ensures states[i] == Reproduce <==> i == 0
    ensures Terminal(states[i]) ==> i == |states| - 1
    ensures states[i] == Validate ==> i > 0 && states[i - 1] == Patch
    ensures states[i] == Done ==> i > 0 && states[i - 1] == Validate
  {
    if i > 0 {
      assert IsTransitionAllowed(states[i - 1], states[i]);
    }
    if i + 1 < |states| {
      assert IsTransitionAllowed(states[i + 1 - 1], states[i + 1]);
    }
  }

  /** Which state may come right after which. */
  predicate Follows(s: State, next: State) {
    match next
    case Reproduce => false
    case Understand => s !in {Done, Failed}
    case RuntimeEvidence => s in {Understand, RuntimeEvidence, Validate}
    case Patch => s in {Understand, RuntimeEvidence, Patch, Validate}
    case Validate => s == Patch
    case Done => s == Validate
    case Failed => s !in {Done, Failed}
  }

  /** A run in which `next` comes right after `s`. */
  ghost predicate Adjacent(states: seq<State>, i: nat, s: State, next: State) {
    Run(states) && i + 1 < |states| && states[i] == s && states[i + 1] == next
  }

  lemma PathTo(s: State) returns (states: seq<State>)
    requires !Terminal(s)
    ensures Run(states) && states[|states| - 1] == s
  {
    match s {
      case Reproduce => states := [Reproduce];
      case Understand => states := [Reproduce, Understand];
      case RuntimeEvidence => states := [Reproduce, Understand, RuntimeEvidence];
      case Patch => states := [Reproduce, Understand, Patch];
      case Validate => states := [Reproduce, Understand, Patch, Validate];
    }
    forall i | 0 < i < |states|
      ensures IsTransitionAllowed(states[i - 1], states[i])
    {
      assert i == 1 || i == 2 || i == 3;
    }
  }

  /** Two states are neighbours in some run exactly when the one may come right after the other. */
  lemma NeighboursInRuns(s: State, next: State)
    ensures (exists states, i :: Adjacent(states, i, s, next)) <==> Follows(s, next)
  {
    assert IsTransitionAllowed(s, next) <==> Follows(s, next);
    if Follows(s, next) {
      var path := PathTo(s);
      var states := path + [next];
      hide Transitions;
      forall i | 0 < i < |states|
        ensures IsTransitionAllowed(states[i - 1], states[i])
      {
        if i < |path| {
          assert IsTransitionAllowed(path[i - 1], path[i]);
        }
      }
      assert Adjacent(states, |path| - 1, s, next);
    }
    if states, i :| Adjacent(states, i, s, next) {
      assert IsTransitionAllowed(states[i + 1 - 1], states[i + 1]);
    }
  }

  /** A run cut short is a run. */
  lemma RunPrefix(states: seq<State>, n: nat)
    requires Run(states) && 0 < n <= |states|
    ensures Run(states[..n])
  {
    forall i | 0 < i < n
      ensures IsTransitionAllowed(states[..n][i - 1], states[..n][i])
    {
      assert IsTransitionAllowed(states[i - 1], states[i]);
    }
  }

  /** Every validation is paid for by a patch of its own, and one more patch may be waiting for its validation. */
  lemma {:induction false} ValidationsPaid(states: seq<State>)
    requires Run(states)
    ensures Visits(states, Validate) <= Visits(states, Patch)
    ensures states[|states| - 1] == Patch ==> Visits(states, Validate) < Visits(states, Patch)
  {
    var n := |states|;
    if n > 1 {
      RunPrefix(states, n - 1);
      ValidationsPaid(states[..n - 1]);
      assert IsTransitionAllowed(states[n - 2], states[n - 1]);
    } else {
      assert states[..0] == [];
    }
  }

  /** There is no way to a patch that does not lead through Understand. */
  lemma UnderstandFirst(states: seq<State>)
    requires Run(states)
    requires states[|states| - 1] !in {Reproduce, Failed}
    ensures |states| > 1 && states[1] == Understand
  {
    assert |states| > 1;
    assert IsTransitionAllowed(states[1 - 1], states[1]);
    if states[1] == Failed {
      RunShape(states, 1);
    }
  }

  /** A successful run: at least four steps, through Understand, ending in Patch, Validate, Done. */
  lemma DoneRuns(states: seq<State>)
    requires Run(states) && states[|states| - 1] == Done
    ensures |states| >= 5 && states[..2] == [Reproduce, Understand]
    ensures states[|states| - 3..] == [Patch, Validate, Done]
    ensures Visits(states, Done) == 1 && Visits(states, Failed) == 0
  {
    var n := |states|;
    UnderstandFirst(states);
    RunShape(states, n - 1);
    RunShape(states, n - 2);
    RunShape(states, n - 3);
    VisitsEnd(states);
  }

  /** A terminal state is visited at most once, as the last one. */
  lemma {:induction false} VisitsEnd(states: seq<State>)
    requires Run(states)
    ensures forall s | Terminal(s) :: Visits(states, s) == if states[|states| - 1] == s then 1 else 0
  {
    var n := |states|;
    if n > 1 {
      RunPrefix(states, n - 1);
      VisitsEnd(states[..n - 1]);
      RunShape(states, n - 2);
    } else {
      assert states[..0] == [];
    }
  }

  /** The bound of four steps is reached. */
  lemma ShortestRun()
    ensures Run([Reproduce, Understand, Patch, Validate, Done])
  {
    var run := [Reproduce, Understand, Patch, Validate, Done];
    forall i | 0 < i < |run|
      ensures IsTransitionAllowed(run[i - 1], run[i])
    {
      assert i == 1 || i == 2 || i == 3 || i == 4;
    }
  }

  // ----- Which states lie ahead ---------------------------------------------------------------

  /** Can `target` be reached from `s` in exactly `steps` transitions? */
  ghost predicate Ahead(s: State, target: State, steps: nat)
    decreases steps
  {
    if steps == 0 then s == target
    else exists next: State :: IsTransitionAllowed(s, next) && Ahead(next, target, steps - 1)
  }

  /** From every state but Done and Failed the controller can still succeed and can still fail. */
  lemma CanStillEnd(s: State)
    requires !Terminal(s)
    ensures exists n: nat :: Ahead(s, Done, n)
    ensures Ahead(s, Failed, 1)
  {
    assert Ahead(Failed, Failed, 0);
    assert IsTransitionAllowed(s, Failed);
    assert IsTransitionAllowed(Validate, Done) && Ahead(Done, Done, 0);
    assert Ahead(Validate, Done, 1);
    assert IsTransitionAllowed(Patch, Validate);
    assert Ahead(Patch, Done, 2);
    match s {
      case Reproduce =>
        assert IsTransitionAllowed(Understand, Patch);
        assert Ahead(Understand, Done, 3);
        assert IsTransitionAllowed(Reproduce, Understand);
        assert Ahead(Reproduce, Done, 4);
      case Understand =>
        assert IsTransitionAllowed(Understand, Patch);
        assert Ahead(Understand, Done, 3);
      case RuntimeEvidence =>
        assert IsTransitionAllowed(RuntimeEvidence, Patch);
        assert Ahead(RuntimeEvidence, Done, 3);
      case Patch =>
      case Validate =>
    }
  }

  /** Done and Failed are absorbing: nothing but the state itself lies ahead of them. */
  lemma Absorbing(s: State, target: State, steps: nat)
    requires Terminal(s) && Ahead(s, target, steps)
    ensures steps == 0 && target == s
  {
  }
}
