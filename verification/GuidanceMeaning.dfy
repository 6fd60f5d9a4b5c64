/** Which lines the guidance for a request holds, read off the members of the request. */
module GuidanceMeaning {
  import opened Wrappers
  import opened Json
  import opened DirectiveValidator
  import opened ObservationLookup
  import M = DirectiveMeaning
  import opened PromptGuidance

  // ----- What the lines are about -------------------------------------------------------------

  /** The request names this kind of directive. */
  predicate Named(request: Json, kind: string) {
    match At(request, ["directive_schema"])
    case Some(Obj(_)) => At(request, ["directive_schema", kind]).Some?
    case Some(Arr(kinds)) => Str(kind) in kinds
    case _ => false
  }

  /** The request describes this kind of hypothesis. */
  predicate Described(request: Json, kind: string) {
    At(request, ["directive_schema", kind]).Some?
  }

  /** A list the request's controller gives; empty when it gives none. */
  function Listed(request: Json, key: string): seq<Json> {
    match At(request, ["controller", key])
    case Some(Arr(items)) => items
    case _ => []
  }

  /** An action the guidance goes through. */
  predicate Advertised(request: Json, name: string) {
    Named(request, "action") && name != [] && Str(name) in Listed(request, "allowed_actions")
  }

  /** A text in angle brackets. */
  predicate Angled(value: Json) {
    value.Str? && value.s != [] && value.s[0] == '<' && value.s[|value.s| - 1] == '>'
  }

  predicate ShowsAngles(directive: Json) {
    match At(directive, ["arguments"])
    case Some(Obj(arguments)) => exists f | f in arguments :: Angled(f.value)
    case _ => false
  }

  /** There is one text in the list, and it is this. */
  predicate OnlyText(items: seq<Json>, text: string) {
    exists i | 0 <= i < |items| :: items[i] == Str(text) && forall j | 0 <= j < |items| && items[j].Str? :: j == i
  }

  /** The line belongs to the frozen guidance for the request. */
  ghost predicate Belongs(line: Line, request: Json, source: Option<SourceLine>) {
    match line
    case Opening => true
    case NextActions(names) =>
      && At(request, ["proof_gate", "next_required_actions"]) == Some(Arr(names))
      && forall name | name in names :: name.Str?
    case LegalHypothesis(d) =>
      || (Described(request, "add_hypothesis") && d == HypothesisExample(request, "add_hypothesis"))
      || (Described(request, "revise_hypothesis") && d == HypothesisExample(request, "revise_hypothesis"))
    case ReplaceEvidence => Described(request, "revise_hypothesis")
    case LegalAction(d) => exists name :: Advertised(request, name) && d == IllustrativeAction(name, request)
    case PlaceholdersAreStructural =>
      exists name :: Advertised(request, name) && ShowsAngles(IllustrativeAction(name, request))
    case BreakpointIsShape => Advertised(request, "start_pdb_session")
    case PatchRules(quoted) => Advertised(request, "apply_patch") && quoted == source
    case LegalTransition(d) =>
      Named(request, "transition") &&
      exists target :: OnlyText(Listed(request, "legal_transition_targets"), target) && d == TransitionExample(target)
    case TransitionChoice(targets) =>
      && Named(request, "transition") && |targets| >= 2
      && targets == TextNames(Listed(request, "legal_transition_targets"))
    case _ => false
  }

  // ----- The functions read these members -----------------------------------------------------

  lemma NamedIs(request: Json, kind: string)
    ensures IsKind(request, kind) <==> Named(request, kind)
  {
    AtOne(request, "directive_schema");
    AtTwo(request, "directive_schema", kind);
    hide At, Get;
  }

  lemma ListedIs(request: Json, key: string)
    ensures Listed(request, key) == match Names(request, key) case Some(names) => names case None => []
  {
    M.NamesAre(request, key);
    hide At, Names;
  }

  lemma AnglesAre(d: Json)
    ensures HasPlaceholder(d) <==> ShowsAngles(d)
  {
    AtOne(d, "arguments");
    hide At, Member;
    match Member(d, "arguments")
    case Some(Obj(arguments)) => AnglesIn(arguments);
    case _ =>
  }

  lemma AnglesIn(arguments: seq<Field>)
    ensures (exists i | 0 <= i < |arguments| :: IsPlaceholder(arguments[i].value)) <==>
            exists f | f in arguments :: Angled(f.value)
  {
    if i :| 0 <= i < |arguments| && IsPlaceholder(arguments[i].value) {
      assert arguments[i] in arguments;
    }
  }

  lemma AdvertisedIs(request: Json, name: Json)
    ensures name in ShownActions(request) && name.Str? && name.s != []
       <==> name.Str? && Advertised(request, name.s)
  {
    NamedIs(request, "action");
    ListedIs(request, "allowed_actions");
    hide Names, IsKind, Named, Listed;
  }

  // ----- Lines by their block -----------------------------------------------------------------

  lemma ProofLinesAre(line: Line, request: Json)
    ensures line in ProofLines(request) <==>
              && line.NextActions?
              && At(request, ["proof_gate", "next_required_actions"]) == Some(Arr(line.names))
              && forall name | name in line.names :: name.Str?
  {
    AtTwo(request, "proof_gate", "next_required_actions");
    hide At, Get;
    assert forall v: Json, key :: !v.Obj? ==> Member(v, key) == None;
  }

  lemma HypothesisLinesAre(line: Line, request: Json)
    ensures line in HypothesisLines(request) <==>
              || (&& line.LegalHypothesis?
                  && (|| (Described(request, "add_hypothesis")
                          && line.directive == HypothesisExample(request, "add_hypothesis"))
                      || (Described(request, "revise_hypothesis")
                          && line.directive == HypothesisExample(request, "revise_hypothesis"))))
              || (line.ReplaceEvidence? && Described(request, "revise_hypothesis"))
  {
    AtTwo(request, "directive_schema", "add_hypothesis");
    AtTwo(request, "directive_schema", "revise_hypothesis");
    hide At, Get, HypothesisExample;
    assert forall v: Json, key :: !v.Obj? ==> Member(v, key) == None;
  }

  /** A line an action gives. */
  predicate ActionLine(line: Line, request: Json, name: string, source: Option<SourceLine>) {
    || line == LegalAction(IllustrativeAction(name, request))
    || (line.PlaceholdersAreStructural? && ShowsAngles(IllustrativeAction(name, request)))
    || (line.BreakpointIsShape? && name == "start_pdb_session")
    || (line == PatchRules(source) && name == "apply_patch")
  }

  lemma ActionLineIs(line: Line, request: Json, name: Json, source: Option<SourceLine>)
    ensures line in ActionLinesFor(request, name, source)
       <==> name.Str? && name.s != [] && ActionLine(line, request, name.s, source)
  {
    if name.Str? {
      AnglesAre(IllustrativeAction(name.s, request));
    }
    hide IllustrativeAction, HasPlaceholder, ShowsAngles;
  }

  lemma {:induction false} ActionLinesFrom(line: Line, request: Json, names: seq<Json>, source: Option<SourceLine>)
    ensures line in ActionLines(request, names, source)
       <==> exists name | name in names && name.Str? && name.s != [] :: ActionLine(line, request, name.s, source)
  {
    hide ActionLinesFor, ActionLine;
    if names != [] {
      var n := |names| - 1;
      ActionLinesFrom(line, request, names[..n], source);
      ActionLineIs(line, request, names[n], source);
      assert names == names[..n] + [names[n]];
    }
  }

  lemma ActionLinesAdvertised(line: Line, request: Json, source: Option<SourceLine>)
    ensures line in ActionLines(request, ShownActions(request), source)
       <==> exists name :: Advertised(request, name) && ActionLine(line, request, name, source)
  {
    hide *;
    ActionLinesFrom(line, request, ShownActions(request), source);
    if name :| name in ShownActions(request) && name.Str? && name.s != [] && ActionLine(line, request, name.s, source) {
      AdvertisedIs(request, name);
      assert Advertised(request, name.s);
    }
    if name :| Advertised(request, name) && ActionLine(line, request, name, source) {
      AdvertisedIs(request, Str(name));
      assert Str(name) in ShownActions(request) && Str(name).s == name;
    }
  }

  lemma {:induction false} NoTexts(items: seq<Json>)
    ensures TextNames(items) == [] <==> forall i | 0 <= i < |items| :: !items[i].Str?
  {
    if items != [] {
      NoTexts(items[1..]);
      assert forall i | 1 <= i < |items| :: items[i] == items[1..][i - 1];
      assert forall i | 0 <= i < |items| - 1 :: items[1..][i] == items[i + 1];
    }
  }

  lemma {:induction false} OneText(items: seq<Json>, text: string)
    ensures TextNames(items) == [text] <==> OnlyText(items, text)
  {
    if items != [] {
      NoTexts(items[1..]);
      OneText(items[1..], text);
      assert forall i | 1 <= i < |items| :: items[i] == items[1..][i - 1];
      if items[0].Str? {
        FirstOnly(items, text);
      } else {
        LaterOnly(items, text);
      }
    }
  }

  lemma FirstOnly(items: seq<Json>, text: string)
    requires items != [] && items[0].Str?
    ensures OnlyText(items, text) <==> items[0] == Str(text) && forall i | 0 <= i < |items[1..]| :: !items[1..][i].Str?
  {
    if OnlyText(items, text) {
      var i :| 0 <= i < |items| && items[i] == Str(text) && forall j | 0 <= j < |items| && items[j].Str? :: j == i;
      assert i == 0;
    }
    assert forall i | 1 <= i < |items| :: items[i] == items[1..][i - 1];
  }

  lemma LaterOnly(items: seq<Json>, text: string)
    requires items != [] && !items[0].Str?
    ensures OnlyText(items, text) <==> OnlyText(items[1..], text)
  {
    var rest := items[1..];
    if OnlyText(items, text) {
      var i :| 0 <= i < |items| && items[i] == Str(text) && forall j | 0 <= j < |items| && items[j].Str? :: j == i;
      assert rest[i - 1] == Str(text);
    }
    if OnlyText(rest, text) {
      var i :| 0 <= i < |rest| && rest[i] == Str(text) && forall j | 0 <= j < |rest| && rest[j].Str? :: j == i;
      assert items[i + 1] == Str(text);
      assert forall j | 1 <= j < |items| :: items[j] == rest[j - 1];
    }
  }

  lemma TransitionLinesAre(line: Line, request: Json)
    ensures var targets := Listed(request, "legal_transition_targets");
            line in TransitionLines(request) <==>
              && Named(request, "transition")
              && (|| (&& line.LegalTransition?
                      && exists target :: OnlyText(targets, target) && line.directive == TransitionExample(target))
                  || (line.TransitionChoice? && |line.targets| >= 2 && line.targets == TextNames(targets)))
  {
    NamedIs(request, "transition");
    ListedIs(request, "legal_transition_targets");
    var targets := Listed(request, "legal_transition_targets");
    var legal := TextNames(targets);
    assert TextNames([]) == [];
    forall target
      ensures legal == [target] <==> OnlyText(targets, target)
    {
      OneText(targets, target);
    }
    hide TextNames, OnlyText, Listed, Names, Named, IsKind, TransitionExample;
    if |legal| == 1 {
      assert legal == [legal[0]];
    }
  }

  /** A line is in the frozen guidance exactly when it belongs there by the members of the request. */
  lemma LinesBelong(line: Line, request: Json, source: Option<SourceLine>)
    ensures line in FrozenLines(request, source) <==> Belongs(line, request, source)
  {
    ProofLinesAre(line, request);
    HypothesisLinesAre(line, request);
    ActionLinesAdvertised(line, request, source);
    TransitionLinesAre(line, request);
    hide ProofLines, HypothesisLines, ActionLines, TransitionLines, At, Described, Named, Listed, OnlyText, TextNames,
         Advertised, IllustrativeAction, HypothesisExample, TransitionExample, ShowsAngles, ShownActions;
  }

  /** The interactive guidance adds these lines: only for an advertised diagnosis of which an example can be made. */
  lemma DiagnosisLinesBelong(line: Line, request: Json, diagnose: Json -> Option<Json>)
    ensures line in DiagnosisLines(request, diagnose) <==>
              && Advertised(request, "express_root_cause_hypothesis") && diagnose(request).Some?
              && (|| line.CurrentDiagnosis? || line == LegalDiagnosis(diagnose(request).value)
                  || (line.DiagnosisEvidence? && At(diagnose(request).value, ["arguments", "evidence_refs"]).Some?))
  {
    AdvertisedIs(request, Str("express_root_cause_hypothesis"));
    if diagnose(request).Some? {
      AtTwo(diagnose(request).value, "arguments", "evidence_refs");
    }
    hide At, Member, ShownActions, Advertised;
  }
}
