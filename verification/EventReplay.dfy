/** Which patch an event log ends with: the repeated scans of the adapter and a one-pass state machine. */
module EventReplay {
  import opened Wrappers
  import opened Json

  /** The hexadecimal SHA-256 of a patch text. */
  type Hash = string -> string

  datatype Outcome =
    | NoPatch
    | Applied(patch: string, sha256: string)
    | Raised

  // ----- Reading one event --------------------------------------------------------------------

  predicate Is(value: Option<Json>, text: string) {
    value == Some(Str(text))
  }

  function NonEmptyText(value: Option<Json>): Option<string> {
    match value
    case Some(Str(s)) => if s != [] then Some(s) else None
    case _ => None
  }

  /** `holder.get("payload", {})`; None when it is there but has no `get`. */
  function Payload(holder: Json): Option<Json> {
    match Member(holder, "payload")
    case None => Some(Obj([]))
    case Some(payload) => if payload.Obj? then Some(payload) else None
  }

  predicate IsAction(event: Json, name: string) {
    Is(Member(event, "event_type"), "action") && Is(Member(event, "name"), name)
  }

  /** The action block of an event whose payload is an object. */
  function Action(event: Json): Option<Json> {
    match Member(event, "payload")
    case Some(payload) =>
      (match Member(payload, "action")
       case Some(action) => if action.Obj? then Some(action) else None
       case None => None)
    case None => None
  }

  /** The patch of an apply_patch action that carries one. */
  function ApplyPatch(event: Json): Option<string> {
    if !IsAction(event, "apply_patch") || Action(event).None? then None
    else
      match Member(Action(event).value, "arguments")
      case Some(arguments) => NonEmptyText(Member(arguments, "patch"))
      case None => None
  }

  predicate IsApply(event: Json) {
    ApplyPatch(event).Some?
  }

  function ActionId(event: Json): Option<string> {
    match Action(event)
    case Some(action) => NonEmptyText(Member(action, "action_id"))
    case None => None
  }

  predicate IsObservation(event: Json) {
    Is(Member(event, "event_type"), "observation")
  }

  /** The observation block of an observation event, if it is an object. */
  function Observation(event: Json): Option<Json> {
    match Payload(event)
    case Some(payload) =>
      (match Member(payload, "observation")
       case Some(observation) => if observation.Obj? then Some(observation) else None
       case None => None)
    case None => None
  }

  predicate Matches(observation: Json, id: string, name: string) {
    Is(Member(observation, "action_id"), id) && Is(Member(observation, "name"), name)
  }

  // ----- The scans ----------------------------------------------------------------------------

  datatype Search = Found(observation: Json) | NotFound | SearchRaised

  /** The first observation of action `id` under `name`. */
  function FirstMatch(events: seq<Json>, id: string, name: string): Search {
    if events == [] then NotFound
    else
      var e := events[0];
      if !IsObservation(e) then FirstMatch(events[1..], id, name)
      else if Payload(e).None? then SearchRaised
      else if Observation(e).Some? && Matches(Observation(e).value, id, name) then Found(Observation(e).value)
      else FirstMatch(events[1..], id, name)
  }

  datatype Confirmation = Confirms(sha256: string) | Refuses | ConfirmationRaised

  /** What the observation of an apply_patch says about the patch it was for. */
  function Judge(observation: Json, patch: string, hash: Hash): Confirmation {
    match Payload(observation)
    case None => ConfirmationRaised
    case Some(payload) =>
      if Member(payload, "applied") != Some(Bool(true)) then Refuses
      else
        match NonEmptyText(Member(payload, "patch_sha256"))
        case Some(sha256) => if sha256 == hash(patch) then Confirms(sha256) else Refuses
        case None => Refuses
  }

  datatype Revert = Reverts | Keeps | RevertRaised

  function JudgeRevert(observation: Json): Revert {
    match Payload(observation)
    case None => RevertRaised
    case Some(payload) => if Member(payload, "reverted") == Some(Bool(true)) then Reverts else Keeps
  }

  /** list.index for the event at position `p`: the first event that is that one or equals it. */
  function IndexOf(events: seq<Json>, p: nat): (i: nat)
    requires p < |events|
    ensures i <= p && (i == p || Equal(events[i], events[p]))
    ensures forall j | 0 <= j < i :: !Equal(events[j], events[p])
  {
    FirstEqual(events, p, 0)
  }

  function FirstEqual(events: seq<Json>, p: nat, from: nat): (i: nat)
    requires from <= p < |events|
    ensures from <= i <= p && (i == p || Equal(events[i], events[p]))
    ensures forall j | from <= j < i :: !Equal(events[j], events[p])
    decreases p - from
  {
    if from == p || Equal(events[from], events[p]) then from else FirstEqual(events, p, from + 1)
  }

  /** The effect of the revert_patch action at position `i`. */
  function RevertAt(events: seq<Json>, i: nat): Revert
    requires i < |events|
  {
    if !IsAction(events[i], "revert_patch") then Keeps
    else if Payload(events[i]).None? then RevertRaised
    else
      match ActionId(events[i])
      case None => Keeps
      case Some(id) =>
        match FirstMatch(events[IndexOf(events, i) + 1..], id, "revert_patch")
        case Found(observation) => JudgeRevert(observation)
        case NotFound => Keeps
        case SearchRaised => RevertRaised
  }

  /** The first revert from position `i` on that does something. */
  function RevertFrom(events: seq<Json>, i: nat): Revert
    requires i <= |events|
    decreases |events| - i
  {
    if i == |events| then Keeps
    else if RevertAt(events, i) != Keeps then RevertAt(events, i)
    else RevertFrom(events, i + 1)
  }

  function LastApply(events: seq<Json>): (r: Option<nat>)
    ensures r.Some? ==> r.value < |events| && IsApply(events[r.value])
  {
    if events == [] then None
    else
      var n := |events| - 1;
      if IsApply(events[n]) then Some(n) else LastApply(events[..n])
  }

  /** The outcome of the scans. */
  function Replay(events: seq<Json>, hash: Hash): Outcome {
    match LastApply(events)
    case None => NoPatch
    case Some(last) =>
      var patch := ApplyPatch(events[last]).value;
      match ActionId(events[last])
      case None => NoPatch
      case Some(id) =>
        var start := IndexOf(events, last) + 1;
        match FirstMatch(events[start..], id, "apply_patch")
        case NotFound => NoPatch
        case SearchRaised => Raised
        case Found(observation) =>
          match Judge(observation, patch, hash)
          case ConfirmationRaised => Raised
          case Refuses => NoPatch
          case Confirms(sha256) =>
            match RevertFrom(events, start)
            case RevertRaised => Raised
            case Reverts => NoPatch
            case Keeps => Applied(patch, sha256)
  }

  /** The search loop for a matching observation. */
  method SearchObservation(events: seq<Json>, start: nat, id: string, name: string) returns (r: Search)
    requires start <= |events|
    ensures r == FirstMatch(events[start..], id, name)
  {
    hide Payload, Observation, Matches, IsObservation;
    var i := start;
    while i < |events|
      invariant start <= i <= |events|
      invariant FirstMatch(events[start..], id, name) == FirstMatch(events[i..], id, name)
    {
      assert events[i..][1..] == events[i + 1..];
      if IsObservation(events[i]) {
        if Payload(events[i]).None? {
          return SearchRaised;
        }
        if Observation(events[i]).Some? && Matches(Observation(events[i]).value, id, name) {
          return Found(Observation(events[i]).value);
        }
      }
      i := i + 1;
    }
    return NotFound;
  }

  /** _applied_patch_from_events, on the decoded events. */
  method AppliedPatch(events: seq<Json>, hash: Hash) returns (r: Outcome)
    ensures r == Replay(events, hash)
  {
    hide IsApply, ActionId, Judge, JudgeRevert, FirstMatch, Payload, IsAction, Equal;
    var last := LastApply(events);
    if last.None? {
      return NoPatch;
    }
    var apply := events[last.value];
    var patch := ApplyPatchOf(apply);
    var id := ActionId(apply);
    if id.None? {
      return NoPatch;
    }
    var start := IndexOf(events, last.value) + 1;
    var search := SearchObservation(events, start, id.value, "apply_patch");
    match search {
      case NotFound => return NoPatch;
      case SearchRaised => return Raised;
      case Found(observation) =>
        match Judge(observation, patch, hash) {
          case ConfirmationRaised => return Raised;
          case Refuses => return NoPatch;
          case Confirms(sha256) =>
            var revert := RevertLoop(events, start);
            match revert {
              case RevertRaised => return Raised;
              case Reverts => return NoPatch;
              case Keeps => return Applied(patch, sha256);
            }
        }
    }
  }

  function ApplyPatchOf(event: Json): string
    requires IsApply(event)
  {
    ApplyPatch(event).value
  }

  /** The loop over later revert_patch actions. */
  method RevertLoop(events: seq<Json>, start: nat) returns (r: Revert)
    requires start <= |events|
    ensures r == RevertFrom(events, start)
  {
    hide IsAction, Payload, ActionId, FirstMatch, JudgeRevert;
    var i := start;
    while i < |events|
      invariant start <= i <= |events|
      invariant RevertFrom(events, start) == RevertFrom(events, i)
    {
      var event := events[i];
      if IsAction(event, "revert_patch") {
        if Payload(event).None? {
          return RevertRaised;
        }
        var id := ActionId(event);
        if id.Some? {
          var search := SearchObservation(events, IndexOf(events, i) + 1, id.value, "revert_patch");
          match search {
            case Found(observation) =>
              var judged := JudgeRevert(observation);
              if judged != Keeps {
                return judged;
              }
            case NotFound =>
            case SearchRaised => return RevertRaised;
          }
        }
      }
      i := i + 1;
    }
    return Keeps;
  }

  // ----- The one-pass state machine -----------------------------------------------------------

  datatype Status = Awaiting | Decided(confirmation: Confirmation)

  /** A revert that waits for its observation, or what it came to. */
  datatype RevertState = Waiting(id: string) | Settled(effect: Revert)

  /** What is known about the last apply_patch: whether it is confirmed, and what its reverts came to, in log order. */
  datatype State =
    | Idle
    | Tracking(id: Option<string>, patch: string, status: Status, reverts: seq<RevertState>)

  /** What one event is to whoever waits for the observation of action `id` under `name`. */
  function Glance(event: Json, id: string, name: string): Search {
    if !IsObservation(event) then NotFound
    else if Payload(event).None? then SearchRaised
    else if Observation(event).Some? && Matches(Observation(event).value, id, name) then Found(Observation(event).value)
    else NotFound
  }

  function JudgeFound(search: Search, patch: string, hash: Hash): Status {
    match search
    case NotFound => Awaiting
    case SearchRaised => Decided(ConfirmationRaised)
    case Found(observation) => Decided(Judge(observation, patch, hash))
  }

  function SettleFound(search: Search, id: string): RevertState {
    match search
    case NotFound => Waiting(id)
    case SearchRaised => Settled(RevertRaised)
    case Found(observation) => Settled(JudgeRevert(observation))
  }

  function Settle(r: RevertState, event: Json): RevertState {
    match r
    case Waiting(id) => SettleFound(Glance(event, id, "revert_patch"), id)
    case Settled(_) => r
  }

  function SettleAll(reverts: seq<RevertState>, event: Json): seq<RevertState> {
    if reverts == [] then [] else [Settle(reverts[0], event)] + SettleAll(reverts[1..], event)
  }

  /** The revert an event begins, if it does. */
  function Begun(event: Json): seq<RevertState> {
    if !IsAction(event, "revert_patch") then []
    else if Payload(event).None? then [Settled(RevertRaised)]
    else
      match ActionId(event)
      case None => [Settled(Keeps)]
      case Some(id) => [Waiting(id)]
  }

  function Await(status: Status, id: Option<string>, patch: string, event: Json, hash: Hash): Status {
    if status.Awaiting? && id.Some? then JudgeFound(Glance(event, id.value, "apply_patch"), patch, hash) else status
  }

  function Step(state: State, event: Json, hash: Hash): State {
    if IsApply(event) then Tracking(ActionId(event), ApplyPatchOf(event), Awaiting, [])
    else
      match state
      case Idle => Idle
      case Tracking(id, patch, status, reverts) =>
        Tracking(id, patch, Await(status, id, patch, event, hash), SettleAll(reverts, event) + Begun(event))
  }

  function Run(state: State, events: seq<Json>, hash: Hash): State {
    if events == [] then state
    else
      var n := |events| - 1;
      Step(Run(state, events[..n], hash), events[n], hash)
  }

  /** The first revert, in log order, that came to something. */
  function FirstEffect(reverts: seq<RevertState>): Revert {
    if reverts == [] then Keeps
    else if reverts[0].Settled? && reverts[0].effect != Keeps then reverts[0].effect
    else FirstEffect(reverts[1..])
  }

  /** The outcome for a patch, from its confirmation and the first effect of its reverts. */
  function Tell(status: Status, effect: Revert, patch: string): Outcome {
    match status
    case Awaiting => NoPatch
    case Decided(ConfirmationRaised) => Raised
    case Decided(Refuses) => NoPatch
    case Decided(Confirms(sha256)) =>
      match effect
      case Keeps => Applied(patch, sha256)
      case Reverts => NoPatch
      case RevertRaised => Raised
  }

  /** What the state machine reports at the end of the log. */
  function Report(state: State): Outcome {
    match state
    case Idle => NoPatch
    case Tracking(id, patch, status, reverts) => Tell(status, FirstEffect(reverts), patch)
  }

  /** The event at position `j` equals none logged before it. */
  predicate FreshAt(events: seq<Json>, j: nat)
    requires j < |events|
  {
    forall i | 0 <= i < j :: !Equal(events[i], events[j])
  }

  /** The reverts from position `start` on equal no event logged before them. */
  predicate FreshReverts(events: seq<Json>, start: nat) {
    forall j | start <= j < |events| && IsAction(events[j], "revert_patch") :: FreshAt(events, j)
  }

  /** The last apply_patch and the reverts after it equal no event logged before them. */
  predicate FreshActions(events: seq<Json>) {
    match LastApply(events)
    case None => true
    case Some(last) => FreshAt(events, last) && FreshReverts(events, last + 1)
  }

  lemma {:induction false} LastApplyIs(events: seq<Json>)
    ensures var r := LastApply(events);
            forall j | 0 <= j < |events| :: (r.None? || r.value < j) ==> !IsApply(events[j])
  {
    hide IsApply;
    if events != [] {
      var n := |events| - 1;
      if !IsApply(events[n]) {
        LastApplyIs(events[..n]);
      }
    }
  }

  /** One more event matters to a search only when the search had not ended before it. */
  lemma {:induction false} FirstMatchAppend(events: seq<Json>, event: Json, id: string, name: string)
    ensures FirstMatch(events + [event], id, name) ==
            if FirstMatch(events, id, name) != NotFound then FirstMatch(events, id, name) else Glance(event, id, name)
  {
    hide Payload, Observation, Matches, IsObservation;
    var all := events + [event];
    if events == [] {
      assert all == [event] && all[1..] == [];
    } else {
      assert all[1..] == events[1..] + [event];
      FirstMatchAppend(events[1..], event, id, name);
    }
  }

  // ----- The machine after the last apply -----------------------------------------------------

  function StatusOf(events: seq<Json>, id: Option<string>, patch: string, hash: Hash): Status {
    if id.None? then Awaiting else JudgeFound(FirstMatch(events, id.value, "apply_patch"), patch, hash)
  }

  /** What the revert at position `i` came to, told by a search from there on. */
  function StateAt(events: seq<Json>, i: nat): seq<RevertState>
    requires i < |events|
  {
    if Begun(events[i]) == [] || Begun(events[i])[0].Settled? then Begun(events[i])
    else
      var id := Begun(events[i])[0].id;
      [SettleFound(FirstMatch(events[i + 1..], id, "revert_patch"), id)]
  }

  function StatesFrom(events: seq<Json>, i: nat): seq<RevertState>
    requires i <= |events|
    decreases |events| - i
  {
    if i == |events| then [] else StateAt(events, i) + StatesFrom(events, i + 1)
  }

  /** What the machine knows after the events since the last apply. */
  function Known(id: Option<string>, patch: string, events: seq<Json>, hash: Hash): State {
    Tracking(id, patch, StatusOf(events, id, patch, hash), StatesFrom(events, 0))
  }

  lemma StatusAppend(events: seq<Json>, event: Json, id: Option<string>, patch: string, hash: Hash)
    ensures StatusOf(events + [event], id, patch, hash) ==
            Await(StatusOf(events, id, patch, hash), id, patch, event, hash)
  {
    hide Judge, Glance, FirstMatch;
    if id.Some? {
      FirstMatchAppend(events, event, id.value, "apply_patch");
    }
  }

  lemma {:induction false} SettleConcat(a: seq<RevertState>, b: seq<RevertState>, event: Json)
    ensures SettleAll(a + b, event) == SettleAll(a, event) + SettleAll(b, event)
  {
    hide Settle;
    if a == [] {
      assert a + b == b;
    } else {
      assert (a + b)[1..] == a[1..] + b;
      SettleConcat(a[1..], b, event);
    }
  }

  lemma BegunAtMostOne(event: Json)
    ensures |Begun(event)| <= 1
    ensures Begun(event) == [] <==> !IsAction(event, "revert_patch")
  {
    hide IsAction, Payload, ActionId;
  }

  lemma SettleOne(r: RevertState, event: Json)
    ensures SettleAll([r], event) == [Settle(r, event)]
    ensures SettleAll([], event) == []
  {
    hide Settle;
    assert [r][1..] == [];
  }

  lemma StateAppend(events: seq<Json>, event: Json, i: nat)
    requires i < |events|
    ensures StateAt(events + [event], i) == SettleAll(StateAt(events, i), event)
  {
    hide Begun, FirstMatch, Glance, JudgeRevert, SettleAll;
    var all, begun := events + [event], Begun(events[i]);
    BegunAtMostOne(events[i]);
    assert all[i] == events[i];
    if begun == [] {
      SettleOne(Settled(Keeps), event);
    } else {
      assert begun == [begun[0]];
      SettleOne(StateAt(events, i)[0], event);
      if begun[0].Waiting? {
        assert all[i + 1..] == events[i + 1..] + [event];
        FirstMatchAppend(events[i + 1..], event, begun[0].id, "revert_patch");
      }
    }
  }

  lemma NewState(events: seq<Json>, event: Json)
    ensures StateAt(events + [event], |events|) == Begun(event)
  {
    hide Begun;
    var all := events + [event];
    BegunAtMostOne(event);
    assert all[|events| + 1..] == [];
    if Begun(event) != [] {
      assert Begun(event) == [Begun(event)[0]];
    }
  }

  /** What an event does to the reverts is what it does to the searches for their observations. */
  lemma {:induction false} StatesAppend(events: seq<Json>, event: Json, i: nat)
    requires i <= |events|
    ensures StatesFrom(events + [event], i) == SettleAll(StatesFrom(events, i), event) + Begun(event)
    decreases |events| - i
  {
    hide Begun, StateAt, SettleAll;
    var all := events + [event];
    if i == |events| {
      NewState(events, event);
      SettleOne(Settled(Keeps), event);
      assert StatesFrom(all, i) == StateAt(all, i) + StatesFrom(all, i + 1);
    } else {
      StateAppend(events, event, i);
      StatesAppend(events, event, i + 1);
      SettleConcat(StateAt(events, i), StatesFrom(events, i + 1), event);
    }
  }

  /** One step of the machine keeps what it knows up to date. */
  lemma KnownStep(id: Option<string>, patch: string, events: seq<Json>, event: Json, hash: Hash)
    requires !IsApply(event)
    ensures Step(Known(id, patch, events, hash), event, hash) == Known(id, patch, events + [event], hash)
  {
    hide IsApply, Begun, StatusOf, StatesFrom, Await, SettleAll;
    StatusAppend(events, event, id, patch, hash);
    StatesAppend(events, event, 0);
  }

  lemma {:induction false} KnownRun(id: Option<string>, patch: string, events: seq<Json>, hash: Hash)
    requires forall i | 0 <= i < |events| :: !IsApply(events[i])
    ensures Run(Tracking(id, patch, Awaiting, []), events, hash) == Known(id, patch, events, hash)
  {
    hide IsApply, Step, StatesFrom, Known;
    if events == [] {
      NothingKnown(id, patch, hash);
    } else {
      var n := |events| - 1;
      KnownRun(id, patch, events[..n], hash);
      assert events == events[..n] + [events[n]];
      KnownStep(id, patch, events[..n], events[n], hash);
    }
  }

  lemma NothingKnown(id: Option<string>, patch: string, hash: Hash)
    ensures Known(id, patch, [], hash) == Tracking(id, patch, Awaiting, [])
  {
  }

  lemma {:induction false} RunConcat(state: State, a: seq<Json>, b: seq<Json>, hash: Hash)
    ensures Run(state, a + b, hash) == Run(Run(state, a, hash), b, hash)
  {
    hide Step;
    if b == [] {
      assert a + b == a;
    } else {
      var n := |b| - 1;
      assert (a + b)[..|a| + n] == a + b[..n];
      RunConcat(state, a, b[..n], hash);
    }
  }

  // ----- The two agree ------------------------------------------------------------------------

  /** The position of an action that is logged once is where list.index finds it. */
  lemma IndexOfOnce(events: seq<Json>, i: nat)
    requires i < |events| && FreshAt(events, i)
    ensures IndexOf(events, i) == i
  {
    hide Equal;
  }

  lemma {:induction false} FirstEffectConcat(a: seq<RevertState>, b: seq<RevertState>)
    ensures FirstEffect(a + b) == if FirstEffect(a) != Keeps then FirstEffect(a) else FirstEffect(b)
  {
    if a == [] {
      assert a + b == b;
    } else {
      assert (a + b)[1..] == a[1..] + b;
      FirstEffectConcat(a[1..], b);
    }
  }

  lemma OneEffect(r: RevertState)
    ensures FirstEffect([r]) == if r.Settled? then r.effect else Keeps
    ensures FirstEffect([]) == Keeps
  {
    assert [r][1..] == [];
  }

  /** The effect of the revert at position `i` of the events from `start` on, read off its own observation. */
  lemma RevertAtIs(events: seq<Json>, start: nat, i: nat)
    requires start + i < |events| && FreshReverts(events, start)
    ensures RevertAt(events, start + i) == FirstEffect(StateAt(events[start..], i))
  {
    hide IsApply, IsAction, ActionId, FirstMatch, JudgeRevert, Payload, FirstEffect;
    var event, rest := events[start + i], events[start + i + 1..];
    assert events[start..][i] == event && events[start..][i + 1..] == rest;
    OneEffect(Settled(Keeps));
    if IsAction(event, "revert_patch") {
      IndexOfOnce(events, start + i);
      OneEffect(StateAt(events[start..], i)[0]);
    }
  }

  lemma {:induction false} RevertFromIs(events: seq<Json>, start: nat, i: nat)
    requires start + i <= |events| && FreshReverts(events, start)
    ensures RevertFrom(events, start + i) == FirstEffect(StatesFrom(events[start..], i))
    decreases |events| - i
  {
    hide RevertAt, StateAt, FirstEffect, FreshReverts;
    OneEffect(Settled(Keeps));
    if start + i < |events| {
      RevertAtIs(events, start, i);
      RevertFromIs(events, start, i + 1);
      FirstEffectConcat(StateAt(events[start..], i), StatesFrom(events[start..], i + 1));
    }
  }

  /** The scans from the last apply on, by the event that list.index finds for it. */
  lemma ReplayTells(events: seq<Json>, last: nat, hash: Hash)
    requires LastApply(events) == Some(last)
    ensures var start, patch := IndexOf(events, last) + 1, ApplyPatchOf(events[last]);
            Replay(events, hash) ==
            Tell(StatusOf(events[start..], ActionId(events[last]), patch, hash), RevertFrom(events, start), patch)
  {
    hide IsApply, FirstMatch, Judge, ActionId, RevertFrom, ApplyPatch, LastApply, IndexOf;
  }

  /** The scans from the last apply on, as what is known about it. */
  lemma ReplayIs(events: seq<Json>, last: nat, hash: Hash)
    requires FreshActions(events) && LastApply(events) == Some(last)
    ensures Replay(events, hash) ==
            Report(Known(ActionId(events[last]), ApplyPatchOf(events[last]), events[last + 1..], hash))
  {
    hide IsApply, FirstMatch, Judge, StatesFrom, FirstEffect, ActionId, RevertFrom, ApplyPatch, LastApply, FreshAt,
         FreshReverts;
    IndexOfOnce(events, last);
    RevertFromIs(events, last + 1, 0);
  }

  /**
   * When the last apply and the reverts after it equal no earlier event, the repeated scans report exactly what the
   * one-pass machine reports.
   */
  lemma ReplayIsRun(events: seq<Json>, hash: Hash)
    requires FreshActions(events)
    ensures Replay(events, hash) == Report(Run(Idle, events, hash))
  {
    hide IsApply, Step, ActionId, Known, Report, FreshActions;
    LastApplyIs(events);
    match LastApply(events)
    case None =>
      RunIdle(events, hash);
      IdleReports();
    case Some(last) =>
      var apply, rest := events[last], events[last + 1..];
      RunFrom(events, last, hash);
      assert forall i | 0 <= i < |rest| :: rest[i] == events[last + 1 + i];
      KnownRun(ActionId(apply), ApplyPatchOf(apply), rest, hash);
      ReplayIs(events, last, hash);
  }

  /** A run starts afresh at every apply. */
  lemma RunFrom(events: seq<Json>, last: nat, hash: Hash)
    requires last < |events| && IsApply(events[last])
    ensures Run(Idle, events, hash) ==
            Run(Tracking(ActionId(events[last]), ApplyPatchOf(events[last]), Awaiting, []), events[last + 1..], hash)
  {
    hide *;
    var front, apply, rest := events[..last], events[last], events[last + 1..];
    assert events == front + [apply] + rest;
    RunConcat(Idle, front + [apply], rest, hash);
    RunApply(front, apply, hash);
  }

  lemma IdleReports()
    ensures Report(Idle) == NoPatch
  {
  }

  lemma {:induction false} RunIdle(events: seq<Json>, hash: Hash)
    requires forall i | 0 <= i < |events| :: !IsApply(events[i])
    ensures Run(Idle, events, hash) == Idle
  {
    hide IsApply;
    if events != [] {
      RunIdle(events[..|events| - 1], hash);
    }
  }

  lemma RunApply(front: seq<Json>, apply: Json, hash: Hash)
    requires IsApply(apply)
    ensures Run(Idle, front + [apply], hash) == Tracking(ActionId(apply), ApplyPatchOf(apply), Awaiting, [])
  {
    hide IsApply, ActionId;
    assert (front + [apply])[..|front|] == front;
  }

  // ----- What the state machine guarantees ----------------------------------------------------

  lemma {:induction false} EffectStays(reverts: seq<RevertState>, event: Json)
    requires FirstEffect(reverts) != Keeps
    ensures FirstEffect(SettleAll(reverts, event)) != Keeps
  {
    hide Glance, JudgeRevert;
    if !reverts[0].Settled? || reverts[0].effect == Keeps {
      EffectStays(reverts[1..], event);
    }
  }

  /** Once a revert of the current patch took effect, only a new apply can bring a result back. */
  lemma {:induction false} RevertedStays(state: State, events: seq<Json>, hash: Hash)
    requires state.Tracking? && FirstEffect(state.reverts) != Keeps
    requires forall i | 0 <= i < |events| :: !IsApply(events[i])
    ensures Run(state, events, hash).Tracking? && FirstEffect(Run(state, events, hash).reverts) != Keeps
    ensures !Report(Run(state, events, hash)).Applied?
  {
    hide IsApply, SettleAll, Begun, Await, FirstEffect;
    if events != [] {
      var n := |events| - 1;
      RevertedStays(state, events[..n], hash);
      var reverts := Run(state, events[..n], hash).reverts;
      EffectStays(reverts, events[n]);
      FirstEffectConcat(SettleAll(reverts, events[n]), Begun(events[n]));
    }
  }

  /** The event at position `i` is no revert, or one that came to nothing. */
  predicate Kept(events: seq<Json>, i: nat)
    requires i < |events|
  {
    FirstEffect(StateAt(events, i)) == Keeps
  }

  predicate AllKept(events: seq<Json>) {
    forall i | 0 <= i < |events| :: Kept(events, i)
  }

  /**
   * The apply at position `last` is the last one, carries `patch`, is confirmed with its hash, and no revert took
   * effect.
   */
  ghost predicate ConfirmedLast(events: seq<Json>, last: nat, hash: Hash, patch: string, sha256: string)
    requires last < |events|
  {
    && ApplyPatch(events[last]) == Some(patch)
    && (forall j | last < j < |events| :: !IsApply(events[j]))
    && ActionId(events[last]).Some?
    && (var answer := FirstMatch(events[last + 1..], ActionId(events[last]).value, "apply_patch");
        answer.Found? && Judge(answer.observation, patch, hash) == Confirms(sha256))
    && sha256 == hash(patch)
    && AllKept(events[last + 1..])
  }

  lemma {:induction false} NoEffectFrom(events: seq<Json>, i: nat)
    requires i <= |events|
    ensures FirstEffect(StatesFrom(events, i)) == Keeps <==> forall k | i <= k < |events| :: Kept(events, k)
    decreases |events| - i
  {
    hide StateAt, FirstEffect;
    OneEffect(Settled(Keeps));
    if i < |events| {
      NoEffectFrom(events, i + 1);
      FirstEffectConcat(StateAt(events, i), StatesFrom(events, i + 1));
      assert Kept(events, i) <==> FirstEffect(StateAt(events, i)) == Keeps;
    }
  }

  /**
   * A patch is reported exactly when it is the one of the last apply, its first observation confirms it with the hash
   * of exactly that patch, and no later revert came to anything.
   */
  lemma AppliedMeaning(events: seq<Json>, hash: Hash, patch: string, sha256: string)
    requires FreshActions(events)
    ensures Replay(events, hash) == Applied(patch, sha256)
       <==> exists last | 0 <= last < |events| :: ConfirmedLast(events, last, hash, patch, sha256)
  {
    hide IsApply, FirstMatch, StatesFrom, FirstEffect, Kept, ActionId, Judge, ApplyPatch, Replay, LastApply,
         FreshActions;
    LastApplyIs(events);
    if LastApply(events).Some? {
      var last := LastApply(events).value;
      ReplayIs(events, last, hash);
      NoEffectFrom(events[last + 1..], 0);
      PatchOf(events[last]);
      ConfirmsHash(hash);
      forall other | 0 <= other < |events| && ConfirmedLast(events, other, hash, patch, sha256)
        ensures other == last
      {
        PatchOf(events[other]);
      }
      assert Replay(events, hash) == Applied(patch, sha256) <==> ConfirmedLast(events, last, hash, patch, sha256);
    } else {
      NoApplyNoPatch(events, hash);
      forall other | 0 <= other < |events|
        ensures !ConfirmedLast(events, other, hash, patch, sha256)
      {
        PatchOf(events[other]);
      }
    }
  }

  lemma PatchOf(event: Json)
    ensures IsApply(event) <==> ApplyPatch(event).Some?
    ensures IsApply(event) ==> ApplyPatchOf(event) == ApplyPatch(event).value
  {
    hide ApplyPatch;
  }

  lemma ConfirmsHash(hash: Hash)
    ensures forall observation, p ::
              Judge(observation, p, hash).Confirms? ==> Judge(observation, p, hash).sha256 == hash(p)
  {
    hide Payload;
  }

  /**
   * The apply at position `last` is the last one and carries `patch`; behind the first event equal to it, the first
   * observation confirms `patch` with its hash and no revert comes to anything.
   */
  ghost predicate ConfirmedSinceFirst(events: seq<Json>, last: nat, hash: Hash, patch: string, sha256: string)
    requires last < |events|
  {
    && ApplyPatch(events[last]) == Some(patch)
    && (forall j | last < j < |events| :: !IsApply(events[j]))
    && ActionId(events[last]).Some?
    && (var answer := FirstMatch(events[IndexOf(events, last) + 1..], ActionId(events[last]).value, "apply_patch");
        answer.Found? && Judge(answer.observation, patch, hash) == Confirms(sha256))
    && sha256 == hash(patch)
    && (forall i | IndexOf(events, last) < i < |events| :: RevertAt(events, i) == Keeps)
  }

  lemma {:induction false} RevertsKeep(events: seq<Json>, i: nat)
    requires i <= |events|
    ensures RevertFrom(events, i) == Keeps <==> forall k | i <= k < |events| :: RevertAt(events, k) == Keeps
    decreases |events| - i
  {
    hide RevertAt;
    if i < |events| {
      RevertsKeep(events, i + 1);
    }
  }

  lemma AppliedOfLast(events: seq<Json>, last: nat, hash: Hash, patch: string, sha256: string)
    requires LastApply(events) == Some(last) && ApplyPatch(events[last]).Some?
    requires forall j | last < j < |events| :: !IsApply(events[j])
    ensures Replay(events, hash) == Applied(patch, sha256) <==> ConfirmedSinceFirst(events, last, hash, patch, sha256)
  {
    hide *;
    RevertsKeep(events, IndexOf(events, last) + 1);
    ConfirmsHash(hash);
    ReplayApplied(events, last, hash, patch, sha256);
    IsConfirmed(events, last, hash, patch, sha256);
  }

  lemma ReplayApplied(events: seq<Json>, last: nat, hash: Hash, patch: string, sha256: string)
    requires LastApply(events) == Some(last) && ApplyPatch(events[last]).Some?
    ensures Replay(events, hash) == Applied(patch, sha256)
       <==> && ApplyPatch(events[last]).value == patch && ActionId(events[last]).Some?
            && (var answer := FirstMatch(events[IndexOf(events, last) + 1..],
                                         ActionId(events[last]).value, "apply_patch");
                answer.Found? && Judge(answer.observation, patch, hash) == Confirms(sha256))
            && RevertFrom(events, IndexOf(events, last) + 1) == Keeps
  {
    hide Equal, IsApply, FirstMatch, RevertFrom, ActionId, Judge, ApplyPatch, LastApply, IndexOf;
  }

  lemma IsConfirmed(events: seq<Json>, last: nat, hash: Hash, patch: string, sha256: string)
    requires last < |events|
    requires forall j | last < j < |events| :: !IsApply(events[j])
    ensures ConfirmedSinceFirst(events, last, hash, patch, sha256)
       <==> && ApplyPatch(events[last]) == Some(patch) && ActionId(events[last]).Some?
            && (var answer := FirstMatch(events[IndexOf(events, last) + 1..],
                                         ActionId(events[last]).value, "apply_patch");
                answer.Found? && Judge(answer.observation, patch, hash) == Confirms(sha256))
            && sha256 == hash(patch)
            && forall i | IndexOf(events, last) < i < |events| :: RevertAt(events, i) == Keeps
  {
    hide Equal, IsApply, FirstMatch, RevertAt, ActionId, Judge, ApplyPatch, IndexOf;
  }

  lemma ConfirmedIsLast(events: seq<Json>, last: nat, hash: Hash, patch: string, sha256: string)
    requires last < |events| && ConfirmedSinceFirst(events, last, hash, patch, sha256)
    ensures ApplyPatch(events[last]).Some? && forall j | last < j < |events| :: !IsApply(events[j])
  {
    hide Equal, IsApply, FirstMatch, RevertAt, ActionId, Judge, ApplyPatch, IndexOf;
  }

  /**
   * On every log whatever, a patch is reported exactly when it is confirmed since the first event equal to the last
   * apply.
   */
  lemma ReportedMeaning(events: seq<Json>, hash: Hash, patch: string, sha256: string)
    ensures Replay(events, hash) == Applied(patch, sha256)
       <==> exists last | 0 <= last < |events| :: ConfirmedSinceFirst(events, last, hash, patch, sha256)
  {
    LastApplyIs(events);
    hide *;
    var r := LastApply(events);
    forall other | 0 <= other < |events| && ConfirmedSinceFirst(events, other, hash, patch, sha256)
      ensures r == Some(other)
    {
      PatchOf(events[other]);
      ConfirmedIsLast(events, other, hash, patch, sha256);
    }
    if r.Some? {
      PatchOf(events[r.value]);
      AppliedOfLast(events, r.value, hash, patch, sha256);
    } else {
      NoApplyNoPatch(events, hash);
    }
  }

  lemma NoApplyNoPatch(events: seq<Json>, hash: Hash)
    requires LastApply(events).None?
    ensures Replay(events, hash) == NoPatch
  {
    hide LastApply;
  }

  // ----- A log where an action is repeated ----------------------------------------------------

  function ApplyEvent(patch: string): Json {
    Obj([Field("event_type", Str("action")), Field("name", Str("apply_patch")),
         Field("payload", Obj([Field("action", ApplyAction(patch))]))])
  }

  function ApplyAction(patch: string): Json {
    Obj([Field("action_id", Str("a")), Field("arguments", Obj([Field("patch", Str(patch))]))])
  }

  function ConfirmEvent(sha256: string): Json {
    Obj([Field("event_type", Str("observation")),
         Field("payload", Obj([Field("observation", ConfirmObservation(sha256))]))])
  }

  function ConfirmObservation(sha256: string): Json {
    Obj([Field("action_id", Str("a")), Field("name", Str("apply_patch")),
         Field("payload", Obj([Field("applied", Bool(true)), Field("patch_sha256", Str(sha256))]))])
  }

  lemma ApplyEventMeaning(patch: string)
    requires patch != []
    ensures var e := ApplyEvent(patch);
            && ApplyPatch(e) == Some(patch) && ActionId(e) == Some("a")
            && !IsObservation(e) && !IsAction(e, "revert_patch")
  {
    var e, action := ApplyEvent(patch), ApplyAction(patch);
    hide Get;
    GetAt(e.fields, 0);
    GetAt(e.fields, 1);
    GetAt(e.fields, 2);
    GetAt(e.fields[2].value.fields, 0);
    GetAt(action.fields, 0);
    GetAt(action.fields, 1);
    GetAt(action.fields[1].value.fields, 0);
  }

  lemma ConfirmEventMeaning(patch: string, hash: Hash)
    requires hash(patch) != []
    ensures var e := ConfirmEvent(hash(patch));
            && IsObservation(e) && Payload(e).Some? && !IsApply(e) && !IsAction(e, "revert_patch")
            && Observation(e) == Some(ConfirmObservation(hash(patch)))
            && Matches(ConfirmObservation(hash(patch)), "a", "apply_patch")
            && Judge(ConfirmObservation(hash(patch)), patch, hash) == Confirms(hash(patch))
  {
    var e, o := ConfirmEvent(hash(patch)), ConfirmObservation(hash(patch));
    hide Get;
    GetAt(e.fields, 0);
    GetAt(e.fields, 1);
    GetAt(e.fields[1].value.fields, 0);
    GetAt(o.fields, 0);
    GetAt(o.fields, 1);
    GetAt(o.fields, 2);
    GetAt(o.fields[2].value.fields, 0);
    GetAt(o.fields[2].value.fields, 1);
  }

  lemma {:induction false} NoRevertFrom(events: seq<Json>, i: nat)
    requires i <= |events| && forall k | i <= k < |events| :: !IsAction(events[k], "revert_patch")
    ensures RevertFrom(events, i) == Keeps
    decreases |events| - i
  {
    hide IsAction;
    if i < |events| {
      NoRevertFrom(events, i + 1);
    }
  }

  lemma ApplyEventEqual(patch: string)
    ensures Equal(ApplyEvent(patch), ApplyEvent(patch))
  {
    assert WellFormed(ApplyAction(patch)) by {
      assert WellFormed(Obj([Field("patch", Str(patch))]));
    }
    assert WellFormed(Obj([Field("action", ApplyAction(patch))]));
    EqualReflexive(ApplyEvent(patch));
  }

  lemma ScansFindFirst(a: Json, c: Json, observation: Json, id: string, patch: string, sha256: string, hash: Hash)
    requires ApplyPatch(a) == Some(patch) && ActionId(a) == Some(id) && !IsObservation(a)
    requires !IsAction(a, "revert_patch")
    requires IsObservation(c) && Payload(c).Some? && !IsApply(c) && !IsAction(c, "revert_patch")
    requires Observation(c) == Some(observation) && Matches(observation, id, "apply_patch")
    requires Judge(observation, patch, hash) == Confirms(sha256) && Equal(a, a)
    ensures Replay([a, c, a], hash) == Applied(patch, sha256)
  {
    hide ApplyPatch, ActionId, IsObservation, Payload, Observation, Matches, Judge, IsAction, RevertFrom;
    var log := [a, c, a];
    NoRevertFrom(log, 1);
    assert log[1..] == [c, a];
    assert FirstMatch(log[1..], id, "apply_patch") == Found(observation);
    assert Equal(log[0], log[2]);
    assert IndexOf(log, 2) == 0;
  }

  lemma RunForgets(a: Json, c: Json, hash: Hash)
    requires IsApply(a)
    ensures Report(Run(Idle, [a, c, a], hash)) == NoPatch
  {
    hide IsApply, Run;
    assert [a, c] + [a] == [a, c, a];
    RunApply([a, c], a, hash);
  }

  /**
   * When the very same apply action is logged twice the scans look after its first occurrence: they report a patch
   * although the last apply was never confirmed. The state machine does not.
   */
  lemma RepeatedActionMatters(patch: string, hash: Hash)
    requires patch != [] && hash(patch) != []
    ensures var a, c := ApplyEvent(patch), ConfirmEvent(hash(patch));
            && !FreshActions([a, c, a])
            && Replay([a, c, a], hash) == Applied(patch, hash(patch))
            && Report(Run(Idle, [a, c, a], hash)) == NoPatch
  {
    var a, c := ApplyEvent(patch), ConfirmEvent(hash(patch));
    ApplyEventMeaning(patch);
    ConfirmEventMeaning(patch, hash);
    assert IsApply(a);
    ApplyEventEqual(patch);
    hide *;
    ScansFindFirst(a, c, ConfirmObservation(hash(patch)), "a", patch, hash(patch), hash);
    RunForgets(a, c, hash);
    NotFresh(a, c);
  }

  lemma NotFresh(a: Json, c: Json)
    requires IsApply(a) && Equal(a, a)
    ensures !FreshActions([a, c, a])
  {
    hide IsApply, Equal;
    var log := [a, c, a];
    assert Equal(log[0], log[2]) && IsApply(log[2]);
  }
}
