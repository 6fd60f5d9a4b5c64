/** Why a repeated action misleads the replay: observations behind its first occurrence decide what is reported. */
module RepeatedActions {
  import opened Wrappers
  import opened Json
  import opened EventReplay
  import ActionReplay

  /** The log with one more event behind position `i`. */
  function Behind(events: seq<Json>, i: nat, event: Json): seq<Json>
    requires i < |events|
  {
    events[..i + 1] + [event] + events[i + 1..]
  }

  lemma BehindAt(events: seq<Json>, i: nat, event: Json)
    requires i < |events|
    ensures var grown := Behind(events, i, event);
            && |grown| == |events| + 1
            && (forall j | 0 <= j <= i :: grown[j] == events[j])
            && grown[i + 1] == event
            && (forall j | i + 2 <= j < |grown| :: grown[j] == events[j - 1])
            && grown[i + 1..] == [event] + events[i + 1..]
  {
  }

  lemma BehindFrom(events: seq<Json>, i: nat, event: Json, j: nat)
    requires i < j < |events|
    ensures Behind(events, i, event)[j + 2..] == events[j + 1..]
  {
    var grown := Behind(events, i, event);
    assert grown == (events[..i + 1] + [event]) + events[i + 1..];
    assert grown[i + 2..] == events[i + 1..];
    assert grown[i + 2..][j - i..] == grown[j + 2..];
  }

  /** An observation is no action and equals none. */
  lemma ObservationApart(event: Json, action: Json, name: string)
    requires IsObservation(event)
    ensures !IsAction(event, name) && !IsApply(event)
    ensures IsAction(action, name) ==> !Equal(event, action)
  {
    hide Member, Equal, Action;
    assert "observation" != "action";
    if Equal(event, action) {
      ActionReplay.EqualText(event, action, "event_type", "observation");
    }
  }

  // ----- Two observations ---------------------------------------------------------------------

  /** An observation whose payload is no object: a search that comes to it raises. */
  function Malformed(): Json {
    Obj([Field("event_type", Str("observation")), Field("payload", Null)])
  }

  /** An observation of an apply_patch that does not say that the patch was applied. */
  function Denial(id: string): Json {
    Obj([Field("event_type", Str("observation")), Field("payload", Obj([Field("observation", DenialBlock(id))]))])
  }

  function DenialBlock(id: string): Json {
    Obj([Field("action_id", Str(id)), Field("name", Str("apply_patch"))])
  }

  lemma MalformedMeaning()
    ensures IsObservation(Malformed()) && Payload(Malformed()).None?
  {
    hide Get;
    GetAt(Malformed().fields, 0);
    GetAt(Malformed().fields, 1);
  }

  lemma DenialMeaning(id: string, patch: string, hash: Hash)
    ensures var e := Denial(id);
            IsObservation(e) && Refuted(e, id, patch, hash)
  {
    DenialRefuses(id, patch, hash);
    var e, o := Denial(id), DenialBlock(id);
    hide Get, Judge;
    GetAt(e.fields, 0);
    GetAt(e.fields, 1);
    GetAt(e.fields[1].value.fields, 0);
    GetAt(o.fields, 0);
    GetAt(o.fields, 1);
  }

  lemma DenialRefuses(id: string, patch: string, hash: Hash)
    ensures Judge(DenialBlock(id), patch, hash) == Refuses
  {
    assert Get([], "applied") == None;
    var o := DenialBlock(id);
    assert !HasKey(o.fields, "payload");
  }

  /** The event is the observation of that apply_patch and does not confirm the patch. */
  predicate Refuted(event: Json, id: string, patch: string, hash: Hash) {
    && Payload(event).Some? && Observation(event).Some? && Matches(Observation(event).value, id, "apply_patch")
    && Judge(Observation(event).value, patch, hash) == Refuses
  }

  lemma FoundNext(event: Json, rest: seq<Json>, id: string, patch: string, hash: Hash)
    requires IsObservation(event)
    ensures var search := FirstMatch([event] + rest, id, "apply_patch");
            && (Payload(event).None? ==> search.SearchRaised?)
            && (Refuted(event, id, patch, hash) ==> search.Found? && Judge(search.observation, patch, hash) == Refuses)
  {
    hide IsObservation, Payload, Observation, Matches, Judge;
  }

  // ----- The log with an observation behind the first occurrence ------------------------------

  lemma SameLast(events: seq<Json>, last: nat, i: nat, event: Json)
    requires LastApply(events) == Some(last) && i < last && !IsApply(event)
    ensures LastApply(Behind(events, i, event)) == Some(last + 1)
  {
    hide *;
    var grown := Behind(events, i, event);
    LastApplyIs(events);
    BehindAt(events, i, event);
    assert grown[last + 1] == events[last];
    forall j | last + 1 < j < |grown|
      ensures !IsApply(grown[j])
    {
      assert grown[j] == events[j - 1];
    }
    IsLastApply(grown, last + 1);
  }

  lemma IsLastApply(events: seq<Json>, p: nat)
    requires p < |events| && IsApply(events[p]) && forall j | p < j < |events| :: !IsApply(events[j])
    ensures LastApply(events) == Some(p)
  {
    hide *;
    LastApplyIs(events);
  }

  lemma SameFirst(events: seq<Json>, last: nat, event: Json)
    requires last < |events| && IndexOf(events, last) < last
    ensures IndexOf(Behind(events, IndexOf(events, last), event), last + 1) == IndexOf(events, last)
  {
    hide *;
    var i := IndexOf(events, last);
    var grown := Behind(events, i, event);
    BehindAt(events, i, event);
    assert Equal(grown[i], grown[last + 1]);
    forall j | 0 <= j < i
      ensures !Equal(grown[j], grown[last + 1])
    {
      assert grown[j] == events[j];
    }
  }

  /** The scans come to the inserted observation first. */
  lemma ScansSeeIt(events: seq<Json>, last: nat, id: string, event: Json, hash: Hash)
    requires LastApply(events) == Some(last) && IndexOf(events, last) < last && ActionId(events[last]) == Some(id)
    requires IsObservation(event)
    ensures var grown := Behind(events, IndexOf(events, last), event);
            var patch := ApplyPatchOf(events[last]);
            && (Payload(event).None? ==> Replay(grown, hash) == Raised)
            && (Refuted(event, id, patch, hash) ==> Replay(grown, hash) == NoPatch)
  {
    hide *;
    var i := IndexOf(events, last);
    var grown := Behind(events, i, event);
    ObservationApart(event, event, "apply_patch");
    SameLast(events, last, i, event);
    SameFirst(events, last, event);
    BehindAt(events, i, event);
    assert grown[last + 1] == events[last];
    ReplayTells(grown, last + 1, hash);
    FoundNext(event, events[i + 1..], id, ApplyPatchOf(events[last]), hash);
    ToldBy([event] + events[i + 1..], id, ApplyPatchOf(events[last]), RevertFrom(grown, i + 1), hash);
  }

  lemma ToldBy(rest: seq<Json>, id: string, patch: string, effect: Revert, hash: Hash)
    ensures var search := FirstMatch(rest, id, "apply_patch");
            var told := Tell(StatusOf(rest, Some(id), patch, hash), effect, patch);
            && (search.SearchRaised? ==> told == Raised)
            && (search.Found? && Judge(search.observation, patch, hash) == Refuses ==> told == NoPatch)
  {
    hide FirstMatch, Judge;
  }

  /** The machine that keeps the last apply does not see it. */
  lemma RunDoesNot(events: seq<Json>, last: nat, i: nat, event: Json, hash: Hash)
    requires last < |events| && IsApply(events[last]) && i < last
    ensures Run(Idle, Behind(events, i, event), hash) == Run(Idle, events, hash)
  {
    hide *;
    var grown := Behind(events, i, event);
    BehindAt(events, i, event);
    assert grown[last + 1] == events[last];
    BehindFrom(events, i, event, last);
    RunFrom(events, last, hash);
    RunFrom(grown, last + 1, hash);
  }

  /**
   * Whenever the last apply repeats an earlier event, its plain meaning is lost: behind the first occurrence there is
   * an observation to insert, with which the scans report something else than the machine that keeps the last apply.
   */
  lemma RepetitionMatters(events: seq<Json>, last: nat, hash: Hash)
    requires LastApply(events) == Some(last) && IndexOf(events, last) < last && ActionId(events[last]).Some?
    ensures exists event :: IsObservation(event) && Differ(Behind(events, IndexOf(events, last), event), hash)
  {
    var id, i, patch := ActionId(events[last]).value, IndexOf(events, last), ApplyPatchOf(events[last]);
    hide *;
    var raises, denies := Malformed(), Denial(id);
    MalformedMeaning();
    DenialMeaning(id, patch, hash);
    ScansSeeIt(events, last, id, raises, hash);
    ScansSeeIt(events, last, id, denies, hash);
    RunDoesNot(events, last, i, raises, hash);
    RunDoesNot(events, last, i, denies, hash);
    DifferIs(Behind(events, i, raises), hash);
    DifferIs(Behind(events, i, denies), hash);
    var reported := Report(Run(Idle, events, hash));
    if reported == Raised {
      assert Differ(Behind(events, i, denies), hash);
    } else {
      assert Differ(Behind(events, i, raises), hash);
    }
  }

  /** The scans and the machine that keeps the last apply report different things. */
  predicate Differ(events: seq<Json>, hash: Hash) {
    Replay(events, hash) != Report(Run(Idle, events, hash))
  }

  lemma DifferIs(events: seq<Json>, hash: Hash)
    ensures Differ(events, hash) <==> Replay(events, hash) != Report(Run(Idle, events, hash))
  {
    hide Replay, Report, Run;
  }

  // ----- A fresh apply ------------------------------------------------------------------------

  lemma StillFresh(events: seq<Json>, i: nat, event: Json, p: nat, name: string)
    requires i < p < |events| && FreshAt(events, p) && IsObservation(event) && IsAction(events[p], name)
    ensures FreshAt(Behind(events, i, event), p + 1)
  {
    hide Equal, IsObservation, IsAction;
    var grown := Behind(events, i, event);
    BehindAt(events, i, event);
    ObservationApart(event, events[p], name);
    forall j | 0 <= j < p + 1
      ensures !Equal(grown[j], grown[p + 1])
    {
      if j <= i {
        assert grown[j] == events[j];
      } else if j > i + 1 {
        assert grown[j] == events[j - 1];
      }
    }
  }

  /** Observations before the last apply make no difference to it when it and the reverts behind it are fresh. */
  lemma FreshSafe(events: seq<Json>, last: nat, i: nat, event: Json, hash: Hash)
    requires LastApply(events) == Some(last) && FreshAt(events, last) && FreshReverts(events, last + 1)
    requires i < last && IsObservation(event)
    ensures !Differ(Behind(events, i, event), hash)
  {
    hide *;
    ApplyIsAction(events[last]);
    var grown := Behind(events, i, event);
    BehindAt(events, i, event);
    ObservationApart(event, event, "apply_patch");
    SameLast(events, last, i, event);
    StillFresh(events, i, event, last, "apply_patch");
    RevertsStillFresh(events, i, event, last);
    FreshIs(grown, last + 1);
    ReplayIsRun(grown, hash);
    DifferIs(grown, hash);
  }

  lemma RevertsStillFresh(events: seq<Json>, i: nat, event: Json, last: nat)
    requires i < last < |events| && FreshReverts(events, last + 1) && IsObservation(event)
    ensures FreshReverts(Behind(events, i, event), last + 2)
  {
    hide IsObservation, IsAction, FreshAt, Behind;
    var grown := Behind(events, i, event);
    BehindAt(events, i, event);
    forall j | last + 2 <= j < |grown| && IsAction(grown[j], "revert_patch")
      ensures FreshAt(grown, j)
    {
      assert grown[j] == events[j - 1];
      StillFresh(events, i, event, j - 1, "revert_patch");
    }
  }

  lemma FreshIs(events: seq<Json>, last: nat)
    requires LastApply(events) == Some(last) && FreshAt(events, last) && FreshReverts(events, last + 1)
    ensures FreshActions(events)
  {
    hide Equal, LastApply, FreshAt, FreshReverts;
  }

  lemma ApplyIsAction(event: Json)
    requires IsApply(event)
    ensures IsAction(event, "apply_patch")
  {
  }

  /**
   * Both directions: when the last apply carries an action id and the reverts behind it repeat nothing, observations
   * logged before it never make a difference exactly when it repeats no earlier event.
   */
  lemma FreshIff(events: seq<Json>, last: nat, hash: Hash)
    requires LastApply(events) == Some(last) && ActionId(events[last]).Some? && FreshReverts(events, last + 1)
    ensures FreshAt(events, last)
       <==> forall i, event | 0 <= i < last && IsObservation(event) :: !Differ(Behind(events, i, event), hash)
  {
    hide Equal, Differ, IsObservation, LastApply, ActionId, FreshReverts, Behind;
    if FreshAt(events, last) {
      forall i, event | 0 <= i < last && IsObservation(event)
        ensures !Differ(Behind(events, i, event), hash)
      {
        FreshSafe(events, last, i, event, hash);
      }
    } else {
      RepetitionMatters(events, last, hash);
    }
  }
}
