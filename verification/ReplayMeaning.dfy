/** What the replay of an event log reports, told by the members of the logged events alone. */
module ReplayMeaning {
  import opened Wrappers
  import opened Json
  import opened EventReplay

  // ----- Events by their members --------------------------------------------------------------

  predicate HasText(event: Json, path: seq<string>, text: string) {
    At(event, path) == Some(Str(text))
  }

  /** Python code goes on with `.get`: the member is absent or a dictionary. */
  predicate Gettable(event: Json, path: seq<string>) {
    At(event, path).Some? ==> At(event, path).value.Obj?
  }

  /** An action event of that name. */
  predicate Acts(event: Json, name: string) {
    HasText(event, ["event_type"], "action") && HasText(event, ["name"], name)
  }

  /** An apply_patch action that carries the non-empty patch text. */
  predicate Applies(event: Json, patch: string) {
    Acts(event, "apply_patch") && HasText(event, ["payload", "action", "arguments", "patch"], patch) && patch != []
  }

  predicate Identifies(event: Json, id: string) {
    HasText(event, ["payload", "action", "action_id"], id) && id != []
  }

  predicate Observes(event: Json) {
    HasText(event, ["event_type"], "observation")
  }

  /** The observation of action `id` under `name`. */
  predicate Replies(event: Json, id: string, name: string) {
    && Observes(event)
    && HasText(event, ["payload", "observation", "action_id"], id)
    && HasText(event, ["payload", "observation", "name"], name)
  }

  /** A search that comes to the event raises. */
  predicate Unreadable(event: Json) {
    Observes(event) && !Gettable(event, ["payload"])
  }

  /** Nothing from position `from` to before `to` replies or raises. */
  predicate Silent(events: seq<Json>, from: nat, to: nat, id: string, name: string)
    requires to <= |events|
  {
    forall k | from <= k < to :: !Replies(events[k], id, name) && !Unreadable(events[k])
  }

  /** The first reply from position `from` on stands at `i`. */
  predicate FirstReply(events: seq<Json>, from: nat, id: string, name: string, i: nat) {
    from <= i < |events| && Replies(events[i], id, name) && Silent(events, from, i, id, name)
  }

  /** The observation says so in its own payload. */
  predicate Says(event: Json, key: string, value: Json) {
    At(event, ["payload", "observation", "payload", key]) == Some(value)
  }

  /** The observation's payload can be asked at all. */
  predicate Answers(event: Json) {
    Gettable(event, ["payload", "observation", "payload"])
  }

  // ----- The model's tests are about these members --------------------------------------------

  lemma ObservationPaths(event: Json, key: string)
    ensures At(event, ["payload", "observation", key]) ==
            match At(event, ["payload", "observation"]) case Some(o) => Member(o, key) case None => None
    ensures At(event, ["payload", "observation", "payload", key]) ==
            match At(event, ["payload", "observation"])
            case Some(o) => (match Member(o, "payload") case Some(p) => Member(p, key) case None => None)
            case None => None
  {
    hide *;
    assert ["payload", "observation"] + [key] == ["payload", "observation", key];
    assert ["payload", "observation"] + ["payload", key] == ["payload", "observation", "payload", key];
    AtMore(event, "payload", "observation", [key]);
    AtMore(event, "payload", "observation", ["payload", key]);
    match At(event, ["payload", "observation"]) {
      case Some(o) =>
        AtOne(o, key);
        AtTwo(o, "payload", key);
      case None =>
    }
  }

  lemma ActionPaths(event: Json)
    ensures At(event, ["payload", "action", "action_id"]) ==
            match At(event, ["payload", "action"]) case Some(a) => Member(a, "action_id") case None => None
    ensures At(event, ["payload", "action", "arguments", "patch"]) ==
            match At(event, ["payload", "action"])
            case Some(a) => (match Member(a, "arguments") case Some(g) => Member(g, "patch") case None => None)
            case None => None
  {
    hide *;
    assert ["payload", "action"] + ["action_id"] == ["payload", "action", "action_id"];
    assert ["payload", "action"] + ["arguments", "patch"] == ["payload", "action", "arguments", "patch"];
    AtMore(event, "payload", "action", ["action_id"]);
    AtMore(event, "payload", "action", ["arguments", "patch"]);
    match At(event, ["payload", "action"]) {
      case Some(a) =>
        AtOne(a, "action_id");
        AtTwo(a, "arguments", "patch");
      case None =>
    }
  }

  lemma IsActionMeans(event: Json, name: string)
    ensures IsAction(event, name) <==> Acts(event, name)
  {
    AtOne(event, "event_type");
    AtOne(event, "name");
    hide Member, At;
  }

  lemma PayloadMeans(event: Json)
    ensures Payload(event).Some? <==> Gettable(event, ["payload"])
  {
    AtOne(event, "payload");
    hide Member, At;
  }

  lemma ActionMeans(event: Json)
    ensures Action(event) == match At(event, ["payload", "action"])
                             case Some(Obj(fields)) => Some(Obj(fields))
                             case _ => None
  {
    AtTwo(event, "payload", "action");
    hide Member, At;
  }

  lemma ApplyMeans(event: Json, patch: string)
    ensures ApplyPatch(event) == Some(patch) <==> Applies(event, patch)
  {
    IsActionMeans(event, "apply_patch");
    ActionMeans(event);
    ActionPaths(event);
    NoMember();
    hide Get, At, IsAction, Acts, Action;
  }

  lemma NoMember()
    ensures forall v: Json, key :: !v.Obj? ==> Member(v, key) == None
  {
  }

  lemma IdMeans(event: Json, id: string)
    ensures ActionId(event) == Some(id) <==> Identifies(event, id)
  {
    ActionMeans(event);
    ActionPaths(event);
    NoMember();
    hide Get, At, Action;
  }

  lemma ObservationMeans(event: Json)
    ensures Payload(event).Some? ==>
              Observation(event) == match At(event, ["payload", "observation"])
                                    case Some(Obj(fields)) => Some(Obj(fields))
                                    case _ => None
    ensures At(event, ["payload", "observation"]).Some? ==> Payload(event).Some?
  {
    AtTwo(event, "payload", "observation");
    NoMember();
    assert Member(Obj([]), "observation") == None;
    hide Get, At;
  }

  lemma RepliesMeans(event: Json, id: string, name: string)
    ensures Replies(event, id, name)
       <==> && IsObservation(event) && Payload(event).Some? && Observation(event).Some?
            && Matches(Observation(event).value, id, name)
    ensures Replies(event, id, name) ==> At(event, ["payload", "observation"]) == Observation(event)
  {
    AtOne(event, "event_type");
    ObservationMeans(event);
    ObservationPaths(event, "action_id");
    ObservationPaths(event, "name");
    NoMember();
    hide Get, At, Payload, Observation;
  }

  lemma UnreadableMeans(event: Json)
    ensures Unreadable(event) <==> IsObservation(event) && Payload(event).None?
  {
    AtOne(event, "event_type");
    PayloadMeans(event);
    hide Member, At, Payload, Gettable;
  }

  /** What the search finds from position `from` on. */
  lemma {:induction false} FirstMatchMeans(events: seq<Json>, from: nat, id: string, name: string)
    requires from <= |events|
    ensures match FirstMatch(events[from..], id, name)
            case Found(o) => exists i: nat | i < |events| ::
              FirstReply(events, from, id, name, i) && At(events[i], ["payload", "observation"]) == Some(o)
            case NotFound => Silent(events, from, |events|, id, name)
            case SearchRaised => forall i: nat :: !FirstReply(events, from, id, name, i)
    ensures FirstMatch(events[from..], id, name).SearchRaised? ==> !Silent(events, from, |events|, id, name)
    decreases |events| - from
  {
    if from < |events| {
      var e := events[from];
      RepliesMeans(e, id, name);
      UnreadableMeans(e);
      FirstMatchNext(events, from, id, name);
      FirstMatchMeans(events, from + 1, id, name);
      hide FirstMatch, Replies, Unreadable, At, IsObservation, Payload, Observation, Matches;
      if Unreadable(e) {
      } else if Replies(e, id, name) {
        assert FirstReply(events, from, id, name, from);
      } else {
        forall i: nat
          ensures FirstReply(events, from, id, name, i) <==> FirstReply(events, from + 1, id, name, i)
        {
        }
      }
    }
  }

  lemma FirstMatchNext(events: seq<Json>, from: nat, id: string, name: string)
    requires from < |events|
    ensures var e := events[from];
            FirstMatch(events[from..], id, name) ==
            if IsObservation(e) && Payload(e).None? then SearchRaised
            else if IsObservation(e) && Observation(e).Some? && Matches(Observation(e).value, id, name) then
              Found(Observation(e).value)
            else FirstMatch(events[from + 1..], id, name)
  {
    hide IsObservation, Payload, Observation, Matches;
    assert events[from..][1..] == events[from + 1..];
  }

  /** There is only one first reply. */
  lemma OneFirst(events: seq<Json>, from: nat, id: string, name: string, i: nat, j: nat)
    requires FirstReply(events, from, id, name, i) && FirstReply(events, from, id, name, j)
    ensures i == j
  {
    hide Replies, Unreadable;
  }

  // ----- What an observation says -------------------------------------------------------------

  lemma JudgeRevertMeans(event: Json, o: Json)
    requires At(event, ["payload", "observation"]) == Some(o) && o.Obj?
    ensures match JudgeRevert(o)
            case Reverts => Answers(event) && Says(event, "reverted", Bool(true))
            case Keeps => Answers(event) && !Says(event, "reverted", Bool(true))
            case RevertRaised => !Answers(event) && !Says(event, "reverted", Bool(true))
  {
    ObservationPaths(event, "reverted");
    ObservationPaths(event, "payload");
    NoMember();
    assert Member(Obj([]), "reverted") == None;
    hide Get, At;
  }

  /** The observation confirms the patch with that hash of it. */
  predicate ConfirmsWith(event: Json, sha256: string) {
    && Says(event, "applied", Bool(true)) && Says(event, "patch_sha256", Str(sha256)) && sha256 != []
  }

  lemma JudgeMeans(event: Json, o: Json, patch: string, sha256: string, hash: Hash)
    requires At(event, ["payload", "observation"]) == Some(o) && o.Obj?
    ensures Judge(o, patch, hash) == Confirms(sha256) <==> ConfirmsWith(event, sha256) && sha256 == hash(patch)
    ensures Judge(o, patch, hash).ConfirmationRaised? <==> !Answers(event)
  {
    hide *;
    SaysMeans(event, o, "applied");
    SaysMeans(event, o, "patch_sha256");
    JudgeBy(o, patch, sha256, hash);
    ConfirmsIs(event, sha256);
  }

  /** What the observation says is what the payload of its block holds. */
  lemma SaysMeans(event: Json, o: Json, key: string)
    requires At(event, ["payload", "observation"]) == Some(o) && o.Obj?
    ensures Answers(event) <==> Payload(o).Some?
    ensures Payload(o).Some? ==>
              forall value :: Says(event, key, value) <==> Member(Payload(o).value, key) == Some(value)
  {
    ObservationPaths(event, key);
    ObservationPaths(event, "payload");
    assert Member(Obj([]), key) == None;
    hide Get, At;
  }

  lemma JudgeBy(o: Json, patch: string, sha256: string, hash: Hash)
    ensures Judge(o, patch, hash).ConfirmationRaised? <==> Payload(o).None?
    ensures Judge(o, patch, hash) == Confirms(sha256)
       <==> && Payload(o).Some? && Member(Payload(o).value, "applied") == Some(Bool(true))
            && Member(Payload(o).value, "patch_sha256") == Some(Str(sha256)) && sha256 != [] && sha256 == hash(patch)
  {
    hide Member, Payload;
  }

  lemma ConfirmsIs(event: Json, sha256: string)
    ensures ConfirmsWith(event, sha256)
       <==> Says(event, "applied", Bool(true)) && Says(event, "patch_sha256", Str(sha256)) && sha256 != []
    ensures forall key, value :: Says(event, key, value) ==> Answers(event)
  {
    forall key
      ensures At(event, ["payload", "observation", "payload", key]).Some? ==> Answers(event)
    {
      SaidIsRead(event, key);
    }
    hide At, Answers;
  }

  lemma SaidIsRead(event: Json, key: string)
    ensures At(event, ["payload", "observation", "payload", key]).Some? ==> Answers(event)
  {
    ObservationPaths(event, key);
    ObservationPaths(event, "payload");
    NoMember();
    hide Get, At;
  }

  // ----- Reverts ------------------------------------------------------------------------------

  /** No answer to the revert `id` from position `from` on, or a first one that does not say reverted. */
  ghost predicate Unconfirmed(events: seq<Json>, from: nat, id: string) {
    || Silent(events, from, |events|, id, "revert_patch")
    || exists i: nat | i < |events| ::
         && FirstReply(events, from, id, "revert_patch", i)
         && Answers(events[i]) && !Says(events[i], "reverted", Bool(true))
  }

  /** The event at `j` is no revert, or one without a readable confirmation behind its first occurrence. */
  ghost predicate Harmless(events: seq<Json>, j: nat)
    requires j < |events|
  {
    Acts(events[j], "revert_patch") ==>
      && Gettable(events[j], ["payload"])
      && forall id | Identifies(events[j], id) :: Unconfirmed(events, IndexOf(events, j) + 1, id)
  }

  lemma SearchMeans(events: seq<Json>, from: nat, id: string)
    requires from <= |events|
    ensures match FirstMatch(events[from..], id, "revert_patch")
            case Found(o) => JudgeRevert(o) == Keeps <==> Unconfirmed(events, from, id)
            case NotFound => Unconfirmed(events, from, id)
            case SearchRaised => !Unconfirmed(events, from, id)
  {
    FirstMatchMeans(events, from, id, "revert_patch");
    match FirstMatch(events[from..], id, "revert_patch")
    case Found(o) =>
      var i: nat :| i < |events| && FirstReply(events, from, id, "revert_patch", i)
                    && At(events[i], ["payload", "observation"]) == Some(o);
      FoundIsObject(events[i], o, id, "revert_patch");
      JudgeRevertMeans(events[i], o);
      hide Replies, Unreadable, Says, Answers, JudgeRevert, At;
      assert !Silent(events, from, |events|, id, "revert_patch") by {
        assert Replies(events[i], id, "revert_patch");
      }
      forall k: nat | k < |events| && FirstReply(events, from, id, "revert_patch", k)
        ensures k == i
      {
        OneFirst(events, from, id, "revert_patch", i, k);
      }
    case _ =>
  }

  lemma FoundIsObject(event: Json, o: Json, id: string, name: string)
    requires Replies(event, id, name) && At(event, ["payload", "observation"]) == Some(o)
    ensures o.Obj?
  {
    ObservationPaths(event, "name");
    hide At, Get;
  }

  lemma RevertAtMeans(events: seq<Json>, j: nat)
    requires j < |events|
    ensures RevertAt(events, j) == Keeps <==> Harmless(events, j)
  {
    IsActionMeans(events[j], "revert_patch");
    PayloadMeans(events[j]);
    hide Acts, IsAction, Gettable, Payload, Identifies, ActionId, FirstMatch, JudgeRevert, Unconfirmed, IndexOf;
    forall id
      ensures ActionId(events[j]) == Some(id) <==> Identifies(events[j], id)
    {
      IdMeans(events[j], id);
    }
    match ActionId(events[j])
    case Some(id) => SearchMeans(events, IndexOf(events, j) + 1, id);
    case None =>
  }

  // ----- The report ---------------------------------------------------------------------------

  /** An apply_patch action with a patch. */
  ghost predicate CarriesPatch(event: Json) {
    exists patch :: Applies(event, patch)
  }

  /** The event at `last` is the last apply_patch with a patch; it carries `patch` and the action id `id`. */
  ghost predicate LastPatch(events: seq<Json>, last: nat, patch: string, id: string)
    requires last < |events|
  {
    && Applies(events[last], patch) && Identifies(events[last], id)
    && forall j | last < j < |events| :: !CarriesPatch(events[j])
  }

  /**
   * Behind the first event equal to that apply, the first observation of its action confirms exactly this patch, and
   * no revert is confirmed or makes the replay raise.
   */
  ghost predicate Stands(events: seq<Json>, last: nat, sha256: string, id: string)
    requires last < |events|
  {
    && Confirmed(events, IndexOf(events, last) + 1, id, sha256)
    && forall j | IndexOf(events, last) < j < |events| :: Harmless(events, j)
  }

  ghost predicate Confirmed(events: seq<Json>, from: nat, id: string, sha256: string) {
    exists i: nat | i < |events| :: FirstReply(events, from, id, "apply_patch", i) && ConfirmsWith(events[i], sha256)
  }

  lemma ConfirmationMeans(events: seq<Json>, from: nat, id: string, patch: string, sha256: string, hash: Hash)
    requires from <= |events|
    ensures (match FirstMatch(events[from..], id, "apply_patch")
             case Found(o) => Judge(o, patch, hash) == Confirms(sha256) && sha256 == hash(patch)
             case _ => false)
       <==> sha256 == hash(patch)
            && Confirmed(events, from, id, sha256)
  {
    FirstMatchMeans(events, from, id, "apply_patch");
    match FirstMatch(events[from..], id, "apply_patch")
    case Found(o) =>
      var i: nat :| i < |events| && FirstReply(events, from, id, "apply_patch", i)
                    && At(events[i], ["payload", "observation"]) == Some(o);
      FoundIsObject(events[i], o, id, "apply_patch");
      JudgeMeans(events[i], o, patch, sha256, hash);
      hide Replies, Unreadable, ConfirmsWith, Judge, At;
      forall k: nat | k < |events| && FirstReply(events, from, id, "apply_patch", k)
        ensures k == i
      {
        OneFirst(events, from, id, "apply_patch", i, k);
      }
    case _ =>
  }

  lemma IsApplyMeans(event: Json)
    ensures IsApply(event) <==> CarriesPatch(event)
  {
    hide ApplyPatch, Applies;
    forall patch
      ensures ApplyPatch(event) == Some(patch) <==> Applies(event, patch)
    {
      ApplyMeans(event, patch);
    }
    if IsApply(event) {
      assert Applies(event, ApplyPatch(event).value);
    }
  }

  lemma LastPatchMeans(events: seq<Json>, last: nat, patch: string, id: string)
    requires last < |events|
    ensures LastPatch(events, last, patch, id)
       <==> && ApplyPatch(events[last]) == Some(patch) && ActionId(events[last]) == Some(id)
            && forall j | last < j < |events| :: !IsApply(events[j])
  {
    hide ApplyPatch, Applies, CarriesPatch, IsApply, ActionId, Identifies;
    ApplyMeans(events[last], patch);
    IdMeans(events[last], id);
    forall j | last < j < |events|
      ensures IsApply(events[j]) <==> CarriesPatch(events[j])
    {
      IsApplyMeans(events[j]);
    }
  }

  lemma StandsMeans(events: seq<Json>, last: nat, patch: string, sha256: string, id: string, hash: Hash)
    requires last < |events| && sha256 == hash(patch)
    ensures Stands(events, last, sha256, id)
       <==> && (match FirstMatch(events[IndexOf(events, last) + 1..], id, "apply_patch")
                case Found(o) => Judge(o, patch, hash) == Confirms(sha256)
                case _ => false)
            && forall j | IndexOf(events, last) < j < |events| :: RevertAt(events, j) == Keeps
  {
    hide FirstMatch, Judge, RevertAt, Harmless, IndexOf, Confirmed, Equal;
    ConfirmationMeans(events, IndexOf(events, last) + 1, id, patch, sha256, hash);
    forall j | IndexOf(events, last) < j < |events|
      ensures RevertAt(events, j) == Keeps <==> Harmless(events, j)
    {
      RevertAtMeans(events, j);
    }
  }

  ghost predicate Reported(events: seq<Json>, last: nat, patch: string, sha256: string)
    requires last < |events|
  {
    exists id :: LastPatch(events, last, patch, id) && Stands(events, last, sha256, id)
  }

  lemma ConfirmedMeans(events: seq<Json>, last: nat, hash: Hash, patch: string, sha256: string)
    requires last < |events|
    ensures ConfirmedSinceFirst(events, last, hash, patch, sha256)
       <==> sha256 == hash(patch) && Reported(events, last, patch, sha256)
  {
    hide ApplyPatch, IsApply, ActionId, FirstMatch, Judge, RevertAt, IndexOf, LastPatch, Stands, Equal;
    if sha256 == hash(patch) {
      forall id
        ensures LastPatch(events, last, patch, id)
           <==> && ApplyPatch(events[last]) == Some(patch) && ActionId(events[last]) == Some(id)
                && forall j | last < j < |events| :: !IsApply(events[j])
      {
        LastPatchMeans(events, last, patch, id);
      }
      if ActionId(events[last]).Some? {
        StandsMeans(events, last, patch, sha256, ActionId(events[last]).value, hash);
      }
    }
  }

  /**
   * On every log: a patch is reported exactly when it is the patch of the last apply and stands, told by the members
   * of the events.
   */
  lemma ReplayByMembers(events: seq<Json>, hash: Hash, patch: string, sha256: string)
    ensures Replay(events, hash) == Applied(patch, sha256)
       <==> sha256 == hash(patch) && exists last: nat | last < |events| :: Reported(events, last, patch, sha256)
  {
    hide *;
    ReportedMeaning(events, hash, patch, sha256);
    forall last: nat | last < |events|
      ensures ConfirmedSinceFirst(events, last, hash, patch, sha256)
         <==> sha256 == hash(patch) && Reported(events, last, patch, sha256)
    {
      ConfirmedMeans(events, last, hash, patch, sha256);
    }
  }

  // ----- A confirmed revert -------------------------------------------------------------------

  /** The revert at `j` is confirmed behind its first occurrence. */
  ghost predicate RevertConfirmed(events: seq<Json>, j: nat)
    requires j < |events|
  {
    && Acts(events[j], "revert_patch")
    && exists id, i: nat | i < |events| ::
         && Identifies(events[j], id) && FirstReply(events, IndexOf(events, j) + 1, id, "revert_patch", i)
         && Says(events[i], "reverted", Bool(true))
  }

  /** Nothing that an event holds makes the replay raise. */
  predicate AllReadable(events: seq<Json>) {
    forall event | event in events :: Gettable(event, ["payload"]) && Answers(event)
  }

  lemma RevertConfirmedHarms(events: seq<Json>, j: nat)
    requires j < |events| && RevertConfirmed(events, j)
    ensures !Harmless(events, j)
  {
    hide Acts, Identifies, Replies, Unreadable, Says, Answers, Gettable, IndexOf, Equal;
    var id, i: nat :| i < |events| && Identifies(events[j], id)
                      && FirstReply(events, IndexOf(events, j) + 1, id, "revert_patch", i)
                      && Says(events[i], "reverted", Bool(true));
    if Unconfirmed(events, IndexOf(events, j) + 1, id) {
      assert Replies(events[i], id, "revert_patch");
      var k: nat :| k < |events| && FirstReply(events, IndexOf(events, j) + 1, id, "revert_patch", k)
                    && !Says(events[k], "reverted", Bool(true));
      OneFirst(events, IndexOf(events, j) + 1, id, "revert_patch", i, k);
    }
  }

  lemma ReadableSearch(events: seq<Json>, from: nat, id: string, name: string)
    requires AllReadable(events) && from <= |events|
    ensures match FirstMatch(events[from..], id, name)
            case Found(o) => o.Obj? && exists i: nat | i < |events| ::
              At(events[i], ["payload", "observation"]) == Some(o) && Answers(events[i])
            case NotFound => true
            case SearchRaised => false
  {
    FirstMatchMeans(events, from, id, name);
    hide FirstMatch, Replies, Gettable, Answers, At, Observes;
    match FirstMatch(events[from..], id, name)
    case Found(o) =>
      var i: nat :| i < |events| && FirstReply(events, from, id, name, i)
                    && At(events[i], ["payload", "observation"]) == Some(o);
      assert events[i] in events;
      FoundIsObject(events[i], o, id, name);
    case NotFound =>
    case SearchRaised => NothingUnreadable(events, from, id, name);
  }

  lemma NothingUnreadable(events: seq<Json>, from: nat, id: string, name: string)
    requires AllReadable(events) && from <= |events|
    ensures !FirstMatch(events[from..], id, name).SearchRaised?
    decreases |events| - from
  {
    hide FirstMatch, Gettable, Answers, Payload, IsObservation, Observation, Matches;
    if from < |events| {
      assert events[from] in events;
      PayloadMeans(events[from]);
      FirstMatchNext(events, from, id, name);
      NothingUnreadable(events, from + 1, id, name);
    } else {
      NoMatch(id, name);
      assert events[from..] == [];
    }
  }

  lemma NoMatch(id: string, name: string)
    ensures FirstMatch([], id, name) == NotFound
  {
  }

  lemma ReadableRevert(events: seq<Json>, j: nat)
    requires AllReadable(events) && j < |events|
    ensures RevertAt(events, j) != RevertRaised
  {
    hide FirstMatch, Gettable, Answers, Payload, IsAction, ActionId, JudgeRevert, IndexOf, Equal;
    assert events[j] in events;
    PayloadMeans(events[j]);
    match ActionId(events[j])
    case Some(id) =>
      ReadableSearch(events, IndexOf(events, j) + 1, id, "revert_patch");
      match FirstMatch(events[IndexOf(events, j) + 1..], id, "revert_patch") {
        case Found(o) =>
          var i: nat :| i < |events| && At(events[i], ["payload", "observation"]) == Some(o) && Answers(events[i]);
          JudgeRevertMeans(events[i], o);
        case _ =>
      }
    case None =>
  }

  lemma {:induction false} ReadableReverts(events: seq<Json>, from: nat)
    requires AllReadable(events) && from <= |events|
    ensures RevertFrom(events, from) != RevertRaised
    decreases |events| - from
  {
    hide RevertAt, AllReadable;
    if from < |events| {
      ReadableRevert(events, from);
      ReadableReverts(events, from + 1);
    }
  }

  /** Where every payload can be asked, the replay does not raise. */
  lemma ReadableNeverRaises(events: seq<Json>, hash: Hash)
    requires AllReadable(events)
    ensures Replay(events, hash) != Raised
  {
    hide FirstMatch, AllReadable, ApplyPatch, ActionId, Judge, RevertFrom, IndexOf, LastApply, Equal;
    match LastApply(events)
    case None =>
    case Some(last) =>
      var from := IndexOf(events, last) + 1;
      ReadableReverts(events, from);
      if ActionId(events[last]).Some? {
        var id := ActionId(events[last]).value;
        ReadableSearch(events, from, id, "apply_patch");
        match FirstMatch(events[from..], id, "apply_patch") {
          case Found(o) =>
            var i: nat :| i < |events| && At(events[i], ["payload", "observation"]) == Some(o) && Answers(events[i]);
            JudgeMeans(events[i], o, ApplyPatch(events[last]).value, [], hash);
          case _ =>
        }
      }
  }

  /**
   * A confirmed revert behind the apply ends in no patch; only an unreadable event can make the replay raise
   * instead.
   */
  lemma ConfirmedRevertEnds(events: seq<Json>, last: nat, j: nat, hash: Hash)
    requires last < |events| && CarriesPatch(events[last])
    requires forall k | last < k < |events| :: !CarriesPatch(events[k])
    requires IndexOf(events, last) < j < |events| && RevertConfirmed(events, j)
    ensures !Replay(events, hash).Applied?
    ensures AllReadable(events) ==> Replay(events, hash) == NoPatch
  {
    hide *;
    RevertConfirmedHarms(events, j);
    if AllReadable(events) {
      ReadableNeverRaises(events, hash);
    }
    match Replay(events, hash)
    case Applied(patch, sha256) =>
      ReplayByMembers(events, hash, patch, sha256);
      var other: nat :| other < |events| && Reported(events, other, patch, sha256);
      ReportedIs(events, other, patch, sha256, last);
    case _ =>
  }

  lemma ReportedIs(events: seq<Json>, other: nat, patch: string, sha256: string, last: nat)
    requires other < |events| && Reported(events, other, patch, sha256)
    requires last < |events| && CarriesPatch(events[last]) && forall k | last < k < |events| :: !CarriesPatch(events[k])
    ensures other == last && forall j | IndexOf(events, last) < j < |events| :: Harmless(events, j)
  {
    hide Applies, Identifies, Confirmed, Harmless, IndexOf, Equal;
    assert CarriesPatch(events[other]);
  }
}
