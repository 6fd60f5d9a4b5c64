/**
 * The event log on every input: a one-pass machine that keeps, for each action logged, the search for its observation,
 * and reports on the one that list.index would have started from.
 */
module ActionReplay {
  import opened Wrappers
  import opened Json
  import opened EventReplay

  /** An apply_patch or revert_patch action, and how far its search has come. */
  datatype Entry =
    | ApplyEntry(event: Json, status: Status)
    | RevertEntry(event: Json, state: RevertState)

  function PatchText(event: Json): string {
    match ApplyPatch(event)
    case Some(patch) => patch
    case None => ""
  }

  predicate Tracked(event: Json) {
    IsApply(event) || IsAction(event, "revert_patch")
  }

  // ----- The machine --------------------------------------------------------------------------

  function Opened(event: Json): seq<Entry> {
    if IsApply(event) then [ApplyEntry(event, Awaiting)]
    else if Begun(event) != [] then [RevertEntry(event, Begun(event)[0])]
    else []
  }

  function Advance(entry: Entry, event: Json, hash: Hash): Entry {
    match entry
    case ApplyEntry(action, status) =>
      ApplyEntry(action, Await(status, ActionId(action), PatchText(action), event, hash))
    case RevertEntry(action, state) => RevertEntry(action, Settle(state, event))
  }

  function AdvanceAll(entries: seq<Entry>, event: Json, hash: Hash): seq<Entry> {
    if entries == [] then [] else [Advance(entries[0], event, hash)] + AdvanceAll(entries[1..], event, hash)
  }

  function Step(entries: seq<Entry>, event: Json, hash: Hash): seq<Entry> {
    AdvanceAll(entries, event, hash) + Opened(event)
  }

  /** The entries after more events. */
  function RunOn(entries: seq<Entry>, events: seq<Json>, hash: Hash): seq<Entry> {
    if events == [] then entries
    else
      var n := |events| - 1;
      Step(RunOn(entries, events[..n], hash), events[n], hash)
  }

  function Run(events: seq<Json>, hash: Hash): seq<Entry> {
    RunOn([], events, hash)
  }

  /** A log can be fed in parts. */
  lemma {:induction false} RunOnConcat(entries: seq<Entry>, a: seq<Json>, b: seq<Json>, hash: Hash)
    ensures RunOn(entries, a + b, hash) == RunOn(RunOn(entries, a, hash), b, hash)
  {
    hide Step;
    if b == [] {
      assert a + b == a;
    } else {
      var n := |b| - 1;
      assert (a + b)[..|a| + n] == a + b[..n];
      RunOnConcat(entries, a, b[..n], hash);
    }
  }

  // ----- The report ---------------------------------------------------------------------------

  predicate SameAction(a: Json, b: Json) {
    a == b || Equal(a, b)
  }

  /** The first entry whose action equals that of entry `k`. */
  function Origin(entries: seq<Entry>, k: nat): (i: nat)
    requires k < |entries|
    ensures i <= k && (i == k || Equal(entries[i].event, entries[k].event))
    ensures forall j | 0 <= j < i :: !Equal(entries[j].event, entries[k].event)
  {
    OriginFrom(entries, k, 0)
  }

  function OriginFrom(entries: seq<Entry>, k: nat, from: nat): (i: nat)
    requires from <= k < |entries|
    ensures from <= i <= k && (i == k || Equal(entries[i].event, entries[k].event))
    ensures forall j | from <= j < i :: !Equal(entries[j].event, entries[k].event)
    decreases k - from
  {
    if from == k || Equal(entries[from].event, entries[k].event) then from else OriginFrom(entries, k, from + 1)
  }

  function Effect(entry: Entry): Revert {
    match entry
    case RevertEntry(_, Settled(effect)) => effect
    case _ => Keeps
  }

  function EffectAt(entries: seq<Entry>, k: nat): Revert
    requires k < |entries|
  {
    if entries[k].ApplyEntry? then Keeps else Effect(entries[Origin(entries, k)])
  }

  /** The first revert from entry `k` on that came to something. */
  function EffectFrom(entries: seq<Entry>, k: nat): Revert
    requires k <= |entries|
    decreases |entries| - k
  {
    if k == |entries| then Keeps
    else if EffectAt(entries, k) != Keeps then EffectAt(entries, k)
    else EffectFrom(entries, k + 1)
  }

  function LastEntry(entries: seq<Entry>): (r: Option<nat>)
    ensures match r
            case Some(k) =>
              k < |entries| && entries[k].ApplyEntry? && forall j | k < j < |entries| :: entries[j].RevertEntry?
            case None => forall j | 0 <= j < |entries| :: entries[j].RevertEntry?
  {
    if entries == [] then None
    else
      var n := |entries| - 1;
      if entries[n].ApplyEntry? then Some(n) else LastEntry(entries[..n])
  }

  function StatusIn(entry: Entry): Status {
    match entry
    case ApplyEntry(_, status) => status
    case RevertEntry(_, _) => Awaiting
  }

  function Report(entries: seq<Entry>): Outcome {
    match LastEntry(entries)
    case None => NoPatch
    case Some(last) =>
      var origin := Origin(entries, last);
      Tell(StatusIn(entries[origin]), EffectFrom(entries, origin + 1), PatchText(entries[last].event))
  }

  // ----- What the machine keeps ---------------------------------------------------------------

  /** The entry of the action at position `i`, told by a search from there on. */
  function EntryAt(events: seq<Json>, i: nat, hash: Hash): seq<Entry>
    requires i < |events|
  {
    var e := events[i];
    if IsApply(e) then [ApplyEntry(e, StatusOf(events[i + 1..], ActionId(e), PatchText(e), hash))]
    else if StateAt(events, i) != [] then [RevertEntry(e, StateAt(events, i)[0])]
    else []
  }

  function EntriesFrom(events: seq<Json>, i: nat, hash: Hash): seq<Entry>
    requires i <= |events|
    decreases |events| - i
  {
    if i == |events| then [] else EntryAt(events, i, hash) + EntriesFrom(events, i + 1, hash)
  }

  lemma {:induction false} AdvanceConcat(a: seq<Entry>, b: seq<Entry>, event: Json, hash: Hash)
    ensures AdvanceAll(a + b, event, hash) == AdvanceAll(a, event, hash) + AdvanceAll(b, event, hash)
  {
    hide Advance;
    if a == [] {
      assert a + b == b;
    } else {
      assert (a + b)[1..] == a[1..] + b;
      AdvanceConcat(a[1..], b, event, hash);
    }
  }

  lemma AdvanceOne(entry: Entry, event: Json, hash: Hash)
    ensures AdvanceAll([entry], event, hash) == [Advance(entry, event, hash)]
    ensures AdvanceAll([], event, hash) == []
  {
    hide Advance;
    assert [entry][1..] == [];
  }

  lemma StateCount(events: seq<Json>, i: nat)
    requires i < |events|
    ensures |StateAt(events, i)| <= 1
    ensures StateAt(events, i) == [] <==> !IsAction(events[i], "revert_patch")
  {
    hide Begun, FirstMatch, IsAction;
    BegunAtMostOne(events[i]);
  }

  lemma EntryAppend(events: seq<Json>, event: Json, i: nat, hash: Hash)
    requires i < |events|
    ensures EntryAt(events + [event], i, hash) == AdvanceAll(EntryAt(events, i, hash), event, hash)
  {
    hide IsApply, ActionId, StateAt, StatusOf, Settle, Await, AdvanceAll, SettleAll;
    var all, e := events + [event], events[i];
    assert all[i] == e && all[i + 1..] == events[i + 1..] + [event];
    StateAppend(events, event, i);
    StateCount(events, i);
    if IsApply(e) {
      StatusAppend(events[i + 1..], event, ActionId(e), PatchText(e), hash);
      AdvanceOne(EntryAt(events, i, hash)[0], event, hash);
    } else if StateAt(events, i) == [] {
      SettleOne(Settled(Keeps), event);
      AdvanceOne(RevertEntry(e, Settled(Keeps)), event, hash);
    } else {
      assert StateAt(events, i) == [StateAt(events, i)[0]];
      SettleOne(StateAt(events, i)[0], event);
      AdvanceOne(EntryAt(events, i, hash)[0], event, hash);
    }
  }

  lemma NewEntry(events: seq<Json>, event: Json, hash: Hash)
    ensures EntryAt(events + [event], |events|, hash) == Opened(event)
  {
    hide IsApply, ActionId, StateAt, Begun;
    var all := events + [event];
    assert all[|events| + 1..] == [];
    NewState(events, event);
    NothingYet(ActionId(event), PatchText(event), hash);
  }

  lemma NothingYet(id: Option<string>, patch: string, hash: Hash)
    ensures StatusOf([], id, patch, hash) == Awaiting
  {
  }

  /** What an event does to the entries is what it does to the searches they stand for. */
  lemma {:induction false} EntriesAppend(events: seq<Json>, event: Json, i: nat, hash: Hash)
    requires i <= |events|
    ensures EntriesFrom(events + [event], i, hash) ==
            AdvanceAll(EntriesFrom(events, i, hash), event, hash) + Opened(event)
    decreases |events| - i
  {
    hide EntryAt, Opened, AdvanceAll;
    var all := events + [event];
    if i == |events| {
      NewEntry(events, event, hash);
      AdvanceOne(ApplyEntry(event, Awaiting), event, hash);
      assert EntriesFrom(all, i, hash) == EntryAt(all, i, hash) + EntriesFrom(all, i + 1, hash);
    } else {
      EntryAppend(events, event, i, hash);
      EntriesAppend(events, event, i + 1, hash);
      AdvanceConcat(EntryAt(events, i, hash), EntriesFrom(events, i + 1, hash), event, hash);
    }
  }

  /** After every log the machine holds, for each action, what a search begun at it would have found. */
  lemma {:induction false} RunIs(events: seq<Json>, hash: Hash)
    ensures Run(events, hash) == EntriesFrom(events, 0, hash)
  {
    hide Step, EntryAt;
    if events != [] {
      var n := |events| - 1;
      RunIs(events[..n], hash);
      assert events == events[..n] + [events[n]];
      EntriesAppend(events[..n], events[n], 0, hash);
      StepIs(Run(events[..n], hash), events[n], hash);
    }
  }

  lemma StepIs(entries: seq<Entry>, event: Json, hash: Hash)
    ensures Step(entries, event, hash) == AdvanceAll(entries, event, hash) + Opened(event)
  {
  }

  // ----- Entries and positions ----------------------------------------------------------------

  /** How many actions are logged before position `p`. */
  function Count(events: seq<Json>, p: nat): nat
    requires p <= |events|
  {
    if p == 0 then 0 else Count(events, p - 1) + if Tracked(events[p - 1]) then 1 else 0
  }

  lemma EntryOf(events: seq<Json>, i: nat, hash: Hash)
    requires i < |events|
    ensures |EntryAt(events, i, hash)| == if Tracked(events[i]) then 1 else 0
    ensures Tracked(events[i]) ==> EntryAt(events, i, hash)[0].event == events[i]
    ensures Tracked(events[i]) ==> (EntryAt(events, i, hash)[0].ApplyEntry? <==> IsApply(events[i]))
  {
    hide IsApply, IsAction, StateAt, StatusOf, ActionId;
    StateCount(events, i);
  }

  lemma {:induction false} EntriesSplit(events: seq<Json>, p: nat, hash: Hash)
    requires p <= |events|
    ensures var entries := EntriesFrom(events, 0, hash);
            Count(events, p) <= |entries| && entries[Count(events, p)..] == EntriesFrom(events, p, hash)
  {
    hide EntryAt, Tracked;
    var entries := EntriesFrom(events, 0, hash);
    if p > 0 {
      EntriesSplit(events, p - 1, hash);
      EntryOf(events, p - 1, hash);
      var rest := EntriesFrom(events, p - 1, hash);
      var c := |EntryAt(events, p - 1, hash)|;
      assert rest == EntryAt(events, p - 1, hash) + EntriesFrom(events, p, hash);
      assert rest[c..] == EntriesFrom(events, p, hash);
      assert entries[Count(events, p - 1)..][c..] == entries[Count(events, p)..];
    }
  }

  /** The entry of a logged action. */
  lemma EntryIs(events: seq<Json>, p: nat, hash: Hash)
    requires p < |events| && Tracked(events[p])
    ensures var entries := EntriesFrom(events, 0, hash);
            && Count(events, p) < |entries|
            && entries[Count(events, p)] == EntryAt(events, p, hash)[0]
            && entries[Count(events, p)].event == events[p]
            && (entries[Count(events, p)].ApplyEntry? <==> IsApply(events[p]))
  {
    EntryOf(events, p, hash);
    EntriesSplit(events, p, hash);
    hide EntryAt, Tracked, IsApply, Count;
    var entries := EntriesFrom(events, 0, hash);
    var rest := EntriesFrom(events, p, hash);
    assert rest[0] == EntryAt(events, p, hash)[0];
    assert entries[Count(events, p)..][0] == entries[Count(events, p)];
  }

  lemma {:induction false} CountMonotone(events: seq<Json>, p: nat, q: nat)
    requires p <= q <= |events|
    ensures Count(events, p) <= Count(events, q)
    ensures p < q && Tracked(events[p]) ==> Count(events, p) < Count(events, q)
  {
    hide Tracked;
    if p < q {
      CountMonotone(events, p, q - 1);
    }
  }

  /** The position of an entry. */
  lemma {:induction false} PositionOf(events: seq<Json>, p: nat, k: nat) returns (q: nat)
    requires p <= |events| && k < Count(events, p)
    ensures q < p && Tracked(events[q]) && Count(events, q) == k
  {
    hide Tracked;
    if k == Count(events, p - 1) {
      q := p - 1;
    } else {
      q := PositionOf(events, p - 1, k);
    }
  }

  lemma EntriesCount(events: seq<Json>, hash: Hash)
    ensures |EntriesFrom(events, 0, hash)| == Count(events, |events|)
  {
    EntriesSplit(events, |events|, hash);
    hide EntryAt, Count;
    var entries := EntriesFrom(events, 0, hash);
    assert |entries[Count(events, |events|)..]| == 0;
  }

  // ----- Equal events are the same action -----------------------------------------------------

  lemma EqualText(a: Json, b: Json, key: string, text: string)
    requires Equal(a, b)
    ensures Is(Member(a, key), text) <==> Is(Member(b, key), text)
  {
    EqualMember(a, b, key);
  }

  lemma EqualNonEmpty(a: Json, b: Json, key: string)
    requires Equal(a, b)
    ensures NonEmptyText(Member(a, key)) == NonEmptyText(Member(b, key))
  {
    EqualMember(a, b, key);
  }

  lemma EqualActionBlock(a: Json, b: Json)
    requires Equal(a, b)
    ensures Action(a).Some? <==> Action(b).Some?
    ensures Action(a).Some? ==> Equal(Action(a).value, Action(b).value)
    ensures Payload(a).Some? <==> Payload(b).Some?
  {
    EqualMember(a, b, "payload");
    if Member(a, "payload").Some? {
      EqualMember(Member(a, "payload").value, Member(b, "payload").value, "action");
    }
    hide Member;
  }

  /** Equal events carry the same action with the same id and the same patch. */
  lemma EqualActions(a: Json, b: Json)
    requires SameAction(a, b)
    ensures ApplyPatch(a) == ApplyPatch(b) && (IsApply(a) <==> IsApply(b))
    ensures IsAction(a, "revert_patch") <==> IsAction(b, "revert_patch")
    ensures ActionId(a) == ActionId(b)
    ensures Payload(a).Some? <==> Payload(b).Some?
  {
    hide Member, Action, Is, Equal, NonEmptyText, Payload;
    if Equal(a, b) {
      EqualText(a, b, "event_type", "action");
      EqualText(a, b, "name", "apply_patch");
      EqualText(a, b, "name", "revert_patch");
      EqualActionBlock(a, b);
      if Action(a).Some? {
        EqualBlocks(Action(a).value, Action(b).value);
      }
    }
  }

  lemma EqualBlocks(x: Json, y: Json)
    requires Equal(x, y)
    ensures NonEmptyText(Member(x, "action_id")) == NonEmptyText(Member(y, "action_id"))
    ensures match (Member(x, "arguments"), Member(y, "arguments"))
            case (Some(p), Some(q)) => NonEmptyText(Member(p, "patch")) == NonEmptyText(Member(q, "patch"))
            case (None, None) => true
            case _ => false
  {
    hide Member, Equal, NonEmptyText;
    EqualNonEmpty(x, y, "action_id");
    EqualMember(x, y, "arguments");
    if Member(x, "arguments").Some? {
      EqualNonEmpty(Member(x, "arguments").value, Member(y, "arguments").value, "patch");
    }
  }

  lemma EqualTracked(a: Json, b: Json)
    requires SameAction(a, b)
    ensures Tracked(a) <==> Tracked(b)
  {
    EqualActions(a, b);
    hide IsApply, IsAction, SameAction;
  }

  /** Looking an action up among the entries is looking it up among the events. */
  lemma OriginIs(events: seq<Json>, p: nat, hash: Hash)
    requires p < |events| && Tracked(events[p])
    ensures var j := IndexOf(events, p);
            && Tracked(events[j])
            && Count(events, p) < |EntriesFrom(events, 0, hash)|
            && Origin(EntriesFrom(events, 0, hash), Count(events, p)) == Count(events, j)
  {
    var entries := EntriesFrom(events, 0, hash);
    var j, k := IndexOf(events, p), Count(events, p);
    EqualTracked(events[j], events[p]);
    EntryIs(events, p, hash);
    EntryIs(events, j, hash);
    CountMonotone(events, j, p);
    hide Tracked, Equal, EntryAt, EntriesFrom;
    var i := Origin(entries, k);
    if i < Count(events, j) {
      EntriesCount(events, hash);
      CountMonotone(events, j, |events|);
      var q := PositionOf(events, |events|, i);
      EntryIs(events, q, hash);
      if q >= j {
        CountMonotone(events, j, q);
      }
    }
  }

  // ----- The report is the outcome of the scans -----------------------------------------------

  lemma RevertEntryEffect(events: seq<Json>, j: nat, p: nat, hash: Hash)
    requires j <= p < |events| && SameAction(events[j], events[p]) && IsAction(events[p], "revert_patch")
    requires IndexOf(events, p) == j
    ensures |EntryAt(events, j, hash)| == 1 && Effect(EntryAt(events, j, hash)[0]) == RevertAt(events, p)
  {
    hide *;
    EqualActions(events[j], events[p]);
    RevertEntryAt(events, j, hash);
    RevertAtIs(events, p);
  }

  /** What a revert comes to whose observation is looked for in `rest`. */
  function RevertOver(payload: bool, id: Option<string>, rest: seq<Json>): Revert {
    if !payload then RevertRaised
    else
      match id
      case None => Keeps
      case Some(action) =>
        match FirstMatch(rest, action, "revert_patch")
        case Found(observation) => JudgeRevert(observation)
        case NotFound => Keeps
        case SearchRaised => RevertRaised
  }

  lemma RevertAtIs(events: seq<Json>, p: nat)
    requires p < |events| && IsAction(events[p], "revert_patch")
    ensures RevertAt(events, p) ==
            RevertOver(Payload(events[p]).Some?, ActionId(events[p]), events[IndexOf(events, p) + 1..])
  {
    hide ActionId, Payload, FirstMatch, JudgeRevert, IsAction, IndexOf;
  }

  /** The effect of the entry of a revert, told by the search from its own place on. */
  lemma RevertEntryAt(events: seq<Json>, j: nat, hash: Hash)
    requires j < |events| && IsAction(events[j], "revert_patch")
    ensures |EntryAt(events, j, hash)| == 1
    ensures Effect(EntryAt(events, j, hash)[0]) ==
            RevertOver(Payload(events[j]).Some?, ActionId(events[j]), events[j + 1..])
  {
    StateCount(events, j);
    NotBoth(events[j]);
    hide ActionId, Payload, FirstMatch, JudgeRevert, StatusOf, IsApply, IsAction;
  }

  lemma NotBoth(event: Json)
    ensures !(IsApply(event) && IsAction(event, "revert_patch"))
  {
    assert "apply_patch" != "revert_patch";
    hide Member, Action;
  }

  lemma EffectIs(events: seq<Json>, p: nat, hash: Hash)
    requires p < |events| && Tracked(events[p])
    ensures Count(events, p) < |EntriesFrom(events, 0, hash)|
    ensures EffectAt(EntriesFrom(events, 0, hash), Count(events, p)) == RevertAt(events, p)
  {
    OriginIs(events, p, hash);
    EntryIs(events, p, hash);
    NotBoth(events[p]);
    var j := IndexOf(events, p);
    EntryIs(events, j, hash);
    if IsAction(events[p], "revert_patch") {
      RevertEntryEffect(events, j, p, hash);
    }
    hide EntryAt, EntriesFrom, Equal, IsApply, IsAction, Effect, Count;
  }

  lemma RevertAtOther(events: seq<Json>, p: nat)
    requires p < |events| && !Tracked(events[p])
    ensures RevertAt(events, p) == Keeps
  {
  }

  lemma {:induction false} EffectFromIs(events: seq<Json>, p: nat, hash: Hash)
    requires p <= |events|
    ensures Count(events, p) <= |EntriesFrom(events, 0, hash)|
    ensures EffectFrom(EntriesFrom(events, 0, hash), Count(events, p)) == RevertFrom(events, p)
    decreases |events| - p
  {
    hide EntriesFrom, RevertAt, EffectAt, Tracked;
    EntriesCount(events, hash);
    CountMonotone(events, p, |events|);
    if p < |events| {
      EffectFromIs(events, p + 1, hash);
      assert Count(events, p + 1) == Count(events, p) + if Tracked(events[p]) then 1 else 0;
      if Tracked(events[p]) {
        EffectIs(events, p, hash);
      } else {
        RevertAtOther(events, p);
      }
    }
  }

  lemma LastEntryIs(events: seq<Json>, hash: Hash)
    ensures match LastApply(events)
            case None => LastEntry(EntriesFrom(events, 0, hash)).None?
            case Some(last) => LastEntry(EntriesFrom(events, 0, hash)) == Some(Count(events, last))
  {
    LastApplyIs(events);
    hide *;
    EntriesCount(events, hash);
    var entries := EntriesFrom(events, 0, hash);
    var r := LastEntry(entries);
    if r.Some? {
      var q := PositionOf(events, |events|, r.value);
      EntryIs(events, q, hash);
      assert IsApply(events[q]);
    }
    match LastApply(events) {
      case None =>
      case Some(last) =>
        ApplyTracked(events[last]);
        EntryIs(events, last, hash);
        if r.Some? {
          var q := PositionOf(events, |events|, r.value);
          EntryIs(events, q, hash);
          CountMonotone(events, q, last);
        }
    }
  }

  lemma ApplyEntryIs(events: seq<Json>, last: nat, hash: Hash)
    requires last < |events| && IsApply(events[last])
    ensures var j := IndexOf(events, last);
            |EntryAt(events, j, hash)| == 1
            && EntryAt(events, j, hash)[0] ==
               ApplyEntry(events[j],
                          StatusOf(events[j + 1..], ActionId(events[last]), ApplyPatch(events[last]).value, hash))
  {
    var j := IndexOf(events, last);
    EqualActions(events[j], events[last]);
    hide Equal, StatusOf, IsAction, Action, Member, StateAt;
  }

  /** On every log whatever, the repeated scans report exactly what the machine reports. */
  lemma ReplayIsReport(events: seq<Json>, hash: Hash)
    ensures Replay(events, hash) == Report(Run(events, hash))
  {
    RunIs(events, hash);
    LastEntryIs(events, hash);
    match LastApply(events) {
      case None =>
      case Some(last) =>
        ReplayOfLast(events, last, hash);
    }
  }

  lemma ReplayOfLast(events: seq<Json>, last: nat, hash: Hash)
    requires LastApply(events) == Some(last)
    requires LastEntry(EntriesFrom(events, 0, hash)) == Some(Count(events, last))
    ensures Replay(events, hash) == Report(EntriesFrom(events, 0, hash))
  {
    hide *;
    ApplyTracked(events[last]);
    var entries, k := EntriesFrom(events, 0, hash), Count(events, last);
    PatchIs(events[last]);
    EntryIs(events, last, hash);
    OriginStatus(events, last, hash);
    OriginEffects(events, last, hash);
    ReportTells(entries, k);
    ReplayTells(events, last, hash);
  }

  lemma OriginStatus(events: seq<Json>, last: nat, hash: Hash)
    requires last < |events| && IsApply(events[last])
    ensures var entries, k := EntriesFrom(events, 0, hash), Count(events, last);
            && k < |entries|
            && StatusIn(entries[Origin(entries, k)]) ==
               StatusOf(events[IndexOf(events, last) + 1..], ActionId(events[last]),
                        ApplyPatch(events[last]).value, hash)
  {
    ApplyTracked(events[last]);
    hide *;
    var j := IndexOf(events, last);
    OriginIs(events, last, hash);
    EntryIs(events, j, hash);
    ApplyEntryIs(events, last, hash);
    ApplyStatus(EntryAt(events, j, hash)[0]);
  }

  lemma ApplyTracked(event: Json)
    requires IsApply(event)
    ensures Tracked(event)
  {
    hide IsApply;
  }

  lemma CountNext(events: seq<Json>, p: nat)
    requires p < |events|
    ensures Count(events, p + 1) == Count(events, p) + if Tracked(events[p]) then 1 else 0
  {
    hide Tracked;
  }

  lemma OriginEffects(events: seq<Json>, last: nat, hash: Hash)
    requires last < |events| && IsApply(events[last])
    ensures var entries, k := EntriesFrom(events, 0, hash), Count(events, last);
            && k < |entries|
            && EffectFrom(entries, Origin(entries, k) + 1) == RevertFrom(events, IndexOf(events, last) + 1)
  {
    hide *;
    var j := IndexOf(events, last);
    ApplyTracked(events[last]);
    CountNext(events, j);
    OriginIs(events, last, hash);
    EffectFromIs(events, j + 1, hash);
  }

  lemma ApplyStatus(entry: Entry)
    ensures entry.ApplyEntry? ==> StatusIn(entry) == entry.status
  {
  }

  lemma ReportTells(entries: seq<Entry>, last: nat)
    requires LastEntry(entries) == Some(last)
    ensures var origin := Origin(entries, last);
            Report(entries) ==
            Tell(StatusIn(entries[origin]), EffectFrom(entries, origin + 1), PatchText(entries[last].event))
  {
    hide Tell, StatusIn, EffectFrom, PatchText, Origin;
  }

  lemma PatchIs(event: Json)
    requires IsApply(event)
    ensures PatchText(event) == ApplyPatchOf(event) == ApplyPatch(event).value
  {
    hide ApplyPatch;
  }
}
