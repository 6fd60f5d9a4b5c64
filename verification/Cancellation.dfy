/**
 * The cancellation token: any number of request and check calls, interleaved step by step.
 * A step is one access to the shared state; the event is set after the lock is given back.
 */
module Cancellation {
  import opened Wrappers

  datatype Reason = Cancelled | TimedOut

  /** Where a call stands; the name says what the call does next. */
  datatype Call =
    | ReqAcquire(wanted: Reason)
    | ReqTest(wanted: Reason)
    | ReqWrite(wanted: Reason)
    | ReqRelease(wanted: Reason)
    | ReqSet(wanted: Reason)
    | ReqReturned(wanted: Reason)
    | ChkEvent
    | ChkReason
    | ChkDeadline
    | ChkAcquire
    | ChkTest
    | ChkWrite
    | ChkLoad
    | ChkRelease(seen: Reason)
    | ChkSet(seen: Reason)
    | ChkReturned
    | ChkRaised(seen: Reason)

  datatype Shared = Shared(deadline: Option<real>, lock: Option<nat>, reason: Option<Reason>, event: bool, clock: real)

  datatype State = State(shared: Shared, calls: seq<Call>)

  predicate Passed(g: Shared) {
    g.deadline.Some? && g.clock >= g.deadline.value
  }

  // ----- The steps ----------------------------------------------------------------------------

  /** One step of call `id`; a call that waits for the lock, or has ended, stays where it is. */
  function CallStep(g: Shared, id: nat, c: Call): (Shared, Call) {
    match c
    case ReqAcquire(r) => if g.lock.None? then (g.(lock := Some(id)), ReqTest(r)) else (g, c)
    case ReqTest(r) => (g, if g.reason.None? then ReqWrite(r) else ReqRelease(r))
    case ReqWrite(r) => (g.(reason := Some(r)), ReqRelease(r))
    case ReqRelease(r) => (g.(lock := None), ReqSet(r))
    case ReqSet(r) => (g.(event := true), ReqReturned(r))
    case ReqReturned(_) => (g, c)
    case ChkEvent => (g, if g.event then ChkReason else ChkDeadline)
    case ChkReason => (g, ChkRaised(if g.reason.Some? then g.reason.value else Cancelled))
    case ChkDeadline => (g, if Passed(g) then ChkAcquire else ChkReturned)
    case ChkAcquire => if g.lock.None? then (g.(lock := Some(id)), ChkTest) else (g, c)
    case ChkTest => (g, if g.reason.None? then ChkWrite else ChkLoad)
    case ChkWrite => (g.(reason := Some(TimedOut)), ChkLoad)
    case ChkLoad => (g, ChkRelease(if g.reason.Some? then g.reason.value else Cancelled))
    case ChkRelease(r) => (g.(lock := None), ChkSet(r))
    case ChkSet(r) => (g.(event := true), ChkRaised(r))
    case ChkReturned => (g, c)
    case ChkRaised(_) => (g, c)
  }

  datatype Action =
    | Request(reason: Reason)
    | Check
    | Tick(now: real)
    | Move(id: nat)

  /** Calls begin at any time, the monotonic clock never goes back, and any call may move next. */
  function Step(s: State, a: Action): State {
    match a
    case Request(r) => s.(calls := s.calls + [ReqAcquire(r)])
    case Check => s.(calls := s.calls + [ChkEvent])
    case Tick(now) => if now > s.shared.clock then s.(shared := s.shared.(clock := now)) else s
    case Move(id) =>
      if id >= |s.calls| then s
      else
        var (g, c) := CallStep(s.shared, id, s.calls[id]);
        State(g, s.calls[id := c])
  }

  function Exec(s: State, schedule: seq<Action>): State {
    if schedule == [] then s
    else Step(Exec(s, schedule[..|schedule| - 1]), schedule[|schedule| - 1])
  }

  function Fresh(deadline: Option<real>, clock: real): State {
    State(Shared(deadline, None, None, false, clock), [])
  }

  // ----- The invariant ------------------------------------------------------------------------

  predicate InCritical(c: Call) {
    c.ReqTest? || c.ReqWrite? || c.ReqRelease? || c.ChkTest? || c.ChkWrite? || c.ChkLoad? || c.ChkRelease?
  }

  predicate IsRequest(c: Call) {
    c.ReqAcquire? || c.ReqTest? || c.ReqWrite? || c.ReqRelease? || c.ReqSet? || c.ReqReturned?
  }

  /** What a call at its point relies on. */
  predicate Consistent(g: Shared, c: Call) {
    match c
    case ReqWrite(_) => g.reason.None?
    case ReqRelease(_) => g.reason.Some?
    case ReqSet(_) => g.reason.Some?
    case ReqReturned(_) => g.event
    case ChkReason => g.event
    case ChkAcquire => Passed(g)
    case ChkTest => Passed(g)
    case ChkWrite => Passed(g) && g.reason.None?
    case ChkLoad => g.reason.Some?
    case ChkRelease(r) => g.reason == Some(r)
    case ChkSet(r) => g.reason == Some(r)
    case ChkRaised(r) => g.reason == Some(r) && g.event
    case _ => true
  }

  predicate Requested(calls: seq<Call>, r: Reason) {
    exists i | 0 <= i < |calls| :: IsRequest(calls[i]) && calls[i].wanted == r
  }

  /** A recorded reason was asked for, or is a passed deadline. */
  predicate Justified(s: State) {
    match s.shared.reason
    case None => true
    case Some(Cancelled) => Requested(s.calls, Cancelled)
    case Some(TimedOut) => Requested(s.calls, TimedOut) || Passed(s.shared)
  }

  predicate LockHeld(s: State) {
    && (s.shared.lock.Some? ==> s.shared.lock.value < |s.calls|)
    && forall i | 0 <= i < |s.calls| :: InCritical(s.calls[i]) <==> s.shared.lock == Some(i)
  }

  predicate AllConsistent(s: State) {
    forall i | 0 <= i < |s.calls| :: Consistent(s.shared, s.calls[i])
  }

  predicate Inv(s: State) {
    && (s.shared.event ==> s.shared.reason.Some?)
    && LockHeld(s)
    && AllConsistent(s)
    && Justified(s)
  }

  /** What one step may do to the shared state: the reason and the event are only ever set. */
  predicate Forward(g: Shared, h: Shared) {
    && h.deadline == g.deadline
    && h.clock >= g.clock
    && (g.event ==> h.event)
    && (g.reason.Some? ==> h.reason == g.reason)
  }

  lemma ConsistentKept(g: Shared, h: Shared, c: Call)
    requires Forward(g, h) && Consistent(g, c)
    requires h.reason == g.reason || !InCritical(c)
    ensures Consistent(h, c)
  {
  }

  /** Only the holder of the lock writes the reason, and only its own. */
  predicate OwnWrite(g: Shared, h: Shared, id: nat, c: Call) {
    h.reason != g.reason ==>
      && g.lock == Some(id) && InCritical(c) && g.reason.None?
      && h.reason == Some(Wish(c))
      && (IsRequest(c) || Passed(h))
  }

  /** The lock is taken when free and given back by its holder. */
  predicate LockMoves(g: Shared, h: Shared, id: nat, c: Call, d: Call) {
    && (h.lock == g.lock || (g.lock.None? && h.lock == Some(id)) || (g.lock == Some(id) && h.lock.None?))
    && (InCritical(d) <==> h.lock == Some(id))
  }

  /** The reason a call records when it is the first. */
  function Wish(c: Call): Reason {
    if IsRequest(c) then c.wanted else TimedOut
  }

  lemma CallStepKeeps(g: Shared, id: nat, c: Call)
    requires Consistent(g, c) && (InCritical(c) <==> g.lock == Some(id))
    requires g.event ==> g.reason.Some?
    ensures var (h, d) := CallStep(g, id, c);
            && Forward(g, h) && Consistent(h, d) && (h.event ==> h.reason.Some?)
            && OwnWrite(g, h, id, c) && LockMoves(g, h, id, c, d)
            && (IsRequest(c) <==> IsRequest(d)) && Wish(d) == Wish(c)
  {
  }

  lemma RequestedKept(before: seq<Call>, after: seq<Call>, r: Reason)
    requires |before| <= |after|
    requires forall i | 0 <= i < |before| ::
               (IsRequest(before[i]) <==> IsRequest(after[i])) && Wish(before[i]) == Wish(after[i])
    requires Requested(before, r)
    ensures Requested(after, r)
  {
    var i :| 0 <= i < |before| && IsRequest(before[i]) && before[i].wanted == r;
    assert IsRequest(after[i]) && Wish(after[i]) == r;
  }

  lemma MoveKeeps(s: State, id: nat)
    requires Inv(s) && id < |s.calls|
    ensures Inv(Step(s, Move(id))) && Forward(s.shared, Step(s, Move(id)).shared)
  {
    var c := s.calls[id];
    var g := s.shared;
    assert Consistent(g, c) && (InCritical(c) <==> g.lock == Some(id));
    CallStepKeeps(g, id, c);
    var t := Step(s, Move(id));
    hide CallStep;
    var h := t.shared;
    forall i | 0 <= i < |t.calls|
      ensures Consistent(h, t.calls[i]) && (InCritical(t.calls[i]) <==> h.lock == Some(i))
    {
      if i != id {
        assert t.calls[i] == s.calls[i];
        assert Consistent(g, s.calls[i]) && (InCritical(s.calls[i]) <==> g.lock == Some(i));
        ConsistentKept(g, h, s.calls[i]);
      }
    }
    forall r | Requested(s.calls, r)
      ensures Requested(t.calls, r)
    {
      RequestedKept(s.calls, t.calls, r);
    }
    if h.reason != g.reason && IsRequest(c) {
      assert IsRequest(t.calls[id]) && t.calls[id].wanted == Wish(c);
    }
  }

  lemma StepKeeps(s: State, a: Action)
    requires Inv(s)
    ensures Inv(Step(s, a)) && Forward(s.shared, Step(s, a).shared)
  {
    hide CallStep;
    match a {
      case Move(id) =>
        if id < |s.calls| {
          MoveKeeps(s, id);
        }
      case Tick(now) =>
        var t := Step(s, a);
        forall i | 0 <= i < |t.calls|
          ensures Consistent(t.shared, t.calls[i])
        {
          ConsistentKept(s.shared, t.shared, s.calls[i]);
        }
      case Request(r) =>
        NewCall(s, ReqAcquire(r));
      case Check =>
        NewCall(s, ChkEvent);
    }
  }

  lemma NewCall(s: State, c: Call)
    requires Inv(s) && (c.ReqAcquire? || c.ChkEvent?)
    ensures Inv(s.(calls := s.calls + [c]))
  {
    var t := s.(calls := s.calls + [c]);
    forall r | Requested(s.calls, r)
      ensures Requested(t.calls, r)
    {
      RequestedKept(s.calls, t.calls, r);
    }
  }

  // ----- Every run ----------------------------------------------------------------------------

  /** The invariant holds after every schedule of any number of calls. */
  lemma {:induction false} InvExec(s: State, schedule: seq<Action>)
    requires Inv(s)
    ensures Inv(Exec(s, schedule)) && Forward(s.shared, Exec(s, schedule).shared)
  {
    hide Inv, Step;
    if schedule != [] {
      var front := schedule[..|schedule| - 1];
      InvExec(s, front);
      StepKeeps(Exec(s, front), schedule[|schedule| - 1]);
    }
  }

  lemma {:induction false} ExecConcat(s: State, a: seq<Action>, b: seq<Action>)
    ensures Exec(s, a + b) == Exec(Exec(s, a), b)
  {
    hide Step;
    if b == [] {
      assert a + b == a;
    } else {
      var front := b[..|b| - 1];
      assert (a + b)[..|a + b| - 1] == a + front;
      ExecConcat(s, a, front);
    }
  }

  function After(deadline: Option<real>, clock: real, schedule: seq<Action>): State {
    Exec(Fresh(deadline, clock), schedule)
  }

  /** The token's promises in every reachable state. */
  lemma ReachableState(deadline: Option<real>, clock: real, schedule: seq<Action>)
    ensures var s := After(deadline, clock, schedule);
            && Inv(s) && s.shared.deadline == deadline
            && (s.shared.event ==> s.shared.reason.Some?)
            && (s.shared.reason == Some(TimedOut) ==> Requested(s.calls, TimedOut) || Passed(s.shared))
            && (s.shared.reason == Some(Cancelled) ==> Requested(s.calls, Cancelled))
            && (forall i | 0 <= i < |s.calls| && s.calls[i].ChkReason? :: s.shared.reason.Some?)
            && (forall i | 0 <= i < |s.calls| && s.calls[i].ChkRaised? :: s.shared.reason == Some(s.calls[i].seen))
            && (forall i | 0 <= i < |s.calls| && s.calls[i].ReqReturned? :: s.shared.event)
  {
    hide Exec;
    InvExec(Fresh(deadline, clock), schedule);
    var s := After(deadline, clock, schedule);
    assert forall i | 0 <= i < |s.calls| :: Consistent(s.shared, s.calls[i]);
  }

  /** The reason is written at most once, and all errors ever raised carry it. */
  lemma OneReason(deadline: Option<real>, clock: real, before: seq<Action>, after: seq<Action>)
    ensures var s := After(deadline, clock, before);
            var t := After(deadline, clock, before + after);
            && (s.shared.reason.Some? ==> t.shared.reason == s.shared.reason)
            && (s.shared.event ==> t.shared.event)
            && forall i, j | 0 <= i < |s.calls| && 0 <= j < |t.calls|
                 && s.calls[i].ChkRaised? && t.calls[j].ChkRaised? ::
                 s.calls[i].seen == t.calls[j].seen
  {
    hide Exec;
    ReachableState(deadline, clock, before);
    ReachableState(deadline, clock, before + after);
    ExecConcat(Fresh(deadline, clock), before, after);
    InvExec(After(deadline, clock, before), after);
  }

  /**
   * What a caller can rely on: once a request has returned before the deadline passed, no check of that run, earlier
   * or later, raises a timeout that nobody asked for.
   */
  lemma ReturnedRequestBeatsDeadline(deadline: Option<real>, clock: real,
                                     before: seq<Action>, after: seq<Action>, k: nat)
    requires var s := After(deadline, clock, before);
             && (exists i | 0 <= i < |s.calls| :: s.calls[i].ReqReturned?)
             && !Passed(s.shared)
    requires var t := After(deadline, clock, before + after);
             k < |t.calls| && t.calls[k] == ChkRaised(TimedOut)
    ensures Requested(After(deadline, clock, before).calls, TimedOut)
  {
    hide Exec;
    ReachableState(deadline, clock, before);
    ReachableState(deadline, clock, before + after);
    OneReason(deadline, clock, before, after);
  }

  // ----- A check that begins late -------------------------------------------------------------

  /** A call that began after the event was set: a request, or a check on its way to raise. */
  predicate Late(c: Call) {
    IsRequest(c) || c.ChkEvent? || c.ChkReason? || c.ChkRaised?
  }

  predicate AllLate(s: State, first: nat) {
    && first <= |s.calls|
    && s.shared.event
    && forall i | first <= i < |s.calls| :: Late(s.calls[i])
  }

  lemma LateStep(s: State, a: Action, first: nat)
    requires AllLate(s, first)
    ensures AllLate(Step(s, a), first)
  {
  }

  lemma {:induction false} LateExec(s: State, schedule: seq<Action>, first: nat)
    requires AllLate(s, first)
    ensures AllLate(Exec(s, schedule), first)
  {
    hide AllLate, Step;
    if schedule != [] {
      LateExec(s, schedule[..|schedule| - 1], first);
      LateStep(Exec(s, schedule[..|schedule| - 1]), schedule[|schedule| - 1], first);
    }
  }

  predicate Ended(c: Call) {
    c.ReqReturned? || c.ChkReturned? || c.ChkRaised?
  }

  /** Once a request has returned or an error was raised, every check that begins later raises that reason. */
  lemma LateChecksRaise(deadline: Option<real>, clock: real, before: seq<Action>, after: seq<Action>, k: nat)
    requires var s := After(deadline, clock, before);
             exists i | 0 <= i < |s.calls| :: s.calls[i].ReqReturned? || s.calls[i].ChkRaised?
    requires var s := After(deadline, clock, before);
             var t := After(deadline, clock, before + after);
             |s.calls| <= k < |t.calls| && !IsRequest(t.calls[k]) && Ended(t.calls[k])
    ensures var s := After(deadline, clock, before);
            var t := After(deadline, clock, before + after);
            s.shared.reason.Some? && t.calls[k] == ChkRaised(s.shared.reason.value)
  {
    hide Exec;
    var s := After(deadline, clock, before);
    ReachableState(deadline, clock, before);
    ReachableState(deadline, clock, before + after);
    assert s.shared.event by {
      var i :| 0 <= i < |s.calls| && (s.calls[i].ReqReturned? || s.calls[i].ChkRaised?);
      assert Consistent(s.shared, s.calls[i]);
    }
    ExecConcat(Fresh(deadline, clock), before, after);
    LateExec(s, after, |s.calls|);
    OneReason(deadline, clock, before, after);
  }

  // ----- Calls end ----------------------------------------------------------------------------

  /** How many steps a call may still take. */
  function Remaining(c: Call): nat {
    match c
    case ReqAcquire(_) => 5
    case ReqTest(_) => 4
    case ReqWrite(_) => 3
    case ReqRelease(_) => 2
    case ReqSet(_) => 1
    case ReqReturned(_) => 0
    case ChkEvent => 8
    case ChkReason => 1
    case ChkDeadline => 7
    case ChkAcquire => 6
    case ChkTest => 5
    case ChkWrite => 4
    case ChkLoad => 3
    case ChkRelease(_) => 2
    case ChkSet(_) => 1
    case ChkReturned => 0
    case ChkRaised(_) => 0
  }

  /** A call moves on and comes closer to its end, unless it has ended or waits for a lock that is held. */
  lemma Progress(g: Shared, id: nat, c: Call)
    ensures var (h, d) := CallStep(g, id, c);
            if Ended(c) || ((c.ReqAcquire? || c.ChkAcquire?) && g.lock.Some?) then d == c && h == g
            else Remaining(d) < Remaining(c)
    ensures Remaining(c) == 0 <==> Ended(c)
  {
  }

  /** No deadlock: while a call has not ended, some call can take a step towards its end. */
  lemma SomeCallMoves(deadline: Option<real>, clock: real, schedule: seq<Action>, k: nat)
    requires k < |After(deadline, clock, schedule).calls| && !Ended(After(deadline, clock, schedule).calls[k])
    ensures var s := After(deadline, clock, schedule);
            exists id | 0 <= id < |s.calls| :: Remaining(Step(s, Move(id)).calls[id]) < Remaining(s.calls[id])
  {
    var s := After(deadline, clock, schedule);
    ReachableState(deadline, clock, schedule);
    hide Exec, Fresh;
    var id := if s.shared.lock.Some? then s.shared.lock.value else k;
    assert InCritical(s.calls[id]) <==> s.shared.lock == Some(id);
    Progress(s.shared, id, s.calls[id]);
    assert Step(s, Move(id)).calls[id] == CallStep(s.shared, id, s.calls[id]).1;
  }

  // ----- Who decides the reason ---------------------------------------------------------------

  /** While no reason is recorded, the call inside the lock is about to record its own. */
  predicate Decides(s: State, id: nat, wish: Reason) {
    || s.shared.reason == Some(wish)
    || (&& s.shared.reason.None?
        && s.shared.lock == Some(id)
        && id < |s.calls|
        && InCritical(s.calls[id])
        && Wish(s.calls[id]) == wish)
  }

  lemma DecidesStep(s: State, a: Action, id: nat, wish: Reason)
    requires Inv(s) && Decides(s, id, wish)
    ensures Decides(Step(s, a), id, wish)
  {
    StepKeeps(s, a);
    match a {
      case Move(other) =>
        if other < |s.calls| && s.shared.reason.None? {
          assert Consistent(s.shared, s.calls[other]);
          assert InCritical(s.calls[other]) <==> s.shared.lock == Some(other);
          CallStepKeeps(s.shared, other, s.calls[other]);
        }
      case _ =>
    }
  }

  lemma {:induction false} DecidesExec(s: State, schedule: seq<Action>, id: nat, wish: Reason)
    requires Inv(s) && Decides(s, id, wish)
    ensures Decides(Exec(s, schedule), id, wish)
  {
    hide Inv, Decides, Step;
    if schedule != [] {
      var front := schedule[..|schedule| - 1];
      DecidesExec(s, front, id, wish);
      InvExec(s, front);
      DecidesStep(Exec(s, front), schedule[|schedule| - 1], id, wish);
    }
  }

  /** The first call inside the lock decides: the reason is what a request asked for, or a deadline seen by a check. */
  lemma FirstInLockDecides(deadline: Option<real>, clock: real, before: seq<Action>, after: seq<Action>)
    requires var g := After(deadline, clock, before).shared; g.lock.Some? && g.reason.None?
    ensures var s := After(deadline, clock, before);
            var t := After(deadline, clock, before + after);
            && s.shared.lock.value < |s.calls|
            && (t.shared.reason.None? || t.shared.reason == Some(Wish(s.calls[s.shared.lock.value])))
  {
    hide Exec;
    var s := After(deadline, clock, before);
    ReachableState(deadline, clock, before);
    var id := s.shared.lock.value;
    assert InCritical(s.calls[id]);
    ExecConcat(Fresh(deadline, clock), before, after);
    DecidesExec(s, after, id, Wish(s.calls[id]));
  }

  // ----- A call without interleaving ----------------------------------------------------------

  function Moves(id: nat, n: nat): seq<Action> {
    if n == 0 then [] else [Move(id)] + Moves(id, n - 1)
  }

  /** `n` steps of one call in a row. */
  function CallSteps(g: Shared, id: nat, c: Call, n: nat): (Shared, Call)
    decreases n
  {
    if n == 0 then (g, c)
    else
      var (h, d) := CallStep(g, id, c);
      CallSteps(h, id, d, n - 1)
  }

  lemma {:induction false} ExecMoves(s: State, id: nat, n: nat)
    requires id < |s.calls|
    ensures var (g, c) := CallSteps(s.shared, id, s.calls[id], n);
            Exec(s, Moves(id, n)) == State(g, s.calls[id := c])
    decreases n
  {
    hide CallStep;
    if n > 0 {
      var t := Step(s, Move(id));
      ExecConcat(s, [Move(id)], Moves(id, n - 1));
      assert [Move(id)][..0] == [];
      assert Exec(s, [Move(id)]) == t;
      ExecMoves(t, id, n - 1);
    }
  }

  /** What a whole request call does to the shared state. */
  function Requesting(g: Shared, wanted: Reason): Shared {
    g.(reason := if g.reason.None? then Some(wanted) else g.reason, event := true)
  }

  /** What a whole check call does to the shared state; Some is the reason it raises. */
  function Checking(g: Shared): (Shared, Option<Reason>) {
    if g.event then (g, Some(if g.reason.Some? then g.reason.value else Cancelled))
    else if Passed(g) then
      var h := Requesting(g, TimedOut);
      (h, h.reason)
    else (g, None)
  }

  lemma RequestSteps(g: Shared, id: nat, r: Reason)
    requires g.lock.None?
    ensures CallSteps(g, id, ReqAcquire(r), if g.reason.None? then 5 else 4) == (Requesting(g, r), ReqReturned(r))
  {
    var held := g.(lock := Some(id));
    var done := Requesting(g, r).(lock := Some(id), event := g.event);
    assert CallSteps(done, id, ReqRelease(r), 2) == CallSteps(done.(lock := None), id, ReqSet(r), 1);
    if g.reason.None? {
      assert CallSteps(held, id, ReqTest(r), 4) == CallSteps(held, id, ReqWrite(r), 3);
      assert CallSteps(held, id, ReqWrite(r), 3) == CallSteps(done, id, ReqRelease(r), 2);
    } else {
      assert CallSteps(held, id, ReqTest(r), 3) == CallSteps(done, id, ReqRelease(r), 2);
    }
  }

  /** A request that no other call interrupts. */
  lemma RequestAlone(s: State, id: nat)
    requires id < |s.calls| && s.calls[id].ReqAcquire? && s.shared.lock.None?
    ensures Exec(s, Moves(id, if s.shared.reason.None? then 5 else 4)) ==
            State(Requesting(s.shared, s.calls[id].wanted), s.calls[id := ReqReturned(s.calls[id].wanted)])
  {
    hide Exec, CallSteps, Requesting, Moves;
    RequestSteps(s.shared, id, s.calls[id].wanted);
    ExecMoves(s, id, if s.shared.reason.None? then 5 else 4);
  }

  /** The number of steps of an uninterrupted check. */
  function CheckLength(g: Shared): nat {
    if g.event || !Passed(g) then 2 else if g.reason.None? then 8 else 7
  }

  lemma DeadlineSteps(g: Shared, id: nat)
    requires g.lock.None? && Passed(g)
    ensures var h := Requesting(g, TimedOut);
            CallSteps(g, id, ChkAcquire, if g.reason.None? then 6 else 5) == (h, ChkRaised(h.reason.value))
  {
    var held := g.(lock := Some(id));
    var done := Requesting(g, TimedOut).(lock := Some(id), event := g.event);
    var r := done.reason.value;
    assert CallSteps(done, id, ChkRelease(r), 2) == CallSteps(done.(lock := None), id, ChkSet(r), 1);
    assert CallSteps(done, id, ChkLoad, 3) == CallSteps(done, id, ChkRelease(r), 2);
    if g.reason.None? {
      assert CallSteps(held, id, ChkTest, 5) == CallSteps(held, id, ChkWrite, 4);
      assert CallSteps(held, id, ChkWrite, 4) == CallSteps(done, id, ChkLoad, 3);
    } else {
      assert CallSteps(held, id, ChkTest, 4) == CallSteps(done, id, ChkLoad, 3);
    }
  }

  lemma CheckSteps(g: Shared, id: nat)
    requires g.lock.None?
    ensures CallSteps(g, id, ChkEvent, CheckLength(g)) ==
            match Checking(g).1
            case Some(r) => (Checking(g).0, ChkRaised(r))
            case None => (Checking(g).0, ChkReturned)
  {
    if g.event {
      assert CallSteps(g, id, ChkEvent, 2) == CallSteps(g, id, ChkReason, 1);
    } else if Passed(g) {
      var n := CheckLength(g);
      assert CallSteps(g, id, ChkEvent, n) == CallSteps(g, id, ChkDeadline, n - 1);
      assert CallSteps(g, id, ChkDeadline, n - 1) == CallSteps(g, id, ChkAcquire, n - 2);
      DeadlineSteps(g, id);
    } else {
      assert CallSteps(g, id, ChkEvent, 2) == CallSteps(g, id, ChkDeadline, 1);
    }
  }

  /** A check that no other call interrupts. */
  lemma CheckAlone(s: State, id: nat)
    requires id < |s.calls| && s.calls[id].ChkEvent? && s.shared.lock.None?
    ensures Exec(s, Moves(id, CheckLength(s.shared))) ==
            var (h, raised) := Checking(s.shared);
            State(h, s.calls[id := match raised case Some(r) => ChkRaised(r) case None => ChkReturned])
  {
    hide Exec, CallSteps, Checking, Moves, CheckLength;
    CheckSteps(s.shared, id);
    ExecMoves(s, id, CheckLength(s.shared));
  }

  lemma LateBegin()
    ensures Exec(Fresh(Some(1.0), 0.0), [Request(Cancelled), Tick(2.0), Check]) ==
            State(Shared(Some(1.0), None, None, false, 2.0), [ReqAcquire(Cancelled), ChkEvent])
  {
    var s0 := Fresh(Some(1.0), 0.0);
    var begin := [Request(Cancelled), Tick(2.0), Check];
    assert begin[..2][..1][..0] == [];
    assert Exec(s0, begin[..2][..1]) == State(s0.shared, [ReqAcquire(Cancelled)]);
    assert Exec(s0, begin[..2]) == State(s0.shared.(clock := 2.0), [ReqAcquire(Cancelled)]);
  }

  /**
   * A request that began before the deadline was even looked at can lose to it: the documentation's
   * "an explicit request always wins" holds only for a request that is in the lock first.
   */
  lemma DeadlineCanWin() returns (schedule: seq<Action>)
    ensures |schedule| > 0 && schedule[0] == Request(Cancelled)
    ensures After(Some(1.0), 0.0, schedule).calls == [ReqReturned(Cancelled), ChkRaised(TimedOut)]
  {
    var s0 := Fresh(Some(1.0), 0.0);
    var begin := [Request(Cancelled), Tick(2.0), Check];
    var s1 := State(Shared(Some(1.0), None, None, false, 2.0), [ReqAcquire(Cancelled), ChkEvent]);
    LateBegin();
    var checking := begin + Moves(1, 8);
    hide Exec, Moves;
    ExecConcat(s0, begin, Moves(1, 8));
    CheckAlone(s1, 1);
    schedule := checking + Moves(0, 4);
    ExecConcat(s0, checking, Moves(0, 4));
    RequestAlone(Exec(s0, checking), 0);
  }

  /**
   * The converse for a caller: as long as no reason is recorded and nobody is inside the lock, the run can still go on
   * so that a check raises the timeout, whatever requests have begun.
   */
  lemma DeadlineStillCanWin(deadline: real, clock: real, before: seq<Action>) returns (after: seq<Action>)
    requires var g := After(Some(deadline), clock, before).shared; g.reason.None? && g.lock.None?
    ensures var s, t := After(Some(deadline), clock, before), After(Some(deadline), clock, before + after);
            |s.calls| < |t.calls| && t.calls[|s.calls|] == ChkRaised(TimedOut)
  {
    var s := After(Some(deadline), clock, before);
    var begin := [Tick(deadline), Check];
    ReachableState(Some(deadline), clock, before);
    LateCheck(s, deadline);
    hide Exec, Moves, Inv;
    var late := Exec(s, begin);
    after := begin + Moves(|s.calls|, CheckLength(late.shared));
    CheckAlone(late, |s.calls|);
    ExecConcat(s, begin, Moves(|s.calls|, CheckLength(late.shared)));
    ExecConcat(Fresh(Some(deadline), clock), before, after);
  }

  lemma LateCheck(s: State, deadline: real)
    requires s.shared.deadline == Some(deadline)
    ensures var late := Exec(s, [Tick(deadline), Check]);
            && late.calls == s.calls + [ChkEvent] && Passed(late.shared)
            && late.shared.reason == s.shared.reason && late.shared.lock == s.shared.lock
            && late.shared.event == s.shared.event
  {
    var begin := [Tick(deadline), Check];
    assert begin[..1] == [Tick(deadline)] && begin[..1][..0] == [];
    assert Exec(s, begin[..1]) == Step(s, Tick(deadline));
  }

  // ----- The token as its callers hold it -----------------------------------------------------

  datatype CreateError = DeadlineNotPositive

  class CancellationToken {
    const deadline: Option<real>
    var reason: Option<Reason>
    var event: bool

    constructor (deadline: Option<real>)
      ensures this.deadline == deadline && reason == None && !event
    {
      this.deadline := deadline;
      reason := None;
      event := false;
    }

    /** The token's fields at time `now`, with no call inside the lock. */
    ghost function View(now: real): Shared
      reads this
    {
      Shared(deadline, None, reason, event, now)
    }

    /** CancellationToken(deadline_monotonic=...): a deadline that is not positive is refused. */
    static method Create(deadline: Option<real>) returns (r: Result<CancellationToken, CreateError>)
      ensures r.Err? <==> deadline.Some? && deadline.value <= 0.0
      ensures r.Ok? ==> fresh(r.value) && forall now: real :: r.value.View(now) == Fresh(deadline, now).shared
    {
      if deadline.Some? && !(deadline.value > 0.0) {
        return Err(DeadlineNotPositive);
      }
      var token := new CancellationToken(deadline);
      r := Ok(token);
    }

    method Request(wanted: Reason)
      modifies this
      ensures forall now: real :: View(now) == Requesting(old(View(now)), wanted)
    {
      if reason == None {
        reason := Some(wanted);
      }
      event := true;
    }

    /** Some(reason) is the error raised. */
    method Check(now: real) returns (raised: Option<Reason>)
      modifies this
      ensures (View(now), raised) == Checking(old(View(now)))
    {
      if event {
        return Some(if reason.Some? then reason.value else Cancelled);
      }
      if deadline.Some? && now >= deadline.value {
        if reason == None {
          reason := Some(TimedOut);
        }
        raised := reason;
        event := true;
        return;
      }
      raised := None;
    }
  }
}
