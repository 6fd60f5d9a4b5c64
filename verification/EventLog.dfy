/** The event log as text: one JSON object a line, other lines passed over. */
module EventLog {
  import opened Wrappers
  import opened Json
  import opened Text
  import JsonText
  import opened EventReplay
  import ActionReplay

  /** The event a line holds, if it holds one. */
  function EventOf(line: string): Option<Json> {
    match JsonText.Loads(Strip(line))
    case Some(event) => if event.Obj? then Some(event) else None
    case None => None
  }

  function Events(lines: seq<string>): seq<Json> {
    if lines == [] then []
    else (match EventOf(lines[0]) case Some(event) => [event] case None => []) + Events(lines[1..])
  }

  function EventsOf(text: string): seq<Json> {
    Events(SplitLines(text))
  }

  lemma BlankHoldsNothing(line: string)
    requires Strip(line) == []
    ensures EventOf(line) == None
  {
    assert JsonText.Read([]) == None;
  }

  lemma EventsNext(events: seq<Json>, lines: seq<string>, i: nat)
    requires i < |lines|
    ensures events + Events(lines[i..]) ==
            (match EventOf(lines[i]) case Some(event) => events + [event] case None => events) + Events(lines[i + 1..])
  {
    assert lines[i..][1..] == lines[i + 1..];
    hide EventOf;
  }

  /** _events_iter: the events in the order of their lines. */
  method ReadEvents(text: string) returns (events: seq<Json>)
    ensures events == EventsOf(text)
  {
    var lines := SplitLines(text);
    events := [];
    assert lines[0..] == lines;
    assert Events([]) == [];
    hide Strip, SplitLines, JsonText.Loads, Events;
    for i := 0 to |lines|
      invariant Events(lines) == events + Events(lines[i..])
    {
      EventsNext(events, lines, i);
      var line := Strip(lines[i]);
      if line == [] {
        BlankHoldsNothing(lines[i]);
      } else {
        match JsonText.Loads(line) {
          case Some(event) =>
            if event.Obj? {
              events := events + [event];
            }
          case None =>
        }
      }
    }
  }

  /** _applied_patch_from_events, from the text of the log on. */
  method AppliedPatchFromLog(text: string, hash: Hash) returns (r: Outcome)
    ensures r == Replay(EventsOf(text), hash)
  {
    var events := ReadEvents(text);
    r := AppliedPatch(events, hash);
  }

  lemma {:induction false} EventsConcat(a: seq<string>, b: seq<string>)
    ensures Events(a + b) == Events(a) + Events(b)
  {
    hide EventOf;
    if a == [] {
      assert a + b == b;
    } else {
      assert (a + b)[1..] == a[1..] + b;
      EventsConcat(a[1..], b);
    }
  }

  /**
   * A log that grows by whole lines: what the scans report on the longer log is what the machine reports when it goes
   * on from where it stood.
   */
  lemma GrowingLog(text: string, more: string, hash: Hash)
    requires text == [] || text[|text| - 1] == '\n'
    ensures Replay(EventsOf(text + more), hash) ==
            ActionReplay.Report(ActionReplay.RunOn(ActionReplay.Run(EventsOf(text), hash), EventsOf(more), hash))
  {
    hide Events, SplitLines, Replay, ActionReplay.Report, ActionReplay.RunOn;
    if text == [] {
      assert text + more == more;
      NoEvents(more);
    } else {
      SplitLinesMore(text, more);
      EventsConcat(SplitLines(text), SplitLines(more));
    }
    ActionReplay.ReplayIsReport(EventsOf(text + more), hash);
    ActionReplay.RunOnConcat([], EventsOf(text), EventsOf(more), hash);
  }

  lemma NoEvents(more: string)
    ensures EventsOf([]) == [] && EventsOf([]) + EventsOf(more) == EventsOf(more)
  {
    hide EventOf;
    assert SplitLines([]) == [];
  }
}
