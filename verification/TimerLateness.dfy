/** How late timers fire. A sweep comes at most every tenth of a second, at the end of a frame. */
module TimerLateness {
  import opened Basics
  import opened Scheduling
  import opened TimerRuns

  /** An event that does nothing to a timer itself. */
  ghost predicate Spares<T>(e: Event<T>, id: T) {
    match e
    case Create(other, _, _, _) => other != id
    case Remove(other) => other != id
    case Adjust(other, _, _) => other != id
    case Execute(other, _, _) => other != id
    case Frame(_, _) => true
    case Clear => false
  }

  /** Every frame comes at most `d` after the one before it, the first at most `d` after `last`. */
  ghost predicate Steady<T>(last: real, events: seq<Event<T>>, d: real)
    decreases |events|
  {
    events == [] || (
      if events[0].Frame? then events[0].time <= last + d && Steady(events[0].time, events[1..], d)
      else Steady(last, events[1..], d))
  }

  ghost function LastFrame<T>(last: real, events: seq<Event<T>>): real
    decreases |events|
  {
    if events == [] then last else LastFrame(if events[0].Frame? then events[0].time else last, events[1..])
  }

  lemma SparedStays<T>(s: State<T>, e: Event<T>, t: Timer<T>)
    requires Enabled(s, e) && t in s.timers && Spares(e, t.id)
    requires e.Frame? && s.next <= e.time ==> !Due(t, e.time)
    ensures t in Step(s, e).timers
  {
    var k :| 0 <= k < |s.timers| && s.timers[k] == t;
    match e
    case Adjust(id, time, change) => assert Adjusted(s.timers, id, change, time)[k] == t;
    case Execute(id, time, changes) => assert ExecutedIn(s.timers, id, changes, time)[k] == t;
    case Frame(time, answers) => if s.next <= time { SweepLeaves(s.timers, time, answers, t); }
    case _ =>
  }

  lemma {:induction false} DueFires<T>(timers: seq<Timer<T>>, now: real, answers: seq<Answer>, t: Timer<T>)
    requires |answers| == |timers| && t in timers && Due(t, now)
    ensures Entry(t.id, now, Firing) in Fires(timers, now, answers)
    decreases |timers|
  {
    if timers[0] == t {
      assert FiresOne(t, now, answers[0])[0] == Entry(t.id, now, Firing);
    } else {
      DueFires(timers[1..], now, answers[1..], t);
    }
  }

  function DueTime<T>(t: Timer<T>): real { t.lastExec + t.interval }

  /** The throttle's time is at most a tenth of a second past the due time, and the last frame was no chance
      to fire. */
  predicate Waiting<T>(next: real, t: Timer<T>, last: real) {
    next <= DueTime(t) + THROTTLE && (last < DueTime(t) || last < next)
  }

  ghost predicate FiredBetween<T>(log: seq<Entry<T>>, id: T, from: real, before: real) {
    exists k :: 0 <= k < |log| && log[k].id == id && log[k].act.Firing? && from <= log[k].time < before
  }

  lemma FiredConcat<T>(a: seq<Entry<T>>, b: seq<Entry<T>>, id: T, from: real, before: real)
    requires FiredBetween(a, id, from, before) || FiredBetween(b, id, from, before)
    ensures FiredBetween(a + b, id, from, before)
  {
    if FiredBetween(a, id, from, before) {
      var k :| 0 <= k < |a| && a[k].id == id && a[k].act.Firing? && from <= a[k].time < before;
      assert (a + b)[k] == a[k];
    } else {
      var k :| 0 <= k < |b| && b[k].id == id && b[k].act.Firing? && from <= b[k].time < before;
      assert (a + b)[|a| + k] == b[k];
    }
  }

  /** Events that leave a timer to itself, in frames at most `d` apart. */
  ghost predicate LeftAlone<T>(s: State<T>, t: Timer<T>, last: real, events: seq<Event<T>>, d: real) {
    && CanRun(s, events) && Steady(last, events, d)
    && forall k :: 0 <= k < |events| ==> Spares(events[k], t.id)
  }

  /** With frames at most `d` apart, a waiting timer left alone fires less than 0.1 + d after it is due. */
  lemma {:induction false} WaitingFires<T>(s: State<T>, events: seq<Event<T>>, t: Timer<T>, last: real, d: real)
    requires LeftAlone(s, t, last, events, d) && t in s.timers && !t.paused && Waiting(s.next, t, last)
    requires LastFrame(last, events) >= DueTime(t) + 0.1
    ensures FiredBetween(RunLog(s, events), t.id, DueTime(t), DueTime(t) + 0.1 + d)
    decreases |events|
  {
    var due, e := DueTime(t), events[0];
    var rest, s1 := events[1..], Step(s, events[0]);
    if e.Frame? && s.next <= e.time && due <= e.time {
      DueFires(s.timers, e.time, e.answers, t);
      FiredConcat(Logged(s, e), RunLog(s1, rest), t.id, due, due + THROTTLE + d);
    } else {
      SparedStays(s, e, t);
      WaitingFires(s1, rest, t, if e.Frame? then e.time else last, d);
      FiredConcat(Logged(s, e), RunLog(s1, rest), t.id, due, due + THROTTLE + d);
    }
  }

  /** A sweep before a timer is due leaves it waiting, in any state. */
  lemma SweepLeavesWaiting<T>(s: State<T>, now: real, answers: seq<Answer>, t: Timer<T>)
    requires s.next <= now && |answers| == |s.timers|
    requires t in s.timers && !t.paused && now < DueTime(t)
    ensures var s' := Step(s, Frame(now, answers)); t in s'.timers && Waiting(s'.next, t, now)
  {
    SweepLeaves(s.timers, now, answers, t);
  }

  // ----- every timer of every run ----------------------------------------------------------------------

  predicate PositiveChange(change: Change) { change.NewInterval? ==> change.interval > 0.0 }

  ghost predicate PositiveChanges(changes: seq<Change>) {
    forall k :: 0 <= k < |changes| ==> PositiveChange(changes[k])
  }

  ghost predicate PositiveAnswers(answers: seq<Answer>) {
    forall k :: 0 <= k < |answers| ==> PositiveChanges(answers[k].changes)
  }

  /** The intervals timers are changed to are above zero, as those they are created with. */
  ghost predicate Positive<T>(e: Event<T>) {
    match e
    case Adjust(_, _, change) => PositiveChange(change)
    case Execute(_, _, changes) => PositiveChanges(changes)
    case Frame(_, answers) => PositiveAnswers(answers)
    case _ => true
  }

  function TimeOf<T>(e: Event<T>, now: real): real {
    match e
    case Create(_, time, _, _) => time
    case Adjust(_, time, _) => time
    case Execute(_, time, _) => time
    case Frame(time, _) => time
    case _ => now
  }

  /** Time does not go back. */
  ghost predicate Orderly<T>(now: real, events: seq<Event<T>>)
    decreases |events|
  {
    events == [] || (
      var e := events[0];
      now <= TimeOf(e, now) && Positive(e) && Orderly(TimeOf(e, now), events[1..]))
  }

  /** What holds of every timer at any time. */
  predicate Prompt<T>(next: real, t: Timer<T>, now: real, last: real) {
    t.interval > 0.0 && t.lastExec <= now && (!t.paused ==> Waiting(next, t, last))
  }

  ghost predicate AllPrompt<T>(next: real, timers: seq<Timer<T>>, now: real, last: real) {
    forall k :: 0 <= k < |timers| ==> Prompt(next, timers[k], now, last)
  }

  predicate Throttled(next: real, now: real, last: real) { last <= now && next <= now + THROTTLE }

  ghost predicate Ready<T>(s: State<T>, now: real, last: real) {
    Throttled(s.next, now, last) && AllPrompt(s.next, s.timers, now, last)
  }

  lemma {:induction false} ChangesKeepPrompt<T>(next: real, t: Timer<T>, changes: seq<Change>, now: real, last: real)
    requires Throttled(next, now, last) && Prompt(next, t, now, last) && PositiveChanges(changes)
    ensures Prompt(next, ChangedAll(t, changes, now), now, last)
    decreases |changes|
  {
    if changes != [] {
      assert PositiveChange(changes[0]);
      assert forall k :: 0 <= k < |changes| - 1 ==> changes[1..][k] == changes[k + 1];
      ChangesKeepPrompt(next, Changed(t, changes[0], now), changes[1..], now, last);
    }
  }

  lemma ExecutedIsPrompt<T>(next: real, t: Timer<T>, changes: seq<Change>, now: real, last: real)
    requires Throttled(next, now, last) && t.interval > 0.0 && PositiveChanges(changes)
    ensures Prompt(next, Executed(t, changes, now), now, last)
  {
    ChangesKeepPrompt(next, t.(lastExec := now), changes, now, last);
  }

  /** A sweep leaves all timers waiting for the next: those not due are still to come, the others start anew. */
  lemma {:induction false} SweepKeepsPrompt<T>(timers: seq<Timer<T>>, now: real, answers: seq<Answer>)
    requires |answers| == |timers| && PositiveAnswers(answers)
    requires forall k :: 0 <= k < |timers| ==> timers[k].interval > 0.0 && timers[k].lastExec <= now
    ensures AllPrompt(now + THROTTLE, Kept(timers, now, answers), now, now)
    decreases |timers|
  {
    if timers != [] {
      var t, rest := timers[0], Kept(timers[1..], now, answers[1..]);
      SweepKeepsPrompt(timers[1..], now, answers[1..]);
      assert PositiveChanges(answers[0].changes);
      if Due(t, now) { ExecutedIsPrompt(now + THROTTLE, t, answers[0].changes, now, now); }
      assert AllPrompt(now + THROTTLE, KeptOne(t, now, answers[0]), now, now);
      PromptConcat(now + THROTTLE, KeptOne(t, now, answers[0]), rest, now, now);
    }
  }

  lemma PromptConcat<T>(next: real, a: seq<Timer<T>>, b: seq<Timer<T>>, now: real, last: real)
    requires AllPrompt(next, a, now, last) && AllPrompt(next, b, now, last)
    ensures AllPrompt(next, a + b, now, last)
  {
  }

  lemma ErasePrompt<T>(next: real, timers: seq<Timer<T>>, id: T, now: real, last: real)
    requires AllPrompt(next, timers, now, last)
    ensures AllPrompt(next, Erase(timers, id), now, last)
  {
    forall k | 0 <= k < |Erase(timers, id)|
      ensures Prompt(next, Erase(timers, id)[k], now, last)
    {
      assert Erase(timers, id)[k] in timers;
    }
  }

  lemma ExecuteKeepsPrompt<T>(next: real, timers: seq<Timer<T>>, id: T, changes: seq<Change>, now: real, last: real)
    requires Throttled(next, now, last) && AllPrompt(next, timers, now, last) && PositiveChanges(changes)
    ensures AllPrompt(next, ExecutedIn(timers, id, changes, now), now, last)
  {
    forall k | 0 <= k < |timers|
      ensures Prompt(next, ExecutedIn(timers, id, changes, now)[k], now, last)
    {
      if timers[k].id == id { ExecutedIsPrompt(next, timers[k], changes, now, last); }
    }
  }

  lemma AdjustKeepsPrompt<T>(next: real, timers: seq<Timer<T>>, id: T, change: Change, now: real, last: real)
    requires Throttled(next, now, last) && AllPrompt(next, timers, now, last) && PositiveChange(change)
    ensures AllPrompt(next, Adjusted(timers, id, change, now), now, last)
  {
  }

  lemma LaterIsPrompt<T>(s: State<T>, now: real, now': real, last: real)
    requires Ready(s, now, last) && now <= now'
    ensures Ready(s, now', last)
  {
  }

  lemma StepKeepsReady<T>(s: State<T>, e: Event<T>, now: real, last: real)
    requires Ready(s, now, last) && Enabled(s, e) && now <= TimeOf(e, now) && Positive(e)
    ensures Ready(Step(s, e), TimeOf(e, now), if e.Frame? then e.time else last)
  {
    LaterIsPrompt(s, now, TimeOf(e, now), last);
    match e
    case Create(id, time, interval, paused) =>
      if interval > 0.0 { PromptConcat(s.next, s.timers, [Timer(id, interval, paused, time)], time, last); }
    case Remove(id) => ErasePrompt(s.next, s.timers, id, now, last);
    case Adjust(id, time, change) => AdjustKeepsPrompt(s.next, s.timers, id, change, time, last);
    case Execute(id, time, changes) => ExecuteKeepsPrompt(s.next, s.timers, id, changes, time, last);
    case Frame(time, answers) => if s.next <= time { SweepKeepsPrompt(s.timers, time, answers); }
    case Clear =>
  }

  lemma {:induction false} RunKeepsReady<T>(s: State<T>, events: seq<Event<T>>, now: real, last: real)
    requires Ready(s, now, last) && CanRun(s, events) && Orderly(now, events)
    ensures forall t :: t in Run(s, events).timers && !t.paused ==>
              Waiting(Run(s, events).next, t, LastFrame(last, events))
    decreases |events|
  {
    if events == [] {
      assert forall t :: t in s.timers ==> Prompt(s.next, t, now, last);
    } else {
      hide Ready, Enabled, Step, Positive, Waiting;
      var e := events[0];
      StepKeepsReady(s, e, now, last);
      RunKeepsReady(Step(s, e), events[1..], TimeOf(e, now), if e.Frame? then e.time else last);
    }
  }

  /** From a start without timers, whose throttle is at most a tenth of a second ahead, time never going
      back: with frames at most `d` apart from then on, every unpaused timer of every state reached, left
      alone, fires less than 0.1 + d after it is due. */
  lemma NeverTooLate<T>(next: real, now: real, before: seq<Event<T>>, t: Timer<T>, after: seq<Event<T>>, d: real)
    requires next <= now + 0.1
    requires CanRun(State([], next), before) && Orderly(now, before)
    requires t in Run(State([], next), before).timers && !t.paused
    requires LeftAlone(Run(State([], next), before), t, LastFrame(now, before), after, d)
    requires LastFrame(LastFrame(now, before), after) >= DueTime(t) + 0.1
    ensures FiredBetween(RunLog(Run(State([], next), before), after), t.id, DueTime(t), DueTime(t) + 0.1 + d)
  {
    RunKeepsReady(State([], next), before, now, now);
    WaitingFires(Run(State([], next), before), after, t, LastFrame(now, before), d);
  }

  lemma {:induction false} RunSplits<T>(s: State<T>, a: seq<Event<T>>, b: seq<Event<T>>)
    requires CanRun(s, a + b)
    ensures CanRun(s, a) && CanRun(Run(s, a), b)
    ensures Run(s, a + b) == Run(Run(s, a), b)
    decreases |a|
  {
    hide Step, Enabled;
    if a == [] {
      assert a + b == b;
    } else {
      assert (a + b)[0] == a[0] && (a + b)[1..] == a[1..] + b;
      RunSplits(Step(s, a[0]), a[1..], b);
    }
  }

  lemma {:induction false} LastFrameSplits<T>(last: real, a: seq<Event<T>>, b: seq<Event<T>>)
    ensures LastFrame(last, a + b) == LastFrame(LastFrame(last, a), b)
    decreases |a|
  {
    if a == [] {
      assert a + b == b;
    } else {
      assert (a + b)[0] == a[0] && (a + b)[1..] == a[1..] + b;
      LastFrameSplits(if a[0].Frame? then a[0].time else last, a[1..], b);
    }
  }

  /** A timer created with an interval above zero is there when the call returns. */
  lemma CreatedIsThere<T>(s: State<T>, before: seq<Event<T>>, id: T, time: real, interval: real, paused: bool)
    requires CanRun(s, before + [Create(id, time, interval, paused)]) && interval > 0.0
    ensures Timer(id, interval, paused, time) in Run(s, before + [Create(id, time, interval, paused)]).timers
  {
    var c := Create(id, time, interval, paused);
    RunSplits(s, before, [c]);
    assert [c][1..] == [];
    assert Run(Run(s, before), [c]) == Step(Run(s, before), c);
    assert Step(Run(s, before), c).timers[|Run(s, before).timers|] == Timer(id, interval, paused, time);
  }

  /** So a timer created in such a run, unpaused and then left alone, fires when its interval has passed and
      less than 0.1 + d later. */
  lemma CreatedFires<T>(next: real, now: real, before: seq<Event<T>>, id: T, time: real, interval: real,
                        after: seq<Event<T>>, d: real)
    requires next <= now + 0.1 && interval > 0.0
    requires var begun := before + [Create(id, time, interval, false)];
             && CanRun(State([], next), begun) && Orderly(now, begun)
             && CanRun(Run(State([], next), begun), after)
    requires Steady(LastFrame(now, before), after, d)
    requires LastFrame(LastFrame(now, before), after) >= time + interval + 0.1
    requires forall k :: 0 <= k < |after| ==> Spares(after[k], id)
    ensures FiredBetween(RunLog(Run(State([], next), before + [Create(id, time, interval, false)]), after), id,
                         time + interval, time + interval + 0.1 + d)
  {
    var c := Create(id, time, interval, false);
    var t := Timer(id, interval, false, time);
    CreatedIsThere(State([], next), before, id, time, interval, false);
    LastFrameSplits(now, before, [c]);
    assert [c][1..] == [];
    assert LastFrame(LastFrame(now, before), [c]) == LastFrame(now, before);
    hide Run, CanRun, RunLog, Orderly, Steady, LastFrame, FiredBetween, Spares;
    NeverTooLate(next, now, before + [c], t, after, d);
  }

  // ----- timers that are gone --------------------------------------------------------------------------

  lemma AbsentStaysAbsent<T>(s: State<T>, e: Event<T>, id: T)
    requires Enabled(s, e) && !Has(s.timers, id) && !(e.Create? && e.id == id)
    ensures !Has(Step(s, e).timers, id)
    ensures forall k :: 0 <= k < |Logged(s, e)| ==> Logged(s, e)[k].id != id
  {
    match e
    case Create(other, time, interval, paused) =>
      if interval > 0.0 { HasConcat(s.timers, [Timer(other, interval, paused, time)], id); }
    case Remove(other) =>
      forall k | 0 <= k < |Erase(s.timers, other)|
        ensures Erase(s.timers, other)[k].id != id
      {
        assert Erase(s.timers, other)[k] in s.timers;
      }
    case Frame(time, answers) =>
      if s.next <= time {
        SweepKeeps(s.timers, time, answers, id);
        forall k | 0 <= k < |Fires(s.timers, time, answers)|
          ensures Fires(s.timers, time, answers)[k].id != id
        {
          FiresOnly(s.timers, time, answers, Fires(s.timers, time, answers)[k]);
        }
      }
    case _ =>
  }

  /** What is not in the list fires in no run that does not create it. */
  lemma {:induction false} AbsentNeverFires<T>(s: State<T>, events: seq<Event<T>>, id: T)
    requires CanRun(s, events) && !Has(s.timers, id)
    requires forall k :: 0 <= k < |events| ==> !(events[k].Create? && events[k].id == id)
    ensures forall k :: 0 <= k < |RunLog(s, events)| ==> RunLog(s, events)[k].id != id
    decreases |events|
  {
    if events != [] {
      hide Step, Logged, Enabled, Has;
      AbsentStaysAbsent(s, events[0], id);
      AbsentNeverFires(Step(s, events[0]), events[1..], id);
    }
  }

  lemma {:induction false} ErasedIsAbsent<T>(timers: seq<Timer<T>>, id: T)
    requires Distinct(timers)
    ensures !Has(Erase(timers, id), id)
    decreases |timers|
  {
    if timers != [] {
      var rest := timers[1..];
      assert timers == [timers[0]] + rest;
      DistinctCons(timers[0], rest);
      if timers[0].id != id {
        ErasedIsAbsent(rest, id);
        HasConcat([timers[0]], Erase(rest, id), id);
      }
    }
  }

  /** A removed timer never fires again, nor does one whose callback ended it, nor any once all are cleared. */
  lemma GoneNeverFires<T>(next: real, before: seq<Event<T>>, e: Event<T>, after: seq<Event<T>>, id: T)
    requires CanRun(State([], next), before)
    requires var s := Run(State([], next), before); Enabled(s, e) && CanRun(Step(s, e), after)
    requires var s := Run(State([], next), before);
             || e.Clear? || (e.Remove? && e.id == id)
             || (e.Frame? && s.next <= e.time
                 && forall k :: 0 <= k < |s.timers| && s.timers[k].id == id ==>
                      var t := s.timers[k];
                      !t.paused && t.lastExec + t.interval <= e.time && !e.answers[k].keep)
    requires forall k :: 0 <= k < |after| ==> !(after[k].Create? && after[k].id == id)
    ensures var log := RunLog(Step(Run(State([], next), before), e), after);
            forall k :: 0 <= k < |log| ==> log[k].id != id
  {
    var s := Run(State([], next), before);
    RunKeepsSound(State([], next), [], before);
    if e.Remove? { ErasedIsAbsent(s.timers, id); }
    if e.Frame? { SweepKeeps(s.timers, e.time, e.answers, id); }
    AbsentNeverFires(Step(s, e), after, id);
  }

  // ----- when the throttle is ahead --------------------------------------------------------------------

  /** When a timer first fires. */
  ghost function FirstFiring<T>(log: seq<Entry<T>>, id: T): Option<real> {
    if log == [] then None
    else if log[0].id == id && log[0].act.Firing? then Some(log[0].time)
    else FirstFiring(log[1..], id)
  }

  /** The first frame from a time on. */
  ghost function FirstFrame<T>(events: seq<Event<T>>, from: real): Option<real> {
    if events == [] then None
    else if events[0].Frame? && events[0].time >= from then Some(events[0].time)
    else FirstFrame(events[1..], from)
  }

  lemma {:induction false} FirstFiringConcat<T>(a: seq<Entry<T>>, b: seq<Entry<T>>, id: T)
    ensures FirstFiring(a + b, id) == if FirstFiring(a, id).Some? then FirstFiring(a, id) else FirstFiring(b, id)
    decreases |a|
  {
    if a == [] {
      assert a + b == b;
    } else {
      assert (a + b)[0] == a[0] && (a + b)[1..] == a[1..] + b;
      FirstFiringConcat(a[1..], b, id);
    }
  }

  lemma {:induction false} NoFiring<T>(log: seq<Entry<T>>, id: T)
    requires forall k :: 0 <= k < |log| ==> !log[k].act.Firing?
    ensures FirstFiring(log, id) == None
    decreases |log|
  {
    if log != [] { NoFiring(log[1..], id); }
  }

  lemma {:induction false} FirstFiringAt<T>(log: seq<Entry<T>>, id: T, time: real)
    requires forall k :: 0 <= k < |log| ==> log[k].time == time
    requires Entry(id, time, Firing) in log
    ensures FirstFiring(log, id) == Some(time)
    decreases |log|
  {
    if !(log[0].id == id && log[0].act.Firing?) { FirstFiringAt(log[1..], id, time); }
  }

  lemma {:induction false} FiresNow<T>(timers: seq<Timer<T>>, now: real, answers: seq<Answer>)
    requires |answers| == |timers|
    ensures forall k :: 0 <= k < |Fires(timers, now, answers)| ==> Fires(timers, now, answers)[k].time == now
    decreases |timers|
  {
    if timers != [] { FiresNow(timers[1..], now, answers[1..]); }
  }

  lemma OnlySweepsFire<T>(s: State<T>, e: Event<T>)
    requires Enabled(s, e) && !(e.Frame? && s.next <= e.time)
    ensures forall k :: 0 <= k < |Logged(s, e)| ==> !Logged(s, e)[k].act.Firing?
  {
  }

  /** If the throttle is past the due time, a timer left alone fires first at exactly the first frame the
      throttle lets through, or never when there is none. */
  lemma {:induction false} FiresAtFirstFrame<T>(s: State<T>, events: seq<Event<T>>, t: Timer<T>)
    requires CanRun(s, events) && forall k :: 0 <= k < |events| ==> Spares(events[k], t.id)
    requires t in s.timers && !t.paused && s.next >= DueTime(t)
    ensures FirstFiring(RunLog(s, events), t.id) == FirstFrame(events, s.next)
    decreases |events|
  {
    if events != [] {
      var e, rest := events[0], events[1..];
      FirstFiringConcat(Logged(s, e), RunLog(Step(s, e), rest), t.id);
      if e.Frame? && s.next <= e.time {
        DueFires(s.timers, e.time, e.answers, t);
        FiresNow(s.timers, e.time, e.answers);
        FirstFiringAt(Logged(s, e), t.id, e.time);
      } else {
        OnlySweepsFire(s, e);
        NoFiring(Logged(s, e), t.id);
        SparedStays(s, e, t);
        FiresAtFirstFrame(Step(s, e), rest, t);
      }
    }
  }

  /** Whatever else happens, in frames at most `d` apart that go on long enough, the timer is on time. */
  ghost predicate AlwaysOnTime<T(!new)>(s: State<T>, t: Timer<T>, d: real) {
    forall last: real, events: seq<Event<T>> ::
      LeftAlone(s, t, last, events, d) && LongEnough(s, t, last, events) ==>
        FiredBetween(RunLog(s, events), t.id, DueTime(t), DueTime(t) + 0.1 + d)
  }

  /** The last frame was no chance to fire; the frames to come reach past the throttle and the due time. */
  ghost predicate LongEnough<T>(s: State<T>, t: Timer<T>, last: real, events: seq<Event<T>>) {
    && (last < DueTime(t) || last < s.next)
    && LastFrame(last, events) >= DueTime(t) + THROTTLE && LastFrame(last, events) >= s.next
  }

  /** The frame that shows a timer late when the throttle is more than a tenth of a second past its due time. */
  lemma LateFrame<T>(s: State<T>, t: Timer<T>, d: real) returns (last: real, e: Event<T>)
    requires d > 0.0 && s.next > DueTime(t) + THROTTLE
    ensures LeftAlone(s, t, last, [e], d) && LongEnough(s, t, last, [e])
    ensures !FiredBetween(RunLog(s, [e]), t.id, DueTime(t), DueTime(t) + THROTTLE + d)
  {
    last := if s.next - d < DueTime(t) + THROTTLE then DueTime(t) + THROTTLE else s.next - d;
    var answers := seq(|s.timers|, _ => Answer(true, []));
    e := Frame(last + d, answers);
    assert [e][1..] == [];
    FiresNow(s.timers, last + d, answers);
    assert RunLog(s, [e]) == Fires(s.timers, last + d, answers) + [];
  }

  /** A timer left alone is always on time exactly when the throttle is at most a tenth of a second past its
      due time. A throttle set on another map, where time had run further, is ahead by more. */
  lemma OnTimeIff<T(!new)>(s: State<T>, t: Timer<T>, d: real)
    requires t in s.timers && !t.paused && d > 0.0
    ensures AlwaysOnTime(s, t, d) <==> s.next <= DueTime(t) + 0.1
  {
    if s.next <= DueTime(t) + THROTTLE {
      forall last: real, events: seq<Event<T>> | LeftAlone(s, t, last, events, d) && LongEnough(s, t, last, events)
        ensures FiredBetween(RunLog(s, events), t.id, DueTime(t), DueTime(t) + THROTTLE + d)
      {
        WaitingFires(s, events, t, last, d);
      }
    } else {
      var last, e := LateFrame(s, t, d);
    }
  }

  /** Frames before the throttle's time sweep nothing. The throttle is never set back, so when time starts
      again lower, on a new map, no timer fires until time has caught up. */
  lemma {:induction false} StallsUntilNext<T>(s: State<T>, events: seq<Event<T>>)
    requires CanRun(s, events)
    requires forall k :: 0 <= k < |events| && events[k].Frame? ==> events[k].time < s.next
    ensures Firings(RunLog(s, events)) == [] && Run(s, events).next == s.next
    decreases |events|
  {
    if events != [] {
      var e, rest := events[0], events[1..];
      StallsUntilNext(Step(s, e), rest);
      FiringsConcat(Logged(s, e), RunLog(Step(s, e), rest));
      if e.Execute? {
        ChangesFireNone(e.id, e.changes, e.time);
        FiringsConcat([Entry(e.id, e.time, Executing)], ChangeEntries(e.id, e.changes, e.time));
      }
    }
  }
}
