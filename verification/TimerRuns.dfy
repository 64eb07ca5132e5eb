/** Timers over whole runs: when they fire, read off the log of all that happened to them. */
module TimerRuns {
  import opened Basics
  import opened Scheduling

  /** The acts that start a wait: creation, a new interval, an unpause, an execution. */
  predicate Starts(act: Act) {
    match act
    case Changing(change) => change.NewInterval? || !change.paused
    case _ => true
  }

  /** When the latest of them happened to a timer. */
  ghost function LastStart<T>(log: seq<Entry<T>>, id: T): Option<real> {
    if log == [] then None
    else
      var n := |log| - 1;
      if log[n].id == id && Starts(log[n].act) then Some(log[n].time) else LastStart(log[..n], id)
  }

  /** The interval last given to a timer. */
  ghost function IntervalIn<T>(log: seq<Entry<T>>, id: T): Option<real> {
    if log == [] then None
    else
      var n := |log| - 1;
      if log[n].id == id && log[n].act.Creating? then Some(log[n].act.interval)
      else if log[n].id == id && log[n].act.Changing? && log[n].act.change.NewInterval? then
        Some(log[n].act.change.interval)
      else IntervalIn(log[..n], id)
  }

  /** Whether it was last paused or unpaused. */
  ghost function PausedIn<T>(log: seq<Entry<T>>, id: T): Option<bool> {
    if log == [] then None
    else
      var n := |log| - 1;
      if log[n].id == id && log[n].act.Creating? then Some(log[n].act.paused)
      else if log[n].id == id && log[n].act.Changing? && log[n].act.change.NewPause? then Some(log[n].act.change.paused)
      else PausedIn(log[..n], id)
  }

  /** A timer's fields say what the log says. */
  ghost predicate RecordedIn<T>(log: seq<Entry<T>>, t: Timer<T>) {
    && LastStart(log, t.id) == Some(t.lastExec)
    && IntervalIn(log, t.id) == Some(t.interval)
    && PausedIn(log, t.id) == Some(t.paused)
  }

  /** A firing behind a history: the timer was not paused, and a whole interval had passed since the
      latest start of its wait. */
  ghost predicate Justified<T>(history: seq<Entry<T>>, fire: Entry<T>) {
    && PausedIn(history, fire.id) == Some(false)
    && LastStart(history, fire.id).Some? && IntervalIn(history, fire.id).Some?
    && LastStart(history, fire.id).value + IntervalIn(history, fire.id).value <= fire.time
  }

  ghost predicate AllJustified<T>(log: seq<Entry<T>>) {
    forall k :: 0 <= k < |log| && log[k].act.Firing? ==> Justified(log[..k], log[k])
  }

  lemma LogStep<T>(log: seq<Entry<T>>, e: Entry<T>)
    ensures (log + [e])[|log|] == e && (log + [e])[..|log|] == log && |log + [e]| == |log| + 1
  {
  }

  /** One entry: of another timer it changes no reading; of this one it does what its act says. */
  lemma Append<T>(log: seq<Entry<T>>, e: Entry<T>, t: Timer<T>)
    requires RecordedIn(log, t)
    ensures e.id != t.id ==> RecordedIn(log + [e], t)
    ensures e.id == t.id && e.act.Changing? ==> RecordedIn(log + [e], Changed(t, e.act.change, e.time))
    ensures e.id == t.id && (e.act.Firing? || e.act.Executing?) ==> RecordedIn(log + [e], t.(lastExec := e.time))
  {
  }

  lemma AppendCreation<T>(log: seq<Entry<T>>, t: Timer<T>)
    ensures RecordedIn(log + [Entry(t.id, t.lastExec, Creating(t.interval, t.paused))], t)
  {
  }

  lemma AppendJustified<T>(log: seq<Entry<T>>, e: Entry<T>)
    requires AllJustified(log) && (e.act.Firing? ==> Justified(log, e))
    ensures AllJustified(log + [e])
  {
    hide Justified;
    LogStep(log, e);
    forall k | 0 <= k <= |log| && (log + [e])[k].act.Firing?
      ensures Justified((log + [e])[..k], (log + [e])[k])
    {
      if k < |log| { assert (log + [e])[..k] == log[..k]; }
    }
  }

  lemma Regroup<A>(a: seq<A>, b: A, c: seq<A>)
    ensures a + ([b] + c) == a + [b] + c
  {
  }

  lemma {:induction false} AppendOthers<T>(log: seq<Entry<T>>, es: seq<Entry<T>>, t: Timer<T>)
    requires RecordedIn(log, t) && forall k :: 0 <= k < |es| ==> es[k].id != t.id
    ensures RecordedIn(log + es, t)
    decreases |es|
  {
    hide RecordedIn;
    if es == [] {
      assert log + es == log;
    } else {
      Append(log, es[0], t);
      AppendOthers(log + [es[0]], es[1..], t);
      Regroup(log, es[0], es[1..]);
      assert [es[0]] + es[1..] == es;
    }
  }

  lemma ChangesFirst<T>(id: T, changes: seq<Change>, now: real)
    requires changes != []
    ensures ChangeEntries(id, changes, now)
            == [Entry(id, now, Changing(changes[0]))] + ChangeEntries(id, changes[1..], now)
  {
  }

  /** The changes a callback makes to its own timer. */
  lemma {:induction false} AppendChanges<T>(log: seq<Entry<T>>, t: Timer<T>, changes: seq<Change>, now: real)
    requires AllJustified(log) && RecordedIn(log, t)
    ensures AllJustified(log + ChangeEntries(t.id, changes, now))
    ensures RecordedIn(log + ChangeEntries(t.id, changes, now), ChangedAll(t, changes, now))
    decreases |changes|
  {
    hide RecordedIn, AllJustified, ChangeEntries;
    if changes == [] {
      assert ChangeEntries(t.id, changes, now) == [];
      assert log + [] == log;
    } else {
      var e, t1 := Entry(t.id, now, Changing(changes[0])), Changed(t, changes[0], now);
      Append(log, e, t);
      AppendJustified(log, e);
      AppendChanges(log + [e], t1, changes[1..], now);
      ChangesFirst(t.id, changes, now);
      Regroup(log, e, ChangeEntries(t.id, changes[1..], now));
    }
  }

  /** Firing or executing a timer, and the changes that follow. */
  lemma AppendRun<T>(log: seq<Entry<T>>, t: Timer<T>, act: Act, changes: seq<Change>, now: real)
    requires AllJustified(log) && RecordedIn(log, t)
    requires act == Executing || (act == Firing && Due(t, now))
    ensures var log' := log + ([Entry(t.id, now, act)] + ChangeEntries(t.id, changes, now));
            AllJustified(log') && RecordedIn(log', Executed(t, changes, now))
  {
    var e := Entry(t.id, now, act);
    Append(log, e, t);
    assert act == Firing ==> Justified(log, e);
    hide RecordedIn, AllJustified, ChangeEntries, Justified;
    AppendJustified(log, e);
    AppendChanges(log + [e], t.(lastExec := now), changes, now);
    Regroup(log, e, ChangeEntries(t.id, changes, now));
  }

  ghost predicate AllRecorded<T>(log: seq<Entry<T>>, timers: seq<Timer<T>>) {
    forall k :: 0 <= k < |timers| ==> RecordedIn(log, timers[k])
  }

  lemma OneTurn<T>(log: seq<Entry<T>>, t: Timer<T>, now: real, answer: Answer)
    requires AllJustified(log) && RecordedIn(log, t)
    ensures AllJustified(log + FiresOne(t, now, answer))
    ensures AllRecorded(log + FiresOne(t, now, answer), KeptOne(t, now, answer))
  {
    if Due(t, now) {
      AppendRun(log, t, Firing, answer.changes, now);
    } else {
      assert log + [] == log;
    }
  }

  lemma {:induction false} FiresOnly<T>(timers: seq<Timer<T>>, now: real, answers: seq<Answer>, e: Entry<T>)
    requires |answers| == |timers| && e in Fires(timers, now, answers)
    ensures Has(timers, e.id)
    decreases |timers|
  {
    var one := FiresOne(timers[0], now, answers[0]);
    if e in one {
      assert timers[0].id == e.id;
    } else {
      FiresOnly(timers[1..], now, answers[1..], e);
      var k :| 0 <= k < |timers[1..]| && timers[1..][k].id == e.id;
      assert timers[k + 1].id == e.id;
    }
  }

  lemma RestStays<T>(log: seq<Entry<T>>, timers: seq<Timer<T>>, now: real, answer: Answer)
    requires timers != [] && Distinct(timers) && AllRecorded(log, timers)
    ensures AllRecorded(log + FiresOne(timers[0], now, answer), timers[1..]) && Distinct(timers[1..])
  {
    hide RecordedIn;
    forall k | 0 <= k < |timers| - 1
      ensures RecordedIn(log + FiresOne(timers[0], now, answer), timers[1..][k])
    {
      assert timers[1..][k] == timers[k + 1] && timers[0].id != timers[k + 1].id;
      AppendOthers(log, FiresOne(timers[0], now, answer), timers[1..][k]);
    }
  }

  /** A recorded timer that is none of the list stays recorded through the list's sweep. */
  lemma OtherStays<T>(log: seq<Entry<T>>, timers: seq<Timer<T>>, now: real, answers: seq<Answer>, t: Timer<T>)
    requires |answers| == |timers| && RecordedIn(log, t) && !Has(timers, t.id)
    ensures RecordedIn(log + Fires(timers, now, answers), t)
  {
    hide RecordedIn, Has;
    forall k | 0 <= k < |Fires(timers, now, answers)|
      ensures Fires(timers, now, answers)[k].id != t.id
    {
      FiresOnly(timers, now, answers, Fires(timers, now, answers)[k]);
    }
    AppendOthers(log, Fires(timers, now, answers), t);
  }

  lemma FirstNotInRest<T>(timers: seq<Timer<T>>)
    requires timers != [] && Distinct(timers)
    ensures !Has(timers[1..], timers[0].id)
  {
  }

  lemma JoinRecorded<T>(log: seq<Entry<T>>, a: seq<Timer<T>>, b: seq<Timer<T>>)
    requires AllRecorded(log, a) && AllRecorded(log, b)
    ensures AllRecorded(log, a + b)
  {
  }

  /** A sweep fires no timer too early, and the log goes on telling the timers' state. */
  lemma {:induction false} SweepRecorded<T>(log: seq<Entry<T>>, timers: seq<Timer<T>>, now: real, answers: seq<Answer>)
    requires |answers| == |timers| && Distinct(timers) && AllJustified(log) && AllRecorded(log, timers)
    ensures AllJustified(log + Fires(timers, now, answers))
    ensures AllRecorded(log + Fires(timers, now, answers), Kept(timers, now, answers))
    decreases |timers|
  {
    if timers == [] {
      assert log + [] == log;
    } else {
      var ts, rs, one := timers[1..], answers[1..], FiresOne(timers[0], now, answers[0]);
      OneTurn(log, timers[0], now, answers[0]);
      RestStays(log, timers, now, answers[0]);
      FirstNotInRest(timers);
      hide RecordedIn, AllJustified, Distinct, FiresOne, Has;
      SweepRecorded(log + one, ts, now, rs);
      assert log + (one + Fires(ts, now, rs)) == log + one + Fires(ts, now, rs);
      var log', first := log + one + Fires(ts, now, rs), KeptOne(timers[0], now, answers[0]);
      forall k | 0 <= k < |first|
        ensures RecordedIn(log', first[k])
      {
        OtherStays(log + one, ts, now, rs, first[k]);
      }
      JoinRecorded(log', first, Kept(ts, now, rs));
    }
  }

  // ----- runs ------------------------------------------------------------------------------------------

  /** What every step keeps. */
  ghost predicate Sound<T>(s: State<T>, log: seq<Entry<T>>) {
    Distinct(s.timers) && AllRecorded(log, s.timers) && AllJustified(log)
  }

  lemma KeptAreOld<T>(timers: seq<Timer<T>>, now: real, answers: seq<Answer>, id: T)
    requires |answers| == |timers| && Has(Kept(timers, now, answers), id)
    ensures Has(timers, id)
  {
    SweepKeeps(timers, now, answers, id);
  }

  lemma DistinctCons<T>(t: Timer<T>, rest: seq<Timer<T>>)
    ensures Distinct([t] + rest) <==> !Has(rest, t.id) && Distinct(rest)
  {
    var all := [t] + rest;
    if Distinct(all) {
      assert forall k :: 0 <= k < |rest| ==> rest[k] == all[k + 1] && all[0].id != all[k + 1].id;
    }
    if !Has(rest, t.id) && Distinct(rest) {
      forall i, j | 0 <= i < j < |all|
        ensures all[i].id != all[j].id
      {
        assert all[j] == rest[j - 1];
      }
    }
  }

  lemma {:induction false} KeptDistinct<T>(timers: seq<Timer<T>>, now: real, answers: seq<Answer>)
    requires |answers| == |timers| && Distinct(timers)
    ensures Distinct(Kept(timers, now, answers))
    decreases |timers|
  {
    if timers != [] {
      var ts, rs, one := timers[1..], answers[1..], KeptOne(timers[0], now, answers[0]);
      assert timers == [timers[0]] + ts;
      DistinctCons(timers[0], ts);
      hide Distinct, Has;
      KeptDistinct(ts, now, rs);
      if one != [] {
        if Has(Kept(ts, now, rs), timers[0].id) { KeptAreOld(ts, now, rs, timers[0].id); }
        DistinctCons(one[0], Kept(ts, now, rs));
        assert one == [one[0]];
      } else {
        assert [] + Kept(ts, now, rs) == Kept(ts, now, rs);
      }
    }
  }

  lemma {:induction false} EraseDistinct<T>(timers: seq<Timer<T>>, id: T)
    requires Distinct(timers)
    ensures Distinct(Erase(timers, id))
    decreases |timers|
  {
    if timers != [] {
      var ts := timers[1..];
      assert timers == [timers[0]] + ts;
      DistinctCons(timers[0], ts);
      if timers[0].id != id {
        EraseDistinct(ts, id);
        assert forall t :: t in Erase(ts, id) ==> t in ts;
        DistinctCons(timers[0], Erase(ts, id));
      }
    }
  }

  lemma EraseRecorded<T>(log: seq<Entry<T>>, timers: seq<Timer<T>>, id: T)
    requires AllRecorded(log, timers)
    ensures AllRecorded(log, Erase(timers, id))
  {
  }

  lemma CreateKeepsSound<T>(s: State<T>, log: seq<Entry<T>>, t: Timer<T>)
    requires Sound(s, log) && !Has(s.timers, t.id)
    ensures Sound(s.(timers := s.timers + [t]), log + [Entry(t.id, t.lastExec, Creating(t.interval, t.paused))])
  {
    var e := Entry(t.id, t.lastExec, Creating(t.interval, t.paused));
    AppendJustified(log, e);
    AppendCreation(log, t);
    hide RecordedIn, AllJustified;
    forall k | 0 <= k < |s.timers|
      ensures RecordedIn(log + [e], s.timers[k])
    {
      Append(log, e, s.timers[k]);
    }
  }

  lemma AdjustKeepsSound<T>(s: State<T>, log: seq<Entry<T>>, id: T, change: Change, now: real)
    requires Sound(s, log)
    ensures Sound(s.(timers := Adjusted(s.timers, id, change, now)), log + [Entry(id, now, Changing(change))])
  {
    AppendJustified(log, Entry(id, now, Changing(change)));
    hide RecordedIn, AllJustified;
    forall k | 0 <= k < |s.timers|
      ensures RecordedIn(log + [Entry(id, now, Changing(change))], Adjusted(s.timers, id, change, now)[k])
    {
      Append(log, Entry(id, now, Changing(change)), s.timers[k]);
    }
  }

  /** Executing timer `id` leaves every timer recorded, itself as its callback changed it. */
  lemma ExecuteRecords<T>(log: seq<Entry<T>>, t: Timer<T>, id: T, changes: seq<Change>, now: real)
    requires AllJustified(log) && RecordedIn(log, t)
    ensures var log' := log + ([Entry(id, now, Executing)] + ChangeEntries(id, changes, now));
            RecordedIn(log', if t.id == id then Executed(t, changes, now) else t)
  {
    hide RecordedIn, AllJustified, Executed;
    if t.id == id {
      AppendRun(log, t, Executing, changes, now);
    } else {
      AppendOthers(log, [Entry(id, now, Executing)] + ChangeEntries(id, changes, now), t);
    }
  }

  lemma ExecuteKeepsSound<T>(s: State<T>, log: seq<Entry<T>>, id: T, changes: seq<Change>, now: real)
    requires Sound(s, log) && Has(s.timers, id)
    ensures Sound(s.(timers := ExecutedIn(s.timers, id, changes, now)),
                  log + ([Entry(id, now, Executing)] + ChangeEntries(id, changes, now)))
  {
    var i :| 0 <= i < |s.timers| && s.timers[i].id == id;
    AppendRun(log, s.timers[i], Executing, changes, now);
    hide RecordedIn, AllJustified, Executed, ChangeEntries;
    var timers := ExecutedIn(s.timers, id, changes, now);
    var es := [Entry(id, now, Executing)] + ChangeEntries(id, changes, now);
    forall k | 0 <= k < |s.timers|
      ensures RecordedIn(log + es, timers[k]) && timers[k].id == s.timers[k].id
    {
      ExecuteRecords(log, s.timers[k], id, changes, now);
      SameId(s.timers[k], changes, now);
    }
  }

  lemma SameId<T>(t: Timer<T>, changes: seq<Change>, now: real)
    ensures Executed(t, changes, now).id == t.id
  {
  }

  lemma StepKeepsSound<T>(s: State<T>, log: seq<Entry<T>>, e: Event<T>)
    requires Sound(s, log) && Enabled(s, e)
    ensures Sound(Step(s, e), log + Logged(s, e))
  {
    assert log + [] == log;
    match e
    case Create(id, time, interval, paused) =>
      if interval > 0.0 { CreateKeepsSound(s, log, Timer(id, interval, paused, time)); }
    case Remove(id) =>
      EraseDistinct(s.timers, id);
      EraseRecorded(log, s.timers, id);
    case Adjust(id, time, change) => AdjustKeepsSound(s, log, id, change, time);
    case Execute(id, time, changes) => ExecuteKeepsSound(s, log, id, changes, time);
    case Frame(time, answers) =>
      if s.next <= time {
        SweepRecorded(log, s.timers, time, answers);
        KeptDistinct(s.timers, time, answers);
      }
    case Clear =>
  }

  ghost predicate CanRun<T>(s: State<T>, events: seq<Event<T>>)
    decreases |events|
  {
    events == [] || (Enabled(s, events[0]) && CanRun(Step(s, events[0]), events[1..]))
  }

  ghost function Run<T>(s: State<T>, events: seq<Event<T>>): State<T>
    requires CanRun(s, events)
    decreases |events|
  {
    if events == [] then s else Run(Step(s, events[0]), events[1..])
  }

  ghost function RunLog<T>(s: State<T>, events: seq<Event<T>>): seq<Entry<T>>
    requires CanRun(s, events)
    decreases |events|
  {
    if events == [] then [] else Logged(s, events[0]) + RunLog(Step(s, events[0]), events[1..])
  }

  lemma {:induction false} RunKeepsSound<T>(s: State<T>, log: seq<Entry<T>>, events: seq<Event<T>>)
    requires Sound(s, log) && CanRun(s, events)
    ensures Sound(Run(s, events), log + RunLog(s, events))
    decreases |events|
  {
    hide Sound, Step, Logged, Enabled;
    if events == [] {
      assert log + [] == log;
    } else {
      StepKeepsSound(s, log, events[0]);
      RunKeepsSound(Step(s, events[0]), log + Logged(s, events[0]), events[1..]);
      assert log + (Logged(s, events[0]) + RunLog(Step(s, events[0]), events[1..]))
          == log + Logged(s, events[0]) + RunLog(Step(s, events[0]), events[1..]);
    }
  }

  /** From a start without timers, every firing of every run comes at least the current interval after the
      latest of creation, last execution, unpause and interval change, and never while paused. */
  lemma NeverTooEarly<T>(next: real, events: seq<Event<T>>)
    requires CanRun(State([], next), events)
    ensures AllJustified(RunLog(State([], next), events))
  {
    RunKeepsSound(State([], next), [], events);
    assert [] + RunLog(State([], next), events) == RunLog(State([], next), events);
  }
}
