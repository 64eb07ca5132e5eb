/** Timers, the sweep that fires them, and the throttle on sweeps. Time is in exact seconds. */
module Scheduling {
  datatype Timer<T> = Timer(id: T, interval: real, paused: bool, lastExec: real)

  datatype Change = NewInterval(interval: real) | NewPause(paused: bool)

  /** What a timer's callback does when it fires: changes to its own timer, and whether to keep it. */
  datatype Answer = Answer(keep: bool, changes: seq<Change>)

  /** A new interval and an unpause start the wait anew; a pause does not. */
  function Changed<T>(t: Timer<T>, change: Change, now: real): Timer<T> {
    match change
    case NewInterval(interval) => t.(interval := interval, lastExec := now)
    case NewPause(paused) => if paused then t.(paused := true) else t.(paused := false, lastExec := now)
  }

  function ChangedAll<T>(t: Timer<T>, changes: seq<Change>, now: real): (r: Timer<T>)
    ensures r.id == t.id
    decreases |changes|
  {
    if changes == [] then t else ChangedAll(Changed(t, changes[0], now), changes[1..], now)
  }

  function Executed<T>(t: Timer<T>, changes: seq<Change>, now: real): Timer<T> {
    ChangedAll(t.(lastExec := now), changes, now)
  }

  predicate Due<T>(t: Timer<T>, now: real) { !t.paused && t.lastExec + t.interval <= now }

  // ----- what happens to timers ------------------------------------------------------------------------

  datatype Act = Creating(interval: real, paused: bool) | Changing(change: Change) | Executing | Firing

  datatype Entry<T> = Entry(id: T, time: real, act: Act)

  function ChangeEntries<T>(id: T, changes: seq<Change>, now: real): (r: seq<Entry<T>>)
    ensures |r| == |changes| && forall k :: 0 <= k < |r| ==> r[k] == Entry(id, now, Changing(changes[k]))
  {
    seq(|changes|, k requires 0 <= k < |changes| => Entry(id, now, Changing(changes[k])))
  }

  /** One turn of a sweep: the timer fires if it is due, and stays unless its callback ends it. */
  function KeptOne<T>(t: Timer<T>, now: real, answer: Answer): seq<Timer<T>> {
    if !Due(t, now) then [t] else if answer.keep then [Executed(t, answer.changes, now)] else []
  }

  function FiresOne<T>(t: Timer<T>, now: real, answer: Answer): seq<Entry<T>> {
    if !Due(t, now) then [] else [Entry(t.id, now, Firing)] + ChangeEntries(t.id, answer.changes, now)
  }

  /** The timers left by a sweep, and what it logs; `answers` are those of the callbacks, timer by timer. */
  function Kept<T>(timers: seq<Timer<T>>, now: real, answers: seq<Answer>): seq<Timer<T>>
    requires |answers| == |timers|
    decreases |timers|
  {
    if timers == [] then [] else KeptOne(timers[0], now, answers[0]) + Kept(timers[1..], now, answers[1..])
  }

  function Fires<T>(timers: seq<Timer<T>>, now: real, answers: seq<Answer>): seq<Entry<T>>
    requires |answers| == |timers|
    decreases |timers|
  {
    if timers == [] then [] else FiresOne(timers[0], now, answers[0]) + Fires(timers[1..], now, answers[1..])
  }

  datatype State<T> = State(timers: seq<Timer<T>>, next: real)

  const THROTTLE := 0.1

  datatype Event<T> =
    | Create(id: T, time: real, interval: real, paused: bool)
    | Remove(id: T)
    | Adjust(id: T, time: real, change: Change)
    | Execute(id: T, time: real, changes: seq<Change>)
    | Frame(time: real, answers: seq<Answer>)
    | Clear

  ghost predicate Has<T>(timers: seq<Timer<T>>, id: T) {
    exists k :: 0 <= k < |timers| && timers[k].id == id
  }

  /** A new timer is none of those there; those touched are there; a sweep gets its callbacks' answers. */
  ghost predicate Enabled<T>(s: State<T>, e: Event<T>) {
    match e
    case Create(id, _, _, _) => !Has(s.timers, id)
    case Remove(_) => true
    case Adjust(id, _, _) => Has(s.timers, id)
    case Execute(id, _, _) => Has(s.timers, id)
    case Frame(time, answers) => s.next <= time ==> |answers| == |s.timers|
    case Clear => true
  }

  /** Erasing the first timer with an identity. */
  ghost function Erase<T>(timers: seq<Timer<T>>, id: T): (r: seq<Timer<T>>)
    ensures forall t :: t in r ==> t in timers
    ensures forall t :: t in timers && t.id != id ==> t in r
  {
    if timers == [] then [] else if timers[0].id == id then timers[1..] else [timers[0]] + Erase(timers[1..], id)
  }

  ghost function Adjusted<T>(timers: seq<Timer<T>>, id: T, change: Change, now: real): (r: seq<Timer<T>>)
    ensures |r| == |timers|
    ensures forall k :: 0 <= k < |r| ==>
              r[k] == if timers[k].id == id then Changed(timers[k], change, now) else timers[k]
  {
    if timers == [] then []
    else [if timers[0].id == id then Changed(timers[0], change, now) else timers[0]]
         + Adjusted(timers[1..], id, change, now)
  }

  ghost function ExecutedIn<T>(timers: seq<Timer<T>>, id: T, changes: seq<Change>, now: real): (r: seq<Timer<T>>)
    ensures |r| == |timers|
    ensures forall k :: 0 <= k < |r| ==>
              r[k] == if timers[k].id == id then Executed(timers[k], changes, now) else timers[k]
  {
    if timers == [] then []
    else [if timers[0].id == id then Executed(timers[0], changes, now) else timers[0]]
         + ExecutedIn(timers[1..], id, changes, now)
  }

  /** An interval of zero or less makes no timer. A frame sweeps at most every tenth of a second. */
  ghost function Step<T>(s: State<T>, e: Event<T>): State<T>
    requires Enabled(s, e)
  {
    match e
    case Create(id, time, interval, paused) =>
      if interval <= 0.0 then s else s.(timers := s.timers + [Timer(id, interval, paused, time)])
    case Remove(id) => s.(timers := Erase(s.timers, id))
    case Adjust(id, time, change) => s.(timers := Adjusted(s.timers, id, change, time))
    case Execute(id, time, changes) => s.(timers := ExecutedIn(s.timers, id, changes, time))
    case Frame(time, answers) =>
      if s.next <= time then State(Kept(s.timers, time, answers), time + THROTTLE) else s
    case Clear => s.(timers := [])
  }

  /** What an event adds to the log. */
  ghost function Logged<T>(s: State<T>, e: Event<T>): seq<Entry<T>>
    requires Enabled(s, e)
  {
    match e
    case Create(id, time, interval, paused) =>
      if interval <= 0.0 then [] else [Entry(id, time, Creating(interval, paused))]
    case Adjust(id, time, change) => [Entry(id, time, Changing(change))]
    case Execute(id, time, changes) => [Entry(id, time, Executing)] + ChangeEntries(id, changes, time)
    case Frame(time, answers) => if s.next <= time then Fires(s.timers, time, answers) else []
    case _ => []
  }

  // ----- what a sweep does -----------------------------------------------------------------------------

  ghost predicate Distinct<T>(timers: seq<Timer<T>>) {
    forall i, j :: 0 <= i < j < |timers| ==> timers[i].id != timers[j].id
  }

  /** The firings of a log, in order. */
  function Firings<T>(log: seq<Entry<T>>): seq<T> {
    if log == [] then [] else (if log[0].act.Firing? then [log[0].id] else []) + Firings(log[1..])
  }

  /** The identities of the timers that are not paused and whose interval has passed. */
  function DueIds<T>(timers: seq<Timer<T>>, now: real): seq<T> {
    if timers == [] then []
    else
      var t, rest := timers[0], DueIds(timers[1..], now);
      if !t.paused && t.lastExec + t.interval <= now then [t.id] + rest else rest
  }

  lemma FiringsCons<T>(e: Entry<T>, rest: seq<Entry<T>>)
    ensures Firings([e] + rest) == (if e.act.Firing? then [e.id] else []) + Firings(rest)
  {
  }

  lemma Associates<A>(a: seq<A>, b: seq<A>, c: seq<A>)
    ensures a + (b + c) == a + b + c
  {
  }

  lemma {:induction false} FiringsConcat<T>(a: seq<Entry<T>>, b: seq<Entry<T>>)
    ensures Firings(a + b) == Firings(a) + Firings(b)
    decreases |a|
  {
    if a == [] {
      assert a + b == b;
    } else {
      hide Firings;
      assert a == [a[0]] + a[1..];
      Associates([a[0]], a[1..], b);
      FiringsConcat(a[1..], b);
      FiringsCons(a[0], a[1..]);
      FiringsCons(a[0], a[1..] + b);
      Associates(if a[0].act.Firing? then [a[0].id] else [], Firings(a[1..]), Firings(b));
    }
  }

  lemma {:induction false} ChangesFireNone<T>(id: T, changes: seq<Change>, now: real)
    ensures Firings(ChangeEntries(id, changes, now)) == []
    decreases |changes|
  {
    if changes != [] {
      assert ChangeEntries(id, changes, now)[1..] == ChangeEntries(id, changes[1..], now);
      ChangesFireNone(id, changes[1..], now);
    }
  }

  lemma FiringsOfOne<T>(t: Timer<T>, now: real, answer: Answer)
    ensures Firings(FiresOne(t, now, answer)) == if Due(t, now) then [t.id] else []
  {
    var first := [Entry(t.id, now, Firing)];
    ChangesFireNone(t.id, answer.changes, now);
    FiringsConcat(first, ChangeEntries(t.id, answer.changes, now));
    assert first[1..] == [];
  }

  /** A sweep fires exactly the timers due when it comes, each once, in list order. */
  lemma {:induction false} SweepFiresDue<T>(timers: seq<Timer<T>>, now: real, answers: seq<Answer>)
    requires |answers| == |timers|
    ensures Firings(Fires(timers, now, answers)) == DueIds(timers, now)
    decreases |timers|
  {
    if timers != [] {
      hide FiresOne;
      SweepFiresDue(timers[1..], now, answers[1..]);
      FiringsOfOne(timers[0], now, answers[0]);
      FiringsConcat(FiresOne(timers[0], now, answers[0]), Fires(timers[1..], now, answers[1..]));
    }
  }

  predicate Stays<T>(t: Timer<T>, now: real, answer: Answer) { !Due(t, now) || answer.keep }

  ghost predicate SomeStays<T>(timers: seq<Timer<T>>, now: real, answers: seq<Answer>, id: T)
    requires |answers| == |timers|
  {
    exists k :: 0 <= k < |timers| && timers[k].id == id && Stays(timers[k], now, answers[k])
  }

  lemma SomeStaysCons<T>(timers: seq<Timer<T>>, now: real, answers: seq<Answer>, id: T)
    requires |answers| == |timers| && timers != []
    ensures SomeStays(timers, now, answers, id)
            <==> || (timers[0].id == id && Stays(timers[0], now, answers[0]))
                 || SomeStays(timers[1..], now, answers[1..], id)
  {
  }

  lemma OneStays<T>(t: Timer<T>, now: real, answer: Answer, id: T)
    ensures Has(KeptOne(t, now, answer), id) <==> t.id == id && Stays(t, now, answer)
  {
    assert KeptOne(t, now, answer) != [] ==> KeptOne(t, now, answer)[0].id == t.id;
  }

  lemma {:induction false} KeepsSome<T>(timers: seq<Timer<T>>, now: real, answers: seq<Answer>, id: T)
    requires |answers| == |timers|
    ensures Has(Kept(timers, now, answers), id) <==> SomeStays(timers, now, answers, id)
    decreases |timers|
  {
    if timers != [] {
      SomeStaysCons(timers, now, answers, id);
      OneStays(timers[0], now, answers[0], id);
      HasConcat(KeptOne(timers[0], now, answers[0]), Kept(timers[1..], now, answers[1..]), id);
      hide SomeStays, KeptOne, Has, Stays;
      KeepsSome(timers[1..], now, answers[1..], id);
    }
  }

  /** It leaves exactly the timers paused, those whose interval has not passed, and those whose callback
      wants to go on. */
  lemma SweepKeeps<T>(timers: seq<Timer<T>>, now: real, answers: seq<Answer>, id: T)
    requires |answers| == |timers|
    ensures Has(Kept(timers, now, answers), id)
            <==> exists k :: 0 <= k < |timers| && timers[k].id == id
                             && (timers[k].paused || timers[k].lastExec + timers[k].interval > now || answers[k].keep)
  {
    KeepsSome(timers, now, answers, id);
    hide Kept, Has;
  }

  /** Those not due it leaves as they are. */
  lemma {:induction false} SweepLeaves<T>(timers: seq<Timer<T>>, now: real, answers: seq<Answer>, t: Timer<T>)
    requires |answers| == |timers| && t in timers && (t.paused || t.lastExec + t.interval > now)
    ensures t in Kept(timers, now, answers)
    decreases |timers|
  {
    if timers[0] == t {
      assert Kept(timers, now, answers)[0] == t;
    } else {
      SweepLeaves(timers[1..], now, answers[1..], t);
    }
  }

  lemma HasConcat<T>(a: seq<Timer<T>>, b: seq<Timer<T>>, id: T)
    ensures Has(a + b, id) <==> Has(a, id) || Has(b, id)
  {
    if Has(a, id) {
      var k :| 0 <= k < |a| && a[k].id == id;
      assert (a + b)[k].id == id;
    }
    if Has(b, id) {
      var k :| 0 <= k < |b| && b[k].id == id;
      assert (a + b)[|a| + k].id == id;
    }
  }
}
