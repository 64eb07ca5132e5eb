/** Timers and their manager. Callbacks do not create or remove timers, nor touch other timers. */
module Timers {
  import opened S = Scheduling

  class Timer {
    var interval: real
    var paused: bool
    var lastExec: real

    function View(): S.Timer<Timer> reads this { S.Timer(this, interval, paused, lastExec) }

    /** The interval was checked to be above zero. */
    constructor (interval: real, pause: bool, now: real)
      ensures View() == S.Timer(this, interval, pause, now)
    {
      this.interval, paused, lastExec := interval, pause, now;
    }

    method SetInterval(interval: real, now: real)
      modifies this
      ensures View() == Changed(old(View()), NewInterval(interval), now)
      ensures this.interval == interval && lastExec == now && paused == old(paused)
    {
      this.interval, lastExec := interval, now;
    }

    method SetPause(pause: bool, now: real)
      modifies this
      ensures View() == Changed(old(View()), NewPause(pause), now)
      ensures paused == pause && lastExec == (if pause then old(lastExec) else now) && interval == old(interval)
    {
      paused := pause;
      if !pause { lastExec := now; }
    }

    /** The execution time is set first; then the callback does what `answer` says. */
    method Exec(answer: Answer, now: real) returns (keep: bool)
      modifies this
      ensures keep == answer.keep && View() == Executed(old(View()), answer.changes, now)
    {
      lastExec := now;
      var k := 0;
      while k < |answer.changes|
        invariant 0 <= k <= |answer.changes|
        invariant ChangedAll(old(View()).(lastExec := now), answer.changes, now)
                  == ChangedAll(View(), answer.changes[k..], now)
        decreases |answer.changes| - k
      {
        assert answer.changes[k..][1..] == answer.changes[k + 1..];
        match answer.changes[k] {
          case NewInterval(x) => SetInterval(x, now);
          case NewPause(p) => SetPause(p, now);
        }
        k := k + 1;
      }
      keep := answer.keep;
    }
  }

  ghost function Views(timers: seq<Timer>): (vs: seq<S.Timer<Timer>>)
    reads timers
    ensures |vs| == |timers| && forall k :: 0 <= k < |timers| ==> vs[k] == timers[k].View()
  {
    seq(|timers|, k requires 0 <= k < |timers| reads timers => timers[k].View())
  }

  ghost predicate AllDistinct(ts: seq<Timer>) {
    forall i, j :: 0 <= i < j < |ts| ==> ts[i] != ts[j]
  }

  class TimerManager {
    var timers: seq<Timer>
    var nextExecution: real

    ghost predicate Valid()
      reads this
    {
      AllDistinct(timers)
    }

    ghost function View(): State<Timer>
      reads this, timers
    {
      State(Views(timers), nextExecution)
    }

    constructor ()
      ensures Valid() && View() == State([], 0.0)
    {
      timers, nextExecution := [], 0.0;
    }

    method CreateTimer(interval: real, pause: bool, now: real) returns (t: Timer?)
      requires Valid()
      modifies this`timers
      ensures Valid()
      ensures if interval <= 0.0 then t == null && View() == old(View())
              else t != null && fresh(t) && timers == old(timers) + [t]
                   && t.interval == interval && t.paused == pause && t.lastExec == now
                   && !Has(old(View().timers), t) && View() == Step(old(View()), Create(t, now, interval, pause))
    {
      if interval <= 0.0 { return null; }
      hide Views;
      ghost var before := Views(timers);
      var timer := new Timer(interval, pause, now);
      timers := timers + [timer];
      assert Views(timers) == before + [timer.View()];
      t := timer;
    }

    /** One turn of the sweep: it passes over the timer at `i`, fires it, or fires and erases it. The timers
        in `front` have had their turn, those in `todo` have not. */
    method SweepTurn(i: nat, now: real, answer: Answer, ghost front: seq<Timer>, ghost todo: seq<Timer>)
      returns (next: nat, ghost front': seq<Timer>)
      requires todo != [] && i == |front| && timers == front + todo && AllDistinct(timers)
      modifies this`timers, todo[0]
      ensures timers == front' + todo[1..] && next == |front'| && AllDistinct(timers)
      ensures Views(front') == old(Views(front)) + KeptOne(old(todo[0].View()), now, answer)
      ensures Views(todo[1..]) == old(Views(todo[1..]))
    {
      hide Views, AllDistinct, Executed;
      var task := timers[i];
      ghost var was, rest := Views(front), todo[1..];
      assert task == todo[0] && todo == [task] + rest;
      Alone(front, task, rest);
      if task.paused || task.lastExec + task.interval > now {
        ViewsSnoc(front, task);
        Regroup(front, [task], rest);
        return i + 1, front + [task];
      }
      var keep := task.Exec(answer, now);
      assert Views(front) == was;
      if !keep {
        DropAt(front, task, rest);
        timers := timers[..i] + timers[i + 1..];
        assert was + [] == was;
        return i, front;
      } else {
        ViewsSnoc(front, task);
        Regroup(front, [task], rest);
        return i + 1, front + [task];
      }
    }

    /** The sweep: it erases from the list it goes through. */
    method ExecTimers(now: real, answers: seq<Answer>)
      requires Valid() && |answers| == |timers|
      modifies this`timers, timers
      ensures Valid() && Views(timers) == Kept(old(Views(timers)), now, answers)
    {
      hide Views, KeptOne, Kept, AllDistinct;
      ghost var front: seq<Timer>, todo, vs := [], timers, Views(timers);
      var i, k := 0, 0;
      assert front + todo == timers && answers[0..] == answers;
      assert Views(front) == [] && [] + Kept(vs, now, answers) == Kept(vs, now, answers);
      while i < |timers|
        invariant i == |front| && k + |todo| == |answers| && timers == front + todo
        invariant AllDistinct(timers) && forall t :: t in todo ==> t in old(timers)
        invariant Kept(vs, now, answers) == Views(front) + Kept(Views(todo), now, answers[k..])
        decreases |todo|
      {
        ghost var was, one, rest := Views(front), KeptOne(todo[0].View(), now, answers[k]), todo[1..];
        KeptFirst(todo, now, answers, k);
        Regroup(was, one, Kept(Views(rest), now, answers[k + 1..]));
        assert todo[0] in todo;
        i, front := SweepTurn(i, now, answers[k], front, todo);
        todo, k := rest, k + 1;
      }
      NoneKept(Views(todo), now, answers[k..]);
      assert timers == front;
    }

    lemma KeptFirst(todo: seq<Timer>, now: real, answers: seq<Answer>, k: nat)
      requires todo != [] && k + |todo| == |answers|
      ensures Kept(Views(todo), now, answers[k..])
              == KeptOne(todo[0].View(), now, answers[k]) + Kept(Views(todo[1..]), now, answers[k + 1..])
    {
      assert Views(todo)[1..] == Views(todo[1..]) && answers[k..][1..] == answers[k + 1..];
    }

    lemma DropAt(front: seq<Timer>, task: Timer, rest: seq<Timer>)
      ensures var ts := front + ([task] + rest); ts[..|front|] + ts[|front| + 1..] == front + rest
    {
    }

    lemma Alone(front: seq<Timer>, task: Timer, rest: seq<Timer>)
      requires AllDistinct(front + ([task] + rest))
      ensures task !in front && task !in rest && AllDistinct(front + rest)
    {
      var ts, us := front + ([task] + rest), front + rest;
      assert ts[|front|] == task;
      assert forall j :: 0 <= j < |us| ==> us[j] == if j < |front| then ts[j] else ts[j + 1];
      assert forall j :: 0 <= j < |rest| ==> rest[j] == ts[|front| + 1 + j];
      assert forall j :: 0 <= j < |front| ==> front[j] == ts[j];
    }

    lemma ViewsSnoc(front: seq<Timer>, task: Timer)
      ensures Views(front + [task]) == Views(front) + [task.View()]
    {
    }

    lemma Regroup<A>(a: seq<A>, b: seq<A>, c: seq<A>)
      ensures a + (b + c) == (a + b) + c
    {
    }

    lemma NoneKept(vs: seq<S.Timer<Timer>>, now: real, answers: seq<Answer>)
      requires vs == [] && answers == []
      ensures Kept(vs, now, answers) == []
    {
    }

    /** The end of a frame: a sweep, at most one in a tenth of a second. */
    method StartFrame(now: real, answers: seq<Answer>)
      requires Valid() && (nextExecution <= now ==> |answers| == |timers|)
      modifies this, timers
      ensures Valid() && View() == Step(old(View()), Frame(now, answers))
    {
      if nextExecution <= now {
        nextExecution := now + THROTTLE;
        ExecTimers(now, answers);
      }
    }

    /** A plugin changing a timer of the list. */
    method AdjustTimer(t: Timer, change: Change, now: real)
      requires Valid() && t in timers
      modifies t
      ensures Valid() && Has(old(View().timers), t) && View() == Step(old(View()), Adjust(t, now, change))
    {
      hide Views, Changed, Adjusted;
      ghost var before := Views(timers);
      ThereIs(timers, t);
      match change {
        case NewInterval(x) => t.SetInterval(x, now);
        case NewPause(p) => t.SetPause(p, now);
      }
      AdjustedIs(before, Views(timers), t, change, now);
    }

    lemma ThereIs(ts: seq<Timer>, t: Timer)
      requires t in ts
      ensures Has(Views(ts), t)
    {
    }

    lemma AdjustedIs(before: seq<S.Timer<Timer>>, after: seq<S.Timer<Timer>>, t: Timer, change: Change, now: real)
      requires |after| == |before|
      requires forall k :: 0 <= k < |after| ==>
                 after[k] == if before[k].id == t then Changed(before[k], change, now) else before[k]
      ensures after == Adjusted(before, t, change, now)
    {
    }

    /** The loop that erases a timer from the list. */
    method RemoveFrom(ts: seq<Timer>, t: Timer) returns (r: seq<Timer>)
      ensures Views(r) == S.Erase(Views(ts), t)
      ensures t !in ts ==> r == ts
      ensures t in ts ==> exists i :: 0 <= i < |ts| && ts[i] == t && r == ts[..i] + ts[i + 1..]
    {
      hide Views, S.Erase;
      var i := 0;
      ghost var vs := Views(ts);
      assert vs[..0] + S.Erase(vs[0..], t) == S.Erase(vs, t) by { assert vs[0..] == vs; }
      while i < |ts|
        invariant 0 <= i <= |ts| && forall k :: 0 <= k < i ==> ts[k] != t
        invariant S.Erase(vs, t) == vs[..i] + S.Erase(vs[i..], t)
      {
        EraseNext(vs, i, t);
        if ts[i] == t {
          r := ts[..i] + ts[i + 1..];
          ViewsWithout(ts, i);
          return;
        }
        i := i + 1;
      }
      EraseNone(vs[i..], t);
      assert vs[..i] + [] == vs;
      r := ts;
    }

    lemma ViewsWithout(ts: seq<Timer>, i: nat)
      requires i < |ts|
      ensures Views(ts[..i] + ts[i + 1..]) == Views(ts)[..i] + Views(ts)[i + 1..]
    {
    }

    method RemoveTimer(t: Timer)
      requires Valid()
      modifies this`timers
      ensures Valid() && View() == Step(old(View()), Remove(t))
      ensures t !in old(timers) ==> timers == old(timers)
      ensures t in old(timers) ==>
        exists i :: 0 <= i < |old(timers)| && old(timers)[i] == t && timers == old(timers)[..i] + old(timers)[i + 1..]
    {
      hide Views, S.Erase;
      timers := RemoveFrom(timers, t);
    }

    lemma EraseNext(vs: seq<S.Timer<Timer>>, i: nat, t: Timer)
      requires i < |vs|
      ensures vs[..i] + S.Erase(vs[i..], t)
              == if vs[i].id == t then vs[..i] + vs[i + 1..] else vs[..i + 1] + S.Erase(vs[i + 1..], t)
    {
    }

    lemma EraseNone(vs: seq<S.Timer<Timer>>, t: Timer)
      requires vs == []
      ensures S.Erase(vs, t) == []
    {
    }

    method ClearTimers()
      modifies this`timers
      ensures Valid() && View() == Step(old(View()), Clear) && timers == []
    {
      timers := [];
    }
  }
}
