/** Executing a forward in all plugins: results of several adapters, each with its plugins. */
module ForwardDispatch {
  /** The two bits of an execution type; neither set is Ignore. */
  datatype ExecType = ExecType(stops: bool, highest: bool)

  /** What comes of asking a plugin: it lacks the function, the call fails, or it returns a cell. */
  datatype Answer = NotThere | Failed | Returned(value: int)

  const STOP := 1

  /** The result so far, whether to go on, and how many plugins have been asked. */
  datatype Progress = Progress(result: int, stop: bool, asked: nat)

  predicate Ends(t: ExecType, a: Answer) { t.stops && a == Returned(STOP) }

  /** One plugin. */
  function Ask(t: ExecType, p: Progress, a: Answer): Progress {
    var next := p.(asked := p.asked + 1);
    match a
    case NotThere => next
    case Failed => next
    case Returned(value) =>
      var larger := if p.result < value then value else p.result;
      if Ends(t, a) then next.(result := if t.highest then larger else value, stop := true)
      else next.(result := larger)
  }

  /** A row of plugins, until one ends it. */
  function Fold(t: ExecType, p: Progress, answers: seq<Answer>): Progress
    decreases |answers|
  {
    if p.stop || answers == [] then p else Fold(t, Ask(t, p, answers[0]), answers[1..])
  }

  function Concat(rows: seq<seq<Answer>>): seq<Answer> {
    if rows == [] then [] else rows[0] + Concat(rows[1..])
  }

  lemma {:induction false} FoldInTwo(t: ExecType, p: Progress, a: seq<Answer>, b: seq<Answer>)
    ensures Fold(t, p, a + b) == Fold(t, Fold(t, p, a), b)
    decreases |a|
  {
    if a == [] {
      assert a + b == b;
    } else if !p.stop {
      assert (a + b)[1..] == a[1..] + b;
      FoldInTwo(t, Ask(t, p, a[0]), a[1..], b);
    }
  }

  // ----- what the fold means -----------------------------------------------------------------------------

  /** The largest cell returned, or 0. */
  function Highest(answers: seq<Answer>): (h: int)
    ensures h >= 0
    ensures forall k :: 0 <= k < |answers| && answers[k].Returned? ==> answers[k].value <= h
    ensures h == 0 || Returned(h) in answers
  {
    if answers == [] then 0
    else
      var last := answers[|answers| - 1];
      var h := Highest(answers[..|answers| - 1]);
      if last.Returned? && last.value > h then last.value else h
  }

  /** How many plugins are asked: up to and including the first that ends it. */
  function Reach(t: ExecType, answers: seq<Answer>): (n: nat)
    ensures n <= |answers|
    ensures forall k :: 0 <= k < n - 1 ==> !Ends(t, answers[k])
    ensures n == |answers| || (n > 0 && Ends(t, answers[n - 1]))
  {
    if answers == [] then 0
    else
      var n := Reach(t, answers[..|answers| - 1]);
      if n < |answers| - 1 || (n > 0 && Ends(t, answers[n - 1])) then n else |answers|
  }

  /** A result that nobody ended: the largest; ended, the largest with Highest, else Stop itself. */
  function Meaning(t: ExecType, answers: seq<Answer>): Progress {
    var n := Reach(t, answers);
    var ended := n > 0 && Ends(t, answers[n - 1]);
    Progress(if ended && !t.highest then STOP else Highest(answers[..n]), ended, n)
  }

  lemma ReachLast(t: ExecType, init: seq<Answer>, last: Answer)
    ensures var n := Reach(t, init);
            Reach(t, init + [last]) == if n < |init| || (n > 0 && Ends(t, init[n - 1])) then n else n + 1
  {
    assert (init + [last])[..|init|] == init;
  }

  lemma HighestLast(init: seq<Answer>, last: Answer)
    ensures Highest(init + [last]) == if last.Returned? && last.value > Highest(init) then last.value else Highest(init)
  {
    assert (init + [last])[..|init|] == init;
  }

  lemma LastOne(t: ExecType, init: seq<Answer>, last: Answer)
    ensures var before := Meaning(t, init);
            Meaning(t, init + [last]) == if before.stop then before else Ask(t, before, last)
  {
    hide Highest, Reach;
    var n, all := Reach(t, init), init + [last];
    ReachLast(t, init, last);
    if n > 0 && Ends(t, init[n - 1]) {
      assert all[n - 1] == init[n - 1] && all[..n] == init[..n];
    } else {
      assert all[|init|] == last && all[..|all|] == all && init[..|init|] == init;
      HighestLast(init, last);
    }
  }

  lemma {:induction false} FoldMeans(t: ExecType, answers: seq<Answer>)
    ensures Fold(t, Progress(0, false, 0), answers) == Meaning(t, answers)
    decreases |answers|
  {
    if answers == [] {
      assert answers[..0] == [];
    } else {
      var init, last := answers[..|answers| - 1], answers[|answers| - 1];
      FoldMeans(t, init);
      LastOne(t, init, last);
      FoldInTwo(t, Progress(0, false, 0), init, [last]);
      assert init + [last] == answers;
      FoldOne(t, Meaning(t, init), last);
    }
  }

  lemma FoldOne(t: ExecType, p: Progress, a: Answer)
    ensures Fold(t, p, [a]) == if p.stop then p else Ask(t, p, a)
  {
    assert [a][1..] == [];
  }

  // ----- the loops ---------------------------------------------------------------------------------------

  /** An adapter's listener: it asks its plugins in turn. Execution types never have the Ignore bit,
      which is none, so ignored results are aggregated all the same. */
  method Listen(t: ExecType, answers: seq<Answer>, given: int) returns (result: int, stop: bool, asked: nat)
    ensures Progress(result, stop, asked) == Fold(t, Progress(given, false, 0), answers)
  {
    result, stop, asked := given, false, 0;
    while asked < |answers|
      invariant 0 <= asked <= |answers| && !stop
      invariant Fold(t, Progress(given, false, 0), answers) == Fold(t, Progress(result, false, asked), answers[asked..])
    {
      var a := answers[asked];
      asked := asked + 1;
      assert answers[asked - 1..][1..] == answers[asked..];
      if a.NotThere? || a.Failed? { continue; }
      if result < a.value { result := a.value; }
      if t.stops && a.value == STOP {
        if !t.highest { result := a.value; }
        stop := true;
        break;
      }
    }
  }

  lemma Shifted(t: ExecType, p: Progress, more: nat, answers: seq<Answer>)
    ensures Fold(t, p.(asked := p.asked + more), answers) == var q := Fold(t, p, answers); q.(asked := q.asked + more)
    decreases |answers|
  {
    if !p.stop && answers != [] { Shifted(t, Ask(t, p, answers[0]), more, answers[1..]); }
  }

  /** The adapters in turn, until one stops: the same as one row of all their plugins. */
  method Dispatch(t: ExecType, rows: seq<seq<Answer>>) returns (result: int, stopped: bool, asked: nat)
    ensures Progress(result, stopped, asked) == Meaning(t, Concat(rows))
  {
    ghost var start := Progress(0, false, 0);
    FoldMeans(t, Concat(rows));
    hide Meaning, Fold;
    result, stopped, asked := 0, false, 0;
    var i := 0;
    assert rows[0..] == rows;
    while i < |rows|
      invariant 0 <= i <= |rows| && !stopped
      invariant Fold(t, start, Concat(rows)) == Fold(t, Progress(result, false, asked), Concat(rows[i..]))
    {
      assert rows[i..][1..] == rows[i + 1..];
      var before := Progress(result, false, asked);
      FoldInTwo(t, before, rows[i], Concat(rows[i + 1..]));
      Shifted(t, Progress(result, false, 0), asked, rows[i]);
      var n;
      result, stopped, n := Listen(t, rows[i], result);
      asked := asked + n;
      i := i + 1;
      Done(t, Progress(result, stopped, asked), Concat(rows[i..]));
      if stopped { break; }
    }
    Done(t, Progress(result, stopped, asked), []);
  }

  lemma Done(t: ExecType, p: Progress, answers: seq<Answer>)
    ensures p.stop || answers == [] ==> Fold(t, p, answers) == p
  {
  }

  /** Without Stop, or where nobody returns it, every plugin is asked and the largest result wins, for Ignore
      as well. */
  lemma WithoutStopHighestWins(t: ExecType, answers: seq<Answer>)
    requires !t.stops || forall k :: 0 <= k < |answers| ==> answers[k] != Returned(1)
    ensures Meaning(t, answers) == Progress(Highest(answers), false, |answers|)
  {
    assert answers[..|answers|] == answers;
  }

  /** With Stop alone, the first plugin that stops wins, over larger results before it too; no later
      plugin is asked. With Highest too, the largest result up to it wins. */
  lemma FirstStopEnds(t: ExecType, answers: seq<Answer>, k: nat)
    requires t.stops && k < |answers| && answers[k] == Returned(1)
    requires forall j :: 0 <= j < k ==> answers[j] != Returned(1)
    ensures Meaning(t, answers) == Progress(if t.highest then Highest(answers[..k + 1]) else 1, true, k + 1)
  {
    var n := Reach(t, answers);
    assert n > k + 1 ==> !Ends(t, answers[k]);
  }
}
