/** A forward executed in all plugins. Callbacks do not push to, reset or execute it. */
module Forwards {
  import opened Basics
  import opened P = ForwardParams
  import D = ForwardDispatch

  class MultiForward {
    const types: seq<Type>
    const execType: D.ExecType
    const data: array<Option<Data>>
    var paramsNum: nat
    var currentPos: nat
    var executing: bool

    ghost predicate Valid()
      reads this, data
    {
      P.Valid(View()) && paramsNum == Count(types)
    }

    function View(): State reads this, data { State(types, data[..], currentPos) }

    /** The constructor leaves the flag of a running execution as it comes. */
    constructor (types: seq<Type>, execType: D.ExecType, someFlag: bool)
      requires |types| == MAX_EXEC_PARAMS
      ensures Valid() && fresh(data) && View() == State(types, seq(MAX_EXEC_PARAMS, _ => None), 0)
      ensures this.execType == execType
    {
      this.types, this.execType := types, execType;
      data := new Option<Data>[MAX_EXEC_PARAMS](_ => None);
      paramsNum, currentPos, executing := 0, 0, someFlag;
      new;
      var i := 0;
      while i < MAX_EXEC_PARAMS
        invariant 0 <= i <= MAX_EXEC_PARAMS && paramsNum == Count(types[..i]) && currentPos == 0
        invariant data[..] == seq(MAX_EXEC_PARAMS, _ => None)
      {
        assert types[..i + 1][..i] == types[..i];
        if types[i] != NONE { paramsNum := paramsNum + 1; }
        i := i + 1;
      }
      assert types[..i] == types;
    }

    /** Any of the pushes. */
    method Push(d: Data) returns (ok: bool)
      requires Valid()
      modifies this`currentPos, data
      ensures Valid() && View() == Step(old(View()), P.Push(d))
      ensures ok == Accepts(old(View()), d)
    {
      if currentPos >= paramsNum { return false; }
      if types[currentPos] != TypeOf(d) { return false; }
      data[currentPos] := Some(d);
      currentPos := currentPos + 1;
      return true;
    }

    method ResetParams()
      requires Valid()
      modifies this`currentPos
      ensures Valid() && View() == Step(old(View()), Reset)
    {
      currentPos := 0;
    }

    /** `rows` is what the plugins of each adapter answer; the result is none if nothing was executed. */
    method ExecFunc(rows: seq<seq<D.Answer>>) returns (result: Option<int>, asked: nat)
      requires Valid()
      modifies this`currentPos, this`executing
      ensures Valid() && View() == Step(old(View()), Exec)
      ensures var meaning := D.Meaning(execType, D.Concat(rows));
              if Executes(old(View())) then result == Some(meaning.result) && asked == meaning.asked && !executing
              else result == None && asked == 0 && executing == old(executing)
    {
      if paramsNum > currentPos { return None, 0; }
      executing := true;
      var value, stopped;
      value, stopped, asked := D.Dispatch(execType, rows);
      executing, currentPos := false, 0;
      return Some(value), asked;
    }
  }
}
