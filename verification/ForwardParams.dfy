/** The parameters of a forward: what can be pushed when, and what an execution sees. */
module ForwardParams {
  import opened Basics

  const MAX_EXEC_PARAMS := 32

  /** A parameter type is a set of five bits; none of them is None. */
  datatype Type = Type(isArray: bool, isPointer: bool, isInt: bool, isFloat: bool, isString: bool)

  const NONE := Type(false, false, false, false, false)
  const INT := Type(false, false, true, false, false)
  const INT_REF := Type(false, true, true, false, false)
  const FLOAT := Type(false, false, false, true, false)
  const FLOAT_REF := Type(false, true, false, true, false)
  const ARRAY := Type(true, false, false, false, false)
  const STRING := Type(false, false, false, false, true)

  /** The seven pushes; addresses are numbers. */
  datatype Data =
    | Int(number: int)
    | IntRef(intAt: nat)
    | Float(fraction: real)
    | FloatRef(floatAt: nat)
    | Array(arrayAt: nat, cells: nat)
    | String(text: string)
    | Buffer(bufferAt: nat, bytes: nat)

  function TypeOf(d: Data): Type {
    match d
    case Int(_) => INT
    case IntRef(_) => INT_REF
    case Float(_) => FLOAT
    case FloatRef(_) => FLOAT_REF
    case Array(_, _) => ARRAY
    case String(_) => STRING
    case Buffer(_, _) => STRING
  }

  /** A type some push has. */
  predicate Pushable(t: Type) { t in {INT, INT_REF, FLOAT, FLOAT_REF, ARRAY, STRING} }

  function Example(t: Type): (d: Data)
    requires Pushable(t)
    ensures TypeOf(d) == t
  {
    if t == INT then Int(0) else if t == INT_REF then IntRef(0) else if t == FLOAT then Float(0.0)
    else if t == FLOAT_REF then FloatRef(0) else if t == ARRAY then Array(0, 0) else String("")
  }

  /** The number of parameters: types that are not None, wherever they stand. */
  function Count(types: seq<Type>): (n: nat)
    ensures n <= |types|
  {
    if types == [] then 0 else Count(types[..|types| - 1]) + if types[|types| - 1] == NONE then 0 else 1
  }

  /** The bits each push asks for: array, pointer, int, float, string. */
  lemma TypesOfPushes(d: Data)
    ensures TypeOf(d) == Type(d.Array?, d.IntRef? || d.FloatRef?, d.Int? || d.IntRef?, d.Float? || d.FloatRef?,
                              d.String? || d.Buffer?)
  {
  }

  /** The positions of types with any bit set. */
  ghost function Declared(types: seq<Type>): set<nat> {
    set i: nat | i < |types| && types[i] != Type(false, false, false, false, false)
  }

  /** The number of parameters is the number of those positions. */
  lemma {:induction false} CountIs(types: seq<Type>)
    ensures Count(types) == |Declared(types)|
  {
    if types != [] {
      var n, init := |types| - 1, types[..|types| - 1];
      CountIs(init);
      assert Declared(types) == Declared(init) + if types[n] != NONE then {n} else {};
    }
  }

  /** The parameter slots keep old data; the position says how many have been pushed. */
  datatype State = State(types: seq<Type>, data: seq<Option<Data>>, pos: nat)

  predicate Valid(s: State) {
    |s.types| == MAX_EXEC_PARAMS == |s.data| && s.pos <= Count(s.types)
  }

  datatype Op = Push(data: Data) | Reset | Exec

  predicate Accepts(s: State, d: Data)
    requires Valid(s)
  {
    s.pos < Count(s.types) && s.types[s.pos] == TypeOf(d)
  }

  predicate Executes(s: State)
    requires Valid(s)
  {
    Count(s.types) <= s.pos
  }

  function Step(s: State, op: Op): (s': State)
    requires Valid(s)
    ensures Valid(s') && s'.types == s.types
  {
    match op
    case Push(d) => if Accepts(s, d) then s.(data := s.data[s.pos := Some(d)], pos := s.pos + 1) else s
    case Reset => s.(pos := 0)
    case Exec => if Executes(s) then s.(pos := 0) else s
  }

  // ----- runs --------------------------------------------------------------------------------------------

  function Run(s: State, ops: seq<Op>): (s': State)
    requires Valid(s)
    ensures Valid(s') && s'.types == s.types
  {
    if ops == [] then s else Step(Run(s, ops[..|ops| - 1]), ops[|ops| - 1])
  }

  /** The pushes accepted since the last reset or successful execution: a push is accepted when its type
      is the next one declared, an execution succeeds when all are filled. */
  function Accepted(types: seq<Type>, ops: seq<Op>): (ds: seq<Data>)
    ensures |ds| <= Count(types)
  {
    if ops == [] then []
    else
      var ds := Accepted(types, ops[..|ops| - 1]);
      match ops[|ops| - 1]
      case Push(d) => if |ds| < Count(types) && types[|ds|] == TypeOf(d) then ds + [d] else ds
      case Reset => []
      case Exec => if |ds| == Count(types) then [] else ds
  }

  /** The position is the number of accepted pushes, and the slots before it hold them in order. */
  ghost predicate Holds(s: State, ds: seq<Data>) {
    Valid(s) && s.pos == |ds| && forall i :: 0 <= i < |ds| ==> s.data[i] == Some(ds[i])
  }

  lemma {:induction false} HoldsAccepted(s: State, ops: seq<Op>)
    requires Valid(s) && s.pos == 0
    ensures Holds(Run(s, ops), Accepted(s.types, ops))
    decreases |ops|
  {
    if ops != [] { HoldsAccepted(s, ops[..|ops| - 1]); }
  }

  /** After any run, the slots an execution hands to the callbacks are exactly the pushes accepted since
      the last reset or successful execution, in order; it succeeds exactly when all are filled. */
  lemma ExecutionSees(s: State, ops: seq<Op>)
    requires Valid(s) && s.pos == 0
    ensures var s', ds := Run(s, ops), Accepted(s.types, ops);
            && (Executes(s') <==> |ds| == Count(s.types))
            && forall i :: 0 <= i < |ds| ==> s'.data[i] == Some(ds[i]) && s.types[i] == TypeOf(ds[i])
  {
    HoldsAccepted(s, ops);
    AcceptedFit(s.types, ops);
  }

  lemma {:induction false} AcceptedFit(types: seq<Type>, ops: seq<Op>)
    ensures forall i :: 0 <= i < |Accepted(types, ops)| ==> types[i] == TypeOf(Accepted(types, ops)[i])
    decreases |ops|
  {
    if ops != [] { AcceptedFit(types, ops[..|ops| - 1]); }
  }

  // ----- which forwards can be executed ------------------------------------------------------------------

  /** The types counted come first and each has a push. */
  predicate Fillable(types: seq<Type>) { forall i :: 0 <= i < Count(types) ==> Pushable(types[i]) }

  /** One push per parameter. */
  function Filling(types: seq<Type>, n: nat): (ops: seq<Op>)
    requires n <= Count(types) && Fillable(types)
    ensures |ops| == n
  {
    if n == 0 then [] else Filling(types, n - 1) + [Push(Example(types[n - 1]))]
  }

  lemma {:induction false} FillingFills(types: seq<Type>, n: nat)
    requires n <= Count(types) && Fillable(types)
    ensures |Accepted(types, Filling(types, n))| == n
  {
    if n > 0 {
      FillingFills(types, n - 1);
      assert Filling(types, n)[..n - 1] == Filling(types, n - 1);
    }
  }

  /** A forward can be executed, by some pushes, exactly when its counted types stand first and are all
      types of pushes: without a gap, and without an int or float array, which no push has. */
  lemma CanBeFilledIff(s: State)
    requires Valid(s) && s.pos == 0
    ensures (exists ops :: Executes(Run(s, ops))) <==> Fillable(s.types)
  {
    if Fillable(s.types) {
      var ops := Filling(s.types, Count(s.types));
      FillingFills(s.types, Count(s.types));
      HoldsAccepted(s, ops);
      assert Executes(Run(s, ops));
    }
    if ops :| Executes(Run(s, ops)) {
      ExecutionSees(s, ops);
      var ds := Accepted(s.types, ops);
      assert forall i :: 0 <= i < |ds| ==> s.types[i] == TypeOf(ds[i]);
    }
  }

  // ----- what reaches a plugin ---------------------------------------------------------------------------

  /** Whether the adapter hands a parameter of a type to the plugin's function. */
  predicate HandedOver(t: Type) { t.isInt || t.isFloat || t.isString }

  /** The parameters handed to a plugin: all 32 slots are gone through. */
  function Delivered(types: seq<Type>, data: seq<Option<Data>>): (r: seq<Option<Data>>)
    requires |types| == |data|
    decreases |types|
  {
    if types == [] then []
    else (if HandedOver(types[0]) then [data[0]] else []) + Delivered(types[1..], data[1..])
  }

  /** The pushes that are not arrays. */
  function WithoutArrays(ds: seq<Data>): seq<Option<Data>> {
    if ds == [] then [] else (if ds[0].Array? then [] else [Some(ds[0])]) + WithoutArrays(ds[1..])
  }

  lemma {:induction false} NothingBehind(types: seq<Type>, data: seq<Option<Data>>)
    requires |types| == |data| && forall i :: 0 <= i < |types| ==> types[i] == NONE
    ensures Delivered(types, data) == []
    decreases |types|
  {
    if types != [] { NothingBehind(types[1..], data[1..]); }
  }

  lemma {:induction false} DeliversWithoutArrays(types: seq<Type>, data: seq<Option<Data>>, ds: seq<Data>)
    requires |ds| <= |types| == |data|
    requires forall i :: 0 <= i < |ds| ==> data[i] == Some(ds[i]) && types[i] == TypeOf(ds[i])
    requires forall i :: |ds| <= i < |types| ==> types[i] == NONE
    ensures Delivered(types, data) == WithoutArrays(ds)
    decreases |types|
  {
    if ds == [] {
      NothingBehind(types, data);
    } else {
      DeliversWithoutArrays(types[1..], data[1..], ds[1..]);
    }
  }

  lemma {:induction false} NoneBehind(types: seq<Type>, n: nat)
    requires n <= |types| && (forall i :: 0 <= i < n ==> types[i] != NONE) && Count(types) <= n
    ensures forall i :: n <= i < |types| ==> types[i] == NONE
    ensures n <= Count(types)
    decreases |types|
  {
    if |types| > n {
      NoneBehindOne(types, n);
      NoneBehind(types[..|types| - 1], n);
    } else if n > 0 {
      CountAll(types);
    }
  }

  lemma {:induction false} CountAll(types: seq<Type>)
    requires forall i :: 0 <= i < |types| ==> types[i] != NONE
    ensures Count(types) == |types|
  {
    if types != [] { CountAll(types[..|types| - 1]); }
  }

  lemma {:induction false} CountAtLeast(types: seq<Type>, n: nat)
    requires n <= |types| && forall i :: 0 <= i < n ==> types[i] != NONE
    ensures Count(types) >= n
    decreases |types|
  {
    if |types| > n { CountAtLeast(types[..|types| - 1], n); } else { CountAll(types); }
  }

  lemma NoneBehindOne(types: seq<Type>, n: nat)
    requires n < |types| && (forall i :: 0 <= i < n ==> types[i] != NONE) && Count(types) <= n
    ensures types[|types| - 1] == NONE
  {
    CountAtLeast(types[..|types| - 1], n);
  }

  lemma NoPushOfNone(d: Data)
    ensures TypeOf(d) != NONE
  {
  }

  /** What an execution delivers to a plugin: the accepted pushes in order, except arrays, which a push
      takes and the adapter passes over. */
  lemma ArraysNeverArrive(s: State, ops: seq<Op>)
    requires Valid(s) && s.pos == 0 && Executes(Run(s, ops))
    ensures var s' := Run(s, ops); Delivered(s'.types, s'.data) == WithoutArrays(Accepted(s.types, ops))
  {
    ExecutionSees(s, ops);
    hide Run, Accepted, Delivered, WithoutArrays, Count, TypeOf, Executes, Step;
    var ds := Accepted(s.types, ops);
    assert forall i :: 0 <= i < |ds| ==> s.types[i] == TypeOf(ds[i]);
    forall i | 0 <= i < |ds|
      ensures s.types[i] != NONE
    {
      NoPushOfNone(ds[i]);
    }
    NoneBehind(s.types, |ds|);
    DeliversWithoutArrays(s.types, Run(s, ops).data, ds);
  }
}
