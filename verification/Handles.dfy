/** Handles: numbers that stand for objects, handed out again in the order they were freed. */
module Handles {
  import opened Basics

  /** `None` is the null pointer. A handle maps to null once it is freed. */
  datatype Table<T> = Table(handlers: map<nat, Option<T>>, freeIds: seq<nat>)

  datatype Op<T> = Create(data: Option<T>) | Free(id: nat) | Clear

  function NextId<T>(t: Table<T>): nat {
    if t.freeIds != [] then t.freeIds[0] else |t.handlers|
  }

  predicate IsLive<T>(t: Table<T>, id: nat) { id in t.handlers && t.handlers[id].Some? }

  function Get<T>(t: Table<T>, id: nat): Option<T> { if id in t.handlers then t.handlers[id] else None }

  function Step<T>(t: Table<T>, op: Op<T>): Table<T> {
    match op
    case Create(data) => Table(t.handlers[NextId(t) := data], if t.freeIds != [] then t.freeIds[1..] else [])
    case Free(id) => if IsLive(t, id) then Table(t.handlers[id := None], t.freeIds + [id]) else t
    case Clear => Table(map[], [])
  }

  // ----- runs ------------------------------------------------------------------------------------------

  /** A table and what happened since the last clear: the handles freed and those handed out again, in
      order, and how many null pointers were given a handle. */
  datatype History<T> = History(table: Table<T>, freed: seq<nat>, reused: seq<nat>, nulls: nat)

  function Record<T>(h: History<T>, op: Op<T>): History<T> {
    var t := h.table;
    match op
    case Create(data) =>
      h.(table := Step(t, op),
         reused := if t.freeIds != [] then h.reused + [NextId(t)] else h.reused,
         nulls := if data == None then h.nulls + 1 else h.nulls)
    case Free(id) => h.(table := Step(t, op), freed := if IsLive(t, id) then h.freed + [id] else h.freed)
    case Clear => History(Step(t, op), [], [], 0)
  }

  function Run<T>(h: History<T>, ops: seq<Op<T>>): History<T>
    decreases |ops|
  {
    if ops == [] then h else Run(Record(h, ops[0]), ops[1..])
  }

  function Empty<T>(): History<T> { History(Table(map[], []), [], [], 0) }

  ghost function Live<T>(t: Table<T>): set<nat> { set id | id in t.handlers && t.handlers[id].Some? }

  /** Handles of null pointers that are not free: they never come back before a clear. */
  ghost function Leaked<T>(t: Table<T>): set<nat> {
    set id | id in t.handlers && t.handlers[id].None? && id !in t.freeIds
  }

  ghost predicate NoRepeats(s: seq<nat>) { forall i, j :: 0 <= i < j < |s| ==> s[i] != s[j] }

  /** The handles are the first numbers; the free ones are distinct and stand for null. */
  ghost predicate Valid<T>(t: Table<T>) {
    && (forall id: nat :: id in t.handlers <==> id < |t.handlers|)
    && NoRepeats(t.freeIds)
    && (forall id :: id in t.freeIds ==> id in t.handlers && t.handlers[id].None?)
  }

  /** And over a run: every handle is live, free or of a null pointer; handles are handed out again in the
      order they were freed. */
  ghost predicate Sound<T>(h: History<T>) {
    && Valid(h.table)
    && h.freed == h.reused + h.table.freeIds
    && |Live(h.table)| + |h.table.freeIds| + h.nulls == |h.table.handlers|
    && |Leaked(h.table)| == h.nulls
  }

  /** A new handle is never a live one. */
  lemma CreateIsNeverLive<T>(t: Table<T>, data: Option<T>)
    requires Valid(t)
    ensures var t' := Step(t, Create(data));
            && !IsLive(t, NextId(t))
            && Get(t', NextId(t)) == data
            && (forall id :: id != NextId(t) ==> Get(t', id) == Get(t, id))
            && Valid(t')
  {
  }

  lemma FreeKeepsValid<T>(t: Table<T>, id: nat)
    requires Valid(t)
    ensures Valid(Step(t, Free(id))) && Get(Step(t, Free(id)), id) == None
  {
  }

  /** Freeing twice is freeing once. */
  lemma FreeTwiceIsOnce<T>(t: Table<T>, id: nat)
    ensures Step(Step(t, Free(id)), Free(id)) == Step(t, Free(id))
  {
  }

  /** Creating takes the handle it gives off the free list. */
  lemma CreateTakes<T>(t: Table<T>, data: Option<T>)
    requires Valid(t)
    ensures forall x :: x in Step(t, Create(data)).freeIds <==> x in t.freeIds && x != NextId(t)
    ensures |Step(t, Create(data)).handlers| == |t.handlers| + if t.freeIds == [] then 1 else 0
    ensures NextId(t) in t.handlers ==> NextId(t) in t.freeIds
  {
  }

  lemma CreateSets<T>(t: Table<T>, data: Option<T>)
    requires Valid(t)
    ensures var t' := Step(t, Create(data));
            && |Live(t')| == |Live(t)| + (if data.Some? then 1 else 0)
            && |Leaked(t')| == |Leaked(t)| + (if data.None? then 1 else 0)
            && |t'.handlers| == |t.handlers| + if t.freeIds == [] then 1 else 0
  {
    var t', id := Step(t, Create(data)), NextId(t);
    CreateIsNeverLive(t, data);
    CreateTakes(t, data);
    assert t'.handlers == t.handlers[id := data];
    hide Valid, Step, NextId;
    assert id !in Live(t) && id !in Leaked(t);
    hide Live, Leaked;
    LiveAfter(t, t', id, data);
    LeakedAfter(t, t', id, data);
  }

  lemma LiveAfter<T>(t: Table<T>, t': Table<T>, id: nat, data: Option<T>)
    requires t'.handlers == t.handlers[id := data] && id !in Live(t)
    ensures Live(t') == if data.Some? then Live(t) + {id} else Live(t)
  {
  }

  lemma LeakedAfter<T>(t: Table<T>, t': Table<T>, id: nat, data: Option<T>)
    requires t'.handlers == t.handlers[id := data] && id !in Leaked(t)
    requires forall x :: x in t'.freeIds <==> x in t.freeIds && x != id
    ensures Leaked(t') == if data.None? then Leaked(t) + {id} else Leaked(t)
  {
  }

  lemma FreeSets<T>(t: Table<T>, id: nat)
    requires Valid(t) && IsLive(t, id)
    ensures var t' := Step(t, Free(id));
            |Live(t')| == |Live(t)| - 1 && Leaked(t') == Leaked(t) && |t'.handlers| == |t.handlers|
  {
    var t' := Step(t, Free(id));
    assert t'.handlers.Keys == t.handlers.Keys;
    assert Live(t') == Live(t) - {id};
    assert id !in t.freeIds;
  }

  lemma RecordKeepsSound<T>(h: History<T>, op: Op<T>)
    requires Sound(h)
    ensures Sound(Record(h, op))
  {
    hide Valid, Live, Leaked;
    match op
    case Create(data) =>
      CreateIsNeverLive(h.table, data);
      CreateSets(h.table, data);
      if h.table.freeIds != [] {
        assert h.freed == h.reused + [h.table.freeIds[0]] + h.table.freeIds[1..];
      }
    case Free(id) =>
      FreeKeepsValid(h.table, id);
      if IsLive(h.table, id) {
        FreeSets(h.table, id);
        assert h.freed + [id] == h.reused + (h.table.freeIds + [id]);
      }
    case Clear => EmptyIsSound<T>();
  }

  lemma EmptyIsSound<T>()
    ensures Sound(Empty<T>())
  {
  }

  lemma {:induction false} RunKeepsSound<T>(h: History<T>, ops: seq<Op<T>>)
    requires Sound(h)
    ensures Sound(Run(h, ops))
    decreases |ops|
  {
    hide Sound, Record;
    if ops != [] {
      RecordKeepsSound(h, ops[0]);
      RunKeepsSound(Record(h, ops[0]), ops[1..]);
    }
  }

  /** After any run of creating, freeing and clearing. */
  lemma EveryRunIsSound<T>(ops: seq<Op<T>>)
    ensures Sound(Run(Empty(), ops))
  {
    EmptyIsSound<T>();
    RunKeepsSound(Empty(), ops);
  }

  /** A live handle goes on standing for its object through any run that does not free it. */
  lemma {:induction false} LiveStays<T>(h: History<T>, ops: seq<Op<T>>, id: nat)
    requires Sound(h) && IsLive(h.table, id)
    requires forall k :: 0 <= k < |ops| ==> ops[k] != Free(id) && ops[k] != Clear
    ensures Get(Run(h, ops).table, id) == Get(h.table, id)
    decreases |ops|
  {
    if ops != [] {
      RecordKeepsSound(h, ops[0]);
      if ops[0].Create? { CreateIsNeverLive(h.table, ops[0].data); }
      hide Sound, Live, Leaked, NextId;
      LiveStays(Record(h, ops[0]), ops[1..], id);
    }
  }

  /** The null pointers given a handle since the last clear. */
  function NullsIn<T>(ops: seq<Op<T>>, sofar: nat): nat
    decreases |ops|
  {
    if ops == [] then sofar
    else NullsIn(ops[1..], if ops[0].Clear? then 0 else if ops[0] == Create(None) then sofar + 1 else sofar)
  }

  lemma {:induction false} NullsCounted<T>(h: History<T>, ops: seq<Op<T>>)
    ensures Run(h, ops).nulls == NullsIn(ops, h.nulls)
    decreases |ops|
  {
    if ops != [] { NullsCounted(Record(h, ops[0]), ops[1..]); }
  }

  /** The free handles are exactly those standing for null, and live and free ones are all there are,
      exactly when no null pointer was given a handle since the last clear. */
  lemma AllAccountedForIff<T>(ops: seq<Op<T>>)
    ensures var t, good := Run(Empty(), ops).table, NullsIn(ops, 0) == 0;
            && (good <==> forall id :: id in t.handlers && t.handlers[id].None? ==> id in t.freeIds)
            && (good <==> |Live(t)| + |t.freeIds| == |t.handlers|)
  {
    EveryRunIsSound(ops);
    NullsCounted(Empty<T>(), ops);
    var t := Run(Empty(), ops).table;
    if |Leaked(t)| != 0 {
      var id :| id in Leaked(t);
    } else {
      assert Leaked(t) == {};
      forall id | id in t.handlers && t.handlers[id].None?
        ensures id in t.freeIds
      {
        assert id !in Leaked(t);
      }
    }
  }
}
