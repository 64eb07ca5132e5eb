/** The message protocol: calls between Begin and End, and what a whole message comes to. */
module MessageFilter {
  datatype Kind = Byte | Char | Short | Long | Angle | Coord | String | Entity

  datatype Data = Number(number: int) | Float(float: real) | Text(text: string)

  datatype Param = Param(kind: Kind, data: Data)

  const MAX_USER_MESSAGES := 256

  type MsgType = x: nat | x < MAX_USER_MESSAGES

  datatype Header = Header(dest: int, msgType: MsgType, origin: (real, real, real), edict: int)

  /** What the engine gets to see. */
  datatype Call = Begin(header: Header) | Write(param: Param) | End

  datatype Block = Not | Once | Always

  datatype Phase = Pre | Post

  /** A registered hook; `id` tells it from others. */
  datatype Hook<H> = Hook(id: H, phase: Phase, active: bool)

  datatype Tables<H> = Tables(blocks: seq<Block>, hooks: seq<seq<Hook<H>>>)

  predicate Valid<H>(t: Tables<H>) { |t.blocks| == MAX_USER_MESSAGES == |t.hooks| }

  datatype ReturnValue = Ignored | Stop | Handled

  /** Giving a parameter new data; its kind stays. */
  datatype Edit = Edit(index: nat, data: Data)

  /** What a handler does to a message when it is called. */
  datatype Reply = Reply(result: ReturnValue, edits: seq<Edit>)

  // ----- hooks ---------------------------------------------------------------------------------------

  /** The kind of data a parameter is sent with. */
  predicate Matches(kind: Kind, data: Data) {
    match kind
    case Angle => data.Float?
    case Coord => data.Float?
    case String => data.Text?
    case _ => data.Number?
  }

  /** An edit of a parameter there is, with data it can be sent with. */
  predicate Fits(params: seq<Param>, e: Edit) {
    e.index < |params| && Matches(params[e.index].kind, e.data)
  }

  /** Edits that do not fit are undefined in the program; here they change nothing. */
  function ApplyEdit(params: seq<Param>, e: Edit): seq<Param> {
    if Fits(params, e) then params[e.index := params[e.index].(data := e.data)] else params
  }

  function ApplyEdits(params: seq<Param>, edits: seq<Edit>): (r: seq<Param>)
    ensures SameKinds(params, r)
    decreases |edits|
  {
    if edits == [] then params else ApplyEdits(ApplyEdit(params, edits[0]), edits[1..])
  }

  predicate SameKinds(a: seq<Param>, b: seq<Param>) {
    |a| == |b| && forall i :: 0 <= i < |a| ==> a[i].kind == b[i].kind
  }

  predicate Runs<H>(hook: Hook<H>, phase: Phase) { hook.active && hook.phase == phase }

  datatype Outcome = Outcome(result: ReturnValue, params: seq<Param>)

  /** Calling the hooks in order: Stop ends it at once, Handled sticks. */
  function Fold<H>(hooks: seq<Hook<H>>, replies: seq<Reply>, phase: Phase, params: seq<Param>): (o: Outcome)
    requires |replies| == |hooks|
    ensures SameKinds(params, o.params)
    decreases |hooks|
  {
    if hooks == [] then Outcome(Ignored, params)
    else if !Runs(hooks[0], phase) then Fold(hooks[1..], replies[1..], phase, params)
    else
      var edited := ApplyEdits(params, replies[0].edits);
      if replies[0].result == Stop then Outcome(Stop, edited)
      else
        var rest := Fold(hooks[1..], replies[1..], phase, edited);
        if rest.result == Ignored then rest.(result := replies[0].result) else rest
  }

  /** The edits of all the hooks that run, in order. */
  function AllEdits<H>(hooks: seq<Hook<H>>, replies: seq<Reply>, phase: Phase): seq<Edit>
    requires |replies| == |hooks|
    decreases |hooks|
  {
    if hooks == [] then []
    else
      (if hooks[0].active && hooks[0].phase == phase then replies[0].edits else [])
      + AllEdits(hooks[1..], replies[1..], phase)
  }

  lemma {:induction false} EditsInTwo(params: seq<Param>, a: seq<Edit>, b: seq<Edit>)
    ensures ApplyEdits(params, a + b) == ApplyEdits(ApplyEdits(params, a), b)
    decreases |a|
  {
    if a == [] {
      assert a + b == b;
    } else {
      assert (a + b)[1..] == a[1..] + b;
      EditsInTwo(ApplyEdit(params, a[0]), a[1..], b);
    }
  }

  predicate AllIgnore<H>(hooks: seq<Hook<H>>, replies: seq<Reply>, phase: Phase)
    requires |replies| == |hooks|
  {
    forall k :: 0 <= k < |hooks| && hooks[k].active && hooks[k].phase == phase ==> replies[k].result == Ignored
  }

  predicate SomeStops<H>(hooks: seq<Hook<H>>, replies: seq<Reply>, phase: Phase)
    requires |replies| == |hooks|
  {
    exists k :: 0 <= k < |hooks| && hooks[k].active && hooks[k].phase == phase && replies[k].result == Stop
  }

  lemma AnswersCons<H>(hooks: seq<Hook<H>>, replies: seq<Reply>, phase: Phase)
    requires |replies| == |hooks| && hooks != []
    ensures var hs, rs, runs := hooks[1..], replies[1..], Runs(hooks[0], phase);
            && (AllIgnore(hooks, replies, phase) <==>
                  (runs ==> replies[0].result == Ignored) && AllIgnore(hs, rs, phase))
            && (SomeStops(hooks, replies, phase) <==> (runs && replies[0].result == Stop) || SomeStops(hs, rs, phase))
  {
  }

  /** The answer is Ignored exactly when every hook that runs answers Ignored, and Stop exactly when one
      of them answers Stop. Without a Stop all of them have run, in order. */
  lemma {:induction false} FoldMeans<H>(hooks: seq<Hook<H>>, replies: seq<Reply>, phase: Phase, params: seq<Param>)
    requires |replies| == |hooks|
    ensures var o := Fold(hooks, replies, phase, params);
            && (o.result == Ignored <==> AllIgnore(hooks, replies, phase))
            && (o.result == Stop <==> SomeStops(hooks, replies, phase))
            && (o.result != Stop ==> o.params == ApplyEdits(params, AllEdits(hooks, replies, phase)))
    decreases |hooks|
  {
    if hooks != [] {
      var hs, rs := hooks[1..], replies[1..];
      AnswersCons(hooks, replies, phase);
      hide AllIgnore, SomeStops, ApplyEdits, SameKinds;
      if !Runs(hooks[0], phase) {
        FoldMeans(hs, rs, phase, params);
        assert [] + AllEdits(hs, rs, phase) == AllEdits(hs, rs, phase);
      } else if replies[0].result != Stop {
        var edited := ApplyEdits(params, replies[0].edits);
        FoldMeans(hs, rs, phase, edited);
        EditsInTwo(params, replies[0].edits, AllEdits(hs, rs, phase));
      }
    }
  }

  // ----- what hooks come to, hook by hook ----------------------------------------------------------------

  /** The same replies of the hooks that are enabled and of this phase. */
  predicate SameWhereAsked<H>(hooks: seq<Hook<H>>, a: seq<Reply>, b: seq<Reply>, phase: Phase)
    requires |a| == |b| == |hooks|
  {
    forall k :: 0 <= k < |hooks| && hooks[k].active && hooks[k].phase == phase ==> a[k] == b[k]
  }

  /** A hook that is disabled or of the other phase is not asked: whatever it would do changes nothing. */
  lemma {:induction false} FoldAsksActive<H>(hooks: seq<Hook<H>>, a: seq<Reply>, b: seq<Reply>, phase: Phase,
                                             params: seq<Param>)
    requires |a| == |b| == |hooks| && SameWhereAsked(hooks, a, b, phase)
    ensures Fold(hooks, a, phase, params) == Fold(hooks, b, phase, params)
    decreases |hooks|
  {
    if hooks != [] {
      assert SameWhereAsked(hooks[1..], a[1..], b[1..], phase);
      FoldAsksActive(hooks[1..], a[1..], b[1..], phase,
                     if Runs(hooks[0], phase) then ApplyEdits(params, a[0].edits) else params);
    }
  }

  /** One more hook adds its edits if it is enabled and of this phase. */
  lemma {:induction false} EditsOfOneMore<H>(hooks: seq<Hook<H>>, replies: seq<Reply>, phase: Phase,
                                             hook: Hook<H>, reply: Reply)
    requires |replies| == |hooks|
    ensures AllEdits(hooks + [hook], replies + [reply], phase)
            == AllEdits(hooks, replies, phase) + if hook.active && hook.phase == phase then reply.edits else []
    decreases |hooks|
  {
    var hs, rs := hooks + [hook], replies + [reply];
    if hooks == [] {
      assert hs[1..] == [] && rs[1..] == [];
    } else {
      assert hs[1..] == hooks[1..] + [hook] && rs[1..] == replies[1..] + [reply];
      EditsOfOneMore(hooks[1..], replies[1..], phase, hook, reply);
    }
  }

  lemma {:induction false} EditsElsewhere(params: seq<Param>, edits: seq<Edit>, i: nat)
    requires i < |params| && forall k :: 0 <= k < |edits| ==> edits[k].index != i
    ensures ApplyEdits(params, edits)[i] == params[i]
    decreases |edits|
  {
    if edits != [] { EditsElsewhere(ApplyEdit(params, edits[0]), edits[1..], i); }
  }

  /** The last edit of a parameter decides its data, if it is of the parameter's kind; an unedited
      parameter stays. */
  lemma {:induction false} LastEditDecides(params: seq<Param>, edits: seq<Edit>, i: nat, k: nat)
    requires i < |params| && k <= |edits|
    requires forall j :: k < j < |edits| ==> edits[j].index != i
    requires if k < |edits| then edits[k].index == i && Matches(params[i].kind, edits[k].data)
             else forall j :: 0 <= j < |edits| ==> edits[j].index != i
    ensures ApplyEdits(params, edits)[i] == if k < |edits| then params[i].(data := edits[k].data) else params[i]
    decreases |edits|
  {
    if edits != [] {
      var edited := ApplyEdit(params, edits[0]);
      if k == 0 || k == |edits| {
        EditsElsewhere(edited, edits[1..], i);
      } else {
        LastEditDecides(edited, edits[1..], i, k - 1);
      }
    }
  }

  // ----- management ------------------------------------------------------------------------------------

  datatype Op<H> =
    | SetBlock(msgType: MsgType, block: Block)
    | Register(msgType: MsgType, id: H, phase: Phase)
    | Unregister(msgType: MsgType, id: H)
    | SetActive(id: H, active: bool)
    | ClearHooks

  ghost function RemoveHook<H>(hooks: seq<Hook<H>>, id: H): seq<Hook<H>> {
    if hooks == [] then [] else if hooks[0].id == id then hooks[1..] else [hooks[0]] + RemoveHook(hooks[1..], id)
  }

  ghost function Activate<H>(hooks: seq<Hook<H>>, id: H, active: bool): (r: seq<Hook<H>>)
    ensures |r| == |hooks|
    ensures forall k :: 0 <= k < |hooks| ==> r[k] == if hooks[k].id == id then hooks[k].(active := active) else hooks[k]
  {
    if hooks == [] then []
    else [if hooks[0].id == id then hooks[0].(active := active) else hooks[0]] + Activate(hooks[1..], id, active)
  }

  ghost function ActivateAll<H>(table: seq<seq<Hook<H>>>, id: H, active: bool): (r: seq<seq<Hook<H>>>)
    ensures |r| == |table| && forall k :: 0 <= k < |table| ==> r[k] == Activate(table[k], id, active)
  {
    if table == [] then [] else [Activate(table[0], id, active)] + ActivateAll(table[1..], id, active)
  }

  ghost function Apply<H>(t: Tables<H>, op: Op<H>): (t': Tables<H>)
    requires Valid(t)
    ensures Valid(t')
  {
    match op
    case SetBlock(msgType, block) => t.(blocks := t.blocks[msgType := block])
    case Register(msgType, id, phase) => t.(hooks := t.hooks[msgType := t.hooks[msgType] + [Hook(id, phase, true)]])
    case Unregister(msgType, id) => t.(hooks := t.hooks[msgType := RemoveHook(t.hooks[msgType], id)])
    case SetActive(id, active) => t.(hooks := ActivateAll(t.hooks, id, active))
    case ClearHooks => t.(hooks := seq(MAX_USER_MESSAGES, _ => []))
  }

  /** Every operation, table entry by table entry: a new hook is active and comes last. */
  lemma ManagementMeans<H>(t: Tables<H>, op: Op<H>, msgType: MsgType)
    requires Valid(t)
    ensures var t' := Apply(t, op);
            && t'.blocks[msgType]
               == (if op.SetBlock? && op.msgType == msgType then op.block else t.blocks[msgType])
            && (op.Register? ==>
                  t'.hooks[msgType]
                  == t.hooks[msgType] + if op.msgType == msgType then [Hook(op.id, op.phase, true)] else [])
            && (op.Unregister? && op.msgType != msgType ==> t'.hooks[msgType] == t.hooks[msgType])
            && (op.SetActive? ==>
                  && |t'.hooks[msgType]| == |t.hooks[msgType]|
                  && forall k :: 0 <= k < |t.hooks[msgType]| ==>
                       var h := t.hooks[msgType][k];
                       t'.hooks[msgType][k] == Hook(h.id, h.phase, if h.id == op.id then op.active else h.active))
            && (op.ClearHooks? ==> t'.hooks[msgType] == [])
            && (op.SetBlock? ==> t'.hooks[msgType] == t.hooks[msgType])
  {
  }

  /** Unregistering takes the first occurrence out of the list of its type, and nothing if there is none. */
  lemma UnregisterTakesFirst<H>(t: Tables<H>, msgType: MsgType, id: H, k: nat)
    requires Valid(t) && k <= |t.hooks[msgType]|
    requires forall j :: 0 <= j < k ==> t.hooks[msgType][j].id != id
    requires k < |t.hooks[msgType]| ==> t.hooks[msgType][k].id == id
    ensures var hooks := t.hooks[msgType];
            Apply(t, Unregister(msgType, id)).hooks[msgType]
            == if k < |hooks| then hooks[..k] + hooks[k + 1..] else hooks
  {
    RemovesFirst(t.hooks[msgType], id, k);
  }

  lemma {:induction false} RemovesFirst<H>(hooks: seq<Hook<H>>, id: H, k: nat)
    requires k <= |hooks| && forall j :: 0 <= j < k ==> hooks[j].id != id
    requires k < |hooks| ==> hooks[k].id == id
    ensures RemoveHook(hooks, id) == if k < |hooks| then hooks[..k] + hooks[k + 1..] else hooks
    decreases |hooks|
  {
    if k > 0 {
      RemovesFirst(hooks[1..], id, k - 1);
    }
  }

  // ----- the machine -----------------------------------------------------------------------------------

  datatype Machine<H> = Machine(
    inBlock: bool, inHook: bool, blockedType: MsgType, header: Header, params: seq<Param>,
    tables: Tables<H>, sent: seq<Call>)

  /** What the handlers of a message will do, hook by hook. */
  datatype Replies = Replies(pre: seq<Reply>, post: seq<Reply>)

  datatype Event<H> =
    | BeginMessage(header: Header)
    | WriteParam(param: Param)
    | EndMessage(replies: Replies)
    | Manage(op: Op<H>)

  function Whole(header: Header, params: seq<Param>): seq<Call> {
    [Begin(header)] + Writes(params) + [End]
  }

  function Writes(params: seq<Param>): (calls: seq<Call>)
    ensures |calls| == |params| && forall i :: 0 <= i < |calls| ==> calls[i] == Write(params[i])
  {
    seq(|params|, i requires 0 <= i < |params| => Write(params[i]))
  }

  /** Replies for exactly the given hooks; those beyond are not asked, those missing do nothing. */
  function Padded(replies: seq<Reply>, n: nat): (r: seq<Reply>)
    ensures |r| == n && (|replies| == n ==> r == replies)
  {
    seq(n, i => if 0 <= i < |replies| then replies[i] else Reply(Ignored, []))
  }

  ghost function Step<H>(m: Machine<H>, e: Event<H>): (m': Machine<H>)
    requires Valid(m.tables)
    ensures Valid(m'.tables)
  {
    match e
    case BeginMessage(header) =>
      if m.tables.blocks[header.msgType] != Not then m.(inBlock := true, blockedType := header.msgType)
      else if m.tables.hooks[header.msgType] != [] then m.(inHook := true, header := header)
      else m.(inHook := false, sent := m.sent + [Begin(header)])
    case WriteParam(param) =>
      if m.inBlock then m
      else if m.inHook then m.(params := m.params + [param])
      else m.(sent := m.sent + [Write(param)])
    case EndMessage(replies) =>
      if m.inBlock then
        m.(inBlock := false,
           tables := if m.tables.blocks[m.blockedType] != Once then m.tables
                     else Apply(m.tables, SetBlock(m.blockedType, Not)))
      else if !m.inHook then m.(sent := m.sent + [End])
      else
        var hooks := m.tables.hooks[m.header.msgType];
        var o := Fold(hooks, Padded(replies.pre, |hooks|), Pre, m.params);
        m.(inHook := false, params := [],
           sent := if o.result == Ignored then m.sent + Whole(m.header, o.params) else m.sent)
    case Manage(op) => m.(tables := Apply(m.tables, op))
  }

  ghost function Run<H>(m: Machine<H>, events: seq<Event<H>>): (m': Machine<H>)
    requires Valid(m.tables)
    ensures Valid(m'.tables)
    decreases |events|
  {
    if events == [] then m else Run(Step(m, events[0]), events[1..])
  }

  lemma {:induction false} RunInTwo<H>(m: Machine<H>, a: seq<Event<H>>, b: seq<Event<H>>)
    requires Valid(m.tables)
    ensures Run(m, a + b) == Run(Run(m, a), b)
    decreases |a|
  {
    hide Step;
    if a == [] {
      assert a + b == b;
    } else {
      assert (a + b)[1..] == a[1..] + b;
      RunInTwo(Step(m, a[0]), a[1..], b);
    }
  }

  // ----- the filter ------------------------------------------------------------------------------------

  /** Between Begin and End there are parameters, and blocks and hooks may be managed. */
  datatype Inner<H> = Param(param: Param) | Managing(op: Op<H>)

  /** A whole message, or management between messages. */
  datatype Item<H> =
    | Message(header: Header, body: seq<Inner<H>>, replies: Replies)
    | Between(op: Op<H>)

  ghost function EventOf<H>(i: Inner<H>): Event<H> {
    match i
    case Param(param) => WriteParam(param)
    case Managing(op) => Manage(op)
  }

  ghost function Events<H>(body: seq<Inner<H>>): (r: seq<Event<H>>)
    ensures |r| == |body|
  {
    if body == [] then [] else [EventOf(body[0])] + Events(body[1..])
  }

  ghost function Calls<H>(item: Item<H>): seq<Event<H>> {
    match item
    case Message(header, body, replies) => [BeginMessage(header)] + Events(body) + [EndMessage(replies)]
    case Between(op) => [Manage(op)]
  }

  ghost function Flatten<H>(items: seq<Item<H>>): seq<Event<H>> {
    if items == [] then [] else Calls(items[0]) + Flatten(items[1..])
  }

  /** The parameters written. */
  ghost function Written<H>(body: seq<Inner<H>>): seq<Param> {
    if body == [] then [] else (if body[0].Param? then [body[0].param] else []) + Written(body[1..])
  }

  /** The tables after the management of a body. */
  ghost function Managed<H>(t: Tables<H>, body: seq<Inner<H>>): (t': Tables<H>)
    requires Valid(t)
    ensures Valid(t')
    decreases |body|
  {
    if body == [] then t else Managed(if body[0].Managing? then Apply(t, body[0].op) else t, body[1..])
  }

  datatype Verdict = Blocked | Hooked | Passed

  function VerdictOn<H>(t: Tables<H>, msgType: MsgType): Verdict
    requires Valid(t)
  {
    if t.blocks[msgType] != Not then Blocked else if t.hooks[msgType] != [] then Hooked else Passed
  }

  datatype Filtered<H> = Filtered(tables: Tables<H>, out: seq<Call>)

  /** What an item comes to: how a message is treated is settled when it begins; which hooks run, and
      whether a Once block is used up, when it ends. */
  ghost function Filter<H>(t: Tables<H>, item: Item<H>): (f: Filtered<H>)
    requires Valid(t)
    ensures Valid(f.tables)
  {
    match item
    case Between(op) => Filtered(Apply(t, op), [])
    case Message(header, body, replies) =>
      var t' := Managed(t, body);
      match VerdictOn(t, header.msgType)
      case Blocked =>
        Filtered(if t'.blocks[header.msgType] == Once then Apply(t', SetBlock(header.msgType, Not)) else t', [])
      case Passed => Filtered(t', Whole(header, Written(body)))
      case Hooked =>
        var hooks := t'.hooks[header.msgType];
        var o := Fold(hooks, Padded(replies.pre, |hooks|), Pre, Written(body));
        Filtered(t', if o.result == Ignored then Whole(header, o.params) else [])
  }

  ghost function FilterAll<H>(t: Tables<H>, items: seq<Item<H>>): (f: Filtered<H>)
    requires Valid(t)
    ensures Valid(f.tables)
    decreases |items|
  {
    if items == [] then Filtered(t, [])
    else
      var first := Filter(t, items[0]);
      var rest := FilterAll(first.tables, items[1..]);
      rest.(out := first.out + rest.out)
  }

  // ----- the machine refines the filter ----------------------------------------------------------------

  /** Between messages: not blocking, nothing buffered. */
  ghost predicate Idle<H>(m: Machine<H>) { Valid(m.tables) && !m.inBlock && m.params == [] }

  /** The machine behind the events of a body. */
  ghost function BehindBody<H>(m: Machine<H>, body: seq<Inner<H>>): (m': Machine<H>)
    requires Valid(m.tables)
  {
    var m' := m.(tables := Managed(m.tables, body));
    if m.inBlock then m'
    else if m.inHook then m'.(params := m.params + Written(body))
    else m'.(sent := m.sent + Writes(Written(body)))
  }

  lemma WritesCons(params: seq<Param>, p: Param, rest: seq<Param>, sent: seq<Call>)
    ensures params + [p] + rest == params + ([p] + rest)
    ensures sent + [Write(p)] + Writes(rest) == sent + Writes([p] + rest)
  {
  }

  lemma {:induction false} BodyRuns<H>(m: Machine<H>, body: seq<Inner<H>>)
    requires Valid(m.tables)
    ensures Run(m, Events(body)) == BehindBody(m, body)
    decreases |body|
  {
    hide Apply, Fold, Whole;
    if body == [] {
      assert m.params + [] == m.params && m.sent + [] == m.sent;
    } else {
      var m1, rest := Step(m, EventOf(body[0])), body[1..];
      assert Events(body)[0] == EventOf(body[0]) && Events(body)[1..] == Events(rest);
      BodyRuns(m1, rest);
      if body[0].Param? {
        WritesCons(m.params, body[0].param, Written(rest), m.sent);
      } else {
        assert [] + Written(rest) == Written(rest);
      }
    }
  }

  lemma MessageRuns<H>(m: Machine<H>, header: Header, body: seq<Inner<H>>, replies: Replies)
    requires Valid(m.tables)
    ensures Run(m, Calls(Message(header, body, replies)))
            == Step(BehindBody(Step(m, BeginMessage(header)), body), EndMessage(replies))
  {
    var begin, end := BeginMessage(header), EndMessage(replies);
    hide Step, BehindBody;
    RunInTwo(m, [begin] + Events(body), [end]);
    RunInTwo(m, [begin], Events(body));
    assert Run(m, [begin]) == Step(m, begin);
    BodyRuns(Step(m, begin), body);
    var m1 := Run(Step(m, begin), Events(body));
    assert [end][1..] == [];
    assert Run(m1, [end]) == Step(m1, end);
  }

  lemma PassedOut(sent: seq<Call>, header: Header, params: seq<Param>)
    ensures sent + [Begin(header)] + Writes(params) + [End] == sent + Whole(header, params)
    ensures [] + params == params && sent + [] == sent
  {
  }

  lemma MessageSteps<H>(m: Machine<H>, header: Header, body: seq<Inner<H>>, replies: Replies)
    requires Idle(m)
    ensures var m', f := Step(BehindBody(Step(m, BeginMessage(header)), body), EndMessage(replies)),
                         Filter(m.tables, Message(header, body, replies));
            Idle(m') && m'.tables == f.tables && m'.sent == m.sent + f.out && (!m.inHook ==> !m'.inHook)
  {
    hide Managed, Written, Fold, Apply, Writes, Whole, Padded;
    PassedOut(m.sent, header, Written(body));
    match VerdictOn(m.tables, header.msgType)
    case Blocked =>
    case Passed =>
    case Hooked =>
  }

  /** One item: the machine sends what the filter lets through and is idle again. */
  lemma ItemRefines<H>(m: Machine<H>, item: Item<H>)
    requires Idle(m)
    ensures var m', f := Run(m, Calls(item)), Filter(m.tables, item);
            Idle(m') && m'.tables == f.tables && m'.sent == m.sent + f.out && (!m.inHook ==> !m'.inHook)
  {
    if item.Message? {
      hide Run, Step, BehindBody, Filter, Idle;
      MessageRuns(m, item.header, item.body, item.replies);
      MessageSteps(m, item.header, item.body, item.replies);
    } else {
      hide Apply;
      assert [Manage(item.op)][1..] == [];
      assert Run(m, [Manage(item.op)]) == Step(m, Manage(item.op));
    }
  }

  /** Over every well-bracketed run, management anywhere in it, the machine sends exactly what the
      message-level filter does, and no flag or parameter is left over. */
  lemma {:induction false} MachineRefinesFilter<H>(m: Machine<H>, items: seq<Item<H>>)
    requires Idle(m)
    ensures var m', f := Run(m, Flatten(items)), FilterAll(m.tables, items);
            Idle(m') && m'.tables == f.tables && m'.sent == m.sent + f.out && (!m.inHook ==> !m'.inHook)
    decreases |items|
  {
    hide Step, Filter, Calls;
    if items != [] {
      ItemRefines(m, items[0]);
      var m1, first := Run(m, Calls(items[0])), Filter(m.tables, items[0]);
      RunInTwo(m, Calls(items[0]), Flatten(items[1..]));
      MachineRefinesFilter(m1, items[1..]);
      var rest := FilterAll(first.tables, items[1..]);
      assert m.sent + first.out + rest.out == m.sent + (first.out + rest.out);
    }
  }

  // ----- what the filter guarantees --------------------------------------------------------------------

  /** A message comes out once or not at all: same header, as many parameters of the same kinds in the
      same order. It comes out unless it is blocked or a running pre hook answers something; then its
      parameters are as written, with all the edits of the pre hooks made in order. */
  lemma MessageOnceOrNot<H>(t: Tables<H>, header: Header, body: seq<Inner<H>>, replies: Replies)
    requires Valid(t)
    ensures var hooks, out := Managed(t, body).hooks[header.msgType], Filter(t, Message(header, body, replies)).out;
            var pre := Padded(replies.pre, |hooks|);
            var params := ApplyEdits(Written(body), AllEdits(hooks, pre, Pre));
            SameKinds(Written(body), params) &&
            out == match VerdictOn(t, header.msgType)
                   case Blocked => []
                   case Passed => Whole(header, Written(body))
                   case Hooked => if AllIgnore(hooks, pre, Pre) then Whole(header, params) else []
  {
    var hooks := Managed(t, body).hooks[header.msgType];
    FoldMeans(hooks, Padded(replies.pre, |hooks|), Pre, Written(body));
  }

  /** What disabled hooks, hooks of the other phase and post hooks would answer changes nothing that comes out. */
  lemma FilterAsksActive<H>(t: Tables<H>, header: Header, body: seq<Inner<H>>, a: Replies, b: Replies)
    requires Valid(t)
    requires var hooks := Managed(t, body).hooks[header.msgType];
             |a.pre| == |b.pre| == |hooks| && SameWhereAsked(hooks, a.pre, b.pre, Pre)
    ensures Filter(t, Message(header, body, a)) == Filter(t, Message(header, body, b))
  {
    var hooks := Managed(t, body).hooks[header.msgType];
    FoldAsksActive(hooks, a.pre, b.pre, Pre, Written(body));
    hide Fold, Managed, Apply, SameWhereAsked, Whole;
  }

  /** A hooked message comes out if and only if every enabled pre hook answers Ignored. */
  lemma HookedComesOutIff<H>(t: Tables<H>, header: Header, body: seq<Inner<H>>, replies: Replies)
    requires Valid(t) && t.blocks[header.msgType] == Not && t.hooks[header.msgType] != []
    requires |replies.pre| == |Managed(t, body).hooks[header.msgType]|
    ensures var hooks := Managed(t, body).hooks[header.msgType];
            Filter(t, Message(header, body, replies)).out != []
            <==> forall k :: 0 <= k < |hooks| && hooks[k].active && hooks[k].phase == Pre ==>
                   replies.pre[k].result == Ignored
  {
    MessageOnceOrNot(t, header, body, replies);
  }

  /** A run that leaves the block of `msgType` to itself. */
  ghost predicate LeavesBlock<H>(op: Op<H>, msgType: MsgType) { op.SetBlock? ==> op.msgType != msgType }

  ghost predicate Untouched<H>(items: seq<Item<H>>, msgType: MsgType) {
    forall k :: 0 <= k < |items| ==>
      match items[k]
      case Between(op) => LeavesBlock(op, msgType)
      case Message(_, body, _) => forall j :: 0 <= j < |body| && body[j].Managing? ==> LeavesBlock(body[j].op, msgType)
  }

  lemma {:induction false} BodyLeavesBlock<H>(t: Tables<H>, body: seq<Inner<H>>, msgType: MsgType)
    requires Valid(t) && forall j :: 0 <= j < |body| && body[j].Managing? ==> LeavesBlock(body[j].op, msgType)
    ensures Managed(t, body).blocks[msgType] == t.blocks[msgType]
    decreases |body|
  {
    if body != [] {
      BodyLeavesBlock(if body[0].Managing? then Apply(t, body[0].op) else t, body[1..], msgType);
    }
  }

  predicate Of<H>(item: Item<H>, msgType: MsgType) { item.Message? && item.header.msgType == msgType }

  /** What one item does to a block: a message of its type uses a Once block up. */
  lemma ItemLeavesBlock<H>(t: Tables<H>, item: Item<H>, msgType: MsgType)
    requires Valid(t) && Untouched([item], msgType)
    ensures Filter(t, item).tables.blocks[msgType]
            == if Of(item, msgType) && t.blocks[msgType] == Once then Not else t.blocks[msgType]
  {
    assert [item][0] == item;
    if item.Message? { BodyLeavesBlock(t, item.body, msgType); }
  }

  lemma {:induction false} FilterFirst<H>(t: Tables<H>, items: seq<Item<H>>, k: nat)
    requires Valid(t) && k < |items|
    ensures FilterAll(t, items[..k + 1]).tables == Filter(FilterAll(t, items[..k]).tables, items[k]).tables
    decreases k
  {
    hide Filter;
    var head := items[..k + 1];
    if k == 0 {
      assert head[1..] == [];
    } else {
      var t1 := Filter(t, items[0]).tables;
      FilterFirst(t1, items[1..], k - 1);
      assert items[1..][..k] == head[1..];
      assert items[1..][..k - 1] == items[..k][1..];
    }
  }

  /** A Once block swallows exactly the next message of its type. */
  lemma {:induction false} OnceSwallowsOne<H>(t: Tables<H>, items: seq<Item<H>>, msgType: MsgType, k: nat)
    requires Valid(t) && t.blocks[msgType] == Once && Untouched(items, msgType) && k <= |items|
    ensures FilterAll(t, items[..k]).tables.blocks[msgType]
            == if exists j :: 0 <= j < k && Of(items[j], msgType) then Not else Once
    decreases k
  {
    if k > 0 {
      OnceSwallowsOne(t, items, msgType, k - 1);
      assert Untouched([items[k - 1]], msgType);
      hide Filter, FilterAll;
      FilterFirst(t, items, k - 1);
      ItemLeavesBlock(FilterAll(t, items[..k - 1]).tables, items[k - 1], msgType);
    }
  }

  /** So a message of that type is blocked exactly when it is the first one. */
  lemma OnceBlocksFirst<H>(t: Tables<H>, items: seq<Item<H>>, msgType: MsgType, k: nat)
    requires Valid(t) && t.blocks[msgType] == Once && Untouched(items, msgType)
    requires k < |items| && Of(items[k], msgType)
    ensures VerdictOn(FilterAll(t, items[..k]).tables, msgType) == Blocked
            <==> forall j :: 0 <= j < k ==> !Of(items[j], msgType)
  {
    OnceSwallowsOne(t, items, msgType, k);
  }

  /** An Always block swallows every message of its type. */
  lemma {:induction false} AlwaysSwallowsAll<H>(t: Tables<H>, items: seq<Item<H>>, msgType: MsgType, k: nat)
    requires Valid(t) && t.blocks[msgType] == Always && Untouched(items, msgType) && k <= |items|
    ensures FilterAll(t, items[..k]).tables.blocks[msgType] == Always
    ensures k < |items| && Of(items[k], msgType) ==> Filter(FilterAll(t, items[..k]).tables, items[k]).out == []
    decreases k
  {
    if k > 0 {
      AlwaysSwallowsAll(t, items, msgType, k - 1);
      assert Untouched([items[k - 1]], msgType);
      FilterFirst(t, items, k - 1);
      ItemLeavesBlock(FilterAll(t, items[..k - 1]).tables, items[k - 1], msgType);
    }
  }
}
