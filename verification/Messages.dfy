/** Message hooks and the manager the engine's message calls go through. Handlers do not re-enter it. */
module Messages {
  import opened MessageFilter

  class MessageHook {
    const msgType: MsgType
    const phase: Phase
    var active: bool

    function View(): Hook<MessageHook> reads this { Hook(this, phase, active) }

    constructor (msgType: MsgType, phase: Phase)
      ensures this.msgType == msgType && View() == Hook(this, phase, true)
    {
      this.msgType, this.phase, active := msgType, phase, true;
    }

    method Enable()
      modifies this
      ensures View() == Hook(this, phase, true)
    {
      active := true;
    }

    method Disable()
      modifies this
      ensures View() == Hook(this, phase, false)
    {
      active := false;
    }
  }

  ghost function Views(hooks: seq<MessageHook>): (vs: seq<Hook<MessageHook>>)
    reads hooks
    ensures |vs| == |hooks| && forall k :: 0 <= k < |hooks| ==> vs[k] == hooks[k].View()
  {
    seq(|hooks|, k requires 0 <= k < |hooks| reads hooks => hooks[k].View())
  }

  /** All hook objects of a table. */
  ghost function Objects(table: seq<seq<MessageHook>>): set<MessageHook> {
    set i, h | 0 <= i < |table| && h in table[i] :: h
  }

  ghost function TableView(table: seq<seq<MessageHook>>): (vs: seq<seq<Hook<MessageHook>>>)
    reads Objects(table)
    ensures |vs| == |table| && forall i :: 0 <= i < |table| ==> vs[i] == Views(table[i])
  {
    seq(|table|, i requires 0 <= i < |table| reads Objects(table) =>
      assert forall h :: h in table[i] ==> h in Objects(table);
      Views(table[i]))
  }

  /** What the engine hook tells Metamod: leave the call to the engine, or stop it. */
  datatype MetaResult = PassOn | Supersede

  class MessageManager {
    var inBlock: bool
    var inHook: bool
    var blockedType: MsgType
    var header: Header
    var params: seq<Param>
    const blocks: array<Block>
    var hooks: seq<seq<MessageHook>>
    /** The calls the engine has seen: those passed on to it and those made by replaying a message. */
    ghost var engine: seq<Call>
    /** The hooks whose handlers have been called. */
    ghost var called: seq<MessageHook>

    ghost predicate WellFormed()
      reads this
    {
      blocks.Length == MAX_USER_MESSAGES == |hooks|
    }

    ghost function View(): (m: Machine<MessageHook>)
      requires WellFormed()
      reads this, blocks, Objects(hooks)
      ensures Valid(m.tables)
    {
      Machine(inBlock, inHook, blockedType, header, params, Tables(blocks[..], TableView(hooks)), engine)
    }

    /** The constructor leaves the hook flag and the header as they come. */
    constructor (someFlag: bool, someType: MsgType, someHeader: Header)
      ensures WellFormed() && fresh(blocks) && Idle(View()) && engine == []
      ensures forall t: MsgType :: VerdictOn(View().tables, t) == Passed
    {
      inBlock, inHook, blockedType, header, params := false, someFlag, someType, someHeader, [];
      blocks := new Block[MAX_USER_MESSAGES](_ => Not);
      hooks := seq(MAX_USER_MESSAGES, _ => []);
      engine, called := [], [];
    }

    method MessageBegin(h: Header) returns (res: MetaResult)
      requires WellFormed()
      modifies this`inBlock, this`inHook, this`blockedType, this`header, this`engine
      ensures WellFormed() && View() == Step(old(View()), BeginMessage(h))
      ensures res == PassOn <==> blocks[h.msgType] == Not && hooks[h.msgType] == []
      ensures engine == if res == PassOn then old(engine) + [Begin(h)] else old(engine)
      ensures if blocks[h.msgType] != Not then inBlock && blockedType == h.msgType
              else inBlock == old(inBlock) && inHook == (hooks[h.msgType] != []) && (inHook ==> header == h)
    {
      if blocks[h.msgType] != Not {
        inBlock, blockedType := true, h.msgType;
        return Supersede;
      }
      inHook := hooks[h.msgType] != [];
      if inHook {
        header := h;
        return Supersede;
      }
      engine := engine + [Begin(h)];
      return PassOn;
    }

    method WriteParam(kind: Kind, data: Data) returns (res: MetaResult)
      requires WellFormed() && Matches(kind, data)
      modifies this`params, this`engine
      ensures WellFormed() && View() == Step(old(View()), Event.WriteParam(Param.Param(kind, data)))
      ensures res == PassOn <==> !inBlock && !inHook
      ensures engine == if res == PassOn then old(engine) + [Write(Param.Param(kind, data))] else old(engine)
      ensures params == if !inBlock && inHook then old(params) + [Param.Param(kind, data)] else old(params)
    {
      if inBlock {
        return Supersede;
      } else if inHook {
        params := params + [Param.Param(kind, data)];
        return Supersede;
      }
      engine := engine + [Write(Param.Param(kind, data))];
      return PassOn;
    }

    /** What one handler does to the message. */
    method Handle(reply: Reply)
      requires forall k :: 0 <= k < |reply.edits| ==> Fits(params, reply.edits[k])
      modifies this`params
      ensures params == ApplyEdits(old(params), reply.edits) && SameKinds(old(params), params)
    {
      var k := 0;
      while k < |reply.edits|
        invariant 0 <= k <= |reply.edits| && SameKinds(old(params), params)
        invariant ApplyEdits(old(params), reply.edits) == ApplyEdits(params, reply.edits[k..])
      {
        var e := reply.edits[k];
        assert reply.edits[k..][0] == e && reply.edits[k..][1..] == reply.edits[k + 1..];
        assert Fits(old(params), e);
        params := params[e.index := params[e.index].(data := e.data)];
        k := k + 1;
      }
    }

    /** Handlers edit parameters there are with data of their kind. */
    ghost predicate RepliesFit(replies: seq<Reply>, n: nat)
      reads this
    {
      && |replies| == n
      && forall i, k :: 0 <= i < n && 0 <= k < |replies[i].edits| ==> Fits(params, replies[i].edits[k])
    }

    lemma FoldFirst(hs: seq<Hook<MessageHook>>, replies: seq<Reply>, phase: Phase, ps: seq<Param>, k: nat)
      requires |replies| == |hs| && k < |hs|
      ensures var here, edited := Fold(hs[k..], replies[k..], phase, ps), ApplyEdits(ps, replies[k].edits);
              here == if !Runs(hs[k], phase) then Fold(hs[k + 1..], replies[k + 1..], phase, ps)
                      else if replies[k].result == Stop then Outcome(Stop, edited)
                      else var rest := Fold(hs[k + 1..], replies[k + 1..], phase, edited);
                           if rest.result == Ignored then rest.(result := replies[k].result) else rest
    {
    }

    /** The handlers that are called: those of the enabled hooks of the phase, in order, up to a Stop. */
    ghost function Asked(hs: seq<MessageHook>, replies: seq<Reply>, phase: Phase): seq<MessageHook>
      requires |replies| == |hs|
      reads hs
      decreases |hs|
    {
      if hs == [] then []
      else if !hs[0].active || hs[0].phase != phase then Asked(hs[1..], replies[1..], phase)
      else [hs[0]] + if replies[0].result == Stop then [] else Asked(hs[1..], replies[1..], phase)
    }

    /** One more hook is called if it is enabled and of the phase, and no such hook before it answered Stop. */
    lemma {:induction false} AskedOneMore(hs: seq<MessageHook>, replies: seq<Reply>, phase: Phase,
                                          hook: MessageHook, reply: Reply)
      requires |replies| == |hs|
      ensures Asked(hs + [hook], replies + [reply], phase)
              == Asked(hs, replies, phase)
                 + if hook.active && hook.phase == phase
                      && forall j :: 0 <= j < |hs| && hs[j].active && hs[j].phase == phase ==> replies[j].result != Stop
                   then [hook] else []
      decreases |hs|
    {
      var all, rs := hs + [hook], replies + [reply];
      if hs == [] {
        assert all[1..] == [] && rs[1..] == [];
      } else {
        assert all[1..] == hs[1..] + [hook] && rs[1..] == replies[1..] + [reply];
        AskedOneMore(hs[1..], replies[1..], phase, hook, reply);
      }
    }

    lemma AskedFirst(before: seq<MessageHook>, hs: seq<MessageHook>, replies: seq<Reply>, phase: Phase, k: nat)
      requires |replies| == |hs| && k < |hs|
      ensures var rest := Asked(hs[k + 1..], replies[k + 1..], phase);
              before + Asked(hs[k..], replies[k..], phase)
              == if !hs[k].active || hs[k].phase != phase then before + rest
                 else if replies[k].result == Stop then before + [hs[k]]
                 else before + [hs[k]] + rest
    {
      assert hs[k..][1..] == hs[k + 1..] && replies[k..][1..] == replies[k + 1..];
    }

    lemma AskedNone(before: seq<MessageHook>, phase: Phase)
      ensures before + Asked([], [], phase) == before
    {
    }

    /** The loop over the hooks of a type. */
    method ExecHandlers(phase: Phase, replies: seq<Reply>) returns (result: ReturnValue)
      requires WellFormed() && RepliesFit(replies, |hooks[header.msgType]|)
      modifies this`params, this`called
      ensures Outcome(result, params) == Fold(Views(hooks[header.msgType]), replies, phase, old(params))
      ensures called == old(called) + Asked(hooks[header.msgType], replies, phase)
    {
      hide Fold, ApplyEdits, Asked;
      var hs := hooks[header.msgType];
      ghost var vs := Views(hs);
      ghost var all, calls := Fold(vs, replies, phase, params), called + Asked(hs, replies, phase);
      assert vs[0..] == vs && hs[0..] == hs && replies[0..] == replies;
      result := Ignored;
      var k := 0;
      while k < |hs|
        invariant 0 <= k <= |hs| && SameKinds(old(params), params)
        invariant result != Stop
        invariant var rest := Fold(vs[k..], replies[k..], phase, params);
                  all == if rest.result == Ignored then rest.(result := result) else rest
        invariant calls == called + Asked(hs[k..], replies[k..], phase)
      {
        FoldFirst(vs, replies, phase, params, k);
        AskedFirst(called, hs, replies, phase, k);
        if hs[k].active && hs[k].phase == phase {
          assert forall j :: 0 <= j < |replies[k].edits| ==> Fits(old(params), replies[k].edits[j]);
          Handle(replies[k]);
          called := called + [hs[k]];
          if replies[k].result == Stop {
            return Stop;
          } else if replies[k].result == Handled {
            result := Handled;
          }
        }
        k := k + 1;
      }
      FoldNone(phase, params);
      AskedNone(called, phase);
      assert vs[k..] == [] && hs[k..] == [] && replies[k..] == [];
    }

    lemma FoldNone(phase: Phase, ps: seq<Param>)
      ensures Fold<MessageHook>([], [], phase, ps) == Outcome(Ignored, ps)
    {
    }

    /** Sending the message to the engine. */
    ghost method Exec()
      modifies this`engine
      ensures engine == old(engine) + Whole(header, params)
    {
      engine := engine + [Begin(header)];
      var k := 0;
      while k < |params|
        invariant 0 <= k <= |params| && engine == old(engine) + [Begin(header)] + Writes(params[..k])
      {
        assert Writes(params[..k]) + [Write(params[k])] == Writes(params[..k + 1]);
        engine := engine + [Write(params[k])];
        k := k + 1;
      }
      assert params[..k] == params;
      engine := engine + [End];
    }

    /** Every enabled pre hook answers Ignored. */
    ghost predicate Ignoring(hs: seq<MessageHook>, replies: seq<Reply>)
      requires |replies| == |hs|
      reads hs
    {
      forall k :: 0 <= k < |hs| && hs[k].active && hs[k].phase == Pre ==> replies[k].result == Ignored
    }

    lemma IgnoringIs(hs: seq<MessageHook>, replies: seq<Reply>, ps: seq<Param>)
      requires |replies| == |hs|
      ensures Fold(Views(hs), replies, Pre, ps).result == Ignored <==> Ignoring(hs, replies)
    {
      FoldMeans(Views(hs), replies, Pre, ps);
      assert forall k :: 0 <= k < |hs| ==> (Runs(Views(hs)[k], Pre) <==> hs[k].active && hs[k].phase == Pre);
      hide Fold, Views;
    }

    /** The end of a hooked message: the pre hooks are called; if they all ignore it, it is sent and the post
        hooks are called. */
    method EndHooked(replies: Replies)
      requires WellFormed()
      requires RepliesFit(replies.pre, |hooks[header.msgType]|) && RepliesFit(replies.post, |hooks[header.msgType]|)
      modifies this`params, this`engine, this`called
      ensures var hs := hooks[header.msgType];
              var o := Fold(Views(hs), replies.pre, Pre, old(params));
              && (o.result == Ignored <==> Ignoring(hs, replies.pre))
              && engine == old(engine) + (if Ignoring(hs, replies.pre) then Whole(header, o.params) else [])
              && called == old(called) + Asked(hs, replies.pre, Pre)
                           + if Ignoring(hs, replies.pre) then Asked(hs, replies.post, Post) else []
    {
      hide Views, Fold, Whole, Asked, Ignoring;
      IgnoringIs(hooks[header.msgType], replies.pre, params);
      var result := ExecHandlers(Pre, replies.pre);
      if result == Ignored {
        Exec();
        var _ := ExecHandlers(Post, replies.post);
      }
    }

    method MessageEnd(replies: Replies) returns (res: MetaResult)
      requires WellFormed()
      requires !inBlock && inHook ==>
        RepliesFit(replies.pre, |hooks[header.msgType]|) && RepliesFit(replies.post, |hooks[header.msgType]|)
      modifies this`inBlock, this`inHook, this`params, this`engine, this`called, blocks
      ensures WellFormed() && View() == Step(old(View()), EndMessage(replies))
      ensures res == PassOn <==> !old(inBlock) && !old(inHook)
      ensures res == PassOn ==> engine == old(engine) + [End]
      ensures blocks[..] == if old(inBlock) && old(blocks[blockedType]) == Once then old(blocks[..])[blockedType := Not]
                            else old(blocks[..])
      ensures !inBlock && params == if old(inBlock) || !old(inHook) then old(params) else []
      ensures called
              == old(called)
                 + if old(inBlock) || !old(inHook) then []
                   else var hs := hooks[header.msgType];
                        Asked(hs, replies.pre, Pre)
                        + if Ignoring(hs, replies.pre) then Asked(hs, replies.post, Post) else []
    {
      hide Views, TableView, Fold, Whole, Asked, Ignoring;
      if inBlock {
        inBlock := false;
        if blocks[blockedType] == Once { blocks[blockedType] := Not; }
        return Supersede;
      }
      if !inHook {
        engine := engine + [End];
        return PassOn;
      }
      EndHooked(replies);
      inHook, params := false, [];
      return Supersede;
    }

    method SetMessageBlock(msgType: MsgType, block: Block)
      requires WellFormed()
      modifies blocks
      ensures View() == Step(old(View()), Manage(SetBlock(msgType, block)))
      ensures blocks[..] == old(blocks[..])[msgType := block]
    {
      blocks[msgType] := block;
    }

    method RegisterHook(msgType: MsgType, phase: Phase) returns (hook: MessageHook)
      requires WellFormed()
      modifies this`hooks
      ensures WellFormed() && fresh(hook) && hook.msgType == msgType && hook.phase == phase && hook.active
      ensures hooks == old(hooks)[msgType := old(hooks)[msgType] + [hook]]
      ensures View() == Step(old(View()), Manage(Register(msgType, hook, phase)))
    {
      hide Views, TableView;
      ghost var before := View();
      hook := new MessageHook(msgType, phase);
      hooks := hooks[msgType := hooks[msgType] + [hook]];
      assert Views(hooks[msgType]) == before.tables.hooks[msgType] + [Hook(hook, phase, true)];
      assert TableView(hooks) == before.tables.hooks[msgType := Views(hooks[msgType])];
    }

    lemma RemoveAt(hs: seq<MessageHook>, k: nat, hook: MessageHook)
      requires k < |hs|
      ensures RemoveHook(Views(hs[k..]), hook)
              == if hs[k] == hook then Views(hs[k + 1..]) else [hs[k].View()] + RemoveHook(Views(hs[k + 1..]), hook)
      ensures Views(hs[..k + 1]) == Views(hs[..k]) + [hs[k].View()]
      ensures Views(hs[..k] + hs[k + 1..]) == Views(hs[..k]) + Views(hs[k + 1..])
    {
      assert Views(hs[k..])[0] == hs[k].View() && Views(hs[k..])[1..] == Views(hs[k + 1..]);
    }

    /** The loop that erases a hook from the list of its type. */
    method RemoveFrom(hs: seq<MessageHook>, hook: MessageHook) returns (r: seq<MessageHook>)
      ensures Views(r) == RemoveHook(Views(hs), hook)
      ensures hook !in hs ==> r == hs
      ensures hook in hs ==>
        exists k :: 0 <= k < |hs| && hs[k] == hook && hook !in hs[..k] && r == hs[..k] + hs[k + 1..]
    {
      hide Views, RemoveHook;
      r := hs;
      var k := 0;
      assert Views(hs[..0]) == [] && hs[0..] == hs;
      while k < |hs|
        invariant 0 <= k <= |hs| && r == hs && hook !in hs[..k]
        invariant RemoveHook(Views(hs), hook) == Views(hs[..k]) + RemoveHook(Views(hs[k..]), hook)
      {
        RemoveAt(hs, k, hook);
        if hs[k] == hook { return hs[..k] + hs[k + 1..]; }
        k := k + 1;
      }
      RemoveNone(hs[k..], hook);
      assert hs[..k] == hs;
    }

    lemma RemoveNone(hs: seq<MessageHook>, hook: MessageHook)
      requires hs == []
      ensures RemoveHook(Views(hs), hook) == []
    {
    }

    method UnregisterHook(hook: MessageHook)
      requires WellFormed()
      modifies this`hooks
      ensures WellFormed() && View() == Step(old(View()), Manage(Unregister(hook.msgType, hook)))
      ensures var hs := old(hooks)[hook.msgType];
              && hooks == old(hooks)[hook.msgType := hooks[hook.msgType]]
              && if hook !in hs then hooks == old(hooks)
                 else exists k :: 0 <= k < |hs| && hs[k] == hook && hook !in hs[..k]
                                  && hooks[hook.msgType] == hs[..k] + hs[k + 1..]
    {
      hide Views, TableView, RemoveHook;
      ghost var before := View();
      var hs := RemoveFrom(hooks[hook.msgType], hook);
      hooks := hooks[hook.msgType := hs];
      assert TableView(hooks) == before.tables.hooks[hook.msgType := Views(hs)];
    }

    /** Switching a hook, wherever it is registered. */
    method SwitchHook(hook: MessageHook, active: bool)
      requires WellFormed()
      modifies hook
      ensures WellFormed() && View() == Step(old(View()), Manage(SetActive(hook, active))) && hook.active == active
    {
      hide Views, TableView;
      ghost var before := View().tables.hooks;
      if active { hook.Enable(); } else { hook.Disable(); }
      forall i | 0 <= i < |hooks|
        ensures TableView(hooks)[i] == Activate(before[i], hook, active)
      {
        assert Views(hooks[i]) == Activate(before[i], hook, active);
      }
      assert TableView(hooks) == ActivateAll(before, hook, active);
    }

    method ClearMessages()
      requires WellFormed()
      modifies this`hooks
      ensures WellFormed() && View() == Step(old(View()), Manage(ClearHooks))
      ensures forall i :: 0 <= i < |hooks| ==> hooks[i] == []
    {
      var i := 0;
      while i < MAX_USER_MESSAGES
        invariant 0 <= i <= MAX_USER_MESSAGES && WellFormed()
        invariant forall j :: 0 <= j < i ==> hooks[j] == []
      {
        hooks := hooks[i := []];
        i := i + 1;
      }
    }
  }
}
