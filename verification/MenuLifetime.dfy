/** Which menu each player holds, over the life of menus, players and maps. Menus are any type `M`. */
module MenuLifetime {
  import opened Basics

  datatype PlayerState<M> = PlayerState(menu: Option<M>, page: nat, inGame: bool, connected: bool)

  /** The registered menus and the players 1 to maxClients (here from 0). */
  datatype Server<M> = Server(menus: seq<M>, players: seq<PlayerState<M>>)

  /** What a pressed key does: nothing; turn to a page; end a menu that is not global; end the choice only. */
  datatype Choice = Ignored | TurnTo(page: nat) | Finished(isGlobal: bool) | TextKey

  datatype Event<M> =
    | Register(menu: M)
    | Display(who: nat, menu: M, page: nat)
    | Select(who: nat, choice: Choice)
    | Destroy(menu: M)
    | Close(who: nat)
    | Connect(who: nat)
    | PutInServer(who: nat)
    | Disconnect(who: nat)
    | MapEnd

  ghost function WithoutMenu<M>(p: PlayerState<M>): PlayerState<M> { p.(menu := None) }

  /** The list without the first occurrence of `m`. */
  ghost function Erase<M>(menus: seq<M>, m: M): (r: seq<M>)
    ensures forall x :: x in r ==> x in menus
    ensures forall x :: x in menus && x != m ==> x in r
  {
    if menus == [] then [] else if menus[0] == m then menus[1..] else [menus[0]] + Erase(menus[1..], m)
  }

  /** Destroying closes the menu for players in game only. */
  ghost function AfterDestroy<M>(p: PlayerState<M>, m: M): PlayerState<M> {
    if p.inGame && p.menu == Some(m) then WithoutMenu(p) else p
  }

  ghost function DestroyFor<M>(players: seq<PlayerState<M>>, m: M): (r: seq<PlayerState<M>>)
    ensures |r| == |players| && forall i :: 0 <= i < |players| ==> r[i] == AfterDestroy(players[i], m)
  {
    if players == [] then [] else [AfterDestroy(players[0], m)] + DestroyFor(players[1..], m)
  }

  ghost function ResetMenus<M>(players: seq<PlayerState<M>>): (r: seq<PlayerState<M>>)
    ensures |r| == |players| && forall i :: 0 <= i < |players| ==> r[i] == players[i].(menu := None, page := 0)
  {
    if players == [] then [] else [players[0].(menu := None, page := 0)] + ResetMenus(players[1..])
  }

  ghost function DestroyStep<M>(s: Server<M>, m: M): Server<M> {
    Server(Erase(s.menus, m), DestroyFor(s.players, m))
  }

  /** Events concern players there are; a key press needs a menu to act on. */
  ghost predicate Enabled<M>(s: Server<M>, e: Event<M>) {
    match e
    case Display(who, _, _) => who < |s.players|
    case Select(who, choice) => who < |s.players| && (choice != Ignored ==> s.players[who].menu.Some?)
    case Close(who) => who < |s.players|
    case Connect(who) => who < |s.players|
    case PutInServer(who) => who < |s.players|
    case Disconnect(who) => who < |s.players|
    case _ => true
  }

  ghost function Step<M>(s: Server<M>, e: Event<M>): Server<M>
    requires Enabled(s, e)
  {
    match e
    case Register(m) => s.(menus := s.menus + [m])
    case Display(who, m, page) => s.(players := s.players[who := s.players[who].(menu := Some(m), page := page)])
    case Select(who, Ignored) => s
    case Select(who, TurnTo(page)) => s.(players := s.players[who := s.players[who].(page := page)])
    case Select(who, Finished(isGlobal)) =>
      var s' := s.(players := s.players[who := WithoutMenu(s.players[who])]);
      if isGlobal then s' else DestroyStep(s', s.players[who].menu.value)
    case Select(who, TextKey) => s.(players := s.players[who := WithoutMenu(s.players[who])])
    case Destroy(m) => DestroyStep(s, m)
    case Close(who) => s.(players := s.players[who := WithoutMenu(s.players[who])])
    case Connect(who) => s.(players := s.players[who := s.players[who].(connected := true)])
    case PutInServer(who) => s.(players := s.players[who := s.players[who].(inGame := true)])
    case Disconnect(who) =>
      s.(players := s.players[who := WithoutMenu(s.players[who]).(connected := false, inGame := false)])
    case MapEnd => Server([], ResetMenus(s.players))
  }

  // ----- safety --------------------------------------------------------------------------------------

  /** Every player's menu is none or registered ... */
  ghost predicate NoDangling<M>(s: Server<M>) {
    forall i :: 0 <= i < |s.players| && s.players[i].menu.Some? ==> s.players[i].menu.value in s.menus
  }

  /** ... which rests on this: a player holding a menu is in game. */
  ghost predicate HoldersInGame<M>(s: Server<M>) {
    forall i :: 0 <= i < |s.players| && s.players[i].menu.Some? ==> s.players[i].inGame
  }

  /** No menu is registered twice. */
  ghost predicate NoDuplicates<M>(menus: seq<M>) {
    forall i, j :: 0 <= i < j < |menus| ==> menus[i] != menus[j]
  }

  ghost predicate Safe<M>(s: Server<M>) { NoDangling(s) && HoldersInGame(s) && NoDuplicates(s.menus) }

  /** What is asked of callers: a menu is registered when it is made, and displayed to players in game. */
  ghost predicate Proper<M>(s: Server<M>, e: Event<M>)
    requires Enabled(s, e)
  {
    match e
    case Register(m) => m !in s.menus
    case Display(who, m, _) => m in s.menus && s.players[who].inGame
    case _ => true
  }

  lemma NoDuplicatesCons<M>(m: M, rest: seq<M>)
    ensures NoDuplicates([m] + rest) <==> m !in rest && NoDuplicates(rest)
  {
    var menus := [m] + rest;
    if NoDuplicates(menus) {
      forall i, j | 0 <= i < j < |rest|
        ensures rest[i] != rest[j] && rest[j] != m
      {
        assert menus[i + 1] != menus[j + 1] && menus[0] != menus[j + 1];
      }
      assert rest != [] ==> menus[0] != menus[1];
    }
  }

  lemma {:induction false} EraseKeepsNoDuplicates<M>(menus: seq<M>, m: M)
    requires NoDuplicates(menus)
    ensures NoDuplicates(Erase(menus, m)) && m !in Erase(menus, m)
  {
    if menus != [] {
      hide NoDuplicates;
      assert menus == [menus[0]] + menus[1..];
      NoDuplicatesCons(menus[0], menus[1..]);
      if menus[0] != m {
        EraseKeepsNoDuplicates(menus[1..], m);
        NoDuplicatesCons(menus[0], Erase(menus[1..], m));
      }
    } else {
      assert Erase(menus, m) == menus;
    }
  }

  lemma DestroyKeepsSafe<M>(s: Server<M>, m: M)
    requires Safe(s)
    ensures Safe(DestroyStep(s, m))
  {
    EraseKeepsNoDuplicates(s.menus, m);
  }

  lemma StepKeepsSafe<M>(s: Server<M>, e: Event<M>)
    requires Safe(s) && Enabled(s, e) && Proper(s, e)
    ensures Safe(Step(s, e))
  {
    match e
    case Destroy(m) => DestroyKeepsSafe(s, m);
    case Select(who, Finished(isGlobal)) =>
      var s' := s.(players := s.players[who := WithoutMenu(s.players[who])]);
      assert Safe(s');
      if !isGlobal { DestroyKeepsSafe(s', s.players[who].menu.value); }
    case _ =>
  }

  /** A run: every event enabled and proper where it happens. */
  ghost predicate ProperRun<M>(s: Server<M>, events: seq<Event<M>>)
    decreases |events|
  {
    events == [] || (Enabled(s, events[0]) && Proper(s, events[0]) && ProperRun(Step(s, events[0]), events[1..]))
  }

  ghost function Run<M>(s: Server<M>, events: seq<Event<M>>): Server<M>
    requires ProperRun(s, events)
    decreases |events|
  {
    if events == [] then s else Run(Step(s, events[0]), events[1..])
  }

  /** A fresh server: no menus, no player holding one. */
  ghost predicate Initial<M>(s: Server<M>) {
    s.menus == [] && forall i :: 0 <= i < |s.players| ==> s.players[i].menu == None
  }

  /** No menu dangles in any reachable state. */
  lemma {:induction false} NeverDangling<M>(s: Server<M>, events: seq<Event<M>>)
    requires Safe(s) && ProperRun(s, events)
    ensures Safe(Run(s, events))
    decreases |events|
  {
    if events != [] {
      StepKeepsSafe(s, events[0]);
      NeverDangling(Step(s, events[0]), events[1..]);
    }
  }

  lemma ReachableIsSafe<M>(s: Server<M>, events: seq<Event<M>>)
    requires Initial(s) && ProperRun(s, events)
    ensures Safe(Run(s, events))
  {
    NeverDangling(s, events);
  }

  /** Destroying a menu leaves it dangling exactly when a player not in game holds it. */
  lemma DestroyDanglesIff<M>(s: Server<M>, m: M)
    requires NoDangling(s) && NoDuplicates(s.menus)
    ensures NoDangling(DestroyStep(s, m))
            <==> forall i :: 0 <= i < |s.players| && s.players[i].menu == Some(m) ==> s.players[i].inGame
  {
    EraseKeepsNoDuplicates(s.menus, m);
    var s' := DestroyStep(s, m);
    if NoDangling(s') {
      forall i | 0 <= i < |s.players| && s.players[i].menu == Some(m)
        ensures s.players[i].inGame
      {
        assert s'.players[i] == AfterDestroy(s.players[i], m);
      }
    }
  }

  /** So a display to a player not in game can leave a menu dangling: destroying it next does. */
  lemma DisplayOutOfGameDangles<M>(s: Server<M>, who: nat, m: M, page: nat)
    requires Safe(s) && who < |s.players| && !s.players[who].inGame && m in s.menus
    ensures !NoDangling(DestroyStep(Step(s, Display(who, m, page)), m))
  {
    var s' := Step(s, Display(who, m, page));
    assert s'.players[who].menu == Some(m) && !s'.players[who].inGame;
    DestroyDanglesIff(s', m);
  }

  // ----- what stays ----------------------------------------------------------------------------------

  /** Every event, player by player. */
  lemma StepMeans<M>(s: Server<M>, e: Event<M>, i: nat)
    requires Enabled(s, e) && i < |s.players|
    ensures var s' := Step(s, e);
            |s'.players| == |s.players| &&
            var p, p' := s.players[i], s'.players[i];
            match e
            case Register(m) => s'.menus == s.menus + [m] && p' == p
            case Display(who, m, page) =>
              s'.menus == s.menus && p' == if i == who then PlayerState(Some(m), page, p.inGame, p.connected) else p
            case Select(who, choice) =>
              && p'.inGame == p.inGame && p'.connected == p.connected
              && p'.page == (if choice.TurnTo? && i == who then choice.page else p.page)
              && (choice != Finished(false) ==> s'.menus == s.menus)
              && p'.menu == if i == who then (if choice.Finished? || choice.TextKey? then None else p.menu)
                            else if choice == Finished(false) && p.inGame && p.menu == s.players[who].menu then None
                            else p.menu
            case Destroy(m) =>
              p' == if p.inGame && p.menu == Some(m) then PlayerState(None, p.page, true, p.connected) else p
            case Close(who) =>
              s'.menus == s.menus && p' == if i == who then PlayerState(None, p.page, p.inGame, p.connected) else p
            case Connect(who) =>
              s'.menus == s.menus && p' == if i == who then PlayerState(p.menu, p.page, p.inGame, true) else p
            case PutInServer(who) =>
              s'.menus == s.menus && p' == if i == who then PlayerState(p.menu, p.page, true, p.connected) else p
            case Disconnect(who) =>
              s'.menus == s.menus && p' == if i == who then PlayerState(None, p.page, false, false) else p
            case MapEnd => s'.menus == [] && p' == PlayerState(None, 0, p.inGame, p.connected)
  {
  }

  /** A menu that is destroyed leaves the list once, and no other does. */
  lemma {:induction false} EraseTakesFirst<M>(menus: seq<M>, m: M, k: nat)
    requires k <= |menus| && (forall j :: 0 <= j < k ==> menus[j] != m) && (k < |menus| ==> menus[k] == m)
    ensures Erase(menus, m) == if k < |menus| then menus[..k] + menus[k + 1..] else menus
    decreases |menus|
  {
    if k > 0 { EraseTakesFirst(menus[1..], m, k - 1); }
  }

  /** An event that neither concerns the player nor ends the menu: nobody else finishes it or destroys it. */
  ghost predicate Spares<M>(s: Server<M>, e: Event<M>, who: nat, m: M)
    requires Enabled(s, e)
  {
    match e
    case Display(other, _, _) => other != who
    case Select(other, choice) => other != who && (choice == Finished(false) ==> s.players[other].menu != Some(m))
    case Destroy(x) => x != m
    case Close(other) => other != who
    case Disconnect(other) => other != who
    case MapEnd => false
    case _ => true
  }

  ghost predicate AllSpare<M>(s: Server<M>, events: seq<Event<M>>, who: nat, m: M)
    requires ProperRun(s, events)
    decreases |events|
  {
    events == [] || (Spares(s, events[0], who, m) && AllSpare(Step(s, events[0]), events[1..], who, m))
  }

  lemma SparedHolds<M>(s: Server<M>, e: Event<M>, who: nat, m: M, page: nat)
    requires Enabled(s, e) && Spares(s, e, who, m) && who < |s.players| && m in s.menus
    requires s.players[who].menu == Some(m) && s.players[who].page == page
    ensures var s' := Step(s, e);
            |s'.players| == |s.players| && m in s'.menus
            && s'.players[who].menu == Some(m) && s'.players[who].page == page
  {
  }

  lemma {:induction false} HoldsOn<M>(s: Server<M>, events: seq<Event<M>>, who: nat, m: M, page: nat)
    requires ProperRun(s, events) && AllSpare(s, events, who, m) && who < |s.players| && m in s.menus
    requires s.players[who].menu == Some(m) && s.players[who].page == page
    ensures var s' := Run(s, events);
            |s'.players| == |s.players| && m in s'.menus
            && s'.players[who].menu == Some(m) && s'.players[who].page == page
    decreases |events|
  {
    hide Step, Enabled, Proper, Spares;
    if events != [] {
      SparedHolds(s, events[0], who, m, page);
      HoldsOn(Step(s, events[0]), events[1..], who, m, page);
    }
  }

  /** A menu displayed stays with its player, on its page and registered, until something ends it. */
  lemma DisplayedIsHeld<M>(s: Server<M>, who: nat, m: M, page: nat, events: seq<Event<M>>)
    requires who < |s.players| && m in s.menus && ProperRun(Step(s, Display(who, m, page)), events)
    requires AllSpare(Step(s, Display(who, m, page)), events, who, m)
    ensures var s' := Run(Step(s, Display(who, m, page)), events);
            |s'.players| == |s.players| && m in s'.menus
            && s'.players[who].menu == Some(m) && s'.players[who].page == page
  {
    HoldsOn(Step(s, Display(who, m, page)), events, who, m, page);
  }

  /** A player put in the server is in game until disconnecting. */
  lemma {:induction false} StaysInGame<M>(s: Server<M>, events: seq<Event<M>>, who: nat)
    requires who < |s.players| && s.players[who].inGame && ProperRun(s, events)
    requires forall k :: 0 <= k < |events| ==> events[k] != Disconnect(who)
    ensures |Run(s, events).players| == |s.players| && Run(s, events).players[who].inGame
    decreases |events|
  {
    if events != [] {
      StepMeans(s, events[0], who);
      hide Step, Enabled, Proper;
      StaysInGame(Step(s, events[0]), events[1..], who);
    }
  }
}
