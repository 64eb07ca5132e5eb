/** Menus, players and the menu manager. Handlers and item callbacks do not re-enter them. */
module Menus {
  import opened Basics
  import opened MenuFilling
  import opened MenuNavigation
  import opened MenuPaging
  import opened MenuDrawing
  import L = MenuLifetime

  class Menu {
    const isText: bool
    const isGlobal: bool
    var items: seq<string>
    var statics: seq<bool>
    var itemsPerPage: nat
    var keys: set<nat>
    var slots: seq<Ref>
    var text: seq<Row>
    var time: int

    predicate Wellformed()
      reads this
    {
      |statics| == MAX_STATIC_ITEMS && |slots| == 10 && itemsPerPage <= MAX_STATIC_ITEMS
    }

    function Shape(): Config reads this { Config(|items|, itemsPerPage, statics) }

    constructor (isText: bool, isGlobal: bool)
      ensures Wellformed() && items == [] && itemsPerPage == 7 && keys == {}
      ensures this.isText == isText && this.isGlobal == isGlobal
    {
      this.isText, this.isGlobal := isText, isGlobal;
      items, statics, itemsPerPage := [], seq(MAX_STATIC_ITEMS, _ => false), 7;
      keys, slots, text, time := {}, seq(10, _ => Unset), [], -1;
    }

    method SetItemsPerPage(value: nat)
      requires Wellformed()
      modifies this`itemsPerPage
      ensures Wellformed() && itemsPerPage == Min(value, 10)
    {
      itemsPerPage := if value < 10 then value else 10;
    }

    /** A static item can only take a slot of the page as it is configured. */
    method SetStaticItem(position: nat) returns (ok: bool)
      requires Wellformed()
      modifies this`statics
      ensures Wellformed() && (ok <==> position < itemsPerPage)
      ensures statics == if ok then old(statics)[position := true] else old(statics)
    {
      if position >= itemsPerPage { return false; }
      statics := statics[position := true];
      ok := true;
    }

    /** What a display needs to end without leaving the items or the slots: the page in range, no hidden
        static item reached, at most seven lines filled. */
    predicate CanDisplay(page: nat, st: Statuses)
      reads this
    {
      && Wellformed()
      && (!isText ==> InRange(Shape(), page) && FillFor(Shape(), st, page).Filled?)
    }

    /** The text, keys and slots are those of a page as it was drawn. */
    ghost predicate Shows(page: nat, st: Statuses)
      reads this
    {
      && !isText && Wellformed() && FillFor(Shape(), st, page).Filled?
      && text == PageRows(Shape(), st, page) && Keyed(Drawing(text, keys, slots))
    }

    method Display(player: Player, page: nat, time: int, st: Statuses)
      requires CanDisplay(page, st)
      modifies this`keys, this`slots, this`text, this`time, player`menu, player`menuPage
      ensures Wellformed() && this.time == time && Shape() == old(Shape())
      ensures player.menu == this && player.menuPage == page
      ensures if isText then keys == old(keys) && slots == old(slots) && text == old(text)
              else Shows(page, st)
      ensures !isText ==>
        forall s: nat :: s in keys <==> s < 10 && Drawn(text, s) && AnswersEnabled(st, slots[s])
    {
      player.menu, player.menuPage := this, page;
      if !isText {
        var d := DrawPage(Shape(), st, page, slots);
        PageKeys(Shape(), st, page, slots);
        forall s: nat
          ensures s in d.keys <==> s < 10 && Drawn(d.rows, s) && AnswersEnabled(st, d.slots[s])
        {
          KeysAnswer(Shape(), st, page, d, s);
        }
        keys, slots, text := d.keys, d.slots, d.rows;
      }
      this.time := time;
    }
  }

  class Player {
    var menu: Menu?
    var menuPage: nat
    var inGame: bool
    var connected: bool

    function Held(): Option<Menu> reads this {
      if menu == null then None else var m: Menu := menu; Some(m)
    }

    function View(): L.PlayerState<Menu> reads this { L.PlayerState(Held(), menuPage, inGame, connected) }

    constructor ()
      ensures View() == L.PlayerState(None, 0, false, false)
    {
      menu, menuPage, inGame, connected := null, 0, false, false;
    }

    method CloseMenu()
      modifies this`menu
      ensures menu == null
    {
      if menu == null { return; }
      menu := null;
    }

    method Disconnect()
      modifies this
      ensures View() == L.WithoutMenu(old(View())).(connected := false, inGame := false)
    {
      connected, inGame := false, false;
      CloseMenu();
    }
  }

  ghost function Views(players: seq<Player>): (vs: seq<L.PlayerState<Menu>>)
    reads players
    ensures |vs| == |players| && forall i :: 0 <= i < |vs| ==> vs[i] == players[i].View()
  {
    seq(|players|, i requires 0 <= i < |players| reads players => players[i].View())
  }

  class MenuManager {
    var menus: seq<Menu>
    const players: seq<Player>

    ghost predicate Valid()
      reads this, menus
    {
      && (forall i, j :: 0 <= i < j < |players| ==> players[i] != players[j])
      && (forall m :: m in menus ==> m.Wellformed())
    }

    ghost function View(): L.Server<Menu>
      reads this, players
    {
      L.Server(menus, Views(players))
    }

    method RegisterMenu(isText: bool, isGlobal: bool) returns (m: Menu)
      requires Valid()
      modifies this`menus
      ensures Valid() && fresh(m) && menus == old(menus) + [m] && m.isText == isText && m.isGlobal == isGlobal
      ensures View() == L.Step(old(View()), L.Register(m))
    {
      m := new Menu(isText, isGlobal);
      menus := menus + [m];
    }

    method CloseForAll(menu: Menu)
      requires forall i, j :: 0 <= i < j < |players| ==> players[i] != players[j]
      modifies players
      ensures Views(players) == L.DestroyFor(old(Views(players)), menu)
    {
      hide Views;
      ghost var before := Views(players);
      var i := 0;
      while i < |players|
        invariant 0 <= i <= |players|
        invariant forall k :: 0 <= k < i ==> players[k].View() == L.AfterDestroy(before[k], menu)
        invariant forall k :: i <= k < |players| ==> players[k].View() == before[k]
      {
        var player := players[i];
        assert player.View() == before[i];
        if player.inGame && player.menu != null && player.menu == menu {
          player.CloseMenu();
        }
        i := i + 1;
      }
    }

    method EraseMenu(menu: Menu)
      modifies this`menus
      ensures menus == L.Erase(old(menus), menu)
    {
      hide L.Erase;
      EraseFrom(menus, menu);
      var i := 0;
      while i < |menus|
        invariant 0 <= i <= |menus| && menus == old(menus)
        invariant L.Erase(menus, menu) == menus[..i] + L.Erase(menus[i..], menu)
      {
        EraseNext(menus, i, menu);
        if menus[i] == menu {
          menus := menus[..i] + menus[i + 1..];
          return;
        }
        i := i + 1;
      }
      EraseFrom(menus[i..], menu);
    }

    lemma EraseFrom(ms: seq<Menu>, menu: Menu)
      ensures L.Erase(ms, menu) == ms[..0] + L.Erase(ms[0..], menu)
      ensures ms == [] ==> L.Erase(ms, menu) == []
    {
      assert ms[0..] == ms;
    }

    lemma EraseNext(ms: seq<Menu>, i: nat, menu: Menu)
      requires i < |ms|
      ensures ms[..i] + L.Erase(ms[i..], menu)
              == if ms[i] == menu then ms[..i] + ms[i + 1..] else ms[..i + 1] + L.Erase(ms[i + 1..], menu)
    {
      assert ms[i..][1..] == ms[i + 1..];
    }

    method DestroyMenu(menu: Menu)
      requires Valid()
      modifies this`menus, players
      ensures Valid()
      ensures View() == L.Step(old(View()), L.Destroy(menu))
      ensures forall p :: p in players ==>
                p.menu == if old(p.inGame) && old(p.menu) == menu then null else old(p.menu)
    {
      hide Views, L.Erase, L.DestroyFor;
      CloseForAll(menu);
      EraseMenu(menu);
    }

    /** One viewer's session: pressing `moves` from page 0 has led to the page held, and the menu shows that
        page as the callbacks answered then. */
    ghost predicate Session(who: nat, menu: Menu, moves: seq<Move>, seen: Statuses)
      requires who < |players|
      reads this, players[who], menu
    {
      && players[who].menu == menu && menu in menus && menu.Shows(players[who].menuPage, seen)
      && Go(menu.Shape(), moves) == Some(players[who].menuPage)
    }

    method DisplayTo(who: nat, menu: Menu, page: nat, time: int, st: Statuses)
      requires Valid() && who < |players| && menu.CanDisplay(page, st)
      modifies players[who], menu
      ensures Valid()
      ensures View() == L.Step(old(View()), L.Display(who, menu, page))
      ensures menu.Shape() == old(menu.Shape()) && (!menu.isText ==> menu.Shows(page, st))
      ensures !menu.isText && menu in menus && page == 0 ==> Session(who, menu, [], st)
    {
      hide Views;
      ghost var before := Views(players);
      menu.Display(players[who], page, time, st);
      assert Views(players) == before[who := players[who].View()];
    }

    method DisconnectPlayer(who: nat)
      requires Valid() && who < |players|
      modifies players[who]
      ensures Valid()
      ensures View() == L.Step(old(View()), L.Disconnect(who))
      ensures !players[who].connected && !players[who].inGame && players[who].menu == null
    {
      hide Views;
      ghost var before := Views(players);
      players[who].Disconnect();
      assert Views(players) == before[who := players[who].View()];
    }

    method PutInServer(who: nat)
      requires Valid() && who < |players|
      modifies players[who]
      ensures Valid()
      ensures View() == L.Step(old(View()), L.PutInServer(who)) && players[who].inGame
    {
      hide Views;
      ghost var before := Views(players);
      players[who].inGame := true;
      assert Views(players) == before[who := players[who].View()];
    }

    /** The end of a map: menus go first, then every player lets go of them. */
    method EndMap()
      requires Valid()
      modifies this`menus, players
      ensures Valid()
      ensures View() == L.Step(old(View()), L.MapEnd)
      ensures menus == [] && forall p :: p in players ==> p.menu == null && p.menuPage == 0
    {
      hide Views;
      ghost var before := Views(players);
      menus := [];
      var i := 0;
      while i < |players|
        invariant 0 <= i <= |players| && menus == []
        invariant forall k :: 0 <= k < i ==> players[k].View() == before[k].(menu := None, page := 0)
        invariant forall k :: i <= k < |players| ==> players[k].View() == before[k]
      {
        assert players[i].View() == before[i];
        players[i].menu, players[i].menuPage := null, 0;
        i := i + 1;
      }
    }

    /** What a key does to a menu; `bit` is the pressed key less one. */
    ghost function ChoiceOf(who: nat, bit: nat): L.Choice
      requires who < |players|
      reads this, players, set p | p in players && p.menu != null :: p.menu
    {
      var menu, page := players[who].menu, players[who].menuPage;
      if menu == null || bit !in menu.keys then L.Ignored
      else if menu.isText then L.TextKey
      else if bit < |menu.slots| && menu.slots[bit] == NextItem then L.TurnTo(page + 1)
      else if bit < |menu.slots| && menu.slots[bit] == BackItem && page > 0 then L.TurnTo(page - 1)
      else L.Finished(menu.isGlobal)
    }

    /** What follows the handler of a chosen item: turning the page, or the end of a menu that is not global. */
    method ActOnItem(who: nat, menu: Menu, item: Ref, st: Statuses)
      requires Valid() && who < |players| && menu in menus && !menu.isText
      requires item == BackItem ==> players[who].menuPage > 0 && menu.CanDisplay(players[who].menuPage - 1, st)
      requires item == NextItem ==> menu.CanDisplay(players[who].menuPage + 1, st)
      modifies this`menus, players, menus
      ensures Valid()
      ensures var s, page := old(View()), old(players[who].menuPage);
              View() == if item == NextItem then L.Step(s, L.Display(who, menu, page + 1))
                        else if item == BackItem then L.Step(s, L.Display(who, menu, page - 1))
                        else if menu.isGlobal then s else L.Step(s, L.Destroy(menu))
      ensures item == NextItem ==> menu.Shows(old(players[who].menuPage) + 1, st)
      ensures item == BackItem ==> menu.Shows(old(players[who].menuPage) - 1, st)
      ensures menu.Shape() == old(menu.Shape())
    {
      hide Views, L.Step;
      if item == BackItem {
        DisplayTo(who, menu, players[who].menuPage - 1, menu.time, st);
      } else if item == NextItem {
        DisplayTo(who, menu, players[who].menuPage + 1, menu.time, st);
      } else if !menu.isGlobal {
        DestroyMenu(menu);
      }
    }

    /** Letting go of the menu first, and acting on the item afterwards, is one key press. */
    lemma SelectInTwo(s: L.Server<Menu>, who: nat, menu: Menu, choice: L.Choice)
      requires who < |s.players| && s.players[who].menu == Some(menu)
      ensures var s' := s.(players := s.players[who := L.WithoutMenu(s.players[who])]);
              L.Step(s, L.Select(who, choice)) ==
                match choice
                case Ignored => s
                case TurnTo(page) => L.Step(s', L.Display(who, menu, page))
                case Finished(isGlobal) => if isGlobal then s' else L.Step(s', L.Destroy(menu))
                case TextKey => s'
    {
    }

    /** What a key needs: a slot of its own, a page before for Back, and a page that can be displayed. */
    ghost predicate CanPress(who: nat, bit: nat, st: Statuses)
      requires who < |players|
      reads this, players, set p | p in players && p.menu != null :: p.menu
    {
      var menu := players[who].menu;
      menu != null && bit in menu.keys && !menu.isText ==>
        && menu.Wellformed() && bit < 10
        && (menu.slots[bit] == BackItem ==> players[who].menuPage > 0)
        && var choice := ChoiceOf(who, bit); choice.TurnTo? ==> menu.CanDisplay(choice.page, st)
    }

    /** A key that works: the player lets go of the menu, then the item is acted on. */
    method PressKey(who: nat, menu: Menu, bit: nat, st: Statuses)
      requires Valid() && who < |players| && players[who].menu == menu && menu in menus
      requires bit in menu.keys && CanPress(who, bit, st)
      modifies this`menus, players, menus
      ensures Valid()
      ensures var choice := old(ChoiceOf(who, bit));
              && View() == L.Step(old(View()), L.Select(who, choice))
              && (choice.TurnTo? ==> menu.Shows(choice.page, st) && menu.Shape() == old(menu.Shape()))
    {
      hide Views, L.Step;
      ghost var before, choice := View(), ChoiceOf(who, bit);
      SelectInTwo(before, who, menu, choice);
      players[who].menu := null;
      assert Views(players) == before.players[who := players[who].View()];
      if !menu.isText {
        ActOnItem(who, menu, menu.slots[bit], st);
      }
    }

    /** What a "menuselect" comes to: nothing without a number or without a menu. */
    ghost function CommandChoice(who: nat, key: Option<nat>): L.Choice
      requires who < |players| && (key.Some? && players[who].menu != null ==> key.value >= 1)
      reads this, players, set p | p in players && p.menu != null :: p.menu
    {
      if key.None? || players[who].menu == null then L.Ignored else ChoiceOf(who, key.value - 1)
    }

    /** "menuselect" of a player: `key` is the number pressed, none when it is no number. With a menu, the
        shift by `key - 1` is defined for 1 to 32 only. */
    method ClientCommand(who: nat, key: Option<nat>, st: Statuses) returns (handled: bool)
      requires Valid() && who < |players|
      requires players[who].menu != null ==> players[who].menu in menus
      requires key.Some? && players[who].menu != null ==> 1 <= key.value <= 32 && CanPress(who, key.value - 1, st)
      modifies this`menus, players, menus
      ensures Valid()
      ensures var choice := old(CommandChoice(who, key));
              && handled == (choice != L.Ignored)
              && View() == L.Step(old(View()), L.Select(who, choice))
              && (choice.TurnTo? ==>
                    var menu := old(players[who].menu);
                    menu.Shows(choice.page, st) && menu.Shape() == old(menu.Shape()))
    {
      hide Views;
      assert L.Step(View(), L.Select(who, L.Ignored)) == View();
      hide L.Step;
      if key.None? { return false; }
      var menu := players[who].menu;
      if menu == null || key.value - 1 !in menu.keys { return false; }
      PressKey(who, menu, key.value - 1, st);
      handled := true;
    }

    // ----- one viewer ----------------------------------------------------------------------------------

    /** The press a key stands for. */
    ghost function PressOf(bit: nat): Press { if bit == NEXT_SLOT then GoNext else GoBack }

    ghost predicate Turns(who: nat, menu: Menu, moves: seq<Move>, seen: Statuses, bit: nat)
      requires who < |players| && Session(who, menu, moves, seen)
      reads this, players[who], menu
    {
      bit in {NEXT_SLOT, NEXT_SLOT + 1} && Offered(menu.Shape(), players[who].menuPage, Move(seen, PressOf(bit)))
    }

    /** In a session the eighth and ninth key turn the page exactly when the move is offered; no other key
        does. No key lies beyond the slots, and Back never stands on page 0. */
    lemma ViewerKeys(who: nat, menu: Menu, moves: seq<Move>, seen: Statuses, bit: nat)
      requires who < |players| && Session(who, menu, moves, seen)
      ensures var page, choice := players[who].menuPage, ChoiceOf(who, bit);
              && (choice.TurnTo? <==> Turns(who, menu, moves, seen, bit))
              && (choice.TurnTo? ==> choice.page == if bit == NEXT_SLOT then page + 1 else page - 1)
              && (bit in menu.keys ==> bit < 10 && (menu.slots[bit] == BackItem ==> page > 0))
    {
      var page, d := players[who].menuPage, Drawing(menu.text, menu.keys, menu.slots);
      hide PageRows, Keyed, FillFor, OffersNext, Go;
      DrawnKeys(menu.Shape(), seen, page, d, bit);
    }

    /** So a session meets all that a key press needs. */
    lemma SessionCanPress(who: nat, menu: Menu, moves: seq<Move>, seen: Statuses, bit: nat, st: Statuses)
      requires who < |players| && Session(who, menu, moves, seen) && Navigable(menu.Shape())
      requires forall s :: 0 <= s < menu.itemsPerPage ==> !HiddenStatic(menu.Shape(), st, s)
      ensures CanPress(who, bit, st)
    {
      ViewerKeys(who, menu, moves, seen, bit);
      hide PageRows, Keyed, FillFor, OffersNext, Go, HiddenStatic, Offered, Navigable, InRange;
      if Turns(who, menu, moves, seen, bit) {
        OfferedCanShow(menu.Shape(), moves, players[who].menuPage, Move(seen, PressOf(bit)), st);
        assert PressOf(bit) == GoNext <==> bit == NEXT_SLOT;
      }
    }

    /** "menuselect" in a session of one viewer: nothing is asked but that no static item hides. Turning the
        page goes on with the session, whatever the callbacks answer. */
    method ViewerCommand(who: nat, ghost menu: Menu, ghost moves: seq<Move>, ghost seen: Statuses,
                         key: Option<nat>, st: Statuses)
      returns (handled: bool)
      requires Valid() && who < |players| && Session(who, menu, moves, seen) && Navigable(menu.Shape())
      requires forall s :: 0 <= s < menu.itemsPerPage ==> !HiddenStatic(menu.Shape(), st, s)
      requires key.Some? ==> 1 <= key.value <= 32
      modifies this`menus, players, menus
      ensures Valid()
      ensures key.Some? && old(Turns(who, menu, moves, seen, key.value - 1)) ==>
                && handled && menu.Shape() == old(menu.Shape())
                && Session(who, menu, moves + [Move(seen, PressOf(key.value - 1))], st)
    {
      ghost var c, page := menu.Shape(), players[who].menuPage;
      hide Views, PageRows, Keyed, FillFor, OffersNext, Go, HiddenStatic, Offered, Navigable, InRange, CanPress;
      if key.Some? {
        SessionCanPress(who, menu, moves, seen, key.value - 1, st);
        ViewerKeys(who, menu, moves, seen, key.value - 1);
        if Turns(who, menu, moves, seen, key.value - 1) {
          GoOn(c, moves, page, Move(seen, PressOf(key.value - 1)));
        }
      }
      handled := ClientCommand(who, key, st);
      assert View().players[who] == players[who].View();
    }
  }
}
