/** Moving from page to page: what is seen, and whether item reads stay in range. */
module MenuNavigation {
  import opened Basics
  import opened MenuFilling
  import opened MenuPaging

  /** No item is hidden, static ones included. */
  predicate NothingHidden(c: Config, st: Statuses) {
    && (forall i :: 0 <= i < c.n ==> At(st, Regular(i)) != Hide)
    && (forall s :: 0 <= s < MAX_STATIC_ITEMS ==> At(st, Static(s)) != Hide)
  }

  /** The numbers a, a + 1, ..., b - 1. */
  function Range(a: nat, b: nat): (r: seq<nat>)
    ensures |r| == if a < b then b - a else 0
    ensures forall k :: 0 <= k < |r| ==> r[k] == a + k
    decreases b - a
  {
    if a >= b then [] else [a] + Range(a + 1, b)
  }

  lemma {:induction false} NoneHiddenBefore(c: Config, st: Statuses, j: nat)
    requires NothingHidden(c, st) && j <= c.n
    ensures HiddenBefore(st, j) == 0
  {
    if j > 0 { NoneHiddenBefore(c, st, j - 1); }
  }

  lemma {:induction false} AllVisible(c: Config, st: Statuses, i: nat)
    requires NothingHidden(c, st)
    ensures Visible(c, st, i) == Range(i, c.n)
    decreases c.n - i
  {
    if i < c.n { AllVisible(c, st, i + 1); }
  }

  /** The filling loop never passes the last item. */
  lemma {:induction false} FillStays(c: Config, st: Statuses, slot: nat, i: nat)
    requires Valid(c) && slot <= c.w && FillPage(c, st, slot, i).Filled?
    ensures i <= c.n ==> FillPage(c, st, slot, i).i <= c.n
    decreases c.w - slot, c.n - i
  {
    if slot < c.w && i < c.n {
      if c.statics[slot] {
        FillStays(c, st, slot + 1, i);
      } else if At(st, Regular(i)) == Hide {
        FillStays(c, st, slot, i + 1);
      } else {
        FillStays(c, st, slot + 1, i + 1);
      }
    }
  }

  lemma TakeRange(a: nat, b: nat, k: nat)
    ensures Take(Range(a, b), k) == Range(a, Min(b, a + k))
  {
  }

  /** From item `i` a page of nothing hidden shows the next items and stops behind them. */
  lemma PlainFill(c: Config, st: Statuses, i: nat)
    requires Valid(c) && NothingHidden(c, st)
    ensures var f, end := FillPage(c, st, 0, i), Min(c.n, i + Free(c));
            f.Filled? && Shown(f.rows) == Range(i, end) && (i <= c.n ==> f.i == end)
  {
    NeverHangs(c, st, 0, i);
    FillShows(c, st, 0, i);
    FillStays(c, st, 0, i);
    var f := FillPage(c, st, 0, i);
    PlainShown(c, st, i, Shown(f.rows), f.i);
    hide FillPage, Visible, StaticsFrom, Shown, Take, Range, NothingHidden, At, ShowsInOrder;
    if i <= c.n { RangeRest(i, f.i, c.n, Shown(f.rows)); }
  }

  lemma PlainShown(c: Config, st: Statuses, i: nat, shown: seq<nat>, end: nat)
    requires Valid(c) && NothingHidden(c, st)
    requires Visible(c, st, i) == shown + Visible(c, st, end) && shown == Take(Visible(c, st, i), Free(c))
    ensures shown == Range(i, Min(c.n, i + Free(c)))
    ensures Range(i, c.n) == shown + Range(end, c.n)
  {
    hide Visible, Free, Take, Range, NothingHidden;
    AllVisible(c, st, i);
    AllVisible(c, st, end);
    TakeRange(i, c.n, Free(c));
  }

  lemma RangeRest(i: nat, j: nat, n: nat, taken: seq<nat>)
    requires i <= n && j <= n && Range(i, n) == taken + Range(j, n)
    ensures j == i + |taken|
  {
  }

  /** Where a page of nothing hidden starts and ends. */
  function First(c: Config, page: nat): nat
    requires Valid(c)
  {
    page * Free(c)
  }

  function PageEnd(c: Config, page: nat): nat
    requires Valid(c)
  {
    Min(c.n, First(c, page) + Free(c))
  }

  lemma PlainStart(c: Config, st: Statuses, page: nat)
    requires Valid(c) && NothingHidden(c, st) && InRange(c, page)
    ensures StartOf(c, st, page) == First(c, page)
  {
    StartIsNatural(c, st, page);
    if page > 0 { NoneHiddenBefore(c, st, page * c.w); }
  }

  /** Up to seven items to a page, a display without a hidden static item ends. */
  lemma SmallPagesFill(c: Config, st: Statuses, page: nat)
    requires Valid(c) && c.w <= NEXT_SLOT && forall s :: 0 <= s < c.w ==> !HiddenStatic(c, st, s)
    ensures FillFor(c, st, page).Filled?
  {
    DisplayFailsIff(c, st, page);
  }

  lemma PlainFillFor(c: Config, st: Statuses, page: nat, start: nat)
    requires Valid(c) && NothingHidden(c, st) && StartOf(c, st, page) == start && FillFor(c, st, page).Filled?
    ensures var f, end := FillFor(c, st, page), Min(c.n, start + Free(c));
            ItemsOn(c, st, page) == Range(start, end) && (start <= c.n ==> f.i == end)
  {
    hide FillPage, StaticsFrom, Shown, Range, StartOf, PageRows, ItemsOn, Free, NothingHidden;
    PlainFill(c, st, start);
    OnlyFillShows(c, st, page);
  }

  /** With nothing hidden, page p shows the items from p * f up to (p + 1) * f in order, f being the
      slots without a static item, and stops behind them. */
  lemma PlainPage(c: Config, st: Statuses, page: nat)
    requires Valid(c) && NothingHidden(c, st) && InRange(c, page) && FillFor(c, st, page).Filled?
    ensures ItemsOn(c, st, page) == Range(First(c, page), PageEnd(c, page))
    ensures First(c, page) <= c.n ==> FillFor(c, st, page).i == PageEnd(c, page)
  {
    PlainStart(c, st, page);
    hide StartOf, FillFor, ItemsOn, Range, Free, NothingHidden;
    PlainFillFor(c, st, page, First(c, page));
  }

  lemma FirstIsZero(c: Config)
    requires Valid(c)
    ensures First(c, 0) == 0
  {
  }

  lemma FirstNext(c: Config, page: nat)
    requires Valid(c)
    ensures First(c, page + 1) == First(c, page) + Free(c)
  {
    NextProduct(page, Free(c));
  }

  /** With nothing hidden, Next is offered exactly when items are left. */
  lemma PlainNext(c: Config, st: Statuses, page: nat)
    requires Valid(c) && NothingHidden(c, st) && InRange(c, page) && First(c, page) <= c.n
    requires FillFor(c, st, page).Filled?
    ensures OffersNext(c, st, page, FillFor(c, st, page).i) <==> First(c, page + 1) < c.n
  {
    if page > 0 { NoneHiddenBefore(c, st, page * c.w); }
    FirstNext(c, page);
    hide FillFor, Free, First, HiddenBefore, NothingHidden, ItemsOn, Range;
    PlainPage(c, st, page);
  }

  // ----- when Next is right ---------------------------------------------------------------------------

  /** Items hidden from `i` on. */
  function HiddenLate(c: Config, st: Statuses, i: nat): nat
    requires i <= c.n
  {
    HiddenGrows(st, i, c.n);
    HiddenBefore(st, c.n) - HiddenBefore(st, i)
  }

  /** A caller's test: the items left behind `i` are more than those hidden early just when they are more
      than those hidden among them. */
  predicate NextRight(c: Config, st: Statuses, page: nat, i: nat)
    requires Valid(c)
  {
    i >= c.n || (HiddenEarly(c, st, page) < c.n - i <==> HiddenLate(c, st, i) < c.n - i)
  }

  lemma VisibleLeft(c: Config, st: Statuses, i: nat)
    requires i <= c.n
    ensures |Visible(c, st, i)| == c.n - i - HiddenLate(c, st, i)
  {
    VisibleFrom(c, st, i);
    VisibleCount(c, st);
  }

  /** Next is offered just when visible items are left, exactly when `NextRight` says so. */
  lemma NextIsRightIff(c: Config, st: Statuses, page: nat)
    requires Valid(c) && FillFor(c, st, page).Filled?
    ensures var i := FillFor(c, st, page).i;
            (OffersNext(c, st, page, i) <==> Visible(c, st, i) != []) <==> NextRight(c, st, page, i)
  {
    hide FillFor, HiddenBefore;
    var i := FillFor(c, st, page).i;
    if i <= c.n { VisibleLeft(c, st, i); }
  }

  // ----- runs of Next and Back ----------------------------------------------------------------------

  datatype Press = GoNext | GoBack

  /** A press, and what the callbacks answered when the page it is pressed on was displayed. */
  datatype Move = Move(st: Statuses, press: Press)

  predicate Offered(c: Config, page: nat, move: Move)
    requires Valid(c)
  {
    var f := FillFor(c, move.st, page);
    f.Filled? && match move.press
                 case GoNext => OffersNext(c, move.st, page, f.i)
                 case GoBack => page > 0
  }

  /** The page one viewer is on after pressing offered keys from page 0. */
  function Go(c: Config, moves: seq<Move>): Option<nat>
    requires Valid(c)
  {
    if moves == [] then Some(0)
    else
      var last := |moves| - 1;
      match Go(c, moves[..last])
      case None => None
      case Some(page) =>
        if !Offered(c, page, moves[last]) then None
        else Some(if moves[last].press == GoNext then page + 1 else page - 1)
  }

  /** Next followed by Back leads to the page one came from, whatever the callbacks answer in between; a
      page's lines depend on nothing else that changed. */
  lemma NextThenBack(c: Config, moves: seq<Move>, st: Statuses, st': Statuses)
    requires Valid(c) && Go(c, moves).Some? && Offered(c, Go(c, moves).value, Move(st, GoNext))
    requires FillFor(c, st', Go(c, moves).value + 1).Filled?
    ensures Go(c, moves + [Move(st, GoNext)] + [Move(st', GoBack)]) == Go(c, moves)
  {
    hide FillFor, OffersNext;
    var there := moves + [Move(st, GoNext)];
    var back := there + [Move(st', GoBack)];
    assert there[..|moves|] == moves && back[..|there|] == there;
  }

  /** A page filled to its last slot has passed at least one item for each free slot. */
  lemma {:induction false} FillGains(c: Config, st: Statuses, slot: nat, i: nat)
    requires Valid(c) && slot <= c.w
    requires FillPage(c, st, slot, i).Filled? && FillPage(c, st, slot, i).slot == c.w
    ensures FillPage(c, st, slot, i).i - i >= c.w - slot - StaticsFrom(c, slot)
    decreases c.w - slot, c.n - i
  {
    if slot < c.w && i < c.n {
      if c.statics[slot] {
        FillGains(c, st, slot + 1, i);
      } else if At(st, Regular(i)) == Hide {
        FillGains(c, st, slot, i + 1);
      } else {
        FillGains(c, st, slot + 1, i + 1);
      }
    }
  }

  lemma {:induction false} NoStatics(c: Config, slot: nat)
    requires Valid(c) && slot <= c.w && forall s :: 0 <= s < c.w ==> !c.statics[s]
    ensures StaticsFrom(c, slot) == 0
    decreases c.w - slot
  {
    if slot < c.w { NoStatics(c, slot + 1); }
  }

  lemma Smaller(a: nat, b: nat, w: nat)
    requires a <= b
    ensures a * w <= b * w
  {
  }

  /** An offered Next leads to a page with items, counting its free slots, whatever is hidden. */
  lemma NextGains(c: Config, st: Statuses, page: nat)
    requires Valid(c) && Offered(c, page, Move(st, GoNext))
    ensures c.w <= NEXT_SLOT && First(c, page + 1) < c.n
  {
    StartIsNatural(c, st, page);
    FirstNext(c, page);
    hide FillPage, StaticsFrom, HiddenBefore, StartOf, First;
    FillGains(c, st, 0, StartOf(c, st, page));
    LastSlot(c, st, page);
    assert First(c, page) == page * Free(c) by { FirstIs(c, page); }
  }

  lemma FirstIs(c: Config, page: nat)
    requires Valid(c)
    ensures First(c, page) == page * Free(c)
  {
  }

  lemma LastSlot(c: Config, st: Statuses, page: nat)
    requires Valid(c) && FillFor(c, st, page).Filled?
    ensures StartOf(c, st, page) >= 0 && FillFor(c, st, page) == FillPage(c, st, 0, StartOf(c, st, page))
    ensures FillFor(c, st, page).i < c.n ==> FillFor(c, st, page).slot == c.w
  {
    StartIsNatural(c, st, page);
  }

  /** What every run keeps. */
  predicate HasItems(c: Config, page: nat)
    requires Valid(c)
  {
    page == 0 || (c.w <= NEXT_SLOT && First(c, page) < c.n)
  }

  lemma {:induction false} RunHasItems(c: Config, moves: seq<Move>)
    requires Valid(c) && Go(c, moves).Some?
    ensures HasItems(c, Go(c, moves).value)
    decreases |moves|
  {
    hide Offered, Free;
    if moves != [] {
      var last := |moves| - 1;
      RunHasItems(c, moves[..last]);
      var page := Go(c, moves[..last]).value;
      if moves[last].press == GoNext {
        NextGains(c, moves[last].st, page);
      } else if page > 0 {
        Smaller(page - 1, page, Free(c));
      }
    }
  }

  /** Without static items every page reached is 0 or has page * w < n. */
  lemma NavigationInRange(c: Config, moves: seq<Move>)
    requires Valid(c) && forall s :: 0 <= s < c.w ==> !c.statics[s]
    requires Go(c, moves).Some?
    ensures var page := Go(c, moves).value; page == 0 || page * c.w < c.n
  {
    RunHasItems(c, moves);
    NoStatics(c, 0);
  }

  /** All item reads of all runs of one viewer are in range, whatever the callbacks answer. */
  ghost predicate AlwaysInRange(c: Config)
    requires Valid(c)
  {
    forall moves: seq<Move> :: Go(c, moves).Some? ==> InRange(c, Go(c, moves).value)
  }

  /** A caller's test: the last page offered is in range. With static items the share of a page is less
      than w, so later pages can be offered than page * w items allow. */
  predicate Navigable(c: Config)
    requires Valid(c)
  {
    || c.w > NEXT_SLOT || c.n == 0 || c.w == 0
    || (Free(c) > 0 && (c.n - 1) / Free(c) * c.w <= c.n)
  }

  lemma ReachableInRange(c: Config, page: nat)
    requires Valid(c) && Navigable(c) && HasItems(c, page)
    ensures InRange(c, page)
  {
    if page > 0 && c.w > 0 {
      var f := Free(c);
      AtMostQuotient(page, f, c.n - 1);
      Smaller(page, (c.n - 1) / f, c.w);
    } else {
      assert page * c.w == 0;
    }
  }

  lemma GoOn(c: Config, moves: seq<Move>, page: nat, move: Move)
    requires Valid(c) && Go(c, moves) == Some(page) && Offered(c, page, move)
    ensures Go(c, moves + [move]) == Some(if move.press == GoNext then page + 1 else page - 1)
  {
    assert (moves + [move])[..|moves|] == moves;
  }

  /** The pages a session turns to are in range and can be displayed, if no static item hides. */
  lemma OfferedCanShow(c: Config, moves: seq<Move>, page: nat, move: Move, st: Statuses)
    requires Valid(c) && Go(c, moves) == Some(page) && Offered(c, page, move) && Navigable(c)
    requires forall s :: 0 <= s < c.w ==> !HiddenStatic(c, st, s)
    ensures var page' := if move.press == GoNext then page + 1 else page - 1;
            InRange(c, page') && FillFor(c, st, page').Filled?
  {
    hide Go, FillFor, OffersNext, HiddenStatic, Navigable, InRange, First;
    var page' := if move.press == GoNext then page + 1 else page - 1;
    GoOn(c, moves, page, move);
    RunHasItems(c, moves);
    RunHasItems(c, moves + [move]);
    ReachableInRange(c, page');
    SmallPagesFill(c, st, page');
  }

  lemma AtMostQuotient(p: nat, f: nat, m: nat)
    requires f > 0 && p * f <= m
    ensures p <= m / f
  {
    var q := m / f;
    assert m == q * f + m % f;
    assert (q + 1) * f == q * f + f;
    if p > q { Smaller(q + 1, p, f); }
  }

  const ALL_ENABLED := Statuses([], [])

  function Nexts(k: nat): (moves: seq<Move>)
    ensures |moves| == k && forall j :: 0 <= j < k ==> moves[j] == Move(ALL_ENABLED, GoNext)
  {
    if k == 0 then [] else Nexts(k - 1) + [Move(ALL_ENABLED, GoNext)]
  }

  lemma InRangeOf(c: Config, moves: seq<Move>)
    requires Valid(c) && AlwaysInRange(c) && Go(c, moves).Some?
    ensures InRange(c, Go(c, moves).value)
  {
  }

  lemma AllEnabledIsPlain(c: Config)
    requires Valid(c)
    ensures NothingHidden(c, ALL_ENABLED) && forall s :: 0 <= s < c.w ==> !HiddenStatic(c, ALL_ENABLED, s)
  {
  }

  /** With everything enabled, Next is offered on page `k`. */
  lemma NextIsOffered(c: Config, k: nat)
    requires Valid(c) && c.w <= NEXT_SLOT && InRange(c, k) && First(c, k) <= c.n && First(c, k + 1) < c.n
    ensures Offered(c, k, Move(ALL_ENABLED, GoNext))
  {
    AllEnabledIsPlain(c);
    hide FillFor, OffersNext, NothingHidden, InRange, First, HiddenStatic;
    SmallPagesFill(c, ALL_ENABLED, k);
    PlainNext(c, ALL_ENABLED, k);
  }

  lemma {:induction false} NextsReach(c: Config, k: nat)
    requires Valid(c) && c.w <= NEXT_SLOT && AlwaysInRange(c) && (k == 0 || First(c, k) < c.n)
    ensures Go(c, Nexts(k)) == Some(k) && InRange(c, k)
  {
    hide AlwaysInRange, Free, Offered, InRange, First;
    if k > 0 {
      FirstNext(c, k - 1);
      FirstIsZero(c);
      hide Go;
      NextsReach(c, k - 1);
      NextIsOffered(c, k - 1);
      GoOn(c, Nexts(k - 1), k - 1, Move(ALL_ENABLED, GoNext));
      InRangeOf(c, Nexts(k));
    } else {
      assert Go(c, Nexts(0)) == Some(0);
      InRangeOf(c, Nexts(0));
    }
  }

  lemma NavigableStaysInRange(c: Config)
    requires Valid(c) && Navigable(c)
    ensures AlwaysInRange(c)
  {
    hide Go, Navigable, InRange, HasItems;
    forall moves: seq<Move> | Go(c, moves).Some?
      ensures InRange(c, Go(c, moves).value)
    {
      RunHasItems(c, moves);
      ReachableInRange(c, Go(c, moves).value);
    }
  }

  lemma OnlyNavigableStays(c: Config)
    requires Valid(c) && AlwaysInRange(c)
    ensures Navigable(c)
  {
    hide AlwaysInRange, Free, Go;
    if c.n > 0 && 0 < c.w <= NEXT_SLOT {
      if Free(c) == 0 {
        assert (c.n + 1) * Free(c) == 0;
        NextsReach(c, c.n + 1);
        Larger(c.n + 1, c.w);
      } else {
        DivMod(c.n - 1, Free(c));
        NextsReach(c, (c.n - 1) / Free(c));
      }
    }
  }

  lemma Larger(a: nat, w: nat)
    requires w > 0
    ensures a * w >= a
  {
  }

  /** Item reads stay in range over all runs, whatever is hidden, exactly when `Navigable` says so. */
  lemma InRangeIffNavigable(c: Config)
    requires Valid(c)
    ensures AlwaysInRange(c) <==> Navigable(c)
  {
    if Navigable(c) { NavigableStaysInRange(c); }
    if AlwaysInRange(c) { OnlyNavigableStays(c); }
  }

  lemma DivMod(m: nat, f: nat)
    requires f > 0
    ensures m / f * f <= m
  {
  }

  /** Which it always does without static items. */
  lemma WithoutStaticsNavigable(c: Config)
    requires Valid(c) && forall s :: 0 <= s < c.w ==> !c.statics[s]
    ensures Navigable(c)
  {
    NoStatics(c, 0);
    if c.n > 0 && c.w > 0 { DivMod(c.n - 1, c.w); }
  }

  /** Seven items to a page, one of them static, thirteen others: page 2 is offered and reads item 13. */
  lemma StaticsLeadOutOfRange()
    ensures var c := Config(13, 7, [true] + seq(9, _ => false)); Valid(c) && !Navigable(c) && !AlwaysInRange(c)
  {
    var c := Config(13, 7, [true] + seq(9, _ => false));
    assert StaticsFrom(c, 7) == 0;
    assert StaticsFrom(c, 5) == 0;
    assert StaticsFrom(c, 3) == 0;
    assert StaticsFrom(c, 1) == 0;
    InRangeIffNavigable(c);
  }

  lemma NextProduct(page: nat, f: nat)
    ensures (page + 1) * f == page * f + f
  {
  }
}
