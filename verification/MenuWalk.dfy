/** Following Next from page 0: whether every visible item is seen exactly once. */
module MenuWalk {
  import opened Basics
  import opened MenuFilling
  import opened MenuNavigation
  import opened MenuPaging

  /** Every page can be displayed: at most seven items to it, no static item hidden. */
  predicate Showable(c: Config, st: Statuses)
    requires Valid(c)
  {
    c.w <= NEXT_SLOT && forall s :: 0 <= s < c.w ==> !HiddenStatic(c, st, s)
  }

  predicate NextAt(c: Config, st: Statuses, page: nat)
    requires Valid(c) && Showable(c, st)
  {
    SmallPagesFill(c, st, page);
    OffersNext(c, st, page, FillFor(c, st, page).i)
  }

  function ItemsAt(c: Config, st: Statuses, page: nat): seq<nat>
    requires Valid(c) && Showable(c, st)
  {
    SmallPagesFill(c, st, page);
    ItemsOn(c, st, page)
  }

  lemma NextAtGains(c: Config, st: Statuses, page: nat)
    requires Valid(c) && Showable(c, st) && NextAt(c, st, page)
    ensures First(c, page + 1) == First(c, page) + Free(c) && First(c, page + 1) < c.n && HasItems(c, page + 1)
  {
    SmallPagesFill(c, st, page);
    NextGains(c, st, page);
    FirstNext(c, page);
  }

  /** What a viewer sees following Next from a page on while it is offered. */
  function Walk(c: Config, st: Statuses, page: nat): seq<nat>
    requires Valid(c) && Showable(c, st) && Free(c) > 0
    decreases c.n - First(c, page)
  {
    ItemsAt(c, st, page)
    + if NextAt(c, st, page) then
        NextAtGains(c, st, page);
        Walk(c, st, page + 1)
      else []
  }

  /** All items from where the page stops are hidden. */
  predicate NoneLeft(c: Config, st: Statuses, page: nat)
    requires Valid(c) && Showable(c, st)
  {
    SmallPagesFill(c, st, page);
    var i := FillFor(c, st, page).i;
    i >= c.n || HiddenLate(c, st, i) == c.n - i
  }

  /** A caller's test, page by page: each starts right, and the last stops with none left. */
  predicate WalksRight(c: Config, st: Statuses, page: nat)
    requires Valid(c) && Showable(c, st) && Free(c) > 0
    decreases c.n - First(c, page)
  {
    && StartsRight(c, st, page)
    && if NextAt(c, st, page) then
         NextAtGains(c, st, page);
         WalksRight(c, st, page + 1)
       else NoneLeft(c, st, page)
  }

  // ----- one page --------------------------------------------------------------------------------------

  /** The visible items that are left when the shares of the pages before `page` are taken. */
  function Left(c: Config, st: Statuses, page: nat): seq<nat>
    requires Valid(c)
  {
    var v := Visible(c, st, 0);
    v[Min(First(c, page), |v|)..]
  }

  /** The visible items from where a page stops. */
  function Behind(c: Config, st: Statuses, page: nat): seq<nat>
    requires Valid(c) && Showable(c, st)
  {
    SmallPagesFill(c, st, page);
    Visible(c, st, FillFor(c, st, page).i)
  }

  /** The visible items from where it starts. */
  function From(c: Config, st: Statuses, page: nat): seq<nat>
    requires Valid(c)
  {
    StartIsNatural(c, st, page);
    Visible(c, st, StartOf(c, st, page))
  }

  lemma NoneLeftMeans(c: Config, st: Statuses, page: nat)
    requires Valid(c) && Showable(c, st)
    ensures NoneLeft(c, st, page) <==> Behind(c, st, page) == []
  {
    SmallPagesFill(c, st, page);
    hide FillFor;
    var i := FillFor(c, st, page).i;
    if i < c.n { VisibleLeft(c, st, i); }
  }

  /** A page takes the first visible items from its start and leaves the others behind. */
  lemma PageSplits(c: Config, st: Statuses, page: nat)
    requires Valid(c) && Showable(c, st)
    ensures From(c, st, page) == ItemsAt(c, st, page) + Behind(c, st, page)
    ensures ItemsAt(c, st, page) == Take(From(c, st, page), Free(c))
  {
    SmallPagesFill(c, st, page);
    PageShows(c, st, page);
    OnlyFillShows(c, st, page);
    LastSlot(c, st, page);
    FillShows(c, st, 0, StartOf(c, st, page));
    hide FillPage, Visible, Shown, Take, ItemsOn, StartOf, FillFor;
  }

  /** From its start on are left some of the visible items, all that should be exactly when `StartsRight`
      says so. */
  lemma FromIsLeftIff(c: Config, st: Statuses, page: nat)
    requires Valid(c) && Free(c) > 0 && InRange(c, page)
    ensures From(c, st, page) == Left(c, st, page) <==> StartsRight(c, st, page)
    ensures exists k :: 0 <= k <= |Visible(c, st, 0)| && From(c, st, page) == Visible(c, st, 0)[k..]
  {
    StartMeets(c, st, page);
    VisibleCount(c, st);
    VisibleAtStart(c, st, StartOf(c, st, page));
    FirstIs(c, page);
    hide Visible, HiddenBefore, StartOf, Free, StartsRight, First;
    var v, m := Visible(c, st, 0), Min(StartOf(c, st, page), c.n);
    SameRest(v, m - HiddenBefore(st, m), Min(First(c, page), |v|));
  }

  lemma SameRest(v: seq<nat>, a: nat, b: nat)
    requires a <= |v| && b <= |v|
    ensures v[a..] == v[b..] <==> a == b
  {
    if v[a..] == v[b..] { assert |v[a..]| == |v[b..]|; }
  }

  // ----- the walk --------------------------------------------------------------------------------------

  lemma WalkStep(c: Config, st: Statuses, page: nat)
    requires Valid(c) && Showable(c, st) && Free(c) > 0
    ensures Walk(c, st, page)
            == ItemsAt(c, st, page) + if NextAt(c, st, page) then Walk(c, st, page + 1) else []
    ensures WalksRight(c, st, page)
            <==> StartsRight(c, st, page)
                 && if NextAt(c, st, page) then WalksRight(c, st, page + 1) else NoneLeft(c, st, page)
  {
  }

  lemma {:induction false} NothingBehind(c: Config, st: Statuses, i: nat, j: nat)
    requires i <= j && Visible(c, st, i) == []
    ensures Visible(c, st, j) == []
    decreases c.n - i
  {
    if i < c.n && i < j { NothingBehind(c, st, i + 1, j); }
  }

  lemma StartGrows(c: Config, st: Statuses, page: nat)
    requires Valid(c)
    ensures 0 <= StartOf(c, st, page) <= StartOf(c, st, page + 1)
  {
    StartIsNatural(c, st, page);
    StartIsNatural(c, st, page + 1);
    FirstNext(c, page);
    FirstIs(c, page);
    FirstIs(c, page + 1);
    NextProduct(page, c.w);
    hide StartOf, First, Free;
    if page > 0 { HiddenGrows(st, page * c.w, (page + 1) * c.w); }
  }

  lemma FromNothing(c: Config, st: Statuses, page: nat)
    requires Valid(c) && Showable(c, st) && From(c, st, page) == []
    ensures ItemsAt(c, st, page) == [] && From(c, st, page + 1) == []
  {
    StartGrows(c, st, page);
    PageSplits(c, st, page);
    hide StartOf, Visible, ItemsAt, Behind;
    NothingBehind(c, st, StartOf(c, st, page), StartOf(c, st, page + 1));
  }

  /** Once a page has nothing visible from its start on, neither it nor the pages after it show anything. */
  lemma {:induction false} WalkOfNothing(c: Config, st: Statuses, page: nat)
    requires Valid(c) && Showable(c, st) && Free(c) > 0 && From(c, st, page) == []
    ensures Walk(c, st, page) == []
    decreases c.n - First(c, page)
  {
    hide Showable, From, NextAt, ItemsAt, Free, First;
    FromNothing(c, st, page);
    WalkStep(c, st, page);
    hide Walk;
    if NextAt(c, st, page) {
      NextAtGains(c, st, page);
      WalkOfNothing(c, st, page + 1);
    }
  }

  lemma Cancel(a: seq<nat>, b: seq<nat>, d: seq<nat>)
    ensures a + b == a + d <==> b == d
  {
    if a + b == a + d {
      assert (a + b)[|a|..] == b && (a + d)[|a|..] == d;
    }
  }

  /** Splitting what is left at the share of a page leaves what is left for the next. */
  lemma LeftSplits(c: Config, st: Statuses, page: nat, items: seq<nat>, behind: seq<nat>)
    requires Valid(c) && Left(c, st, page) == items + behind && items == Take(Left(c, st, page), Free(c))
    ensures behind == Left(c, st, page + 1)
  {
    FirstNext(c, page);
    hide Visible, First, Free;
    var v := Visible(c, st, 0);
    var a, b := Min(First(c, page), |v|), Min(First(c, page + 1), |v|);
    assert |items| == b - a;
    assert (items + behind)[|items|..] == behind;
    assert v[a..][b - a..] == v[b..];
  }

  /** Rising numbers taken from another place start with another number. */
  lemma StartsElsewhere(v: seq<nat>, k: nat, a: nat, n: nat, rest: seq<nat>)
    requires forall i, j :: 0 <= i < j < |v| ==> v[i] < v[j]
    requires k < |v| && a <= |v| && a != k && n > 0
    ensures Take(v[k..], n) + rest != v[a..]
  {
    assert (Take(v[k..], n) + rest)[0] == v[k];
    if a < |v| { assert v[a..][0] == v[a]; }
  }

  lemma LeftIs(c: Config, st: Statuses, page: nat)
    requires Valid(c)
    ensures exists a :: 0 <= a <= |Visible(c, st, 0)| && Left(c, st, page) == Visible(c, st, 0)[a..]
  {
    var v := Visible(c, st, 0);
    var a: nat := Min(First(c, page), |v|);
    assert Left(c, st, page) == v[a..];
  }

  /** A wrong start is seen: the walk shows another item first, or nothing although items are left. */
  lemma WrongStart(c: Config, st: Statuses, page: nat)
    requires Valid(c) && Showable(c, st) && Free(c) > 0 && InRange(c, page) && !StartsRight(c, st, page)
    ensures Walk(c, st, page) != Left(c, st, page)
  {
    hide StartsRight, Free, Left, From, Behind, ItemsAt, NextAt, Take, Visible, InRange;
    FromIsLeftIff(c, st, page);
    LeftIs(c, st, page);
    var v := Visible(c, st, 0);
    var k :| 0 <= k <= |v| && From(c, st, page) == v[k..];
    var a :| 0 <= a <= |v| && Left(c, st, page) == v[a..];
    if k == |v| {
      WalkOfNothing(c, st, page);
    } else {
      PageSplits(c, st, page);
      WalkStep(c, st, page);
      VisibleIncreases(c, st, 0);
      StartsElsewhere(v, k, a, Free(c), if NextAt(c, st, page) then Walk(c, st, page + 1) else []);
    }
  }

  /** A right start takes the page's share of what is left. */
  lemma RightStart(c: Config, st: Statuses, page: nat)
    requires Valid(c) && Showable(c, st) && Free(c) > 0 && InRange(c, page) && StartsRight(c, st, page)
    ensures Left(c, st, page) == ItemsAt(c, st, page) + Left(c, st, page + 1)
    ensures Behind(c, st, page) == Left(c, st, page + 1)
  {
    FromIsLeftIff(c, st, page);
    PageSplits(c, st, page);
    hide Left, From, Take, Behind, ItemsAt;
    LeftSplits(c, st, page, ItemsAt(c, st, page), Behind(c, st, page));
  }

  lemma {:induction false} WalkFromIff(c: Config, st: Statuses, page: nat)
    requires Valid(c) && Showable(c, st) && Free(c) > 0 && Navigable(c) && HasItems(c, page)
    ensures Walk(c, st, page) == Left(c, st, page) <==> WalksRight(c, st, page)
    decreases c.n - First(c, page)
  {
    hide Showable, StartsRight, NextAt, ItemsAt, Behind, Left, NoneLeft, Free, First, Navigable, InRange;
    ReachableInRange(c, page);
    WalkStep(c, st, page);
    hide Walk, WalksRight;
    if !StartsRight(c, st, page) {
      WrongStart(c, st, page);
    } else {
      RightStart(c, st, page);
      if NextAt(c, st, page) {
        NextAtGains(c, st, page);
        WalkFromIff(c, st, page + 1);
        Cancel(ItemsAt(c, st, page), Walk(c, st, page + 1), Left(c, st, page + 1));
      } else {
        NoneLeftMeans(c, st, page);
        Cancel(ItemsAt(c, st, page), [], Left(c, st, page + 1));
      }
    }
  }

  /** Following Next from page 0 shows every visible item exactly once, in order, and stops, exactly when
      every page on the way starts right and the last one stops with none left. */
  lemma WalkShowsAllIff(c: Config, st: Statuses)
    requires Valid(c) && Showable(c, st) && Free(c) > 0 && Navigable(c)
    ensures Walk(c, st, 0) == Visible(c, st, 0) <==> WalksRight(c, st, 0)
  {
    WalkFromIff(c, st, 0);
    FirstIsZero(c);
    var v := Visible(c, st, 0);
    assert v[0..] == v;
  }

  // ----- nothing hidden ----------------------------------------------------------------------------------

  lemma PlainIsShowable(c: Config, st: Statuses)
    requires Valid(c) && c.w <= NEXT_SLOT && NothingHidden(c, st)
    ensures Showable(c, st)
  {
  }

  lemma PlainPageIsRight(c: Config, st: Statuses, page: nat)
    requires Valid(c) && Showable(c, st) && NothingHidden(c, st) && InRange(c, page)
    ensures StartsRight(c, st, page)
    ensures !NextAt(c, st, page) ==> NoneLeft(c, st, page)
  {
    StartIsNatural(c, st, page);
    if page > 0 { NoneHiddenBefore(c, st, page * c.w); }
    var start: nat := StartOf(c, st, page);
    if start <= c.n { NoneHiddenBefore(c, st, start); }
  }

  lemma {:induction false} PlainWalksRight(c: Config, st: Statuses, page: nat)
    requires Valid(c) && Showable(c, st) && Free(c) > 0 && Navigable(c) && HasItems(c, page) && NothingHidden(c, st)
    ensures WalksRight(c, st, page)
    decreases c.n - First(c, page)
  {
    ReachableInRange(c, page);
    WalkStep(c, st, page);
    hide WalksRight, Walk, NothingHidden, Free, First, InRange, Navigable, NextAt, NoneLeft;
    PlainPageIsRight(c, st, page);
    if NextAt(c, st, page) {
      NextAtGains(c, st, page);
      PlainWalksRight(c, st, page + 1);
    }
  }

  /** With nothing hidden, following Next from page 0 shows every item exactly once, in order, and stops. */
  lemma WalkShowsAll(c: Config, st: Statuses)
    requires Valid(c) && c.w <= NEXT_SLOT && Free(c) > 0 && NothingHidden(c, st) && Navigable(c)
    ensures Showable(c, st) && Walk(c, st, 0) == Range(0, c.n)
  {
    PlainIsShowable(c, st);
    PlainWalksRight(c, st, 0);
    WalkShowsAllIff(c, st);
    AllVisible(c, st, 0);
  }

  // ----- hidden items that go wrong ------------------------------------------------------------------------

  const SIX := Config(6, 2, NO_STATICS)
  const FIRST_AND_THIRD_HIDDEN := Statuses([Hide, Enabled, Hide], [])

  lemma SixVisible()
    ensures Visible(SIX, FIRST_AND_THIRD_HIDDEN, 0) == [1, 3, 4, 5]
    ensures Visible(SIX, FIRST_AND_THIRD_HIDDEN, 3) == [3, 4, 5]
  {
    assert Visible(SIX, FIRST_AND_THIRD_HIDDEN, 5) == [5];
    assert Visible(SIX, FIRST_AND_THIRD_HIDDEN, 3) == [3, 4, 5];
    assert Visible(SIX, FIRST_AND_THIRD_HIDDEN, 1) == [1, 3, 4, 5];
  }

  lemma SixStarts()
    ensures Free(SIX) == 2 && HiddenBefore(FIRST_AND_THIRD_HIDDEN, 2) == 1
    ensures StartOf(SIX, FIRST_AND_THIRD_HIDDEN, 0) == 0 && StartOf(SIX, FIRST_AND_THIRD_HIDDEN, 1) == 3
  {
    NoStatics(SIX, 0);
    assert HiddenBefore(FIRST_AND_THIRD_HIDDEN, 1) == 1;
    StartIsNatural(SIX, FIRST_AND_THIRD_HIDDEN, 1);
  }

  lemma SixStops()
    ensures FillPage(SIX, FIRST_AND_THIRD_HIDDEN, 0, 3).Filled? && FillPage(SIX, FIRST_AND_THIRD_HIDDEN, 0, 3).i == 5
  {
    assert FillPage(SIX, FIRST_AND_THIRD_HIDDEN, 2, 5) == Filled([], 2, 5);
    assert FillPage(SIX, FIRST_AND_THIRD_HIDDEN, 1, 4).i == 5;
  }

  /** Two items to a page, items 0 and 2 of six hidden: page 1 shows item 3 again and offers no Next,
      so item 5 is never seen. */
  lemma HiddenItemsRepeatAndLose()
    ensures var c, st := SIX, FIRST_AND_THIRD_HIDDEN;
            && Valid(c) && FillFor(c, st, 0).Filled? && FillFor(c, st, 1).Filled?
            && ItemsOn(c, st, 0) == [1, 3] && ItemsOn(c, st, 1) == [3, 4]
            && !OffersNext(c, st, 1, FillFor(c, st, 1).i)
  {
    SmallPagesFill(SIX, FIRST_AND_THIRD_HIDDEN, 0);
    SmallPagesFill(SIX, FIRST_AND_THIRD_HIDDEN, 1);
    SixVisible();
    SixStarts();
    SixStops();
    hide FillPage, Visible, StaticsFrom, HiddenBefore, Free, StartOf, PageRows, ItemsOn;
    PageShows(SIX, FIRST_AND_THIRD_HIDDEN, 0);
    PageShows(SIX, FIRST_AND_THIRD_HIDDEN, 1);
  }

  /** Two items to a page, the last of three hidden: page 0 offers Next to a page that shows nothing. */
  lemma NextToEmptyPage()
    ensures var c, st := Config(3, 2, NO_STATICS), Statuses([Enabled, Enabled, Hide], []);
            && Valid(c) && FillFor(c, st, 0).Filled? && FillFor(c, st, 1).Filled?
            && OffersNext(c, st, 0, FillFor(c, st, 0).i) && !NextRight(c, st, 0, FillFor(c, st, 0).i)
            && ItemsOn(c, st, 1) == []
  {
    var c, st := Config(3, 2, NO_STATICS), Statuses([Enabled, Enabled, Hide], []);
    SmallPagesFill(c, st, 0);
    SmallPagesFill(c, st, 1);
    assert Visible(c, st, 2) == [];
    assert FillPage(c, st, 1, 1).i == 2;
    assert FillFor(c, st, 0).i == 2;
    NextIsRightIff(c, st, 0);
    NoStatics(c, 0);
    assert HiddenBefore(st, 2) == 0;
    StartIsNatural(c, st, 1);
    PageShows(c, st, 1);
  }
}
