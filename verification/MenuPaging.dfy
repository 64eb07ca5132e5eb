/** Which items a menu page shows, and which keys lead from page to page. */
module MenuPaging {
  import opened Basics

  datatype Status = Enabled | Disabled | Hide

  /** An item a slot can point to. */
  datatype Ref = Regular(index: nat) | Static(position: nat) | NextItem | BackItem | ExitItem | Unset

  /** What the item callbacks answer during one display. */
  datatype Statuses = Statuses(regular: seq<Status>, statics: seq<Status>)

  /** An item without a callback is enabled. */
  function At(st: Statuses, ref: Ref): Status {
    if ref.Regular? && ref.index < |st.regular| then st.regular[ref.index]
    else if ref.Static? && ref.position < |st.statics| then st.statics[ref.position]
    else Enabled
  }

  /** A drawn line: slot, item, and whether its key works. */
  datatype Row = Row(slot: nat, ref: Ref, status: Status)

  const MAX_STATIC_ITEMS := 10

  /** Slots above the items: Next at 7, Back at 8, Exit at 9. */
  const NEXT_SLOT := 7

  /** `n` items, `w` to a page, some slots taken by static items. */
  datatype Config = Config(n: nat, w: nat, statics: seq<bool>)

  predicate Valid(c: Config) { c.w <= MAX_STATIC_ITEMS && |c.statics| == MAX_STATIC_ITEMS }

  /** Static items in slots from `slot` on. */
  function StaticsFrom(c: Config, slot: nat): (k: nat)
    requires Valid(c) && slot <= c.w
    ensures k <= c.w - slot
    decreases c.w - slot
  {
    if slot == c.w then 0 else (if c.statics[slot] then 1 else 0) + StaticsFrom(c, slot + 1)
  }

  /** Slots of a page left for regular items. */
  function Free(c: Config): nat
    requires Valid(c)
  {
    c.w - StaticsFrom(c, 0)
  }

  function HiddenBefore(st: Statuses, j: nat): (h: nat)
    ensures h <= j
  {
    if j == 0 then 0 else HiddenBefore(st, j - 1) + if At(st, Regular(j - 1)) == Hide then 1 else 0
  }

  /** Items hidden before page * w, which is what the display counts. */
  function HiddenEarly(c: Config, st: Statuses, page: nat): nat {
    if page == 0 then 0 else HiddenBefore(st, page * c.w)
  }

  /** The first item looked at for a page. */
  function StartOf(c: Config, st: Statuses, page: nat): int
    requires Valid(c)
  {
    if page == 0 then 0 else page * c.w + HiddenEarly(c, st, page) - StaticsFrom(c, 0) * page
  }

  /** The counting loop reads the items before page * w unchecked. */
  predicate InRange(c: Config, page: nat) { page == 0 || page * c.w <= c.n }

  // ----- the loops ------------------------------------------------------------------------------

  /** What the filling loop leaves, if it ends; `Overflows` when Exit then lies beyond the ten slots. */
  datatype Filled = Filled(rows: seq<Row>, slot: nat, i: nat) | Hangs | Overflows

  function Before(row: Row, rest: Filled): Filled {
    if rest.Filled? then rest.(rows := [row] + rest.rows) else rest
  }

  /** The loop that fills the page. A hidden static item makes it go round without progress. */
  function FillPage(c: Config, st: Statuses, slot: nat, i: nat): (f: Filled)
    requires Valid(c) && slot <= c.w
    ensures f.Filled? ==> slot <= f.slot <= c.w && i <= f.i && |f.rows| == f.slot - slot
    ensures f.Filled? ==> f.slot == c.w || f.i >= c.n
    ensures !f.Overflows?
    decreases c.w - slot, c.n - i
  {
    if slot == c.w || i >= c.n then Filled([], slot, i)
    else if c.statics[slot] then
      var r := At(st, Static(slot));
      if r == Hide then Hangs else Before(Row(slot, Static(slot), r), FillPage(c, st, slot + 1, i))
    else
      var r := At(st, Regular(i));
      if r == Hide then FillPage(c, st, slot, i + 1)
      else Before(Row(slot, Regular(i), r), FillPage(c, st, slot + 1, i + 1))
  }

  /** The loop over the slots left up to the seventh: static items only. */
  function FillStatics(c: Config, st: Statuses, slot: nat): seq<Row>
    requires Valid(c) && slot <= NEXT_SLOT
    decreases NEXT_SLOT - slot
  {
    if slot == NEXT_SLOT then []
    else if c.statics[slot] && At(st, Static(slot)) != Hide then
      [Row(slot, Static(slot), At(st, Static(slot)))] + FillStatics(c, st, slot + 1)
    else FillStatics(c, st, slot + 1)
  }

  /** Next is offered when items are left, less the hidden ones of earlier pages. */
  predicate OffersNext(c: Config, st: Statuses, page: nat, i: nat)
    requires Valid(c)
  {
    c.n - HiddenEarly(c, st, page) > i
  }

  function NavigationRows(next: bool, back: bool): seq<Row> {
    (if next then [Row(NEXT_SLOT, NextItem, Enabled)] else [])
    + (if back then [Row(NEXT_SLOT + 1, BackItem, Enabled)] else [])
    + [Row(NEXT_SLOT + 2, ExitItem, Enabled)]
  }

  /** The filling loop of a display. Past slot 7 the three navigation lines leave the slot table. */
  function FillFor(c: Config, st: Statuses, page: nat): (f: Filled)
    requires Valid(c)
    ensures f.Filled? ==> f.slot <= c.w && f.slot <= NEXT_SLOT
  {
    StartIsNatural(c, st, page);
    var f := FillPage(c, st, 0, StartOf(c, st, page));
    if f.Filled? && f.slot > NEXT_SLOT then Overflows else f
  }

  function PageRows(c: Config, st: Statuses, page: nat): seq<Row>
    requires Valid(c) && FillFor(c, st, page).Filled?
  {
    var f := FillFor(c, st, page);
    f.rows + FillStatics(c, st, f.slot) + NavigationRows(OffersNext(c, st, page, f.i), page > 0)
  }

  lemma StartIsNatural(c: Config, st: Statuses, page: nat)
    requires Valid(c)
    ensures StartOf(c, st, page) == page * Free(c) + HiddenEarly(c, st, page)
    ensures StartOf(c, st, page) >= 0
  {
    hide HiddenBefore, StaticsFrom;
    Distribute(page, c.w, StaticsFrom(c, 0));
  }

  lemma Distribute(a: nat, b: nat, c: nat)
    ensures a * (b - c) == a * b - c * a
  {
  }

  // ----- what a page shows ------------------------------------------------------------------------

  /** The visible items from `i` on. */
  function Visible(c: Config, st: Statuses, i: nat): seq<nat>
    decreases c.n - i
  {
    if i >= c.n then [] else (if At(st, Regular(i)) == Hide then [] else [i]) + Visible(c, st, i + 1)
  }

  ghost predicate Increasing(v: seq<nat>, lo: nat, hi: nat) {
    && (forall k :: 0 <= k < |v| ==> lo <= v[k] < hi)
    && (forall j, k :: 0 <= j < k < |v| ==> v[j] < v[k])
  }

  lemma IncreasingCons(x: nat, v: seq<nat>, hi: nat)
    requires x < hi && Increasing(v, x + 1, hi)
    ensures Increasing([x] + v, x, hi)
  {
    assert forall k :: 1 <= k <= |v| ==> ([x] + v)[k] == v[k - 1];
  }

  lemma IncreasingFrom(v: seq<nat>, lo: nat, lo': nat, hi: nat)
    requires Increasing(v, lo, hi) && lo' <= lo
    ensures Increasing([] + v, lo', hi)
  {
    assert [] + v == v;
  }

  lemma {:induction false} VisibleIncreases(c: Config, st: Statuses, i: nat)
    ensures Increasing(Visible(c, st, i), i, c.n)
    decreases c.n - i
  {
    if i < c.n {
      hide Increasing, At;
      VisibleIncreases(c, st, i + 1);
      if At(st, Regular(i)) == Hide {
        IncreasingFrom(Visible(c, st, i + 1), i + 1, i, c.n);
      } else {
        IncreasingCons(i, Visible(c, st, i + 1), c.n);
      }
    }
  }

  /** The regular items of some rows. */
  function Shown(rows: seq<Row>): seq<nat> {
    if rows == [] then [] else (if rows[0].ref.Regular? then [rows[0].ref.index] else []) + Shown(rows[1..])
  }

  lemma ShownCons(row: Row, rows: seq<Row>)
    ensures Shown([row] + rows) == (if row.ref.Regular? then [row.ref.index] else []) + Shown(rows)
  {
  }

  lemma TakeCons(x: nat, shown: seq<nat>, rest: seq<nat>, n: int)
    requires n >= 1 && shown == Take(shown + rest, n - 1)
    ensures [x] + shown == Take([x] + (shown + rest), n)
    ensures [x] + (shown + rest) == ([x] + shown) + rest
  {
  }

  /** One turn of the filling loop that draws a row. */
  ghost predicate Draws(f: Filled, row: Row, rest: Filled) {
    (f.Filled? <==> rest.Filled?) && (f.Filled? ==> f.rows == [row] + rest.rows && f.i == rest.i)
  }

  lemma DrawTurn(c: Config, st: Statuses, slot: nat, i: nat)
    requires Valid(c) && slot < c.w && i < c.n
    ensures c.statics[slot] && At(st, Static(slot)) != Hide ==>
              Draws(FillPage(c, st, slot, i), Row(slot, Static(slot), At(st, Static(slot))),
                    FillPage(c, st, slot + 1, i))
    ensures !c.statics[slot] && At(st, Regular(i)) != Hide ==>
              && Draws(FillPage(c, st, slot, i), Row(slot, Regular(i), At(st, Regular(i))),
                       FillPage(c, st, slot + 1, i + 1))
              && Visible(c, st, i) == [i] + Visible(c, st, i + 1)
    ensures StaticsFrom(c, slot) == (if c.statics[slot] then 1 else 0) + StaticsFrom(c, slot + 1)
  {
  }

  /** A page takes visible items in order until its free slots are full; the loop stops behind them. */
  ghost predicate ShowsInOrder(c: Config, st: Statuses, slot: nat, i: nat)
    requires Valid(c) && slot <= c.w
  {
    var f := FillPage(c, st, slot, i);
    f.Filled? ==>
      && Visible(c, st, i) == Shown(f.rows) + Visible(c, st, f.i)
      && Shown(f.rows) == Take(Visible(c, st, i), c.w - slot - StaticsFrom(c, slot))
  }

  lemma {:induction false} FillShows(c: Config, st: Statuses, slot: nat, i: nat)
    requires Valid(c) && slot <= c.w
    ensures ShowsInOrder(c, st, slot, i)
    decreases c.w - slot, c.n - i
  {
    if slot == c.w || i >= c.n {
      assert [] + Visible(c, st, i) == Visible(c, st, i);
    } else if !c.statics[slot] && At(st, Regular(i)) == Hide {
      FillShows(c, st, slot, i + 1);
      assert [] + Visible(c, st, i + 1) == Visible(c, st, i + 1);
    } else if c.statics[slot] {
      FillShows(c, st, slot + 1, i);
      if At(st, Static(slot)) != Hide { StaticTurn(c, st, slot, i); }
    } else {
      FillShows(c, st, slot + 1, i + 1);
      RegularTurn(c, st, slot, i);
    }
  }

  lemma StaticTurn(c: Config, st: Statuses, slot: nat, i: nat)
    requires Valid(c) && slot < c.w && i < c.n && c.statics[slot] && At(st, Static(slot)) != Hide
    requires ShowsInOrder(c, st, slot + 1, i)
    ensures ShowsInOrder(c, st, slot, i)
  {
    DrawTurn(c, st, slot, i);
    hide FillPage, Visible, StaticsFrom, Shown, Take, At, Min;
    var f := FillPage(c, st, slot + 1, i);
    if f.Filled? {
      ShownCons(Row(slot, Static(slot), At(st, Static(slot))), f.rows);
      assert [] + Shown(f.rows) == Shown(f.rows);
    }
  }

  lemma RegularTurn(c: Config, st: Statuses, slot: nat, i: nat)
    requires Valid(c) && slot < c.w && i < c.n && !c.statics[slot] && At(st, Regular(i)) != Hide
    requires ShowsInOrder(c, st, slot + 1, i + 1)
    ensures ShowsInOrder(c, st, slot, i)
  {
    DrawTurn(c, st, slot, i);
    hide FillPage, Visible, StaticsFrom, Shown, Take, At, Min;
    var f := FillPage(c, st, slot + 1, i + 1);
    if f.Filled? {
      ShownCons(Row(slot, Regular(i), At(st, Regular(i))), f.rows);
      TakeCons(i, Shown(f.rows), Visible(c, st, f.i), c.w - slot - StaticsFrom(c, slot));
    }
  }

  lemma Associates(x: seq<nat>, y: seq<nat>, z: seq<nat>)
    ensures x + (y + z) == (x + y) + z
  {
  }

  lemma SplitFirst(a: seq<Row>, b: seq<Row>)
    requires a != []
    ensures a + b == [a[0]] + (a[1..] + b) && a == [a[0]] + a[1..]
  {
  }

  lemma {:induction false} ShownConcat(a: seq<Row>, b: seq<Row>)
    ensures Shown(a + b) == Shown(a) + Shown(b)
  {
    if a == [] {
      assert a + b == b;
    } else {
      hide Shown;
      var x := if a[0].ref.Regular? then [a[0].ref.index] else [];
      ShownConcat(a[1..], b);
      SplitFirst(a, b);
      ShownCons(a[0], a[1..]);
      ShownCons(a[0], a[1..] + b);
      Associates(x, Shown(a[1..]), Shown(b));
    }
  }

  lemma OnlyFirstShows(a: seq<Row>, b: seq<Row>, c: seq<Row>)
    requires Shown(b) == [] && Shown(c) == []
    ensures Shown(a + b + c) == Shown(a)
  {
    hide Shown;
    ShownConcat(a + b, c);
    ShownConcat(a, b);
  }

  lemma {:induction false} StaticRowsShowNone(c: Config, st: Statuses, slot: nat)
    requires Valid(c) && slot <= NEXT_SLOT
    ensures Shown(FillStatics(c, st, slot)) == []
    decreases NEXT_SLOT - slot
  {
    if slot < NEXT_SLOT {
      StaticRowsShowNone(c, st, slot + 1);
      ShownCons(Row(slot, Static(slot), At(st, Static(slot))), FillStatics(c, st, slot + 1));
    }
  }

  lemma NavigationShowsNone(next: bool, back: bool)
    ensures Shown(NavigationRows(next, back)) == []
  {
    var a := if next then [Row(NEXT_SLOT, NextItem, Enabled)] else [];
    var b := if back then [Row(NEXT_SLOT + 1, BackItem, Enabled)] else [];
    ShownConcat(a + b, [Row(NEXT_SLOT + 2, ExitItem, Enabled)]);
    ShownConcat(a, b);
  }

  /** The regular items of a page. */
  function ItemsOn(c: Config, st: Statuses, page: nat): seq<nat>
    requires Valid(c) && FillFor(c, st, page).Filled?
  {
    Shown(PageRows(c, st, page))
  }

  /** They are those of the filling loop. */
  lemma OnlyFillShows(c: Config, st: Statuses, page: nat)
    requires Valid(c) && FillFor(c, st, page).Filled?
    ensures ItemsOn(c, st, page) == Shown(FillFor(c, st, page).rows)
  {
    hide Shown, FillFor, FillStatics, NavigationRows, OffersNext;
    var f := FillFor(c, st, page);
    var next := OffersNext(c, st, page, f.i);
    StaticRowsShowNone(c, st, f.slot);
    NavigationShowsNone(next, page > 0);
    OnlyFirstShows(f.rows, FillStatics(c, st, f.slot), NavigationRows(next, page > 0));
  }

  lemma PageShows(c: Config, st: Statuses, page: nat)
    requires Valid(c) && FillFor(c, st, page).Filled?
    ensures StartOf(c, st, page) >= 0
    ensures ItemsOn(c, st, page) == Take(Visible(c, st, StartOf(c, st, page)), Free(c))
  {
    StartIsNatural(c, st, page);
    hide Shown, FillPage, Visible, Take, StaticsFrom, HiddenBefore, PageRows, ItemsOn, StartOf;
    OnlyFillShows(c, st, page);
    FillShows(c, st, 0, StartOf(c, st, page));
  }

  // ----- when a page shows its share ---------------------------------------------------------------

  lemma VisibleStep(c: Config, st: Statuses, i: nat)
    requires i < c.n
    ensures if At(st, Regular(i)) == Hide then Visible(c, st, i) == Visible(c, st, i + 1)
            else Visible(c, st, i) != [] && Visible(c, st, i)[1..] == Visible(c, st, i + 1)
  {
  }

  lemma DropOne(v: seq<nat>, k: nat)
    requires k < |v|
    ensures v[k..] != [] && v[k..][1..] == v[k + 1..]
  {
  }

  lemma HiddenStep(st: Statuses, i: nat)
    ensures HiddenBefore(st, i + 1) == HiddenBefore(st, i) + if At(st, Regular(i)) == Hide then 1 else 0
  {
  }

  /** Dropping the items before `i` drops the visible ones among them. */
  lemma {:induction false} VisibleFrom(c: Config, st: Statuses, i: nat)
    requires i <= c.n
    ensures var v, k := Visible(c, st, 0), i - HiddenBefore(st, i);
            k <= |v| && Visible(c, st, i) == v[k..]
  {
    if i > 0 {
      hide Visible, HiddenBefore, At;
      VisibleFrom(c, st, i - 1);
      VisibleStep(c, st, i - 1);
      HiddenStep(st, i - 1);
      if At(st, Regular(i - 1)) != Hide {
        DropOne(Visible(c, st, 0), i - 1 - HiddenBefore(st, i - 1));
      }
    } else {
      assert HiddenBefore(st, 0) == 0;
    }
  }

  /** The visible items that are page `page`'s share. */
  function Share(c: Config, st: Statuses, page: nat): seq<nat>
    requires Valid(c)
  {
    var v := Visible(c, st, 0);
    Take(v[Min(page * Free(c), |v|)..], Free(c))
  }

  /** A caller's test: up to the start as many items are hidden as among the first page * w, which is
      what the start was computed with; or no visible item is left either way. */
  predicate StartsRight(c: Config, st: Statuses, page: nat)
    requires Valid(c)
  {
    StartIsNatural(c, st, page);
    var start: nat := StartOf(c, st, page);
    || page == 0 || Free(c) == 0 || start >= c.n
    || HiddenBefore(st, start) == HiddenBefore(st, page * c.w)
    || c.n - HiddenBefore(st, c.n) <= Min(page * Free(c), start - HiddenBefore(st, start))
  }

  lemma {:induction false} HiddenGrows(st: Statuses, i: nat, j: nat)
    requires i <= j
    ensures HiddenBefore(st, i) <= HiddenBefore(st, j)
    ensures i - HiddenBefore(st, i) <= j - HiddenBefore(st, j)
  {
    if i < j { HiddenGrows(st, i, j - 1); }
  }

  /** Taking from two places gives the same only from the same place, or where nothing is left. */
  lemma SameTake(v: seq<nat>, a: nat, b: nat, n: nat)
    requires a <= |v| && b <= |v| && forall j, k :: 0 <= j < k < |v| ==> v[j] < v[k]
    ensures Take(v[a..], n) == Take(v[b..], n) <==> n == 0 || a == b
  {
    if n > 0 && a != b {
      if a < |v| && b < |v| {
        assert Take(v[a..], n)[0] == v[a] && Take(v[b..], n)[0] == v[b];
      } else {
        assert |Take(v[a..], n)| == 0 <==> a == |v|;
        assert |Take(v[b..], n)| == 0 <==> b == |v|;
      }
    }
  }

  lemma VisibleCount(c: Config, st: Statuses)
    ensures |Visible(c, st, 0)| == c.n - HiddenBefore(st, c.n)
  {
    VisibleFrom(c, st, c.n);
  }

  lemma VisibleAtStart(c: Config, st: Statuses, start: nat)
    ensures var m, v := Min(start, c.n), Visible(c, st, 0);
            m - HiddenBefore(st, m) <= |v| && Visible(c, st, start) == v[m - HiddenBefore(st, m)..]
  {
    VisibleFrom(c, st, Min(start, c.n));
  }

  lemma StartMeets(c: Config, st: Statuses, page: nat)
    requires Valid(c) && InRange(c, page)
    ensures StartOf(c, st, page) >= 0
    ensures var m := Min(StartOf(c, st, page), c.n);
            Free(c) == 0 || m - HiddenBefore(st, m) == Min(page * Free(c), c.n - HiddenBefore(st, c.n))
            <==> StartsRight(c, st, page)
  {
    StartIsNatural(c, st, page);
    HiddenGrows(st, Min(StartOf(c, st, page), c.n), c.n);
    if page > 0 { HiddenGrows(st, page * c.w, c.n); }
    hide HiddenBefore, StaticsFrom, StartOf, Free;
    assert page == 0 ==> page * Free(c) == 0;
  }

  /** A page shows its share exactly when `StartsRight` says so. */
  lemma PageIsExact(c: Config, st: Statuses, page: nat)
    requires Valid(c) && InRange(c, page) && FillFor(c, st, page).Filled?
    ensures ItemsOn(c, st, page) == Share(c, st, page) <==> StartsRight(c, st, page)
  {
    hide Visible, Take, HiddenBefore, StaticsFrom, StartOf, Free, FillPage, StartsRight, PageRows, Shown;
    PageShows(c, st, page);
    StartMeets(c, st, page);
    VisibleCount(c, st);
    VisibleAtStart(c, st, StartOf(c, st, page));
    VisibleIncreases(c, st, 0);
    var v, m := Visible(c, st, 0), Min(StartOf(c, st, page), c.n);
    SameTake(v, m - HiddenBefore(st, m), Min(page * Free(c), |v|), Free(c));
  }

  // ----- slots and keys ------------------------------------------------------------------------------

  /** Rows go up in slots ... */
  ghost predicate Ordered(rows: seq<Row>, lo: nat, hi: nat) {
    && (forall k :: 0 <= k < |rows| ==> lo <= rows[k].slot < hi && rows[k].status != Hide)
    && (forall j, k :: 0 <= j < k < |rows| ==> rows[j].slot < rows[k].slot)
  }

  /** Every line carries the answer its own item's callback gave, which is not Hide; a line is enabled without
      one only where there is no callback. */
  ghost predicate Answered(st: Statuses, row: Row) {
    match row.ref
    case Regular(i) => row.status != Hide && row.status == if i < |st.regular| then st.regular[i] else Enabled
    case Static(s) => row.status != Hide && row.status == if s < |st.statics| then st.statics[s] else Enabled
    case _ => row.status == Enabled
  }

  /** ... and each shows the item its slot calls for, with the callback's answer. */
  ghost predicate Faithful(c: Config, st: Statuses, rows: seq<Row>)
    requires Valid(c)
  {
    forall k :: 0 <= k < |rows| ==>
      && Answered(st, rows[k])
      && rows[k].slot < MAX_STATIC_ITEMS
      && if c.statics[rows[k].slot] then rows[k].ref == Static(rows[k].slot) else rows[k].ref.Regular?
  }

  lemma OrderedCons(c: Config, st: Statuses, row: Row, rest: seq<Row>, hi: nat)
    requires Valid(c) && row.slot < hi <= MAX_STATIC_ITEMS && row.status != Hide && row.status == At(st, row.ref)
    requires if c.statics[row.slot] then row.ref == Static(row.slot) else row.ref.Regular?
    requires Ordered(rest, row.slot + 1, hi) && Faithful(c, st, rest)
    ensures Ordered([row] + rest, row.slot, hi) && Faithful(c, st, [row] + rest)
  {
  }

  lemma {:induction false} FillIsOrdered(c: Config, st: Statuses, slot: nat, i: nat)
    requires Valid(c) && slot <= c.w && FillPage(c, st, slot, i).Filled?
    ensures var f := FillPage(c, st, slot, i);
            Ordered(f.rows, slot, f.slot) && Faithful(c, st, f.rows)
    decreases c.w - slot, c.n - i
  {
    if slot < c.w && i < c.n {
      hide Ordered, Faithful, At, StaticsFrom;
      if !c.statics[slot] && At(st, Regular(i)) == Hide {
        FillIsOrdered(c, st, slot, i + 1);
      } else {
        var ref, next := if c.statics[slot] then Static(slot) else Regular(i), if c.statics[slot] then i else i + 1;
        FillIsOrdered(c, st, slot + 1, next);
        var f := FillPage(c, st, slot + 1, next);
        OrderedCons(c, st, Row(slot, ref, At(st, ref)), f.rows, f.slot);
      }
    }
  }

  lemma {:induction false} StaticsAreOrdered(c: Config, st: Statuses, slot: nat)
    requires Valid(c) && slot <= NEXT_SLOT
    ensures Ordered(FillStatics(c, st, slot), slot, NEXT_SLOT) && Faithful(c, st, FillStatics(c, st, slot))
    decreases NEXT_SLOT - slot
  {
    if slot < NEXT_SLOT {
      StaticsAreOrdered(c, st, slot + 1);
      if c.statics[slot] && At(st, Static(slot)) != Hide {
        hide Ordered, Faithful, At;
        OrderedCons(c, st, Row(slot, Static(slot), At(st, Static(slot))), FillStatics(c, st, slot + 1), NEXT_SLOT);
      }
    }
  }

  /** A static item in a slot the filling loop left over is drawn. */
  lemma {:induction false} StaticIsDrawn(c: Config, st: Statuses, slot: nat, s: nat)
    requires Valid(c) && slot <= s < NEXT_SLOT && c.statics[s] && At(st, Static(s)) != Hide
    ensures Row(s, Static(s), At(st, Static(s))) in FillStatics(c, st, slot)
    decreases NEXT_SLOT - slot
  {
    hide At;
    if slot < s { StaticIsDrawn(c, st, slot + 1, s); }
  }

  lemma OrderedConcat(a: seq<Row>, b: seq<Row>, lo: nat, mid: nat, hi: nat)
    requires Ordered(a, lo, mid) && Ordered(b, mid, hi) && lo <= mid <= hi
    ensures Ordered(a + b, lo, hi)
  {
  }

  lemma FaithfulConcat(c: Config, st: Statuses, a: seq<Row>, b: seq<Row>)
    requires Valid(c) && Faithful(c, st, a) && Faithful(c, st, b)
    ensures Faithful(c, st, a + b)
  {
  }

  /** Of a displayed page: slots go up, so each holds one row; items keep to the slots below 7; Next,
      Back and Exit have 7, 8 and 9 to themselves, and Exit is always there. */
  lemma PageIsOrdered(c: Config, st: Statuses, page: nat)
    requires Valid(c) && FillFor(c, st, page).Filled?
    ensures var rows, f := PageRows(c, st, page), FillFor(c, st, page);
            && Ordered(rows, 0, 10)
            && Faithful(c, st, f.rows + FillStatics(c, st, f.slot))
            && Row(9, ExitItem, Enabled) in rows
            && (Row(7, NextItem, Enabled) in rows <==> OffersNext(c, st, page, f.i))
            && (Row(8, BackItem, Enabled) in rows <==> page > 0)
  {
    StartIsNatural(c, st, page);
    hide FillPage, FillStatics, StaticsFrom, StartOf, HiddenBefore, NavigationRows, Ordered, Faithful, OffersNext;
    var f := FillFor(c, st, page);
    var next := OffersNext(c, st, page, f.i);
    FillIsOrdered(c, st, 0, StartOf(c, st, page));
    StaticsAreOrdered(c, st, f.slot);
    NavigationRowsAre(next, page > 0);
    OrderedConcat(f.rows, FillStatics(c, st, f.slot), 0, f.slot, NEXT_SLOT);
    FaithfulConcat(c, st, f.rows, FillStatics(c, st, f.slot));
    OrderedConcat(f.rows + FillStatics(c, st, f.slot), NavigationRows(next, page > 0), 0, NEXT_SLOT, NEXT_SLOT + 3);
    InConcat(f.rows + FillStatics(c, st, f.slot), NavigationRows(next, page > 0));
  }

  lemma NavigationRowsAre(next: bool, back: bool)
    ensures var rows := NavigationRows(next, back);
            && (Row(NEXT_SLOT, NextItem, Enabled) in rows <==> next)
            && (Row(NEXT_SLOT + 1, BackItem, Enabled) in rows <==> back)
            && Row(NEXT_SLOT + 2, ExitItem, Enabled) in rows
            && Ordered(rows, NEXT_SLOT, NEXT_SLOT + 3)
  {
    var rows := NavigationRows(next, back);
    assert rows[|rows| - 1] == Row(NEXT_SLOT + 2, ExitItem, Enabled);
    if next { assert rows[0] == Row(NEXT_SLOT, NextItem, Enabled); }
    if back { assert rows[|rows| - 2] == Row(NEXT_SLOT + 1, BackItem, Enabled); }
  }

  lemma InConcat(a: seq<Row>, b: seq<Row>)
    requires Ordered(a, 0, NEXT_SLOT)
    ensures forall row: Row :: row.slot >= NEXT_SLOT ==> (row in a + b <==> row in b)
  {
  }

  lemma {:induction false} FillIsDense(c: Config, st: Statuses, slot: nat, i: nat, k: nat)
    requires Valid(c) && slot <= c.w && FillPage(c, st, slot, i).Filled? && k < |FillPage(c, st, slot, i).rows|
    ensures FillPage(c, st, slot, i).rows[k].slot == slot + k
    decreases c.w - slot, c.n - i
  {
    if !c.statics[slot] && At(st, Regular(i)) == Hide {
      FillIsDense(c, st, slot, i + 1, k);
    } else if k > 0 {
      FillIsDense(c, st, slot + 1, if c.statics[slot] then i else i + 1, k - 1);
    }
  }

  /** Every static item that does not answer Hide is drawn in its own slot, as it answers. */
  lemma StaticsKeepTheirSlots(c: Config, st: Statuses, page: nat, s: nat)
    requires Valid(c) && FillFor(c, st, page).Filled? && s < 7 && c.statics[s]
    ensures var answer := if s < |st.statics| then st.statics[s] else Enabled;
            answer != Hide ==> Row(s, Static(s), answer) in PageRows(c, st, page)
  {
    StartIsNatural(c, st, page);
    var answer := At(st, Static(s));
    hide FillPage, FillStatics, NavigationRows, StaticsFrom, StartOf, HiddenBefore, OffersNext;
    if answer != Hide {
      var f := FillFor(c, st, page);
      if s < f.slot {
        FillIsOrdered(c, st, 0, StartOf(c, st, page));
        FillIsDense(c, st, 0, StartOf(c, st, page), s);
        assert f.rows[s] == Row(s, Static(s), answer);
        assert PageRows(c, st, page)[s] == f.rows[s];
      } else {
        StaticIsDrawn(c, st, f.slot, s);
        assert Row(s, Static(s), answer) in f.rows + FillStatics(c, st, f.slot);
      }
    }
  }

  // ----- the callbacks' answers ------------------------------------------------------------------------

  /** An item is visible unless its callback answers Hide. */
  lemma {:induction false} VisibleIs(c: Config, st: Statuses, i: nat, k: nat)
    ensures k in Visible(c, st, i) <==> i <= k < c.n && !(k < |st.regular| && st.regular[k] == Hide)
    decreases c.n - i
  {
    if i < c.n { VisibleIs(c, st, i + 1, k); }
  }

  lemma RowsCarryAnswers(c: Config, st: Statuses, page: nat)
    requires Valid(c) && FillFor(c, st, page).Filled?
    ensures forall row :: row in PageRows(c, st, page) ==> Answered(st, row)
  {
    var f := FillFor(c, st, page);
    var items := f.rows + FillStatics(c, st, f.slot);
    var navigation := NavigationRows(OffersNext(c, st, page, f.i), page > 0);
    PageIsOrdered(c, st, page);
    hide FillFor, FillStatics, OffersNext;
    forall row | row in items + navigation
      ensures Answered(st, row)
    {
      if row in items {
        var k :| 0 <= k < |items| && items[k] == row;
        assert (items + navigation)[k] == row;
      }
    }
  }
}
