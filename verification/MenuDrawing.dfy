/** The display loops: drawing a page while setting keys and slots. */
module MenuDrawing {
  import opened Basics
  import opened MenuNavigation
  import opened MenuPaging

  /** What display builds up: the lines, the key mask as the set of its bits, the slot table. */
  datatype Drawing = Drawing(rows: seq<Row>, keys: set<nat>, slots: seq<Ref>)

  predicate HasSlots(d: Drawing) { |d.slots| == 10 }

  /** A line and its slot; its key bit if it is enabled. */
  function Add(d: Drawing, row: Row): (d': Drawing)
    requires HasSlots(d) && row.slot < 10
    ensures HasSlots(d')
  {
    Drawing(d.rows + [row], d.keys + (if row.status == Enabled then {row.slot} else {}), d.slots[row.slot := row.ref])
  }

  predicate InSlots(rows: seq<Row>) { forall k :: 0 <= k < |rows| ==> rows[k].slot < 10 }

  function AddAll(d: Drawing, rows: seq<Row>): (d': Drawing)
    requires HasSlots(d) && InSlots(rows)
    ensures HasSlots(d')
    decreases |rows|
  {
    if rows == [] then d else AddAll(Add(d, rows[0]), rows[1..])
  }

  lemma {:induction false} AddConcat(d: Drawing, a: seq<Row>, b: seq<Row>)
    requires HasSlots(d) && InSlots(a) && InSlots(b)
    ensures InSlots(a + b) && AddAll(d, a + b) == AddAll(AddAll(d, a), b)
    decreases |a|
  {
    if a == [] {
      assert a + b == b;
    } else {
      assert (a + b)[0] == a[0] && (a + b)[1..] == a[1..] + b;
      AddConcat(Add(d, a[0]), a[1..], b);
    }
  }

  /** An enabled line stands in slot `s`. */
  ghost predicate EnabledAt(rows: seq<Row>, s: nat) {
    exists k :: 0 <= k < |rows| && rows[k].slot == s && rows[k].status == Enabled
  }

  /** After a display the key bits are those of the enabled lines, and the slot of every line holds
      exactly its item. */
  lemma {:induction false} KeysMatchSlots(d: Drawing, rows: seq<Row>, lo: nat)
    requires HasSlots(d) && Ordered(rows, lo, 10) && InSlots(rows)
    ensures var d' := AddAll(d, rows);
            && d'.rows == d.rows + rows
            && (forall s :: s in d'.keys <==> s in d.keys || EnabledAt(rows, s))
            && (forall k :: 0 <= k < |rows| ==> d'.slots[rows[k].slot] == rows[k].ref)
            && (forall s :: 0 <= s < lo && s < 10 ==> d'.slots[s] == d.slots[s])
    decreases |rows|
  {
    if rows != [] {
      var d1, rest := Add(d, rows[0]), rows[1..];
      assert Ordered(rest, rows[0].slot + 1, 10);
      KeysMatchSlots(d1, rest, rows[0].slot + 1);
      assert forall k :: 1 <= k < |rows| ==> rows[k] == rest[k - 1];
      assert forall k :: 0 <= k < |rest| ==> rest[k] == rows[k + 1];
    }
  }

  // ----- the loops -------------------------------------------------------------------------------------

  method CountHidden(st: Statuses, start: nat) returns (hidden: nat)
    ensures hidden == HiddenBefore(st, start)
  {
    hidden := 0;
    var j := 0;
    while j < start
      invariant 0 <= j <= start && hidden == HiddenBefore(st, j)
    {
      if At(st, Regular(j)) == Hide { hidden := hidden + 1; }
      j := j + 1;
    }
  }

  method CountStatics(c: Config) returns (statics: nat)
    requires Valid(c)
    ensures statics == StaticsFrom(c, 0)
  {
    statics := 0;
    var j := 0;
    while j < c.w
      invariant 0 <= j <= c.w && statics + StaticsFrom(c, j) == StaticsFrom(c, 0)
    {
      if c.statics[j] { statics := statics + 1; }
      j := j + 1;
    }
  }

  lemma FillInSlots(c: Config, st: Statuses, slot: nat, i: nat)
    requires Valid(c) && slot <= c.w
    ensures FillPage(c, st, slot, i).Filled? ==> InSlots(FillPage(c, st, slot, i).rows)
  {
    if FillPage(c, st, slot, i).Filled? { FillIsOrdered(c, st, slot, i); }
  }

  lemma StaticsInSlots(c: Config, st: Statuses, slot: nat)
    requires Valid(c) && slot <= NEXT_SLOT
    ensures InSlots(FillStatics(c, st, slot))
  {
    StaticsAreOrdered(c, st, slot);
  }

  /** The loop that fills the page with items. */
  method FillLoop(c: Config, st: Statuses, start: nat, d0: Drawing) returns (d: Drawing, slot: nat, i: nat)
    requires Valid(c) && HasSlots(d0) && FillPage(c, st, 0, start).Filled?
    ensures var f := FillPage(c, st, 0, start);
            slot == f.slot && i == f.i && InSlots(f.rows) && HasSlots(d) && d == AddAll(d0, f.rows)
  {
    hide AddAll, InSlots, Add;
    d, slot, i := d0, 0, start;
    FillInSlots(c, st, 0, start);
    ghost var all := FillPage(c, st, 0, start);
    while slot < c.w && i < c.n
      invariant slot <= c.w && HasSlots(d)
      invariant FillPage(c, st, slot, i).Filled? && InSlots(FillPage(c, st, slot, i).rows)
      invariant FillPage(c, st, slot, i).slot == all.slot && FillPage(c, st, slot, i).i == all.i
      invariant AddAll(d0, all.rows) == AddAll(d, FillPage(c, st, slot, i).rows)
      decreases c.w - slot, c.n - i
    {
      var ref := if c.statics[slot] then Static(slot) else Regular(i);
      var r := At(st, ref);
      if r == Hide {
        if !c.statics[slot] { i := i + 1; }
      } else {
        AddFirst(d, Row(slot, ref, r), FillPage(c, st, slot + 1, if c.statics[slot] then i else i + 1).rows);
        d := Add(d, Row(slot, ref, r));
        if !c.statics[slot] { i := i + 1; }
        slot := slot + 1;
      }
    }
    AddNone(d);
  }

  lemma AddFirst(d: Drawing, row: Row, rest: seq<Row>)
    requires HasSlots(d) && row.slot < 10 && InSlots([row] + rest)
    ensures InSlots(rest) && AddAll(d, [row] + rest) == AddAll(Add(d, row), rest)
  {
    var all := [row] + rest;
    assert all[0] == row && all[1..] == rest;
    assert forall k :: 0 <= k < |rest| ==> rest[k] == all[k + 1];
  }

  lemma AddNone(d: Drawing)
    requires HasSlots(d)
    ensures InSlots([]) && AddAll(d, []) == d
  {
  }

  /** The loop over the slots left over. */
  method StaticLoop(c: Config, st: Statuses, slot0: nat, d0: Drawing) returns (d: Drawing)
    requires Valid(c) && HasSlots(d0) && slot0 <= NEXT_SLOT
    ensures InSlots(FillStatics(c, st, slot0)) && HasSlots(d) && d == AddAll(d0, FillStatics(c, st, slot0))
  {
    hide AddAll, InSlots, Add;
    d := d0;
    var slot := slot0;
    StaticsInSlots(c, st, slot);
    while slot < NEXT_SLOT
      invariant slot0 <= slot <= NEXT_SLOT && HasSlots(d)
      invariant InSlots(FillStatics(c, st, slot))
      invariant AddAll(d0, FillStatics(c, st, slot0)) == AddAll(d, FillStatics(c, st, slot))
    {
      if c.statics[slot] {
        var r := At(st, Static(slot));
        if r != Hide {
          AddFirst(d, Row(slot, Static(slot), r), FillStatics(c, st, slot + 1));
          d := Add(d, Row(slot, Static(slot), r));
        }
      }
      slot := slot + 1;
    }
    AddNone(d);
  }

  /** Next, Back and Exit. */
  method NavigationItems(next: bool, back: bool, d0: Drawing) returns (d: Drawing)
    requires HasSlots(d0)
    ensures InSlots(NavigationRows(next, back)) && HasSlots(d) && d == AddAll(d0, NavigationRows(next, back))
  {
    d := d0;
    var slot := NEXT_SLOT;
    if next { d := Add(d, Row(slot, NextItem, Enabled)); }
    slot := slot + 1;
    if back { d := Add(d, Row(slot, BackItem, Enabled)); }
    slot := slot + 1;
    d := Add(d, Row(slot, ExitItem, Enabled));
    NavigationAdds(next, back, d0);
  }

  lemma NavigationAdds(next: bool, back: bool, d: Drawing)
    requires HasSlots(d)
    ensures InSlots(NavigationRows(next, back))
    ensures AddAll(d, NavigationRows(next, back))
            == var d1 := if next then Add(d, Row(NEXT_SLOT, NextItem, Enabled)) else d;
               var d2 := if back then Add(d1, Row(NEXT_SLOT + 1, BackItem, Enabled)) else d1;
               Add(d2, Row(NEXT_SLOT + 2, ExitItem, Enabled))
  {
    var exit := [Row(NEXT_SLOT + 2, ExitItem, Enabled)];
    var backs := if back then [Row(NEXT_SLOT + 1, BackItem, Enabled)] + exit else exit;
    if next { AddFirst(d, Row(NEXT_SLOT, NextItem, Enabled), backs); }
    var d1 := if next then Add(d, Row(NEXT_SLOT, NextItem, Enabled)) else d;
    if back { AddFirst(d1, Row(NEXT_SLOT + 1, BackItem, Enabled), exit); }
    assert NavigationRows(next, back) == if next then [Row(NEXT_SLOT, NextItem, Enabled)] + backs else backs;
  }

  method FindStart(c: Config, st: Statuses, page: nat) returns (start: int, hidden: nat)
    requires Valid(c)
    ensures start == StartOf(c, st, page) && start >= 0
    ensures hidden == if page == 0 then 0 else HiddenBefore(st, page * c.w)
  {
    StartIsNatural(c, st, page);
    start, hidden := page * c.w, 0;
    if page > 0 {
      hidden := CountHidden(st, start);
      start := start + hidden;
      var statics := CountStatics(c);
      start := start - statics * page;
    }
  }

  lemma AddThree(d: Drawing, a: seq<Row>, b: seq<Row>, e: seq<Row>)
    requires HasSlots(d) && InSlots(a) && InSlots(b) && InSlots(e)
    ensures InSlots(a + b + e) && AddAll(d, a + b + e) == AddAll(AddAll(AddAll(d, a), b), e)
  {
    AddConcat(d, a, b);
    AddConcat(d, a + b, e);
  }

  /** A whole page: the items, the static items left, the navigation. */
  method DrawPage(c: Config, st: Statuses, page: nat, slots: seq<Ref>) returns (d: Drawing)
    requires Valid(c) && |slots| == 10 && InRange(c, page) && FillFor(c, st, page).Filled?
    ensures InSlots(PageRows(c, st, page)) && HasSlots(d)
    ensures d == AddAll(Drawing([], {}, slots), PageRows(c, st, page))
  {
    hide FillPage, FillStatics, NavigationRows, AddAll, InSlots, StaticsFrom, HiddenBefore, StartOf, Add;
    var start, hidden := FindStart(c, st, page);
    var slot, i;
    d, slot, i := FillLoop(c, st, start, Drawing([], {}, slots));
    d := StaticLoop(c, st, slot, d);
    var next := c.n - hidden > i;
    d := NavigationItems(next, page > 0, d);
    AddThree(Drawing([], {}, slots), FillFor(c, st, page).rows, FillStatics(c, st, slot),
             NavigationRows(next, page > 0));
  }

  /** The key mask has the bits of the enabled lines, and every line's slot holds its item. */
  ghost predicate Keyed(d: Drawing) {
    && HasSlots(d) && InSlots(d.rows)
    && (forall s :: s in d.keys <==> EnabledAt(d.rows, s))
    && (forall k :: 0 <= k < |d.rows| ==> d.slots[d.rows[k].slot] == d.rows[k].ref)
  }

  lemma OrderedAreKeyed(rows: seq<Row>, slots: seq<Ref>)
    requires |slots| == 10 && Ordered(rows, 0, 10) && InSlots(rows)
    ensures var d := AddAll(Drawing([], {}, slots), rows); d.rows == rows && Keyed(d)
  {
    KeysMatchSlots(Drawing([], {}, slots), rows, 0);
    assert [] + rows == rows;
  }

  lemma KeyOf(d: Drawing, row: Row)
    requires Keyed(d) && row in d.rows && row.status == Enabled
    ensures row.slot in d.keys && d.slots[row.slot] == row.ref
  {
  }

  lemma NoKeyOf(d: Drawing, row: Row)
    requires Keyed(d) && row !in d.rows && forall r :: r in d.rows && r.slot == row.slot ==> r == row
    ensures row.slot !in d.keys
  {
  }

  /** Slots 7 and 8 can only hold Next and Back. */
  lemma NavigationAlone(c: Config, st: Statuses, page: nat)
    requires Valid(c) && FillFor(c, st, page).Filled?
    ensures forall row :: row in PageRows(c, st, page) ==>
              && (row.slot == 7 ==> row == Row(7, NextItem, Enabled))
              && (row.slot == 8 ==> row == Row(8, BackItem, Enabled))
  {
    StartIsNatural(c, st, page);
    hide FillPage, FillStatics, StaticsFrom, StartOf, HiddenBefore, OffersNext;
    var f := FillFor(c, st, page);
    FillIsOrdered(c, st, 0, StartOf(c, st, page));
    StaticsAreOrdered(c, st, f.slot);
  }

  /** Next and Back stand at 7 and 8 and nowhere else. */
  lemma RowsAre(c: Config, st: Statuses, page: nat, row: Row)
    requires Valid(c) && FillFor(c, st, page).Filled? && row in PageRows(c, st, page)
    ensures row.slot < 10
    ensures (row.ref == NextItem <==> row.slot == 7) && (row.ref == BackItem <==> row.slot == 8)
  {
    StartIsNatural(c, st, page);
    hide FillPage, FillStatics, StaticsFrom, StartOf, HiddenEarly, OffersNext, At;
    var f := FillFor(c, st, page);
    FillIsOrdered(c, st, 0, StartOf(c, st, page));
    StaticsAreOrdered(c, st, f.slot);
  }

  /** Of a drawn page: keys stay below 10; a key turns to the next page at 7 alone, just when Next is
      offered, and back at 8 alone, just when there is a page before. */
  lemma DrawnKeys(c: Config, st: Statuses, page: nat, d: Drawing, bit: nat)
    requires Valid(c) && FillFor(c, st, page).Filled? && d.rows == PageRows(c, st, page) && Keyed(d)
    ensures bit in d.keys ==>
              && bit < 10
              && (d.slots[bit] == NextItem <==> bit == 7)
              && (d.slots[bit] == BackItem <==> bit == 8)
    ensures 7 in d.keys <==> OffersNext(c, st, page, FillFor(c, st, page).i)
    ensures 8 in d.keys <==> page > 0
  {
    PageIsOrdered(c, st, page);
    NavigationAlone(c, st, page);
    if bit in d.keys {
      var k :| 0 <= k < |d.rows| && d.rows[k].slot == bit;
      assert d.rows[k] in d.rows;
      RowsAre(c, st, page, d.rows[k]);
    }
    hide PageRows, FillFor, OffersNext, Ordered, Faithful, Keyed;
    var nextRow, backRow := Row(NEXT_SLOT, NextItem, Enabled), Row(NEXT_SLOT + 1, BackItem, Enabled);
    if nextRow in d.rows { KeyOf(d, nextRow); } else { NoKeyOf(d, nextRow); }
    if backRow in d.rows { KeyOf(d, backRow); } else { NoKeyOf(d, backRow); }
  }

  /** Keys and slots agree after every display: bit s is set exactly when the line at s is drawn enabled,
      the slot at s then holds that line's item, Next, Back and Exit work keys 7, 8 and 9 alone. */
  lemma PageKeys(c: Config, st: Statuses, page: nat, slots: seq<Ref>)
    requires Valid(c) && |slots| == 10 && FillFor(c, st, page).Filled? && InSlots(PageRows(c, st, page))
    ensures var d := AddAll(Drawing([], {}, slots), PageRows(c, st, page));
            && d.rows == PageRows(c, st, page)
            && Keyed(d)
            && (7 in d.keys <==> OffersNext(c, st, page, FillFor(c, st, page).i))
            && (7 in d.keys ==> d.slots[7] == NextItem)
            && (8 in d.keys <==> page > 0)
            && (8 in d.keys ==> d.slots[8] == BackItem)
            && 9 in d.keys && d.slots[9] == ExitItem
  {
    PageIsOrdered(c, st, page);
    hide PageRows, FillFor, OffersNext, Faithful, Ordered, AddAll, Keyed;
    OrderedAreKeyed(PageRows(c, st, page), slots);
    var d := AddAll(Drawing([], {}, slots), PageRows(c, st, page));
    KeyOf(d, Row(NEXT_SLOT + 2, ExitItem, Enabled));
    DrawnKeys(c, st, page, d, NEXT_SLOT);
    DrawnKeys(c, st, page, d, NEXT_SLOT + 1);
  }

  /** The item's callback answers Enabled, or there is none. */
  predicate AnswersEnabled(st: Statuses, ref: Ref) {
    match ref
    case Regular(i) => i < |st.regular| ==> st.regular[i] == Enabled
    case Static(s) => s < |st.statics| ==> st.statics[s] == Enabled
    case _ => true
  }

  ghost predicate Drawn(rows: seq<Row>, s: nat) { exists k :: 0 <= k < |rows| && rows[k].slot == s }

  /** A key works exactly when a line stands at its slot whose item answered Enabled. */
  lemma KeysAnswer(c: Config, st: Statuses, page: nat, d: Drawing, s: nat)
    requires Valid(c) && FillFor(c, st, page).Filled? && d.rows == PageRows(c, st, page) && Keyed(d)
    ensures s in d.keys <==> s < 10 && Drawn(d.rows, s) && AnswersEnabled(st, d.slots[s])
  {
    RowsCarryAnswers(c, st, page);
    hide PageRows, FillFor;
    forall k | 0 <= k < |d.rows|
      ensures d.rows[k].slot < 10 && Answered(st, d.rows[k])
      ensures d.slots[d.rows[k].slot] == d.rows[k].ref
    {
    }
  }

  /** Displaying a page again restores its lines and keys, whatever was displayed in between. */
  lemma DisplayRestores(c: Config, st: Statuses, page: nat, before: seq<Ref>, after: seq<Ref>)
    requires Valid(c) && |before| == |after| == 10 && FillFor(c, st, page).Filled? && InSlots(PageRows(c, st, page))
    ensures var rows := PageRows(c, st, page);
            var d, d' := AddAll(Drawing([], {}, before), rows), AddAll(Drawing([], {}, after), rows);
            d.rows == d'.rows && d.keys == d'.keys && forall s :: s in d.keys ==> s < 10 && d.slots[s] == d'.slots[s]
  {
    PageKeys(c, st, page, before);
    PageKeys(c, st, page, after);
    hide PageRows, FillFor, OffersNext, AddAll;
  }

  /** So Next followed by Back restores the page one came from, its lines and its keys, once the callbacks
      answer as before, whatever the page in between drew. */
  lemma NextThenBackRestores(c: Config, moves: seq<Move>, st: Statuses, st': Statuses,
                             before: seq<Ref>, after: seq<Ref>)
    requires Valid(c) && Go(c, moves).Some? && Offered(c, Go(c, moves).value, Move(st, GoNext))
    requires FillFor(c, st', Go(c, moves).value + 1).Filled?
    requires |before| == |after| == 10 && InSlots(PageRows(c, st, Go(c, moves).value))
    ensures Go(c, moves + [Move(st, GoNext)] + [Move(st', GoBack)]) == Go(c, moves)
    ensures var rows := PageRows(c, st, Go(c, moves).value);
            var d, d' := AddAll(Drawing([], {}, before), rows), AddAll(Drawing([], {}, after), rows);
            d.rows == d'.rows && d.keys == d'.keys && forall s :: s in d.keys ==> s < 10 && d.slots[s] == d'.slots[s]
  {
    hide FillFor, PageRows, AddAll;
    NextThenBack(c, moves, st, st');
    DisplayRestores(c, st, Go(c, moves).value, before, after);
  }
}
