/** When the loop that fills a page ends, and how many slots it fills. */
module MenuFilling {
  import opened Basics
  import opened MenuPaging

  /** Slots from `slot` up to `s` without a static item. */
  function FreeBetween(c: Config, slot: nat, s: nat): nat
    requires Valid(c) && s <= c.w
    decreases s - slot
  {
    if slot >= s then 0 else (if c.statics[slot] then 0 else 1) + FreeBetween(c, slot + 1, s)
  }

  predicate HiddenStatic(c: Config, st: Statuses, s: nat)
    requires Valid(c) && s < c.w
  {
    c.statics[s] && At(st, Static(s)) == Hide
  }

  /** From `slot` and item `i` the loop looks at slot `s`: the free slots before it take their items, and
      an item is left behind the last of them. */
  predicate Reached(c: Config, st: Statuses, slot: nat, i: nat, s: nat)
    requires Valid(c) && slot <= s < c.w
  {
    var free, visible := FreeBetween(c, slot, s), Visible(c, st, i);
    if free == 0 then i < c.n else free <= |visible| && visible[free - 1] + 1 < c.n
  }

  predicate MeetsHiddenStatic(c: Config, st: Statuses, slot: nat, i: nat)
    requires Valid(c) && slot <= c.w
  {
    exists s :: slot <= s < c.w && HiddenStatic(c, st, s) && Reached(c, st, slot, i, s)
  }

  /** Where the loop goes on after a turn that draws or skips. */
  function Onward(c: Config, st: Statuses, slot: nat, i: nat): (r: (nat, nat))
    requires Valid(c) && slot < c.w
    ensures slot <= r.0 <= slot + 1 && i <= r.1 <= i + 1 && (r.0 > slot || r.1 > i)
  {
    if c.statics[slot] then (slot + 1, i)
    else if At(st, Regular(i)) == Hide then (slot, i + 1)
    else (slot + 1, i + 1)
  }

  lemma ConsAt(x: nat, rest: seq<nat>, k: nat)
    requires 0 < k <= |rest|
    ensures ([x] + rest)[k] == rest[k - 1]
  {
  }

  lemma ReachedOnward(c: Config, st: Statuses, slot: nat, i: nat, s: nat)
    requires Valid(c) && slot < s < c.w && i < c.n
    ensures var (slot', i') := Onward(c, st, slot, i);
            Reached(c, st, slot, i, s) <==> Reached(c, st, slot', i', s)
  {
    if !c.statics[slot] && At(st, Regular(i)) != Hide {
      var free, rest := FreeBetween(c, slot + 1, s), Visible(c, st, i + 1);
      assert Visible(c, st, i) == [i] + rest;
      if 0 < free <= |rest| { ConsAt(i, rest, free); }
    } else {
      assert !c.statics[slot] ==> Visible(c, st, i) == Visible(c, st, i + 1);
    }
  }

  lemma MeetsOnward(c: Config, st: Statuses, slot: nat, i: nat)
    requires Valid(c) && slot < c.w && i < c.n && !HiddenStatic(c, st, slot)
    ensures var (slot', i') := Onward(c, st, slot, i);
            MeetsHiddenStatic(c, st, slot, i) <==> MeetsHiddenStatic(c, st, slot', i')
  {
    hide Reached, Visible, FreeBetween, At;
    var (slot', i') := Onward(c, st, slot, i);
    forall s | slot < s < c.w
      ensures Reached(c, st, slot, i, s) <==> Reached(c, st, slot', i', s)
    {
      ReachedOnward(c, st, slot, i, s);
    }
  }

  lemma FillOnward(c: Config, st: Statuses, slot: nat, i: nat)
    requires Valid(c) && slot < c.w && i < c.n
    ensures var f, (slot', i') := FillPage(c, st, slot, i), Onward(c, st, slot, i);
            if HiddenStatic(c, st, slot) then f.Hangs?
            else var f' := FillPage(c, st, slot', i');
                 (f.Filled? <==> f'.Filled?) && (f.Filled? ==> f.slot == f'.slot)
  {
  }

  /** The filling loop does not end exactly when it reaches a hidden static item. */
  lemma {:induction false} HangsIff(c: Config, st: Statuses, slot: nat, i: nat)
    requires Valid(c) && slot <= c.w
    ensures FillPage(c, st, slot, i).Hangs? <==> MeetsHiddenStatic(c, st, slot, i)
    decreases c.w - slot, c.n - i
  {
    if slot == c.w || i >= c.n {
      assert forall s :: slot <= s < c.w ==> !Reached(c, st, slot, i, s);
    } else {
      FillOnward(c, st, slot, i);
      if HiddenStatic(c, st, slot) {
        assert Reached(c, st, slot, i, slot);
      } else {
        MeetsOnward(c, st, slot, i);
        hide FillPage, MeetsHiddenStatic, At;
        var (slot', i') := Onward(c, st, slot, i);
        HangsIff(c, st, slot', i');
      }
    }
  }

  lemma NeverHangs(c: Config, st: Statuses, slot: nat, i: nat)
    requires Valid(c) && slot <= c.w
    requires forall s :: slot <= s < c.w ==> !HiddenStatic(c, st, s)
    ensures FillPage(c, st, slot, i).Filled?
  {
    HangsIff(c, st, slot, i);
  }

  // ----- how many slots are filled ---------------------------------------------------------------------

  /** A line is drawn in slot `s`: a static item if the loop gets there, else while visible items last. */
  predicate Fills(c: Config, st: Statuses, slot: nat, i: nat, s: nat)
    requires Valid(c) && slot <= s < c.w
  {
    if c.statics[s] then Reached(c, st, slot, i, s) else FreeBetween(c, slot, s) < |Visible(c, st, i)|
  }

  lemma FillsOnward(c: Config, st: Statuses, slot: nat, i: nat, s: nat)
    requires Valid(c) && slot <= s < c.w && i < c.n && !HiddenStatic(c, st, slot)
    ensures var (slot', i') := Onward(c, st, slot, i);
            Fills(c, st, slot, i, s) <==> slot' > s || Fills(c, st, slot', i', s)
  {
    if s == slot {
      assert FreeBetween(c, slot, s) == 0;
    } else {
      ReachedOnward(c, st, slot, i, s);
    }
  }

  /** If it ends, the loop fills slot `s` exactly when `Fills` says so. */
  lemma {:induction false} FillsIff(c: Config, st: Statuses, slot: nat, i: nat, s: nat)
    requires Valid(c) && slot <= s < c.w && FillPage(c, st, slot, i).Filled?
    ensures FillPage(c, st, slot, i).slot > s <==> Fills(c, st, slot, i, s)
    decreases c.w - slot, c.n - i
  {
    if i >= c.n {
      assert Visible(c, st, i) == [];
    } else {
      FillOnward(c, st, slot, i);
      FillsOnward(c, st, slot, i, s);
      var (slot', i') := Onward(c, st, slot, i);
      if slot' <= s {
        hide FillPage, Fills, At;
        FillsIff(c, st, slot', i', s);
      }
    }
  }

  /** A display fails in two ways, and exactly then: the filling loop reaches a hidden static item and
      does not end; or more than seven lines, which takes more than seven items to a page, push Exit
      beyond the ten slots. */
  lemma DisplayFailsIff(c: Config, st: Statuses, page: nat)
    requires Valid(c)
    ensures StartOf(c, st, page) >= 0
    ensures var f, start := FillFor(c, st, page), StartOf(c, st, page);
            && (f.Hangs? <==> MeetsHiddenStatic(c, st, 0, start))
            && (f.Overflows? <==>
                  !MeetsHiddenStatic(c, st, 0, start) && c.w > 7 && Fills(c, st, 0, start, 7))
  {
    StartIsNatural(c, st, page);
    hide FillPage, StartOf, MeetsHiddenStatic, Fills;
    var start := StartOf(c, st, page);
    HangsIff(c, st, 0, start);
    if FillPage(c, st, 0, start).Filled? && c.w > NEXT_SLOT { FillsIff(c, st, 0, start, NEXT_SLOT); }
    WithinPage(c, st, start);
  }

  lemma WithinPage(c: Config, st: Statuses, i: nat)
    requires Valid(c)
    ensures FillPage(c, st, 0, i).Filled? ==> FillPage(c, st, 0, i).slot <= c.w
    ensures !FillPage(c, st, 0, i).Overflows?
  {
  }

  const NO_STATICS := seq(10, _ => false)

  /** One item, and a static item that hides in the slot before it: page 0 is never drawn. */
  lemma HiddenStaticHangs()
    ensures var c := Config(1, 2, NO_STATICS[0 := true]);
            Valid(c) && FillFor(c, Statuses([], [Hide]), 0).Hangs?
  {
  }

  /** Eight items, eight to a page: Exit would be the eleventh line. */
  lemma LongPageOverflows()
    ensures var c := Config(8, 8, NO_STATICS); Valid(c) && FillFor(c, Statuses([], []), 0).Overflows?
  {
    var c, st := Config(8, 8, NO_STATICS), Statuses([], []);
    assert |Visible(c, st, 7)| == 1;
    assert |Visible(c, st, 5)| == 3;
    assert |Visible(c, st, 3)| == 5;
    assert |Visible(c, st, 1)| == 7;
    assert FreeBetween(c, 6, 7) == 1;
    assert FreeBetween(c, 4, 7) == 3;
    assert FreeBetween(c, 2, 7) == 5;
    NeverHangs(c, st, 0, 0);
    DisplayFailsIff(c, st, 0);
  }
}
