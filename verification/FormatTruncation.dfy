/** Renderings that do not fit: whether what is left of them is a prefix. */
module FormatTruncation {
  import opened Basics
  import opened Text
  import opened NumberLayout
  import opened FormatSyntax
  import opened FormatRendering
  import FloatPrinter

  /** A field that exceeds the room leaves a prefix: a number if `CutsCleanly` says so, text always. */
  predicate FieldCutsCleanly(spec: Spec, arg: Arg, room: nat)
    requires FullField(spec, arg).Text?
  {
    if IsInt(spec.conv) then CutsCleanly(IntField(spec, arg.cell), room, spec.width, IntFlags(spec))
    else (spec.conv == 'f' || spec.conv == 'F') && !FloatPrinter.TooLarge(CellToFloat(arg.cell)) ==>
      CutsCleanly(FloatPrinter.FloatText(CellToFloat(arg.cell), spec.prec, spec.width, spec.flags),
                  room, spec.width, spec.flags)
  }

  predicate OneCutsCleanly(d: Directive, args: seq<Arg>, param: nat, room: nat)
    requires param >= 1 && FullOne(d, args, param).Text?
  {
    d.Field? ==> FieldCutsCleanly(Resolve(d, args, param).spec, FieldArg(d, args, param).value, room)
  }

  /** A caller's test: the first directive whose full field exceeds the room left for it is cut cleanly. */
  predicate Clean(ds: seq<Directive>, args: seq<Arg>, param: nat, room: nat)
    requires param >= 1 && Render(ds, args, param).Text?
    decreases |ds|
  {
    ds == [] || room == 0 ||
    var full := FullOne(ds[0], args, param).s;
    if |full| <= room then Clean(ds[1..], args, param + ArgsUsed(ds[0]), room - |full|)
    else OneCutsCleanly(ds[0], args, param, room)
  }

  lemma PlaceExceeds(text: string, room: nat, width: nat, flags: Flags)
    requires |Justify(text, width, flags)| > room
    ensures |Place(text, room, width, flags)| == room
    ensures Place(text, room, width, flags) <= Justify(text, width, flags) <==> CutsCleanly(text, room, width, flags)
  {
    PlaceIsPrefix(text, room, width, flags);
  }

  /** A field that exceeds the room fills it, with a prefix exactly when `FieldCutsCleanly` says so. */
  lemma FieldExceeds(spec: Spec, arg: Arg, room: nat)
    requires room > 0 && FullField(spec, arg).Text? && |FullField(spec, arg).s| > room
    requires BoundedField(spec, arg, room).Text?
    ensures |BoundedField(spec, arg, room).s| == room
    ensures BoundedField(spec, arg, room).s <= FullField(spec, arg).s <==> FieldCutsCleanly(spec, arg, room)
  {
    hide Place, Justify, CutsCleanly, JustifyText;
    if IsInt(spec.conv) {
      PlaceExceeds(IntField(spec, arg.cell), room, spec.width, IntFlags(spec));
    } else if (spec.conv == 'f' || spec.conv == 'F') && !FloatPrinter.TooLarge(CellToFloat(arg.cell)) {
      PlaceExceeds(FloatPrinter.FloatText(CellToFloat(arg.cell), spec.prec, spec.width, spec.flags),
                   room, spec.width, spec.flags);
    }
  }

  lemma OneExceeds(d: Directive, args: seq<Arg>, param: nat, room: nat)
    requires param >= 1 && room > 0
    requires FullOne(d, args, param).Text? && |FullOne(d, args, param).s| > room
    requires BoundedOne(d, args, param, room).Text?
    ensures var cut, full := BoundedOne(d, args, param, room).s, FullOne(d, args, param).s;
            |cut| == room && (cut <= full <==> OneCutsCleanly(d, args, param, room))
  {
    hide FullField, BoundedField, FieldCutsCleanly;
    FieldExceeds(Resolve(d, args, param).spec, FieldArg(d, args, param).value, room);
  }

  lemma BehindSame(a: string, b: string, d: string)
    ensures a + b <= a + d <==> b <= d
  {
    if a + b <= a + d {
      assert forall i :: 0 <= i < |b| ==> b[i] == (a + b)[|a| + i] == (a + d)[|a| + i] == d[i];
    }
  }

  lemma WithinFirst(cut: string, full: string, rest: string)
    requires |cut| <= |full|
    ensures cut <= full + rest <==> cut <= full
    ensures cut + "" == cut
  {
    assert (full + rest)[..|cut|] == full[..|cut|];
  }

  lemma RenderTurn(ds: seq<Directive>, args: seq<Arg>, param: nat)
    requires param >= 1 && ds != [] && Render(ds, args, param).Text?
    ensures FullOne(ds[0], args, param).Text? && Render(ds[1..], args, param + ArgsUsed(ds[0])).Text?
    ensures Render(ds, args, param).s
            == FullOne(ds[0], args, param).s + Render(ds[1..], args, param + ArgsUsed(ds[0])).s
  {
    hide FullOne, ArgsUsed;
  }

  /** A turn whose field fits. */
  lemma BoundedTurn(ds: seq<Directive>, args: seq<Arg>, param: nat, room: nat, full: Rendering)
    requires param >= 1 && ds != [] && room > 0 && Bounded(ds, args, param, room).Text?
    requires full == FullOne(ds[0], args, param) && full.Text? && |full.s| <= room
    ensures var rest := Bounded(ds[1..], args, param + ArgsUsed(ds[0]), room - |full.s|);
            rest.Text? && Bounded(ds, args, param, room).s == full.s + rest.s
  {
    hide FullOne, BoundedOne, ArgsUsed;
    OneThatFits(ds[0], args, param, room);
  }

  lemma CleanTurn(ds: seq<Directive>, args: seq<Arg>, param: nat, room: nat, full: Rendering)
    requires param >= 1 && ds != [] && room > 0 && Render(ds, args, param).Text?
    requires full == FullOne(ds[0], args, param) && full.Text?
    requires Render(ds[1..], args, param + ArgsUsed(ds[0])).Text?
    ensures Clean(ds, args, param, room)
            <==> if |full.s| <= room then Clean(ds[1..], args, param + ArgsUsed(ds[0]), room - |full.s|)
                 else OneCutsCleanly(ds[0], args, param, room)
  {
    hide FullOne, ArgsUsed, OneCutsCleanly, Render;
  }

  /** A turn whose field does not fit is the last. */
  lemma LastTurn(ds: seq<Directive>, args: seq<Arg>, param: nat, room: nat, full: Rendering)
    requires param >= 1 && ds != [] && room > 0 && Bounded(ds, args, param, room).Text?
    requires full == FullOne(ds[0], args, param) && full.Text? && |full.s| > room
    ensures |Bounded(ds, args, param, room).s| == room
    ensures Bounded(ds, args, param, room).s <= full.s <==> OneCutsCleanly(ds[0], args, param, room)
  {
    hide FullOne, BoundedOne, ArgsUsed, OneCutsCleanly;
    OneExceeds(ds[0], args, param, room);
    WithinFirst(BoundedOne(ds[0], args, param, room).s, full.s, "");
  }

  lemma NothingCut(ds: seq<Directive>, args: seq<Arg>, param: nat, room: nat)
    requires param >= 1 && Render(ds, args, param).Text? && (ds == [] || room == 0)
    ensures Bounded(ds, args, param, room) == Text("") && Clean(ds, args, param, room)
    ensures ds == [] ==> Render(ds, args, param).s == ""
  {
    hide FullOne;
  }

  /** A rendering that does not fit fills the buffer, with a prefix of the full rendering exactly when
      `Clean` says so. */
  lemma {:induction false} TruncationIsPrefixIff(ds: seq<Directive>, args: seq<Arg>, param: nat, room: nat)
    requires param >= 1 && Render(ds, args, param).Text? && Bounded(ds, args, param, room).Text?
    ensures |Bounded(ds, args, param, room).s| == Min(room, |Render(ds, args, param).s|)
    ensures Bounded(ds, args, param, room).s <= Render(ds, args, param).s <==> Clean(ds, args, param, room)
    decreases |ds|
  {
    hide FullOne, ArgsUsed, Render, Bounded, Clean, OneCutsCleanly;
    if ds == [] || room == 0 {
      NothingCut(ds, args, param, room);
    } else {
      RenderTurn(ds, args, param);
      var full, p := FullOne(ds[0], args, param), param + ArgsUsed(ds[0]);
      CleanTurn(ds, args, param, room, full);
      if |full.s| > room {
        LastTurn(ds, args, param, room, full);
        WithinFirst(Bounded(ds, args, param, room).s, full.s, Render(ds[1..], args, p).s);
      } else {
        BoundedTurn(ds, args, param, room, full);
        var left := room - |full.s|;
        TruncationIsPrefixIff(ds[1..], args, p, left);
        BehindSame(full.s, Bounded(ds[1..], args, p, left).s, Render(ds[1..], args, p).s);
      }
    }
  }

  /** Directives that are always cut cleanly: all but numbers padded with spaces on the left. */
  predicate CutsToPrefix(d: Directive) {
    d.Field? && (IsInt(d.conv) || d.conv in "fF") ==> d.flags.left || d.flags.zeroPad || d.width == Absent
  }

  lemma FieldCuts(spec: Spec, arg: Arg, room: nat)
    requires FullField(spec, arg).Text?
    requires IsInt(spec.conv) || spec.conv in "fF" ==> spec.flags.left || spec.flags.zeroPad || spec.width == 0
    ensures FieldCutsCleanly(spec, arg, room)
  {
    hide FullField, IntField;
  }

  lemma OneCuts(d: Directive, args: seq<Arg>, param: nat, room: nat)
    requires param >= 1 && CutsToPrefix(d) && FullOne(d, args, param).Text?
    ensures OneCutsCleanly(d, args, param, room)
  {
    hide FullField, FieldCutsCleanly, IsInt;
    if d.Field? { FieldCuts(Resolve(d, args, param).spec, FieldArg(d, args, param).value, room); }
  }

  lemma {:induction false} CutsAreClean(ds: seq<Directive>, args: seq<Arg>, param: nat, room: nat)
    requires param >= 1 && Render(ds, args, param).Text? && forall i :: 0 <= i < |ds| ==> CutsToPrefix(ds[i])
    ensures Clean(ds, args, param, room)
    decreases |ds|
  {
    hide FullOne, ArgsUsed, OneCutsCleanly, CutsToPrefix;
    if ds != [] && room > 0 {
      var full := FullOne(ds[0], args, param).s;
      if |full| <= room {
        CutsAreClean(ds[1..], args, param + ArgsUsed(ds[0]), room - |full|);
      } else {
        OneCuts(ds[0], args, param, room);
      }
    }
  }

  /** So without such numbers a full buffer holds the first `room` characters of the full rendering. */
  lemma TruncationIsPrefix(ds: seq<Directive>, args: seq<Arg>, param: nat, room: nat)
    requires param >= 1 && forall i :: 0 <= i < |ds| ==> CutsToPrefix(ds[i])
    requires Render(ds, args, param).Text? && Bounded(ds, args, param, room).Text?
    ensures Bounded(ds, args, param, room).s == Take(Render(ds, args, param).s, room)
  {
    hide Render, Bounded, Clean;
    CutsAreClean(ds, args, param, room);
    TruncationIsPrefixIff(ds, args, param, room);
  }

  lemma SevenPrints()
    ensures IntDefined(Spec(NO_FLAGS, 5, 0, 'd'), 7) && IntField(Spec(NO_FLAGS, 5, 0, 'd'), 7) == "7"
  {
  }

  /** "%5d" of 7 in a buffer of three leaves "  7", no prefix of "    7". */
  lemma CutNumberIsNoPrefix()
    ensures var ds, args := [Field(NO_FLAGS, Number(5), Absent, 'd')], [Arg(7, "")];
            && Render(ds, args, 1) == Text("    7")
            && Bounded(ds, args, 1, 3) == Text("  7")
  {
    hide IntField, IntDefined;
    var ds, args := [Field(NO_FLAGS, Number(5), Absent, 'd')], [Arg(7, "")];
    var spec := Spec(NO_FLAGS, 5, 0, 'd');
    SevenPrints();
    assert Resolve(ds[0], args, 1) == Ready(spec);
    assert FullOne(ds[0], args, 1) == Text("    7");
    assert BoundedOne(ds[0], args, 1, 3) == Text("  7");
    assert Render(ds[1..], args, 2) == Text("") && Bounded(ds[1..], args, 2, 0) == Text("");
  }
}
