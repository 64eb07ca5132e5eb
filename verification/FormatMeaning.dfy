/** What the renderer means for its callers: concatenation, parameters in order, fields read back. */
module FormatMeaning {
  import opened Basics
  import opened Text
  import opened NumberLayout
  import opened FormatSyntax
  import opened FormatRendering
  import opened ReadBack
  import opened FloatReadBack
  import IntPrinter
  import FloatPrinter

  /** Parameters a whole format uses up. */
  function TotalArgs(ds: seq<Directive>): nat { if ds == [] then 0 else ArgsUsed(ds[0]) + TotalArgs(ds[1..]) }

  /** Formats put together print what they print apart, the second from where the first stopped reading. */
  lemma {:induction false} RenderConcat(a: seq<Directive>, b: seq<Directive>, args: seq<Arg>, param: nat)
    requires param >= 1
    ensures Render(a + b, args, param)
            == var first := Render(a, args, param);
               if first.Text? then Prepend(first.s, Render(b, args, param + TotalArgs(a))) else first
    decreases |a|
  {
    hide FullOne, ArgsUsed;
    if a == [] {
      assert a + b == b;
      assert Render(b, args, param).Text? ==> "" + Render(b, args, param).s == Render(b, args, param).s;
    } else {
      assert (a + b)[0] == a[0] && (a + b)[1..] == a[1..] + b;
      var p := param + ArgsUsed(a[0]);
      RenderConcat(a[1..], b, args, p);
      var first, mid := FullOne(a[0], args, param), Render(a[1..], args, p);
      var last := Render(b, args, param + TotalArgs(a));
      if first.Text? && mid.Text? && last.Text? {
        assert first.s + (mid.s + last.s) == (first.s + mid.s) + last.s;
      }
    }
  }

  lemma OneMissing(d: Directive, args: seq<Arg>, param: nat)
    requires param >= 1 && FullOne(d, args, param) != Undefined
    ensures FullOne(d, args, param) == MissingArg <==> ArgsUsed(d) > 0 && |args| < param - 1 + ArgsUsed(d)
  {
  }

  /** A rendering lacks a parameter just when the format asks for more than the script passed. */
  lemma {:induction false} MissingIffTooFew(ds: seq<Directive>, args: seq<Arg>, param: nat)
    requires param >= 1 && Render(ds, args, param) != Undefined
    ensures Render(ds, args, param) == MissingArg <==> TotalArgs(ds) > 0 && |args| < param - 1 + TotalArgs(ds)
    decreases |ds|
  {
    hide FullOne, ArgsUsed;
    if ds != [] {
      OneMissing(ds[0], args, param);
      if FullOne(ds[0], args, param).Text? {
        MissingIffTooFew(ds[1..], args, param + ArgsUsed(ds[0]));
      }
    }
  }

  /** Both have `used` parameters from `param` on, and the same ones. */
  predicate Agree(args: seq<Arg>, args': seq<Arg>, param: nat, used: nat)
    requires param >= 1
  {
    && |args| >= param - 1 + used && |args'| >= param - 1 + used
    && forall k :: param - 1 <= k < param - 1 + used ==> args[k] == args'[k]
  }

  lemma OneReadsItsOwn(d: Directive, args: seq<Arg>, args': seq<Arg>, param: nat)
    requires param >= 1 && Agree(args, args', param, ArgsUsed(d))
    ensures FullOne(d, args, param) == FullOne(d, args', param)
  {
    if d.Field? {
      assert Resolve(d, args, param) == Resolve(d, args', param);
      assert FieldArg(d, args, param) == FieldArg(d, args', param);
    }
  }

  /** Every directive reads its own parameters, in order: nothing before, nothing behind them. */
  lemma {:induction false} RenderReadsInOrder(ds: seq<Directive>, args: seq<Arg>, args': seq<Arg>, param: nat)
    requires param >= 1 && Agree(args, args', param, TotalArgs(ds))
    ensures Render(ds, args, param) == Render(ds, args', param)
    decreases |ds|
  {
    hide FullOne, ArgsUsed;
    if ds != [] {
      var used, rest := ArgsUsed(ds[0]), TotalArgs(ds[1..]);
      assert Agree(args, args', param, used);
      assert Agree(args, args', param + used, rest);
      OneReadsItsOwn(ds[0], args, args', param);
      RenderReadsInOrder(ds[1..], args, args', param + used);
    }
  }

  /** What an integer conversion is asked to print. */
  function IntMeant(spec: Spec, c: Cell): int { if IsSigned(spec.conv) then c else Unsigned(c) }

  /** An integer field reads back as the cell it prints exactly when `Readable` says so. */
  lemma IntFieldReads(spec: Spec, arg: Arg)
    requires IsInt(spec.conv) && IntDefined(spec, arg.cell) && !IntFlags(spec).hash
    ensures FullField(spec, arg).Text?
    ensures var digits := |IntPrinter.IntDigits(Magnitude(spec, arg.cell), Base(spec.conv), IntFlags(spec))|;
            ReadInt(FullField(spec, arg).s, Base(spec.conv)) == Some(IntMeant(spec, arg.cell))
            <==> Readable(BodyLength(digits, spec.prec, spec.width, IntFlags(spec)), digits,
                          Negative(spec, arg.cell), spec.width, IntFlags(spec))
  {
    hide ReadInt, Readable, BodyLength, IntPrinter.IntDigits, IntPrinter.IntText;
    IntRoundTrip(Magnitude(spec, arg.cell), Negative(spec, arg.cell), Base(spec.conv),
                 spec.prec, spec.width, IntFlags(spec));
  }

  /** An integer field with a prefix reads back as the cell exactly when `HashReadable` says so. */
  lemma HashFieldReads(spec: Spec, arg: Arg)
    requires IsInt(spec.conv) && IntDefined(spec, arg.cell) && IntFlags(spec).hash
    ensures FullField(spec, arg).Text?
    ensures var value, base, flags := Unsigned(arg.cell), Base(spec.conv), IntFlags(spec);
            var digits := |IntPrinter.IntDigits(value, base, flags)|;
            ReadPrefixed(FullField(spec, arg).s, base) == Some(IntMeant(spec, arg.cell))
            <==> HashReadable(value, BodyLength(digits, spec.prec, spec.width, flags), digits,
                              base, spec.prec, spec.width)
  {
    hide ReadPrefixed, HashReadable, BodyLength;
    HashRoundTrip(Unsigned(arg.cell), Base(spec.conv), spec.prec, spec.width, IntFlags(spec));
  }

  /** A float field reads back as the cell's value rounded to its places exactly when `FloatReadable` says so. */
  lemma FloatFieldReads(spec: Spec, arg: Arg)
    requires spec.conv == 'f' || spec.conv == 'F'
    requires IsFinite(arg.cell) && !FloatPrinter.TooLarge(CellToFloat(arg.cell))
    ensures FullField(spec, arg).Text?
    ensures var value := CellToFloat(arg.cell);
            var p := FloatPrinter.EffectivePrecision(spec.prec, spec.flags);
            var units := FloatPrinter.Rounded(value, p);
            ReadFixed(FullField(spec, arg).s, p) == Some(Signed(units, value < 0.0))
            <==> FloatReadable(units, |FloatPrinter.UnsignedFloat(value, spec.prec, spec.width, spec.flags)|,
                               |FloatPrinter.Decimal(units, p)|, value < 0.0, spec.width, spec.flags)
  {
    hide ReadFixed, FloatReadable, FloatPrinter.FloatText, FloatPrinter.UnsignedFloat, FloatPrinter.Decimal;
    FloatRoundTrip(CellToFloat(arg.cell), spec.prec, spec.width, spec.flags);
  }
}
