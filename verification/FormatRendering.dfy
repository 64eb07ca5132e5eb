/** What a format and its arguments print: unbounded, and into a buffer of given room. */
module FormatRendering {
  import opened Basics
  import opened Text
  import opened NumberLayout
  import opened Scaling
  import opened FormatSyntax
  import IntPrinter
  import FloatPrinter

  const INT_MIN := -0x8000_0000
  const INT_MAX := 0x7FFF_FFFF

  /** A 32-bit script cell. */
  type Cell = c: int | INT_MIN <= c <= INT_MAX

  /** A script parameter, as the cell it refers to and as the string it refers to. */
  datatype Arg = Arg(cell: Cell, text: CString)

  /** `Undefined` stands for what C++ leaves undefined: a format that ends inside a directive, a
      %c written past the buffer, a number past the range of `int`, a float without a value. */
  datatype Rendering = Text(s: string) | MissingArg | Undefined

  /** A field with its stars filled in. */
  datatype Spec = Spec(flags: Flags, width: nat, prec: nat, conv: char)

  function Unsigned(c: Cell): nat { if c < 0 then c + IntPrinter.WORD else c }

  // ----- floats in cells ----------------------------------------------------------------------

  function Halve(x: real, k: nat): real { if k == 0 then x else Halve(x, k - 1) / 2.0 }

  function Exponent(c: Cell): nat { Unsigned(c) / 0x80_0000 % 256 }

  /** The significand, with the hidden bit of normal numbers. */
  function Significand(c: Cell): nat {
    Unsigned(c) % 0x80_0000 + if Exponent(c) == 0 then 0 else 0x80_0000
  }

  predicate IsFinite(c: Cell) { Exponent(c) != 255 }

  /** The IEEE 754 binary32 value of a cell. */
  function CellToFloat(c: Cell): real
    requires IsFinite(c)
  {
    var e := Max(Exponent(c), 1) - 150;
    var mag := if e >= 0 then Shift2(Significand(c), e) as real else Halve(Significand(c) as real, -e);
    if c < 0 then -mag else mag
  }

  lemma {:induction false} HalveIsScaled(x: real, k: nat)
    ensures Times2(Halve(x, k), k) == x
  {
    if k > 0 {
      HalveIsScaled(x, k - 1);
      Times2Half(Halve(x, k - 1), k - 1);
    }
  }

  lemma {:induction false} Times2Half(x: real, k: nat)
    ensures Times2(x / 2.0, k + 1) == Times2(x, k)
  {
    if k > 0 { Times2Half(x, k - 1); }
  }

  /** Every float a cell can hold is dyadic, so the float printer's rounding theorem covers it. */
  lemma CellFloatIsDyadic(c: Cell)
    requires IsFinite(c)
    ensures IsDyadic(CellToFloat(c))
  {
    var e := Max(Exponent(c), 1) - 150;
    if e >= 0 {
      assert IsWhole(Times2(CellToFloat(c), 0)) by {
        if c < 0 { FloatPrinter.NegativeWhole(Shift2(Significand(c), e) as real); }
      }
    } else {
      var x := Halve(Significand(c) as real, -e);
      HalveIsScaled(Significand(c) as real, -e);
      assert IsWhole(Times2(x, -e));
      if c < 0 {
        Times2Negate(x, -e);
        FloatPrinter.NegativeWhole(Times2(x, -e));
        assert IsWhole(Times2(-x, -e));
      }
    }
  }

  // ----- one field ----------------------------------------------------------------------------

  predicate IsInt(conv: char) { conv in "diuxXob" }

  predicate IsSigned(conv: char) { conv == 'd' || conv == 'i' }

  function Base(conv: char): nat {
    if conv == 'x' || conv == 'X' then 16 else if conv == 'o' then 8 else if conv == 'b' then 2 else 10
  }

  /** '#' only for hexadecimal and octal, '+' and ' ' only for signed conversions. */
  function IntFlags(spec: Spec): Flags {
    var f := spec.flags.(upper := spec.conv == 'X');
    var f' := if Base(spec.conv) == 2 || Base(spec.conv) == 10 then f.(hash := false) else f;
    if IsSigned(spec.conv) then f' else f'.(plus := false, space := false)
  }

  function Magnitude(spec: Spec, c: Cell): nat {
    if !IsSigned(spec.conv) then Unsigned(c) else if c > 0 then c else 0 - c as int
  }

  predicate Negative(spec: Spec, c: Cell) { IsSigned(spec.conv) && c < 0 }

  predicate IntDefined(spec: Spec, c: Cell) {
    && !(IsSigned(spec.conv) && c == INT_MIN)
    && IntPrinter.IntPrintable(Magnitude(spec, c), Negative(spec, c), Base(spec.conv),
                               spec.prec, spec.width, IntFlags(spec))
  }

  function IntField(spec: Spec, c: Cell): string
    requires IntDefined(spec, c)
  {
    IntPrinter.IntText(Magnitude(spec, c), Negative(spec, c), Base(spec.conv), spec.prec, spec.width, IntFlags(spec))
  }

  /** Strings and characters are padded with spaces whatever the flags. */
  function JustifyText(text: string, spec: Spec): string {
    Justify(text, spec.width, spec.flags.(zeroPad := false))
  }

  function StringField(spec: Spec, text: string): string {
    JustifyText(if spec.flags.precision then text[..Min(|text|, spec.prec)] else text, spec)
  }

  /** The first character of the string, its terminator when it is empty. */
  function CharField(spec: Spec, text: string): string {
    JustifyText([if text == "" then '\0' else text[0]], spec)
  }

  function NeedsArg(conv: char): bool { IsInt(conv) || conv in "fFcs" }

  /** The full field. A conversion that takes no argument prints itself. */
  function FullField(spec: Spec, arg: Arg): Rendering {
    if IsInt(spec.conv) then
      if IntDefined(spec, arg.cell) then Text(Justify(IntField(spec, arg.cell), spec.width, IntFlags(spec)))
      else Undefined
    else if spec.conv == 'f' || spec.conv == 'F' then
      if !IsFinite(arg.cell) then Undefined
      else if FloatPrinter.TooLarge(CellToFloat(arg.cell)) then Text("")
      else Text(Justify(FloatPrinter.FloatText(CellToFloat(arg.cell), spec.prec, spec.width, spec.flags),
                        spec.width, spec.flags))
    else if spec.conv == 'c' then Text(CharField(spec, arg.text))
    else if spec.conv == 's' then Text(StringField(spec, arg.text))
    else Text([spec.conv])
  }

  /** The field as it reaches a buffer with room for `room` more characters. */
  function BoundedField(spec: Spec, arg: Arg, room: nat): (r: Rendering)
    requires room > 0
    ensures r.Text? ==> |r.s| <= room
  {
    if IsInt(spec.conv) then
      if IntDefined(spec, arg.cell) then Text(Place(IntField(spec, arg.cell), room, spec.width, IntFlags(spec)))
      else Undefined
    else if spec.conv == 'f' || spec.conv == 'F' then
      if !IsFinite(arg.cell) then Undefined
      else if FloatPrinter.TooLarge(CellToFloat(arg.cell)) then Text("")
      else Text(Place(FloatPrinter.FloatText(CellToFloat(arg.cell), spec.prec, spec.width, spec.flags),
                      room, spec.width, spec.flags))
    else if spec.conv == 'c' then
      if !spec.flags.left && spec.width > room then Undefined else Text(Take(CharField(spec, arg.text), room))
    else if spec.conv == 's' then Text(Take(StringField(spec, arg.text), room))
    else Text([spec.conv])
  }

  // ----- stars --------------------------------------------------------------------------------

  datatype Resolved = Ready(spec: Spec) | NoArg | Overflow

  function Stars(a: Amount): nat { if a.Star? then 1 else 0 }

  /** Parameters a directive uses up: one for each star, one for its conversion. */
  function ArgsUsed(d: Directive): nat {
    if d.Field? then Stars(d.width) + Stars(d.prec) + (if NeedsArg(d.conv) then 1 else 0) else 0
  }

  /** `param` counts from 1, as the script's parameters do. */
  predicate Missing(args: seq<Arg>, param: nat) { |args| < param }

  /** A negative starred width means left justification. */
  function Resolve(d: Directive, args: seq<Arg>, param: nat): Resolved
    requires d.Field? && param >= 1
  {
    if (d.width.Number? && d.width.n > INT_MAX) then Overflow
    else if d.width.Star? && Missing(args, param) then NoArg
    else if d.width.Star? && args[param - 1].cell == INT_MIN then Overflow
    else
      var w := if d.width.Star? then args[param - 1].cell else if d.width.Number? then d.width.n else 0;
      var p := param + Stars(d.width);
      if d.prec.Number? && d.prec.n > INT_MAX then Overflow
      else if d.prec.Star? && Missing(args, p) then NoArg
      else
        var prec := if d.prec.Star? then Unsigned(args[p - 1].cell) else if d.prec.Number? then d.prec.n else 0;
        Ready(Spec(d.flags.(left := d.flags.left || w < 0, precision := !d.prec.Absent?),
                   if w < 0 then -w else w, prec, d.conv))
  }

  const NO_ARG := Arg(0, "")

  /** The parameter a conversion prints; conversions that print themselves need none. */
  function FieldArg(d: Directive, args: seq<Arg>, param: nat): Option<Arg>
    requires d.Field? && param >= 1
  {
    var p := param + Stars(d.width) + Stars(d.prec);
    if !NeedsArg(d.conv) then Some(NO_ARG) else if Missing(args, p) then None else Some(args[p - 1])
  }

  function FullOne(d: Directive, args: seq<Arg>, param: nat): Rendering
    requires param >= 1
  {
    match d
    case Literal(c) => Text([c])
    case Dangling => Undefined
    case Field(_, _, _, _) =>
      match Resolve(d, args, param)
      case Overflow => Undefined
      case NoArg => MissingArg
      case Ready(spec) =>
        match FieldArg(d, args, param)
        case None => MissingArg
        case Some(arg) => FullField(spec, arg)
  }

  function BoundedOne(d: Directive, args: seq<Arg>, param: nat, room: nat): (r: Rendering)
    requires param >= 1 && room > 0
    ensures r.Text? ==> |r.s| <= room
  {
    match d
    case Literal(c) => Text([c])
    case Dangling => Undefined
    case Field(_, _, _, _) =>
      match Resolve(d, args, param)
      case Overflow => Undefined
      case NoArg => MissingArg
      case Ready(spec) =>
        match FieldArg(d, args, param)
        case None => MissingArg
        case Some(arg) => BoundedField(spec, arg, room)
  }

  // ----- whole formats ------------------------------------------------------------------------

  function Prepend(s: string, r: Rendering): Rendering { if r.Text? then Text(s + r.s) else r }

  /** The pure renderer: the concatenation of literals and fields. */
  function Render(ds: seq<Directive>, args: seq<Arg>, param: nat): Rendering
    requires param >= 1
  {
    if ds == [] then Text("")
    else
      var first := FullOne(ds[0], args, param);
      if first.Text? then Prepend(first.s, Render(ds[1..], args, param + ArgsUsed(ds[0]))) else first
  }

  /** Rendering into a buffer with room for `room` characters, which ends when the buffer is full. */
  function Bounded(ds: seq<Directive>, args: seq<Arg>, param: nat, room: nat): (r: Rendering)
    requires param >= 1
    ensures r.Text? ==> |r.s| <= room
    decreases |ds|
  {
    if ds == [] || room == 0 then Text("")
    else
      var first := BoundedOne(ds[0], args, param, room);
      if !first.Text? then first
      else Prepend(first.s, Bounded(ds[1..], args, param + ArgsUsed(ds[0]), room - |first.s|))
  }

  // ----- rendering that fits ------------------------------------------------------------------

  lemma FieldThatFits(spec: Spec, arg: Arg, room: nat)
    requires room > 0
    requires var r := FullField(spec, arg); r.Text? && |r.s| <= room
    ensures BoundedField(spec, arg, room) == FullField(spec, arg)
  {
    if IsInt(spec.conv) {
      PlaceIsJustify(IntField(spec, arg.cell), room, spec.width, IntFlags(spec));
    } else if spec.conv in "fF" && !FloatPrinter.TooLarge(CellToFloat(arg.cell)) {
      PlaceIsJustify(FloatPrinter.FloatText(CellToFloat(arg.cell), spec.prec, spec.width, spec.flags),
                     room, spec.width, spec.flags);
    }
  }

  lemma OneThatFits(d: Directive, args: seq<Arg>, param: nat, room: nat)
    requires param >= 1 && room > 0
    requires var r := FullOne(d, args, param); r.Text? && |r.s| <= room
    ensures BoundedOne(d, args, param, room) == FullOne(d, args, param)
  {
    if d.Field? {
      FieldThatFits(Resolve(d, args, param).spec, FieldArg(d, args, param).value, room);
    }
  }

  /** A rendering that fits reaches the buffer whole. */
  lemma {:induction false} RenderThatFits(ds: seq<Directive>, args: seq<Arg>, param: nat, room: nat)
    requires param >= 1
    requires var r := Render(ds, args, param); r.Text? && |r.s| <= room
    ensures Bounded(ds, args, param, room) == Render(ds, args, param)
    decreases |ds|
  {
    hide FullOne, BoundedOne, ArgsUsed;
    if ds != [] && room > 0 {
      var first, rest := FullOne(ds[0], args, param), Render(ds[1..], args, param + ArgsUsed(ds[0]));
      assert Render(ds, args, param) == Text(first.s + rest.s);
      OneThatFits(ds[0], args, param, room);
      RenderThatFits(ds[1..], args, param + ArgsUsed(ds[0]), room - |first.s|);
    }
  }
}
