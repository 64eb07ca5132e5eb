/** What each conversion letter prints: base, sign, case, places and padding, written out. */
module FormatConversions {
  import opened Basics
  import opened Text
  import opened Numerals
  import opened NumberLayout
  import opened Scaling
  import opened FormatSyntax
  import opened FormatRendering
  import opened ReadBack
  import opened FloatReadBack
  import opened FormatMeaning
  import IntPrinter
  import FloatPrinter

  /** `s` is `text`, with spaces on one side as far as it is shorter than `width`. */
  predicate PaddedTo(s: string, text: string, width: nat, left: bool) {
    var n := width - |text|;
    && |s| == |text| + Max(n, 0)
    && forall i :: 0 <= i < |s| ==>
         s[i] == if left then (if i < |text| then text[i] else ' ') else if i < n then ' ' else text[i - Max(n, 0)]
  }

  /** A number in its field: '-' pads on the right, '0' without '-' not at all. */
  predicate InField(s: string, text: string, spec: Spec) {
    if spec.flags.zeroPad && !spec.flags.left then s == text else PaddedTo(s, text, spec.width, spec.flags.left)
  }

  lemma JustifyMeans(text: string, spec: Spec, flags: Flags)
    requires flags.zeroPad == spec.flags.zeroPad && flags.left == spec.flags.left
    ensures InField(Justify(text, spec.width, flags), text, spec)
  {
  }

  // ----- digits ------------------------------------------------------------------------------------

  lemma DigitTable(d: nat)
    requires d < 16
    ensures DigitChar(d, false) == "0123456789abcdef"[d] && DigitChar(d, true) == "0123456789ABCDEF"[d]
  {
  }

  predicate InCase(c: char, upper: bool) { '0' <= c <= '9' || if upper then 'A' <= c <= 'F' else 'a' <= c <= 'f' }

  predicate Cased(s: string, upper: bool) { forall i :: 0 <= i < |s| ==> InCase(s[i], upper) }

  lemma CasedDigit(s: string, d: nat, upper: bool)
    requires Cased(s, upper) && d < 16
    ensures Cased(s + [DigitChar(d, upper)], upper)
  {
  }

  /** Capital letters just in an upper-case numeral. */
  lemma {:induction false} DigitsCase(v: nat, base: nat, upper: bool)
    requires 2 <= base <= 16
    ensures Cased(Digits(v, base, upper), upper)
  {
    var q, last := v / base, v % base;
    DivMod(v, base);
    DigitsStep(v, base, upper);
    assert Cased("", upper);
    hide Cased, Digits;
    if q == 0 {
      CasedDigit("", last, upper);
    } else {
      DigitsCase(q, base, upper);
      CasedDigit(Digits(q, base, upper), last, upper);
    }
  }

  lemma ModuloWord(c: Cell)
    ensures Unsigned(c) == c % 0x1_0000_0000
  {
  }

  /** A precision prints no digit for zero. */
  function Numeral(v: nat, base: nat, upper: bool, precision: bool): string
    requires 2 <= base <= 16
  {
    if v == 0 && precision then "" else Digits(v, base, upper)
  }

  /** Zeros in front: up to the precision, and up to the width with '0', at most 32 characters, none with '-'. */
  function ZeroFilled(digits: string, spec: Spec): string {
    if spec.flags.left then digits
    else Repeat('0', Min(32, if spec.flags.zeroPad then Max(spec.prec, spec.width) else spec.prec) - |digits|) + digits
  }

  lemma PadTwice(digits: string, prec: nat, width: nat)
    ensures PadZeros(PadZeros(digits, prec), width)
            == Repeat('0', Min(32, Max(prec, width)) - |digits|) + digits
    ensures PadZeros(digits, prec) == Repeat('0', Min(32, prec) - |digits|) + digits
  {
  }

  lemma BodyIsZeroFilled(v: nat, base: nat, spec: Spec, flags: Flags)
    requires IntPrinter.IsBase(base)
    requires flags.left == spec.flags.left && flags.zeroPad == spec.flags.zeroPad
    requires flags.precision == spec.flags.precision
    ensures IntPrinter.IntBody(v, base, spec.prec, spec.width, flags)
            == ZeroFilled(Numeral(v, base, flags.upper, spec.flags.precision), spec)
  {
    hide PadZeros, Digits, Min, Max;
    PadTwice(IntPrinter.IntDigits(v, base, flags), spec.prec, spec.width);
  }

  // ----- signed integers ---------------------------------------------------------------------------

  lemma SignedSpec(spec: Spec, c: Cell)
    requires spec.conv == 'd' || spec.conv == 'i'
    ensures IsInt(spec.conv) && IsSigned(spec.conv) && Base(spec.conv) == 10
    ensures IntFlags(spec) == spec.flags.(hash := false, upper := false)
    ensures Negative(spec, c) == (c < 0) && Magnitude(spec, c) == if c < 0 then 0 - c as int else c
  {
  }

  /** The sign goes in front, or in place of the leading character of a text as wide as the field;
      a text of 32 characters that is not gets none. */
  function UnderSign(body: string, sign: string, width: nat): string {
    if sign != "" && body != "" && |body| == width then sign + body[1..]
    else if |body| < 32 then sign + body
    else body
  }

  /** A minus in front of '+' in front of ' '. */
  function SignOf(spec: Spec, negative: bool): string {
    if negative then "-" else if spec.flags.plus then "+" else if spec.flags.space then " " else ""
  }

  lemma SignStands(body: string, negative: bool, spec: Spec, flags: Flags)
    requires |body| <= 32 && SignHasRoom(body, negative, spec.width, flags)
    requires flags.plus == spec.flags.plus && flags.space == spec.flags.space
    ensures WithSign(body, negative, spec.width, flags) == UnderSign(body, SignOf(spec, negative), spec.width)
  {
  }

  lemma BodyFits(v: nat, base: nat, flags: Flags)
    requires IntPrinter.IsBase(base) && v < IntPrinter.WORD
    ensures |Numeral(v, base, flags.upper, flags.precision)| <= 32
  {
    IntPrinter.IntDigitsFit(v, base, flags);
  }

  /** The digits of %d and %i with their zeros. */
  function SignedBody(spec: Spec, c: Cell): string {
    ZeroFilled(Numeral(if c < 0 then 0 - c as int else c, 10, false, spec.flags.precision), spec)
  }

  lemma SignedBodyIs(spec: Spec, c: Cell)
    requires spec.conv == 'd' || spec.conv == 'i'
    ensures IntPrinter.UnsignedText(Magnitude(spec, c), 10, spec.prec, spec.width, IntFlags(spec))
            == SignedBody(spec, c)
  {
    SignedSpec(spec, c);
    hide IntFlags, Magnitude, ZeroFilled, Numeral, IntPrinter.IntBody;
    BodyIsZeroFilled(Magnitude(spec, c), 10, spec, IntFlags(spec));
  }

  /** %d and %i print in base 10: nothing is printed just for the smallest cell, whose negation does not
      exist, and for a sign on an empty text in a field of width 0. */
  lemma SignedPrints(spec: Spec, arg: Arg)
    requires spec.conv == 'd' || spec.conv == 'i'
    ensures FullField(spec, arg).Text?
            <==> arg.cell != -0x8000_0000
                 && !(SignedBody(spec, arg.cell) == "" && spec.width == 0 && (spec.flags.plus || spec.flags.space))
  {
    SignedSpec(spec, arg.cell);
    SignedBodyIs(spec, arg.cell);
    hide IntFlags, Magnitude, Negative, SignedBody, IntPrinter.UnsignedText;
  }

  lemma SignedText(spec: Spec, c: Cell)
    requires (spec.conv == 'd' || spec.conv == 'i') && IntDefined(spec, c)
    ensures IntField(spec, c) == UnderSign(SignedBody(spec, c), SignOf(spec, c < 0), spec.width)
  {
    SignedSpec(spec, c);
    SignedBodyIs(spec, c);
    BodyFits(Magnitude(spec, c), 10, IntFlags(spec));
    assert |SignedBody(spec, c)| <= 32;
    hide IntFlags, Magnitude, Negative, SignedBody, UnderSign, WithSign, IntPrinter.UnsignedText;
    SignStands(SignedBody(spec, c), c < 0, spec, IntFlags(spec));
  }

  /** What %d and %i print, where they print. */
  lemma SignedShows(spec: Spec, arg: Arg)
    requires (spec.conv == 'd' || spec.conv == 'i') && FullField(spec, arg).Text?
    ensures var text := UnderSign(SignedBody(spec, arg.cell), SignOf(spec, arg.cell < 0), spec.width);
            InField(FullField(spec, arg).s, text, spec)
  {
    SignedSpec(spec, arg.cell);
    SignedText(spec, arg.cell);
    hide IntFlags, IntField, IntDefined, SignedBody, UnderSign, SignOf, InField, Justify;
    JustifyMeans(IntField(spec, arg.cell), spec, IntFlags(spec));
  }

  /** Read in base 10, %d and %i give the cell just when there is a digit, no sign takes the place of a
      digit, and no minus is lost to 32 characters. */
  lemma SignedReads(spec: Spec, arg: Arg)
    requires (spec.conv == 'd' || spec.conv == 'i') && FullField(spec, arg).Text?
    ensures var magnitude := if arg.cell < 0 then 0 - arg.cell as int else arg.cell;
            var digits := |Numeral(magnitude, 10, false, spec.flags.precision)|;
            var len := |SignedBody(spec, arg.cell)|;
            ReadInt(FullField(spec, arg).s, 10) == Some(arg.cell)
            <==> && len > 0
                 && (SignOf(spec, arg.cell < 0) != "" && len == spec.width ==> len > Max(digits, 1))
                 && (len == 32 != spec.width ==> arg.cell >= 0)
  {
    SignedSpec(spec, arg.cell);
    IntFieldReads(spec, arg);
    SignedLength(spec, arg.cell);
    hide IntFlags, Magnitude, Negative, ReadInt, FullField, BodyLength, SignedBody, Numeral;
  }

  lemma FilledLength(digits: string, spec: Spec, flags: Flags)
    requires flags.left == spec.flags.left && flags.zeroPad == spec.flags.zeroPad
    ensures |ZeroFilled(digits, spec)| == BodyLength(|digits|, spec.prec, spec.width, flags)
  {
  }

  lemma SignedLength(spec: Spec, c: Cell)
    requires spec.conv == 'd' || spec.conv == 'i'
    ensures var digits := Numeral(if c < 0 then 0 - c as int else c, 10, false, spec.flags.precision);
            && IntPrinter.IntDigits(Magnitude(spec, c), 10, IntFlags(spec)) == digits
            && |SignedBody(spec, c)| == BodyLength(|digits|, spec.prec, spec.width, IntFlags(spec))
  {
    SignedSpec(spec, c);
    hide Digits, IntFlags, Magnitude, ZeroFilled, BodyLength;
    FilledLength(Numeral(if c < 0 then 0 - c as int else c, 10, false, spec.flags.precision), spec, IntFlags(spec));
  }

  // ----- unsigned integers -------------------------------------------------------------------------

  /** %u prints in base 10, %b in 2, %o in 8, %x and %X in 16, with capitals for %X alone, without a
      sign, and with a prefix for octal and hexadecimal alone. */
  lemma UnsignedSpec(spec: Spec, c: Cell, base: nat)
    requires || (spec.conv == 'u' && base == 10) || (spec.conv == 'b' && base == 2)
             || (spec.conv == 'o' && base == 8) || ((spec.conv == 'x' || spec.conv == 'X') && base == 16)
    ensures IsInt(spec.conv) && !IsSigned(spec.conv) && Base(spec.conv) == base && IntPrinter.IsBase(base)
    ensures !Negative(spec, c) && Magnitude(spec, c) == c % 0x1_0000_0000
    ensures var f := IntFlags(spec);
            && !f.plus && !f.space && f.left == spec.flags.left && f.zeroPad == spec.flags.zeroPad
            && f.precision == spec.flags.precision && f.upper == (spec.conv == 'X')
            && f.hash == (spec.flags.hash && (base == 8 || base == 16))
  {
    ModuloWord(c);
  }

  /** The digits of the cell modulo 2^32, with their zeros. */
  function UnsignedBody(spec: Spec, c: Cell, base: nat): string
    requires 2 <= base <= 16
  {
    ZeroFilled(Numeral(c % 0x1_0000_0000, base, spec.conv == 'X', spec.flags.precision), spec)
  }

  /** A prefix costs a body that fills precision or width as many characters as it has itself; past
      30 characters it loses its zero, past 31 all. */
  function UnderPrefix(body: string, base: nat, spec: Spec): string {
    var cost := if body == "" || (|body| != spec.prec && |body| != spec.width) then 0
                else if base == 16 && |body| > 1 then 2 else 1;
    Prefixed(body[cost..], base, spec)
  }

  function Prefixed(kept: string, base: nat, spec: Spec): string {
    var prefix := if base == 8 then "0" else if spec.conv == 'X' then "0X" else "0x";
    if |kept| + |prefix| <= 32 then prefix + kept
    else if base == 16 && |kept| == 31 then prefix[1..] + kept
    else kept
  }

  lemma PrefixLeads(kept: string, base: nat, spec: Spec, flags: Flags)
    requires (base == 8 || base == 16) && |kept| <= 32 && flags.upper == (spec.conv == 'X')
    ensures IntPrinter.WithPrefix(kept, base, flags) == Prefixed(kept, base, spec)
  {
  }

  lemma PrefixStands(body: string, base: nat, spec: Spec, flags: Flags)
    requires (base == 8 || base == 16) && |body| <= 32 && flags.hash && flags.upper == (spec.conv == 'X')
    ensures IntPrinter.WithHash(body, base, spec.prec, spec.width, flags) == UnderPrefix(body, base, spec)
  {
    hide IntPrinter.WithPrefix, Prefixed;
    PrefixLeads(body[IntPrinter.HashCost(|body|, base, spec.prec, spec.width)..], base, spec, flags);
  }

  function UnsignedShown(spec: Spec, c: Cell, base: nat): string
    requires 2 <= base <= 16
  {
    var body := UnsignedBody(spec, c, base);
    if spec.flags.hash && (base == 8 || base == 16) then UnderPrefix(body, base, spec) else body
  }

  lemma UnsignedTextIs(spec: Spec, v: nat, base: nat, flags: Flags)
    requires IntPrinter.IsBase(base) && v < 0x1_0000_0000
    requires flags.left == spec.flags.left && flags.zeroPad == spec.flags.zeroPad
    requires flags.precision == spec.flags.precision && flags.upper == (spec.conv == 'X')
    requires flags.hash == (spec.flags.hash && (base == 8 || base == 16))
    ensures var body := ZeroFilled(Numeral(v, base, spec.conv == 'X', spec.flags.precision), spec);
            && |body| <= 32
            && IntPrinter.UnsignedText(v, base, spec.prec, spec.width, flags)
               == if flags.hash then UnderPrefix(body, base, spec) else body
  {
    var body := ZeroFilled(Numeral(v, base, spec.conv == 'X', spec.flags.precision), spec);
    BodyFits(v, base, flags);
    BodyIsZeroFilled(v, base, spec, flags);
    assert |body| <= 32;
    hide ZeroFilled, Numeral, IntPrinter.IntBody, UnderPrefix;
    if flags.hash {
      PrefixStands(body, base, spec, flags);
    }
  }

  /** What %u, %b, %o, %x and %X print: always something, save digits. */
  lemma UnsignedShows(spec: Spec, arg: Arg, base: nat)
    requires || (spec.conv == 'u' && base == 10) || (spec.conv == 'b' && base == 2)
             || (spec.conv == 'o' && base == 8) || ((spec.conv == 'x' || spec.conv == 'X') && base == 16)
    ensures FullField(spec, arg).Text?
    ensures var text := UnsignedShown(spec, arg.cell, base);
            InField(FullField(spec, arg).s, text, spec)
  {
    var v := Magnitude(spec, arg.cell);
    UnsignedSpec(spec, arg.cell, base);
    UnsignedTextIs(spec, v, base, IntFlags(spec));
    UnsignedIsText(v, base, spec.prec, spec.width, IntFlags(spec));
    hide IntFlags, Base, Magnitude, Negative, ZeroFilled, Numeral, UnderPrefix, InField, Justify, WithSign,
      IntPrinter.IntPrintable, IntPrinter.IntText, IntPrinter.UnsignedText;
    JustifyMeans(IntField(spec, arg.cell), spec, IntFlags(spec));
  }

  /** Read in the letter's base, a field without prefix gives the cell modulo 2^32 just when it has a digit. */
  lemma UnsignedReads(spec: Spec, arg: Arg, base: nat)
    requires || (spec.conv == 'u' && base == 10) || (spec.conv == 'b' && base == 2)
             || (spec.conv == 'o' && base == 8) || ((spec.conv == 'x' || spec.conv == 'X') && base == 16)
    requires !(spec.flags.hash && (base == 8 || base == 16)) && FullField(spec, arg).Text?
    ensures ReadInt(FullField(spec, arg).s, base) == Some(arg.cell % 0x1_0000_0000)
            <==> UnsignedBody(spec, arg.cell, base) != ""
  {
    UnsignedSpec(spec, arg.cell, base);
    ModuloWord(arg.cell);
    IntFieldReads(spec, arg);
    UnsignedLength(spec, arg.cell, base);
    hide IntFlags, Magnitude, Negative, ReadInt, FullField, BodyLength, UnsignedBody, Unsigned;
  }

  lemma UnsignedLength(spec: Spec, c: Cell, base: nat)
    requires || (spec.conv == 'u' && base == 10) || (spec.conv == 'b' && base == 2)
             || (spec.conv == 'o' && base == 8) || ((spec.conv == 'x' || spec.conv == 'X') && base == 16)
    ensures var digits := Numeral(c % 0x1_0000_0000, base, spec.conv == 'X', spec.flags.precision);
            && IntPrinter.IntDigits(Magnitude(spec, c), base, IntFlags(spec)) == digits
            && |UnsignedBody(spec, c, base)| == BodyLength(|digits|, spec.prec, spec.width, IntFlags(spec))
  {
    UnsignedSpec(spec, c, base);
    hide Digits, IntFlags, Magnitude, ZeroFilled, BodyLength;
    FilledLength(Numeral(c % 0x1_0000_0000, base, spec.conv == 'X', spec.flags.precision), spec, IntFlags(spec));
  }

  /** The condition for a prefix, with the characters it costs written out. */
  predicate PrefixIsPadding(v: nat, len: nat, digits: nat, base: nat, spec: Spec) {
    var cost := if len == 0 || (len != spec.prec && len != spec.width) then 0
                else if base == 16 && len > 1 then 2 else 1;
    if base == 16 then len - cost >= Max(digits, 1) && len - cost != 31 else len - cost >= digits || v == 0
  }

  lemma PrefixCondition(v: nat, len: nat, digits: nat, base: nat, spec: Spec)
    ensures HashReadable(v, len, digits, base, spec.prec, spec.width) <==> PrefixIsPadding(v, len, digits, base, spec)
  {
  }

  /** With its prefix it does just when the room taken for the prefix was zeros and a hexadecimal prefix is
      whole or left out; octal zero always does. */
  lemma PrefixedReads(spec: Spec, arg: Arg, base: nat)
    requires (spec.conv == 'o' && base == 8) || ((spec.conv == 'x' || spec.conv == 'X') && base == 16)
    requires spec.flags.hash && FullField(spec, arg).Text?
    ensures var v := arg.cell % 0x1_0000_0000;
            var digits := |Numeral(v, base, spec.conv == 'X', spec.flags.precision)|;
            ReadPrefixed(FullField(spec, arg).s, base) == Some(v)
            <==> PrefixIsPadding(v, |UnsignedBody(spec, arg.cell, base)|, digits, base, spec)
  {
    UnsignedSpec(spec, arg.cell, base);
    UnsignedLength(spec, arg.cell, base);
    ModuloWord(arg.cell);
    hide Unsigned, Magnitude, IntFlags, Base, IsSigned, Negative, ReadPrefixed, FullField, BodyLength, UnsignedBody,
      Numeral, HashReadable, PrefixIsPadding;
    HashFieldReads(spec, arg);
    PrefixCondition(arg.cell % 0x1_0000_0000, |UnsignedBody(spec, arg.cell, base)|,
                    |Numeral(arg.cell % 0x1_0000_0000, base, spec.conv == 'X', spec.flags.precision)|, base, spec);
  }

  // ----- floats ------------------------------------------------------------------------------------

  function Absolute(x: real): real { if x < 0.0 then -x else x }

  /** Six places without a precision, the precision up to nine, nine above; `scaled` is the magnitude times
      ten to that power. */
  predicate Places(spec: Spec, mag: real, p: nat, scaled: real) {
    if !spec.flags.precision then p == 6 && scaled == 1000000.0 * mag
    else if spec.prec > 9 then p == 9 && scaled == 1000000000.0 * mag
    else p == spec.prec && scaled == Times10(mag, p)
  }

  lemma PowersOfTen(x: real)
    ensures Times10(x, 6) == 1000000.0 * x && Times10(x, 9) == 1000000000.0 * x
  {
    var y := Times10(x, 6);
    assert Times10(x, 3) == 10.0 * Times10(x, 2) && Times10(x, 2) == 10.0 * Times10(x, 1) && Times10(x, 1) == 10.0 * x;
    assert y == 10.0 * Times10(x, 5) && Times10(x, 5) == 10.0 * Times10(x, 4) && Times10(x, 4) == 10.0 * Times10(x, 3);
    assert Times10(x, 9) == 10.0 * Times10(x, 8) && Times10(x, 8) == 10.0 * Times10(x, 7) && Times10(x, 7) == 10.0 * y;
  }

  lemma RoundedPlaces(spec: Spec, value: real, p: nat, scaled: real)
    requires Places(spec, Absolute(value), p, scaled)
    ensures FloatPrinter.EffectivePrecision(spec.prec, spec.flags) == p <= 9
    ensures FloatPrinter.Rounded(value, p) == FloatPrinter.RoundHalfEven(scaled)
  {
    PowersOfTen(Absolute(value));
  }

  /** A float above 2147483647 prints nothing, any other always something. */
  lemma FloatPrints(spec: Spec, arg: Arg)
    requires (spec.conv == 'f' || spec.conv == 'F') && IsFinite(arg.cell)
    ensures FullField(spec, arg).Text?
    ensures Absolute(CellToFloat(arg.cell)) > 2147483647.0 ==> FullField(spec, arg) == Text("")
  {
    hide Justify, FloatPrinter.FloatText;
  }

  /** Zeros in front up to the width with '0', at most 32 characters. */
  function WidthFilled(digits: string, spec: Spec): string {
    if spec.flags.zeroPad && !spec.flags.left then Repeat('0', Min(32, spec.width) - |digits|) + digits else digits
  }

  /** Read with these places, %f gives the value times ten to their number, rounded half to even, just when
      no sign takes the place of a digit and no minus is lost to 32 characters. */
  lemma FloatReads(spec: Spec, arg: Arg, p: nat, scaled: real)
    requires (spec.conv == 'f' || spec.conv == 'F') && IsFinite(arg.cell) && FullField(spec, arg).Text?
    requires Absolute(CellToFloat(arg.cell)) <= 2147483647.0
    requires Places(spec, Absolute(CellToFloat(arg.cell)), p, scaled)
    ensures FloatPrinter.RoundHalfEven(scaled) >= 0
    ensures var negative := CellToFloat(arg.cell) < 0.0;
            var n := FloatPrinter.RoundHalfEven(scaled);
            var digits := FloatPrinter.Decimal(n, p);
            var len := |WidthFilled(digits, spec)|;
            ReadFixed(FullField(spec, arg).s, p) == Some(if negative then -n else n)
            <==> && ((negative || spec.flags.plus || spec.flags.space) && len == spec.width ==> len > |digits|)
                 && (len == 32 != spec.width ==> !negative || n == 0)
  {
    var value := CellToFloat(arg.cell);
    RoundedPlaces(spec, value, p, scaled);
    FloatFieldReads(spec, arg);
    UnsignedFloatIs(spec, value, p);
    hide CellToFloat, ReadFixed, FullField, Places, FloatPrinter.EffectivePrecision, FloatPrinter.Rounded,
      FloatPrinter.RoundHalfEven, FloatPrinter.UnsignedFloat, FloatPrinter.Decimal, FloatPrinter.TooLarge;
  }

  lemma UnsignedFloatIs(spec: Spec, value: real, p: nat)
    requires p == FloatPrinter.EffectivePrecision(spec.prec, spec.flags)
    ensures FloatPrinter.UnsignedFloat(value, spec.prec, spec.width, spec.flags)
            == WidthFilled(FloatPrinter.Decimal(FloatPrinter.Rounded(value, p), p), spec)
  {
    hide FloatPrinter.Decimal, FloatPrinter.Rounded;
  }

  lemma DecimalDigit(c: char)
    requires 0 <= DigitValue(c) < 10
    ensures '0' <= c <= '9'
  {
  }

  lemma UnsignedPlaces(u: string, p: nat)
    requires UnsignedFixed(u, p).Some?
    ensures p == 0 ==> forall i :: 0 <= i < |u| ==> '0' <= u[i] <= '9'
    ensures var dot := |u| - p - 1;
            p > 0 ==> dot > 0 && u[dot] == '.' && forall i :: 0 <= i < |u| && i != dot ==> '0' <= u[i] <= '9'
  {
    hide Value, DigitValue;
    var dot := |u| - p - 1;
    forall i | 0 <= i < |u| && (p > 0 ==> i != dot)
      ensures '0' <= u[i] <= '9'
    {
      if p > 0 {
        assert u[i] == (u[..dot] + u[dot + 1..])[if i < dot then i else i - 1];
      }
      DecimalDigit(u[i]);
    }
  }

  /** What reads with `p` places is digits and, if there are places, a point with `p` digits behind it,
      with or without a sign. */
  lemma FixedHasPlaces(text: string, p: nat)
    requires ReadFixed(text, p).Some?
    ensures var t := Strip(text);
            var dot := |t| - p - 1;
            && t != ""
            && (p > 0 ==> dot > 0 && t[dot] == '.')
            && (forall i :: 1 <= i < |t| && (p > 0 ==> i != dot) ==> '0' <= t[i] <= '9')
            && ('0' <= t[0] <= '9' || t[0] == '+' || t[0] == '-')
  {
    var t := Strip(text);
    hide Strip, UnsignedFixed;
    var u := if t != "" && IsSign(t[0]) then t[1..] else t;
    UnsignedPlaces(u, p);
    assert p == 0 && u == "" ==> UnsignedFixed(u, p) == None by { NothingFixed(); }
  }

  lemma NothingFixed()
    ensures UnsignedFixed("", 0) == None
  {
  }

  /** A decimal has one point with `p` digits behind it, or no point for no places. */
  lemma DecimalPlaces(n: nat, p: nat)
    ensures var d := FloatPrinter.Decimal(n, p);
            var dot := |d| - p - 1;
            && (p > 0 ==> dot > 0 && d[dot] == '.')
            && forall i :: 0 <= i < |d| && (p > 0 ==> i != dot) ==> '0' <= d[i] <= '9'
  {
    var whole, frac := Digits(FloatPrinter.DropDigits(n, p), 10, false), FloatPrinter.LowDigits(n, p);
    var d := FloatPrinter.Decimal(n, p);
    var dot := |whole|;
    assert d == if p == 0 then whole else whole + "." + frac;
    hide Digits, FloatPrinter.LowDigits, DigitValue;
    forall i | 0 <= i < |d| && (p > 0 ==> i != dot)
      ensures '0' <= d[i] <= '9'
    {
      DecimalDigit(if i < dot then whole[i] else frac[i - dot - 1]);
    }
  }

  /** What %f prints: the rounded value with its places, under its zeros and its sign. */
  lemma FloatShows(spec: Spec, arg: Arg, p: nat, scaled: real)
    requires (spec.conv == 'f' || spec.conv == 'F') && IsFinite(arg.cell) && FullField(spec, arg).Text?
    requires Absolute(CellToFloat(arg.cell)) <= 2147483647.0
    requires Places(spec, Absolute(CellToFloat(arg.cell)), p, scaled)
    ensures FloatPrinter.RoundHalfEven(scaled) >= 0
    ensures var digits := FloatPrinter.Decimal(FloatPrinter.RoundHalfEven(scaled), p);
            var sign := SignOf(spec, CellToFloat(arg.cell) < 0.0);
            InField(FullField(spec, arg).s, UnderSign(WidthFilled(digits, spec), sign, spec.width), spec)
  {
    var value := CellToFloat(arg.cell);
    RoundedPlaces(spec, value, p, scaled);
    FloatPrinter.DecimalFits(value, p);
    FloatTextIs(spec, value, p);
    JustifyMeans(FloatPrinter.FloatText(value, spec.prec, spec.width, spec.flags), spec, spec.flags);
    hide CellToFloat, InField, UnderSign, WidthFilled, SignOf, Justify, Places, FloatPrinter.EffectivePrecision,
      FloatPrinter.Rounded, FloatPrinter.RoundHalfEven, FloatPrinter.FloatText, FloatPrinter.Decimal;
  }

  lemma FloatTextIs(spec: Spec, value: real, p: nat)
    requires p == FloatPrinter.EffectivePrecision(spec.prec, spec.flags)
    requires |FloatPrinter.Decimal(FloatPrinter.Rounded(value, p), p)| <= 20
    ensures var digits := FloatPrinter.Decimal(FloatPrinter.Rounded(value, p), p);
            FloatPrinter.FloatText(value, spec.prec, spec.width, spec.flags)
            == UnderSign(WidthFilled(digits, spec), SignOf(spec, value < 0.0), spec.width)
  {
    hide FloatPrinter.Decimal, FloatPrinter.Rounded, UnderSign, WithSign, SignOf;
    SignStands(FloatPrinter.UnsignedFloat(value, spec.prec, spec.width, spec.flags), value < 0.0, spec, spec.flags);
  }

  // ----- text --------------------------------------------------------------------------------------

  /** Text is padded with spaces, '0' or not. */
  lemma JustifyTextMeans(text: string, spec: Spec)
    ensures PaddedTo(JustifyText(text, spec), text, spec.width, spec.flags.left)
  {
  }

  /** %s prints as much of the string as the precision allows, in a field of the width. */
  lemma StringShows(spec: Spec, arg: Arg)
    requires spec.conv == 's'
    ensures FullField(spec, arg).Text?
    ensures var shown := if spec.flags.precision && spec.prec < |arg.text| then arg.text[..spec.prec] else arg.text;
            PaddedTo(FullField(spec, arg).s, shown, spec.width, spec.flags.left)
  {
    var shown: string := if spec.flags.precision && spec.prec < |arg.text| then arg.text[..spec.prec] else arg.text;
    hide JustifyText, PaddedTo;
    assert arg.text[..|arg.text|] == arg.text;
    assert StringField(spec, arg.text) == JustifyText(shown, spec);
    hide StringField;
    JustifyTextMeans(shown, spec);
  }

  /** %c prints the first character of the string, its terminator if it is empty, in a field of the width;
      precision does not count. */
  lemma CharShows(spec: Spec, arg: Arg)
    requires spec.conv == 'c'
    ensures FullField(spec, arg).Text?
    ensures var shown := if arg.text == "" then "\0" else arg.text[..1];
            PaddedTo(FullField(spec, arg).s, shown, spec.width, spec.flags.left)
  {
    var shown := if arg.text == "" then "\0" else arg.text[..1];
    assert CharField(spec, arg.text) == JustifyText(shown, spec);
    hide CharField, JustifyText, PaddedTo;
    JustifyTextMeans(shown, spec);
  }

  /** Any other character behind '%' prints itself. */
  lemma OtherShows(spec: Spec, arg: Arg)
    requires spec.conv !in "diuxXobfFcs"
    ensures FullField(spec, arg) == Text([spec.conv])
  {
  }
}
