/** Reading printed floats back, and exactly when that gives the rounded value. */
module FloatReadBack {
  import opened Basics
  import opened Text
  import opened Numerals
  import opened NumberLayout
  import opened FloatPrinter
  import opened ReadBack

  function ReadDigits(digits: string): Option<nat> {
    if IsNumeral(digits, 10) then Some(Value(digits, 10)) else None
  }

  /** At least one digit, then a point and `p` digits unless p is 0; the value counts units of 10^-p. */
  function UnsignedFixed(u: string, p: nat): Option<nat> {
    var dot := |u| - p - 1;
    if p == 0 then
      if u != "" then ReadDigits(u) else None
    else if dot > 0 && u[dot] == '.' then ReadDigits(u[..dot] + u[dot + 1..])
    else None
  }

  function ReadFixedCore(t: string, p: nat): Option<int> {
    var u := if t != "" && IsSign(t[0]) then t[1..] else t;
    match UnsignedFixed(u, p)
    case None => None
    case Some(n) => Some(Signed(n, t[0] == '-'))
  }

  function ReadFixed(text: string, p: nat): Option<int> { ReadFixedCore(Strip(text), p) }

  function Fixed(ip: string, fp: string): string { ip + if fp == "" then "" else "." + fp }

  lemma FixedParts(ip: string, fp: string)
    requires fp != ""
    ensures var u := Fixed(ip, fp);
            |u| == |ip| + 1 + |fp| && u[..|ip|] == ip && u[|ip|] == '.' && u[|ip| + 1..] == fp
  {
  }

  lemma UnsignedFixedReads(ip: string, fp: string)
    requires IsNumeral(ip, 10) && IsNumeral(fp, 10)
    ensures UnsignedFixed(Fixed(ip, fp), |fp|) == if ip == "" then None else Some(Value(ip + fp, 10))
  {
    if fp == "" {
      assert ip + fp == ip;
    } else {
      var u := Fixed(ip, fp);
      FixedParts(ip, fp);
      assert UnsignedFixed(u, |fp|) == if ip == "" then None else ReadDigits(ip + fp);
    }
  }

  lemma FixedEnds(ip: string, fp: string)
    requires IsNumeral(ip, 10) && IsNumeral(fp, 10) && Fixed(ip, fp) != ""
    ensures var u := Fixed(ip, fp); u[0] != ' ' && u[|u| - 1] != ' ' && !IsSign(u[0])
  {
  }

  lemma StripFixed(negative: bool, flags: Flags, ip: string, fp: string, width: nat)
    requires IsNumeral(ip, 10) && IsNumeral(fp, 10)
    ensures Strip(Justify(Sign(negative, flags) + Fixed(ip, fp), width, flags)) == Core(negative, flags, Fixed(ip, fp))
  {
    var u, sign := Fixed(ip, fp), Sign(negative, flags);
    if u != "" { FixedEnds(ip, fp); }
    JustifyPads(sign + u, width, flags);
    var a: int, b: int :| Justify(sign + u, width, flags) == Spaces(a) + (sign + u) + Spaces(b);
    StripSign(a, negative, flags, u, b);
  }

  /** A core is an optional sign in front of the unsigned text. */
  lemma CoreParts(negative: bool, flags: Flags, u: string)
    requires u != "" ==> !IsSign(u[0])
    ensures var core := Core(negative, flags, u);
            && (if core != "" && IsSign(core[0]) then core[1..] else core) == u
            && (u != "" ==> (core[0] == '-' <==> negative))
  {
    var core := Core(negative, flags, u);
    if negative || flags.plus { assert core[1..] == u; }
  }

  lemma FixedCore(negative: bool, flags: Flags, ip: string, fp: string)
    requires IsNumeral(ip, 10) && IsNumeral(fp, 10)
    ensures ReadFixedCore(Core(negative, flags, Fixed(ip, fp)), |fp|)
            == if ip == "" then None else Some(Signed(Value(ip + fp, 10), negative))
  {
    var u := Fixed(ip, fp);
    assert u == "" ==> ip == "";
    UnsignedFixedReads(ip, fp);
    if u != "" { FixedEnds(ip, fp); }
    hide UnsignedFixed, Value, IsNumeral, Fixed, Core;
    CoreParts(negative, flags, u);
  }

  lemma ReadFixedJustified(negative: bool, flags: Flags, ip: string, fp: string, width: nat)
    requires IsNumeral(ip, 10) && IsNumeral(fp, 10)
    ensures ReadFixed(Justify(Sign(negative, flags) + Fixed(ip, fp), width, flags), |fp|)
            == if ip == "" then None else Some(Signed(Value(ip + fp, 10), negative))
  {
    StripFixed(negative, flags, ip, fp, width);
    FixedCore(negative, flags, ip, fp);
  }

  lemma ReadFixedPlain(ip: string, fp: string, width: nat, flags: Flags)
    requires IsNumeral(ip, 10) && IsNumeral(fp, 10) && ip != ""
    ensures ReadFixed(Justify(Fixed(ip, fp), width, flags), |fp|) == Some(Value(ip + fp, 10))
  {
    var plain := flags.(plus := false, space := false);
    assert Sign(false, plain) + Fixed(ip, fp) == Fixed(ip, fp);
    ReadFixedJustified(false, plain, ip, fp, width);
  }

  lemma {:induction false} LowDenotes(ip: string, n: nat, p: nat)
    requires IsNumeral(ip, 10) && Value(ip, 10) == DropDigits(n, p)
    ensures Value(ip + LowDigits(n, p), 10) == n
  {
    if p == 0 {
      assert ip + LowDigits(n, p) == ip;
    } else {
      LowDenotes(ip, n / 10, p - 1);
      assert ip + LowDigits(n, p) == (ip + LowDigits(n / 10, p - 1)) + [DigitChar(n % 10, false)];
      Snoc(ip + LowDigits(n / 10, p - 1), DigitChar(n % 10, false), 10);
    }
  }

  /** The digits of a decimal, point left out, denote its count of units. */
  lemma DecimalDenotes(n: nat, p: nat)
    ensures Value(Digits(DropDigits(n, p), 10, false) + LowDigits(n, p), 10) == n
  {
    DigitsDenote(DropDigits(n, p), 10, false);
    LowDenotes(Digits(DropDigits(n, p), 10, false), n, p);
  }

  /** A caller's test for a faithful print: a sign does not displace a digit, which it does when the
      unpadded text fills the width, and a full scratch buffer does not swallow a minus that matters. */
  predicate FloatReadable(units: nat, len: nat, unpadded: nat, negative: bool, width: nat, flags: Flags) {
    && (Sign(negative, flags) != "" && len == width ==> len > unpadded)
    && (len == SCRATCH != width ==> !negative || units == 0)
  }

  /** Whole digits and fraction digits of `units`, with no leading zero but a lone one. */
  ghost predicate IsDecimal(ip: string, fp: string, units: nat) {
    && ip != "" && IsNumeral(ip, 10) && IsNumeral(fp, 10)
    && Value(ip + fp, 10) == units
    && (|ip| > 1 ==> DigitValue(ip[0]) > 0)
  }

  lemma FixedUnderZeros(zeros: nat, ip: string, fp: string)
    ensures Zeros(zeros) + Fixed(ip, fp) == Fixed(Zeros(zeros) + ip, fp)
    ensures ip != "" ==> Fixed(ip, fp)[1..] == Fixed(ip[1..], fp)
  {
  }

  lemma PaddedDecimal(zeros: nat, ip: string, fp: string, units: nat)
    requires IsDecimal(ip, fp, units)
    ensures IsNumeral(Zeros(zeros) + ip, 10) && Value(Zeros(zeros) + ip + fp, 10) == units
  {
    var digits := ip + fp;
    LeadingZeros(zeros, digits, 10);
    assert Zeros(zeros) + ip + fp == Zeros(zeros) + digits;
  }

  /** Without its leading digit a decimal is no number or a smaller one. */
  lemma DisplacedDigit(ip: string, fp: string, units: nat)
    requires IsDecimal(ip, fp, units) && ip[1..] != ""
    ensures Value(ip[1..] + fp, 10) < units
  {
    var digits := ip + fp;
    DropLead(digits, 10);
    assert digits[1..] == ip[1..] + fp;
  }

  ghost predicate ReadsAs(zeros: nat, ip: string, fp: string, units: nat, negative: bool, width: nat, flags: Flags)
    requires SignHasRoom(Zeros(zeros) + Fixed(ip, fp), negative, width, flags)
  {
    ReadFixed(Justify(WithSign(Zeros(zeros) + Fixed(ip, fp), negative, width, flags), width, flags), |fp|)
    == Some(Signed(units, negative))
  }

  lemma WithoutDigit(ip: string, fp: string, negative: bool, width: nat, flags: Flags)
    requires ip != "" && |Fixed(ip, fp)| == width <= SCRATCH && Sign(negative, flags) != ""
    ensures WithSign(Zeros(0) + Fixed(ip, fp), negative, width, flags) == Sign(negative, flags) + Fixed(ip[1..], fp)
  {
  }

  lemma SignOnDigit(ip: string, fp: string, units: nat, negative: bool, width: nat, flags: Flags)
    requires IsDecimal(ip, fp, units) && |Fixed(ip, fp)| <= SCRATCH
    requires Sign(negative, flags) != "" && |Fixed(ip, fp)| == width
    ensures !ReadsAs(0, ip, fp, units, negative, width, flags)
  {
    WithoutDigit(ip, fp, negative, width, flags);
    ReadFixedJustified(negative, flags, ip[1..], fp, width);
    if ip[1..] != "" { DisplacedDigit(ip, fp, units); }
  }

  lemma WithoutZero(zeros: nat, ip: string, fp: string, negative: bool, width: nat, flags: Flags)
    requires ip != "" && zeros > 0 && zeros + |Fixed(ip, fp)| == width <= SCRATCH && Sign(negative, flags) != ""
    ensures WithSign(Zeros(zeros) + Fixed(ip, fp), negative, width, flags)
            == Sign(negative, flags) + Fixed(Zeros(zeros - 1) + ip, fp)
  {
    FixedUnderZeros(zeros - 1, ip, fp);
    assert (Zeros(zeros) + Fixed(ip, fp))[1..] == Zeros(zeros - 1) + Fixed(ip, fp);
  }

  lemma SignOnZero(zeros: nat, ip: string, fp: string, units: nat, negative: bool, width: nat, flags: Flags)
    requires IsDecimal(ip, fp, units) && 0 < zeros + |Fixed(ip, fp)| <= SCRATCH && zeros > 0
    requires Sign(negative, flags) != "" && zeros + |Fixed(ip, fp)| == width
    ensures ReadsAs(zeros, ip, fp, units, negative, width, flags)
  {
    hide ReadFixed, WithSign, Justify, Fixed, Sign, Value;
    PaddedDecimal(zeros - 1, ip, fp, units);
    WithoutZero(zeros, ip, fp, negative, width, flags);
    ReadFixedJustified(negative, flags, Zeros(zeros - 1) + ip, fp, width);
  }

  lemma SignInFront(zeros: nat, ip: string, fp: string, units: nat, negative: bool, width: nat, flags: Flags)
    requires IsDecimal(ip, fp, units) && zeros + |Fixed(ip, fp)| <= SCRATCH
    requires Sign(negative, flags) != "" ==> zeros + |Fixed(ip, fp)| != width
    ensures ReadsAs(zeros, ip, fp, units, negative, width, flags)
            <==> (zeros + |Fixed(ip, fp)| == SCRATCH ==> !negative || units == 0)
  {
    PaddedDecimal(zeros, ip, fp, units);
    FixedUnderZeros(zeros, ip, fp);
    if zeros + |Fixed(ip, fp)| < SCRATCH {
      ReadFixedJustified(negative, flags, Zeros(zeros) + ip, fp, width);
    } else {
      ReadFixedPlain(Zeros(zeros) + ip, fp, width, flags);
    }
  }

  lemma SignedFixed(zeros: nat, ip: string, fp: string, units: nat, negative: bool, width: nat, flags: Flags)
    requires IsDecimal(ip, fp, units) && zeros + |Fixed(ip, fp)| <= SCRATCH
    ensures ReadsAs(zeros, ip, fp, units, negative, width, flags)
            <==> FloatReadable(units, zeros + |Fixed(ip, fp)|, |Fixed(ip, fp)|, negative, width, flags)
  {
    if Sign(negative, flags) == "" || zeros + |Fixed(ip, fp)| != width {
      SignInFront(zeros, ip, fp, units, negative, width, flags);
    } else if zeros > 0 {
      SignOnZero(zeros, ip, fp, units, negative, width, flags);
    } else {
      SignOnDigit(ip, fp, units, negative, width, flags);
    }
  }

  lemma DecimalIsDecimal(units: nat, p: nat)
    ensures var ip, fp := Digits(DropDigits(units, p), 10, false), LowDigits(units, p);
            IsDecimal(ip, fp, units) && Decimal(units, p) == Fixed(ip, fp)
  {
    DecimalDenotes(units, p);
    DigitsLead(DropDigits(units, p), 10, false);
  }

  /** Float printing reads back as the rounded value exactly when `FloatReadable` says so. */
  lemma FloatRoundTrip(value: real, prec: nat, width: nat, flags: Flags)
    requires !TooLarge(value)
    ensures var p := EffectivePrecision(prec, flags);
            var units := Rounded(value, p);
            ReadFixed(Justify(FloatText(value, prec, width, flags), width, flags), p)
            == Some(Signed(units, value < 0.0))
            <==> FloatReadable(units, |UnsignedFloat(value, prec, width, flags)|, |Decimal(units, p)|,
                               value < 0.0, width, flags)
  {
    var p := EffectivePrecision(prec, flags);
    var body := Decimal(Rounded(value, p), p);
    DecimalFits(value, p);
    var zeros := |UnsignedFloat(value, prec, width, flags)| - |body|;
    assert UnsignedFloat(value, prec, width, flags) == Zeros(zeros) + body;
    DecimalIsDecimal(Rounded(value, p), p);
    SignedFixed(zeros, Digits(DropDigits(Rounded(value, p), p), 10, false), LowDigits(Rounded(value, p), p),
                Rounded(value, p), value < 0.0, width, flags);
  }
}
