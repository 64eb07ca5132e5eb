/** Fixed-point conversion of binary floating-point values, in exact arithmetic: a 24-bit
    significand times a power of ten up to 10^9 fits the 53 bits of a double. */
module FloatPrinter {
  import opened Basics
  import opened Text
  import opened Numerals
  import opened NumberLayout
  import opened Scaling

  /** Values above this print nothing. */
  const THRES_MAX := 0x7FFF_FFFF

  function Abs(x: real): real { if x < 0.0 then -x else x }

  /** The nearest integer, the even one of two equally near. */
  function RoundHalfEven(x: real): int {
    var f := x.Floor;
    var d := x - f as real;
    if d < 0.5 || (d == 0.5 && f % 2 == 0) then f else f + 1
  }

  /** ... which the definition above is, for every x. */
  lemma RoundHalfEvenIsNearest(x: real, n: int)
    ensures n == RoundHalfEven(x)
            <==> x - 0.5 <= n as real <= x + 0.5
                 && (x - 0.5 == n as real || x + 0.5 == n as real ==> n % 2 == 0)
  {
  }

  /** The `p` low-order decimal digits of `n`. */
  function LowDigits(n: nat, p: nat): (s: string)
    ensures |s| == p && IsNumeral(s, 10)
  {
    if p == 0 then "" else LowDigits(n / 10, p - 1) + [DigitChar(n % 10, false)]
  }

  /** `n` without them. */
  function DropDigits(n: nat, p: nat): nat { if p == 0 then n else DropDigits(n / 10, p - 1) }

  /** `n` units of 10^-p: a numeral with a point before its last `p` digits. */
  function Decimal(n: nat, p: nat): (s: string)
    ensures s != ""
  {
    Digits(DropDigits(n, p), 10, false) + Fraction(n, p)
  }

  function Fraction(n: nat, p: nat): string { if p == 0 then "" else "." + LowDigits(n, p) }

  /** Six places by default, at most nine. */
  function EffectivePrecision(prec: nat, flags: Flags): nat {
    if flags.precision then Min(prec, 9) else 6
  }

  /** The value in units of 10^-p. */
  function Rounded(value: real, p: nat): nat {
    assert Times10(Abs(value), p).Floor >= 0 by { Times10Grows(Abs(value), p); }
    RoundHalfEven(Times10(Abs(value), p))
  }

  function UnsignedFloat(value: real, prec: nat, width: nat, flags: Flags): (s: string)
    ensures s != ""
  {
    var p := EffectivePrecision(prec, flags);
    var body := Decimal(Rounded(value, p), p);
    if !flags.left && flags.zeroPad then PadZeros(body, width) else body
  }

  /** The signed text, before justification. */
  function FloatText(value: real, prec: nat, width: nat, flags: Flags): string {
    WithSign(UnsignedFloat(value, prec, width, flags), value < 0.0, width, flags)
  }

  /** Too large a value prints nothing, not even padding. */
  predicate TooLarge(value: real) { Abs(value) > THRES_MAX as real }

  // ----- rounding --------------------------------------------------------------------------

  lemma RoundAt(x: real, n: int, diff: real)
    requires x == n as real + diff && 0.0 <= diff < 1.0
    ensures RoundHalfEven(x) == if diff > 0.5 || (diff == 0.5 && n % 2 != 0) then n + 1 else n
  {
  }

  lemma Recombine(mag: real, p: nat, whole: int, frac: int, diff: real)
    requires Times10(mag - whole as real, p) == frac as real + diff
    ensures Times10(mag, p) == (Shift10(whole, p) + frac) as real + diff
  {
    Times10Add(mag - whole as real, whole as real, p);
    Times10Int(whole, p);
    assert mag == (mag - whole as real) + whole as real;
  }

  /** With at least one place, a tie is decided by the last place alone. */
  lemma RoundsFraction(mag: real, p: nat, whole: int, frac: int, diff: real)
    requires p > 0 && 0.0 <= diff < 1.0
    requires Times10(mag - whole as real, p) == frac as real + diff
    ensures RoundHalfEven(Times10(mag, p))
            == Shift10(whole, p) + if diff > 0.5 || (diff == 0.5 && frac % 2 == 1) then frac + 1 else frac
  {
    var n := Shift10(whole, p);
    TenDivides(whole, p);
    Recombine(mag, p, whole, frac, diff);
    assert (n + frac) % 2 == frac % 2;
    RoundAt(Times10(mag, p), n + frac, diff);
  }

  /** A tie of a dyadic number is never where rounding up would carry or turn an even zero odd. */
  lemma TieFraction(mag: real, p: nat, whole: int, frac: int)
    requires p > 0 && IsDyadic(mag)
    requires Times10(mag - whole as real, p) == frac as real + 0.5
    ensures frac != 0 && frac + 1 != Shift10(1, p)
  {
    FractionIsDyadic(mag, whole);
    TieIsInside(mag - whole as real, p, frac);
  }

  lemma {:induction false} Carry(whole: int, p: nat)
    ensures Shift10(whole + 1, p) == Shift10(whole, p) + Shift10(1, p)
  {
    if p > 0 { Carry(whole, p - 1); }
  }

  /** Whole part and fraction of a magnitude, rounded to `p` places. */
  method SplitAndRound(mag: real, p: nat) returns (whole: int, frac: int)
    requires mag >= 0.0 && IsDyadic(mag)
    ensures 0 <= whole <= mag.Floor + 1 && frac >= 0
    ensures p == 0 ==> whole == RoundHalfEven(mag)
    ensures p > 0 ==> frac < Shift10(1, p) && Shift10(whole, p) + frac == RoundHalfEven(Times10(mag, p))
  {
    whole := mag.Floor;
    var tmp := Times10(mag - whole as real, p);
    ScaledFraction(mag - whole as real, p);
    frac := tmp.Floor;
    var diff := tmp - frac as real;
    if p > 0 {
      RoundsFraction(mag, p, whole, frac, diff);
      if diff == 0.5 { TieFraction(mag, p, whole, frac); }
    }
    if diff > 0.5 {
      frac := frac + 1;
      if frac >= Shift10(1, p) {
        Carry(whole, p);
        frac := 0;
        whole := whole + 1;
      }
    } else if diff == 0.5 && (frac == 0 || frac % 2 == 1) {
      frac := frac + 1;
    }
    if p == 0 {
      diff := mag - whole as real;
      if diff > 0.5 {
        whole := whole + 1;
      } else if diff == 0.5 && whole % 2 == 1 {
        whole := whole + 1;
      }
    }
  }

  // ----- printing --------------------------------------------------------------------------

  lemma {:induction false} DecimalSplit(n: nat, p: nat, whole: nat, frac: nat)
    requires frac < Shift10(1, p) && n == Shift10(whole, p) + frac
    ensures DropDigits(n, p) == whole && LowDigits(n, p) == LowDigits(frac, p)
  {
    if p > 0 { DecimalSplit(n / 10, p - 1, whole, frac / 10); }
  }

  lemma {:induction false} LowZeros(p: nat)
    ensures LowDigits(0, p) == Zeros(p)
  {
    if p > 0 {
      LowZeros(p - 1);
      assert Zeros(p) == Zeros(p - 1) + "0";
    }
  }

  /** A fraction that fits its places is its numeral behind zeros. */
  lemma {:induction false} LowIsPadded(frac: nat, p: nat)
    requires p > 0 && frac < Shift10(1, p)
    ensures var d := Digits(frac, 10, false); |d| <= p && LowDigits(frac, p) == Zeros(p - |d|) + d
  {
    if frac < 10 {
      LowZeros(p - 1);
    } else {
      LowIsPadded(frac / 10, p - 1);
    }
  }

  lemma {:induction false} WholeFits(v: nat, n: nat)
    requires n > 0 && v < Shift10(1, n)
    ensures |Digits(v, 10, false)| <= n
  {
    if v >= 10 { WholeFits(v / 10, n - 1); }
  }

  lemma {:induction false} DropBound(n: nat, w: nat, p: nat)
    requires n <= Shift10(w, p)
    ensures DropDigits(n, p) <= w
  {
    if p > 0 { DropBound(n / 10, w, p - 1); }
  }

  /** A number that is printed at all fits the scratch buffer: ten digits, a point, nine places. */
  lemma DecimalFits(value: real, p: nat)
    requires !TooLarge(value) && p <= 9
    ensures |Decimal(Rounded(value, p), p)| <= 20
  {
    Times10Monotone(Abs(value), THRES_MAX as real, p);
    Times10Int(THRES_MAX, p);
    DropBound(Rounded(value, p), THRES_MAX, p);
    assert Shift10(1, 10) == 10_000_000_000;
    WholeFits(DropDigits(Rounded(value, p), p), 10);
  }

  method PutFraction(buf: array<char>, frac: nat, p: nat) returns (len: nat)
    requires buf.Length == SCRATCH && 0 < p <= 9 && frac < Shift10(1, p)
    modifies buf
    ensures len == p + 1 && Reverse(buf[..len]) == Fraction(frac, p)
  {
    LowIsPadded(frac, p);
    assert Reverse(buf[..0]) == "";
    len := PutDigits(buf, 0, frac, 10, false);
    len := PutZeros(buf, len, p);
    assert Reverse(buf[..len]) == LowDigits(frac, p);
    len := PutLead(buf, len, '.');
  }

  method PutDecimal(buf: array<char>, whole: nat, frac: nat, p: nat, ghost n: nat) returns (len: nat)
    requires buf.Length == SCRATCH && p <= 9 && whole <= THRES_MAX + 1
    requires if p == 0 then n == whole else frac < Shift10(1, p) && n == Shift10(whole, p) + frac
    modifies buf
    ensures len <= SCRATCH && Reverse(buf[..len]) == Decimal(n, p)
  {
    assert Shift10(1, 10) == 10_000_000_000;
    WholeFits(whole, 10);
    len := 0;
    assert Reverse(buf[..0]) == "";
    if p > 0 {
      DecimalSplit(n, p, whole, frac);
      len := PutFraction(buf, frac, p);
    }
    len := PutDigits(buf, len, whole, 10, false);
  }

  /** Prints `value` to `buffer` from `at` on, in at most `room` characters. */
  method PrintFloat(buffer: array<char>, at: nat, value: real, room: nat, prec: nat, width: nat, flags: Flags)
    returns (idx: nat)
    requires IsDyadic(value) && at + room <= buffer.Length
    modifies buffer
    ensures at <= idx <= at + room
    ensures buffer[..idx]
            == old(buffer[..at])
               + if TooLarge(value) then "" else Place(FloatText(value, prec, width, flags), room, width, flags)
  {
    var negative := value < 0.0;
    var mag := if negative then -value else value;
    MagnitudeIsDyadic(value);
    var p := if flags.precision then prec else 6;
    if p > 9 { p := 9; }
    var whole, frac := SplitAndRound(mag, p);
    if mag > THRES_MAX as real { return at; }
    var buf := new char[SCRATCH];
    var len := PutDecimal(buf, whole, frac, p, Rounded(value, p));
    if !flags.left && flags.zeroPad {
      len := PutZeros(buf, len, width);
    }
    len := PutSign(buf, len, negative, width, flags);
    assert buffer[..at] == old(buffer[..at]);
    idx := PutText(buffer, at, buf, len, room, width, flags);
  }

  lemma NegativeWhole(x: real)
    requires IsWhole(x)
    ensures IsWhole(-x)
  {
    var n := x.Floor;
    WholeInt(-n);
    assert -x == (-n) as real;
  }

  lemma MagnitudeIsDyadic(x: real)
    requires IsDyadic(x)
    ensures IsDyadic(Abs(x))
  {
    if x < 0.0 {
      var k: nat :| IsWhole(Times2(x, k));
      Times2Negate(x, k);
      NegativeWhole(Times2(x, k));
      assert IsWhole(Times2(-x, k));
    }
  }
}
