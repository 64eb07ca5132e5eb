/** Positional numerals: the digits a number prints as, and the number a digit string denotes. */
module Numerals {
  import opened Basics
  import opened Text

  function DigitChar(d: nat, upper: bool): (c: char)
    requires d < 16
    ensures DigitValue(c) == d
  {
    if d < 10 then '0' + d as char else (if upper then 'A' else 'a') + (d - 10) as char
  }

  /** The value of a digit character, -1 for any other character. */
  function DigitValue(c: char): (d: int)
    ensures -1 <= d < 16
  {
    if '0' <= c <= '9' then c as int - '0' as int
    else if 'a' <= c <= 'f' then c as int - 'a' as int + 10
    else if 'A' <= c <= 'F' then c as int - 'A' as int + 10
    else -1
  }

  predicate IsNumeral(s: string, base: nat) {
    forall i :: 0 <= i < |s| ==> 0 <= DigitValue(s[i]) < base
  }

  /** The number denoted by a numeral, most significant digit first. */
  function Value(s: string, base: nat): nat
    requires IsNumeral(s, base)
  {
    if s == "" then 0 else Value(s[..|s| - 1], base) * base + DigitValue(s[|s| - 1])
  }

  /** The shortest numeral of `v`; zero is the one digit "0". */
  function Digits(v: nat, base: nat, upper: bool): (s: string)
    requires 2 <= base <= 16
    ensures |s| >= 1 && IsNumeral(s, base)
    decreases v
  {
    if v < base then [DigitChar(v, upper)] else Digits(v / base, base, upper) + [DigitChar(v % base, upper)]
  }

  lemma {:induction false} DigitsDenote(v: nat, base: nat, upper: bool)
    requires 2 <= base <= 16
    ensures Value(Digits(v, base, upper), base) == v
  {
    var last := DigitChar(v % base, upper);
    DivMod(v, base);
    DigitsStep(v, base, upper);
    if v / base == 0 {
      assert "" + [last] == [last];
      Snoc("", last, base);
    } else {
      DigitsDenote(v / base, base, upper);
      Snoc(Digits(v / base, base, upper), last, base);
    }
  }

  lemma Snoc(s: string, c: char, base: nat)
    requires IsNumeral(s, base) && 0 <= DigitValue(c) < base
    ensures IsNumeral(s + [c], base) && Value(s + [c], base) == Value(s, base) * base + DigitValue(c)
  {
  }

  lemma DivMod(v: nat, base: nat)
    requires base >= 1
    ensures (v / base) * base + v % base == v && 0 <= v % base < base
  {
  }

  /** One turn of the digit loop: the last digit, then the digits of the quotient if any. */
  lemma DigitsStep(v: nat, base: nat, upper: bool)
    requires 2 <= base <= 16
    ensures v / base <= v / 2
    ensures Digits(v, base, upper)
            == (if v / base == 0 then "" else Digits(v / base, base, upper)) + [DigitChar(v % base, upper)]
  {
    HalfOrLess(v, base);
    if v < base {
      SmallQuotient(v, base);
    } else {
      DivMod(v, base);
    }
  }

  lemma SmallQuotient(v: nat, base: nat)
    requires v < base
    ensures v / base == 0 && v % base == v
  {
  }

  /** Only zero has a numeral with leading digit zero. */
  lemma {:induction false} DigitsLead(v: nat, base: nat, upper: bool)
    requires 2 <= base <= 16
    ensures v > 0 ==> DigitValue(Digits(v, base, upper)[0]) > 0
  {
    if v >= base {
      DigitsLead(v / base, base, upper);
    }
  }

  lemma {:induction false} LeadingZeros(k: int, s: string, base: nat)
    requires 2 <= base <= 16 && IsNumeral(s, base)
    ensures IsNumeral(Zeros(k) + s, base) && Value(Zeros(k) + s, base) == Value(s, base)
    decreases |s|, Max(k, 0)
  {
    var t := Zeros(k) + s;
    if s != "" {
      assert t[..|t| - 1] == Zeros(k) + s[..|s| - 1];
      LeadingZeros(k, s[..|s| - 1], base);
    } else if k > 0 {
      assert t[..|t| - 1] == Zeros(k - 1) + s;
      LeadingZeros(k - 1, s, base);
    } else {
      assert t == s;
    }
  }

  /** Losing a nonzero leading digit loses value. */
  lemma {:induction false} DropLead(s: string, base: nat)
    requires 2 <= base && s != "" && IsNumeral(s, base)
    ensures Value(s[1..], base) <= Value(s, base)
    ensures DigitValue(s[0]) > 0 ==> Value(s[1..], base) < Value(s, base)
  {
    if |s| > 1 {
      var t := s[..|s| - 1];
      DropLead(t, base);
      assert s[1..][..|s| - 2] == t[1..];
      Scale(Value(t[1..], base), Value(t, base), base);
    }
  }

  /** Losing leading digits, the first of them nonzero, loses value. */
  lemma {:induction false} DropLeads(s: string, base: nat, n: nat)
    requires 2 <= base && n <= |s| && IsNumeral(s, base)
    ensures Value(s[n..], base) <= Value(s, base)
    ensures n > 0 && DigitValue(s[0]) > 0 ==> Value(s[n..], base) < Value(s, base)
  {
    if n > 0 {
      DropLead(s, base);
      assert s[1..][n - 1..] == s[n..];
      DropLeads(s[1..], base, n - 1);
    } else {
      assert s[n..] == s;
    }
  }

  lemma Scale(a: nat, b: nat, m: nat)
    requires a <= b
    ensures a * m <= b * m && (a < b && m >= 1 ==> a * m < b * m)
  {
  }

  function Pow2(n: nat): nat { if n == 0 then 1 else 2 * Pow2(n - 1) }

  lemma TwiceProduct(x: nat, y: nat)
    ensures (2 * x) * y == 2 * (x * y)
  {
  }

  lemma {:induction false} Pow2Add(a: nat, b: nat)
    ensures Pow2(a + b) == Pow2(a) * Pow2(b)
  {
    if a > 0 {
      Pow2Add(a - 1, b);
      assert Pow2(a) == 2 * Pow2(a - 1) && Pow2(a + b) == 2 * Pow2(a - 1 + b);
      hide Pow2;
      TwiceProduct(Pow2(a - 1), Pow2(b));
    }
  }

  lemma Pow2Word()
    ensures Pow2(32) == 0x1_0000_0000
  {
    assert Pow2(2) == 4;
    Pow2Add(2, 2);
    Pow2Add(4, 4);
    Pow2Add(8, 8);
    Pow2Add(16, 16);
  }

  /** A number of `n` bits has at most `n` digits in any base. */
  lemma {:induction false} DigitsFit(v: nat, base: nat, upper: bool, n: nat)
    requires 2 <= base <= 16 && 1 <= n && v < Pow2(n)
    ensures |Digits(v, base, upper)| <= n
  {
    if v >= base {
      assert n > 1;
      HalfOrLess(v, base);
      DigitsFit(v / base, base, upper, n - 1);
    }
  }

  lemma HalfOrLess(v: nat, base: nat)
    requires base >= 2
    ensures v / base <= v / 2
  {
    DivMod(v, base);
    Scale(2, base, v / base);
  }
}
