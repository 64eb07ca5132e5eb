/** Format strings: %[flags][width][.precision]conversion. */
module FormatSyntax {
  import opened Basics
  import opened Text
  import opened Numerals
  import opened NumberLayout

  /** A C string: the terminator is not part of it. */
  type CString = s: string | '\0' !in s witness ""

  datatype Amount = Absent | Number(n: nat) | Star

  /** `Dangling` is a '%' that runs into the terminator before its conversion character. */
  datatype Directive =
    | Literal(c: char)
    | Field(flags: Flags, width: Amount, prec: Amount, conv: char)
    | Dangling

  predicate IsFlag(c: char) { c == '0' || c == '-' || c == '+' || c == ' ' || c == '#' }

  function SetFlag(flags: Flags, c: char): Flags
    requires IsFlag(c)
  {
    match c
    case '0' => flags.(zeroPad := true)
    case '-' => flags.(left := true)
    case '+' => flags.(plus := true)
    case ' ' => flags.(space := true)
    case _ => flags.(hash := true)
  }

  predicate IsDigit(c: char) { '0' <= c <= '9' }

  function ScanFlags(s: string, flags: Flags): (r: (Flags, string))
    ensures |r.1| <= |s|
  {
    if s != "" && IsFlag(s[0]) then ScanFlags(s[1..], SetFlag(flags, s[0])) else (flags, s)
  }

  /** A run of digits behind the number read so far. */
  function ScanNumber(s: string, n: nat): (r: (nat, string))
    ensures |r.1| <= |s|
  {
    if s != "" && IsDigit(s[0]) then ScanNumber(s[1..], 10 * n + DigitValue(s[0])) else (n, s)
  }

  /** Digits, a star, or nothing. */
  function ScanAmount(s: string): (r: (Amount, string))
    ensures |r.1| <= |s|
  {
    if s != "" && IsDigit(s[0]) then var (n, rest) := ScanNumber(s, 0); (Number(n), rest)
    else if s != "" && s[0] == '*' then (Star, s[1..])
    else (Absent, s)
  }

  /** A point without digits or star means precision zero. */
  function ScanPrecision(s: string): (r: (Amount, string))
    ensures |r.1| <= |s|
  {
    if s != "" && s[0] == '.' then
      var (amount, rest) := ScanAmount(s[1..]);
      (if amount == Absent then Number(0) else amount, rest)
    else (Absent, s)
  }

  function ScanField(s: string): (r: (Directive, string))
    ensures |r.1| <= |s|
  {
    var (flags, s1) := ScanFlags(s, NO_FLAGS);
    var (width, s2) := ScanAmount(s1);
    var (prec, s3) := ScanPrecision(s2);
    if s3 == "" then (Dangling, "") else (Field(flags, width, prec, s3[0]), s3[1..])
  }

  /** The first directive; every directive uses up some of the format. */
  function ScanDirective(s: string): (r: (Directive, string))
    requires s != ""
    ensures |r.1| < |s|
  {
    if s[0] != '%' then (Literal(s[0]), s[1..]) else ScanField(s[1..])
  }

  function Parse(s: string): seq<Directive>
    decreases |s|
  {
    if s == "" then [] else var (d, rest) := ScanDirective(s); [d] + Parse(rest)
  }

  // ----- writing formats --------------------------------------------------------------------

  // Each writer puts its part in front of the rest of the format.

  function WriteFlag(c: char, on: bool, rest: string): string { if on then [c] + rest else rest }

  function WriteFlags(f: Flags, rest: string): string {
    WriteFlag('0', f.zeroPad, WriteFlag('-', f.left, WriteFlag('+', f.plus,
      WriteFlag(' ', f.space, WriteFlag('#', f.hash, rest)))))
  }

  function WriteAmount(a: Amount, rest: string): string {
    match a
    case Absent => rest
    case Number(n) => Digits(n, 10, false) + rest
    case Star => "*" + rest
  }

  function WritePrecision(a: Amount, rest: string): string {
    if a == Absent then rest else "." + WriteAmount(a, rest)
  }

  function Write(d: Directive, rest: string): string {
    match d
    case Literal(c) => [c] + rest
    case Field(flags, width, prec, conv) =>
      "%" + WriteFlags(flags, WriteAmount(width, WritePrecision(prec, [conv] + rest)))
    case Dangling => "%"
  }

  function Unparse(ds: seq<Directive>): string {
    if ds == [] then "" else Write(ds[0], Unparse(ds[1..]))
  }

  /** A directive in the form the format syntax can express: a width never starts with the flag '0',
      the conversion is not taken for an earlier part. */
  predicate Canonical(d: Directive) {
    match d
    case Literal(c) => c != '%'
    case Field(flags, width, prec, conv) =>
      && !flags.upper && !flags.precision
      && (width.Number? ==> width.n > 0)
      && IsConversion(conv)
    case Dangling => false
  }

  predicate IsConversion(c: char) { !IsFlag(c) && !IsDigit(c) && c != '*' && c != '.' }

  lemma ScanWrittenFlag(c: char, on: bool, flags: Flags, rest: string)
    requires IsFlag(c)
    ensures ScanFlags(WriteFlag(c, on, rest), flags) == ScanFlags(rest, if on then SetFlag(flags, c) else flags)
  {
  }

  lemma ScanWrittenFlags(f: Flags, rest: string)
    requires !f.upper && !f.precision && rest != "" && !IsFlag(rest[0])
    ensures ScanFlags(WriteFlags(f, rest), NO_FLAGS) == (f, rest)
  {
    var f1 := NO_FLAGS.(zeroPad := f.zeroPad);
    var f2 := f1.(left := f.left);
    var f3 := f2.(plus := f.plus);
    var f4 := f3.(space := f.space);
    var r4 := WriteFlag('#', f.hash, rest);
    var r3 := WriteFlag(' ', f.space, r4);
    var r2 := WriteFlag('+', f.plus, r3);
    var r1 := WriteFlag('-', f.left, r2);
    ScanWrittenFlag('0', f.zeroPad, NO_FLAGS, r1);
    ScanWrittenFlag('-', f.left, f1, r2);
    ScanWrittenFlag('+', f.plus, f2, r3);
    ScanWrittenFlag(' ', f.space, f3, r4);
    ScanWrittenFlag('#', f.hash, f4, rest);
  }

  /** Reading a decimal numeral from the front agrees with its value. */
  lemma {:induction false} ScanDigits(s: string, n: nat, rest: string)
    requires forall i :: 0 <= i < |s| ==> IsDigit(s[i])
    ensures ScanNumber(s + rest, n) == ScanNumber(rest, ShiftIn(n, s))
    decreases |s|
  {
    if s == "" {
      assert s + rest == rest;
    } else {
      assert (s + rest)[1..] == s[1..] + rest;
      ScanDigits(s[1..], 10 * n + DigitValue(s[0]), rest);
    }
  }

  /** `n` followed by the digits `s`. */
  function ShiftIn(n: nat, s: string): nat
    requires forall i :: 0 <= i < |s| ==> IsDigit(s[i])
    decreases |s|
  {
    if s == "" then n else assert IsDigit(s[0]); ShiftIn(10 * n + DigitValue(s[0]), s[1..])
  }

  lemma {:induction false} ShiftInLast(n: nat, s: string, c: char)
    requires (forall i :: 0 <= i < |s| ==> IsDigit(s[i])) && IsDigit(c)
    ensures ShiftIn(n, s + [c]) == 10 * ShiftIn(n, s) + DigitValue(c)
    decreases |s|
  {
    if s == "" {
      assert (s + [c])[1..] == "";
    } else {
      assert (s + [c])[1..] == s[1..] + [c];
      ShiftInLast(10 * n + DigitValue(s[0]), s[1..], c);
    }
  }

  lemma {:induction false} DecimalDigits(n: nat)
    ensures forall i :: 0 <= i < |Digits(n, 10, false)| ==> IsDigit(Digits(n, 10, false)[i])
    ensures ShiftIn(0, Digits(n, 10, false)) == n
    ensures n > 0 ==> Digits(n, 10, false)[0] != '0'
  {
    if n >= 10 {
      DecimalDigits(n / 10);
      ShiftInLast(0, Digits(n / 10, 10, false), DigitChar(n % 10, false));
    }
  }

  lemma ScanWrittenAmount(a: Amount, rest: string)
    requires rest != "" && !IsDigit(rest[0]) && rest[0] != '*'
    ensures ScanAmount(WriteAmount(a, rest)) == (a, rest)
  {
    match a
    case Absent =>
    case Star => assert ("*" + rest)[1..] == rest;
    case Number(n) =>
      DecimalDigits(n);
      ScanDigits(Digits(n, 10, false), 0, rest);
      assert WriteAmount(a, rest)[0] == Digits(n, 10, false)[0];
  }

  lemma ScanWrittenPrecision(a: Amount, rest: string)
    requires rest != "" && IsConversion(rest[0])
    ensures ScanPrecision(WritePrecision(a, rest)) == (a, rest)
  {
    if a != Absent {
      assert WritePrecision(a, rest)[1..] == WriteAmount(a, rest);
      ScanWrittenAmount(a, rest);
    }
  }

  /** What follows the flags is not taken for a flag, what follows the width not for part of it. */
  lemma PartsKeepApart(width: Amount, prec: Amount, s3: string)
    requires (width.Number? ==> width.n > 0) && s3 != "" && IsConversion(s3[0])
    ensures var s2 := WritePrecision(prec, s3); s2 != "" && !IsFlag(s2[0]) && !IsDigit(s2[0]) && s2[0] != '*'
    ensures var s1 := WriteAmount(width, WritePrecision(prec, s3)); s1 != "" && !IsFlag(s1[0])
  {
    if width.Number? {
      DecimalDigits(width.n);
      assert WriteAmount(width, WritePrecision(prec, s3))[0] == Digits(width.n, 10, false)[0];
    }
  }

  lemma ScanWritten(d: Directive, rest: string)
    requires Canonical(d)
    ensures ScanDirective(Write(d, rest)) == (d, rest)
  {
    if d.Literal? {
      assert ([d.c] + rest)[1..] == rest;
    } else {
      ScanWrittenField(d.flags, d.width, d.prec, d.conv, rest);
      assert Write(d, rest)[1..]
          == WriteFlags(d.flags, WriteAmount(d.width, WritePrecision(d.prec, [d.conv] + rest)));
    }
  }

  lemma ScanWrittenField(flags: Flags, width: Amount, prec: Amount, conv: char, rest: string)
    requires Canonical(Field(flags, width, prec, conv))
    ensures ScanField(WriteFlags(flags, WriteAmount(width, WritePrecision(prec, [conv] + rest))))
            == (Field(flags, width, prec, conv), rest)
  {
    var s3 := [conv] + rest;
    var s2 := WritePrecision(prec, s3);
    PartsKeepApart(width, prec, s3);
    ScanWrittenFlags(flags, WriteAmount(width, s2));
    ScanWrittenAmount(width, s2);
    ScanWrittenPrecision(prec, s3);
    assert s3[1..] == rest;
  }

  /** Parsing undoes writing. */
  lemma {:induction false} ParseUnparse(ds: seq<Directive>)
    requires forall i :: 0 <= i < |ds| ==> Canonical(ds[i])
    ensures Parse(Unparse(ds)) == ds
  {
    if ds != [] {
      ScanWritten(ds[0], Unparse(ds[1..]));
      ParseUnparse(ds[1..]);
    }
  }
}
