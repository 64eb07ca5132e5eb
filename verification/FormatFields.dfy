/** How a format is taken apart, written out: flags, stars, parameters, plain text; and what a cell is as a float. */
module FormatFields {
  import opened Basics
  import opened Text
  import opened Numerals
  import opened NumberLayout
  import opened Scaling
  import opened FormatSyntax
  import opened FormatRendering

  // ----- flags, width, precision -------------------------------------------------------------------

  /** `f` with what the characters of `s` ask for: '0' for zeros, '-' for the left side, '+' and ' ' for a sign,
      '#' for a prefix. */
  function Asked(s: string, f: Flags): Flags {
    f.(zeroPad := f.zeroPad || '0' in s, left := f.left || '-' in s, plus := f.plus || '+' in s,
       space := f.space || ' ' in s, hash := f.hash || '#' in s)
  }

  lemma AskedOne(c: char, s: string, f: Flags)
    requires c == '0' || c == '-' || c == '+' || c == ' ' || c == '#'
    ensures IsFlag(c) && Asked([c] + s, f) == Asked(s, SetFlag(f, c))
  {
    forall x: char
      ensures x in [c] + s <==> x == c || x in s
    {
    }
  }

  predicate AllFlags(s: string) {
    forall i :: 0 <= i < |s| ==> s[i] == '0' || s[i] == '-' || s[i] == '+' || s[i] == ' ' || s[i] == '#'
  }

  /** Flags count in any order and number, up to the first other character. */
  lemma {:induction false} FlagsSay(s: string, rest: string, f: Flags)
    requires AllFlags(s) && (rest == "" || !AllFlags([rest[0]]))
    ensures ScanFlags(s + rest, f) == (Asked(s, f), rest)
    decreases |s|
  {
    if s == "" {
      assert s + rest == rest;
      assert rest != "" ==> !IsFlag([rest[0]][0]);
    } else {
      assert (s + rest)[1..] == s[1..] + rest && s == [s[0]] + s[1..];
      AskedOne(s[0], s[1..], f);
      FlagsSay(s[1..], rest, SetFlag(f, s[0]));
      hide Asked;
    }
  }

  /** A star is read as one; a point without digits or star is precision zero. */
  lemma StarAndPoint(rest: string)
    ensures ScanAmount("*" + rest) == (Star, rest)
    ensures ScanPrecision(".*" + rest) == (Star, rest)
    ensures rest == "" || (rest[0] != '*' && !('0' <= rest[0] <= '9')) ==>
      ScanPrecision("." + rest) == (Number(0), rest)
    ensures rest == "" || rest[0] != '.' ==> ScanPrecision(rest) == (Absent, rest)
  {
    assert ("*" + rest)[1..] == rest;
    assert (".*" + rest)[1..] == "*" + rest;
    assert ("." + rest)[1..] == rest;
  }

  // ----- parameters --------------------------------------------------------------------------------

  lemma TakesValue(conv: char)
    ensures NeedsArg(conv) == (conv in "diuxXobfFcs")
  {
  }

  /** One parameter for each star and one for a conversion that prints a value. */
  lemma ArgsCounted(d: Directive)
    ensures ArgsUsed(d)
            == if !d.Field? then 0
               else (if d.width.Star? then 1 else 0) + (if d.prec.Star? then 1 else 0)
                    + if d.conv in "diuxXobfFcs" then 1 else 0
  {
  }

  /** A width below zero means the left side and its magnitude; a precision is taken modulo 2^32, and is there
      once a point is. */
  function Asks(d: Directive, w: int, places: nat): Spec
    requires d.Field?
  {
    Spec(d.flags.(left := d.flags.left || w < 0, precision := d.prec != Absent),
         if w < 0 then 0 - w else w, places, d.conv)
  }

  lemma ResolveMeans(d: Directive, args: seq<Arg>, param: nat, p: nat)
    requires d.Field? && param >= 1 && p == if d.width.Star? then param + 1 else param
    requires (d.width.Number? ==> d.width.n <= 0x7FFF_FFFF) && (d.prec.Number? ==> d.prec.n <= 0x7FFF_FFFF)
    requires d.width.Star? ==> param <= |args| && args[param - 1].cell != -0x8000_0000
    requires d.prec.Star? ==> p <= |args|
    ensures var w: int := if d.width.Star? then args[param - 1].cell else if d.width.Number? then d.width.n else 0;
            var places := if d.prec.Star? then args[p - 1].cell % 0x1_0000_0000
                          else if d.prec.Number? then d.prec.n else 0;
            Resolve(d, args, param) == Ready(Asks(d, w, places))
  {
    if d.prec.Star? { WordOf(args[p - 1].cell); }
    hide Unsigned;
  }

  lemma ResolvedPrints(d: Directive, args: seq<Arg>, param: nat, q: nat, spec: Spec)
    requires d.Field? && param >= 1 && Resolve(d, args, param) == Ready(spec)
    requires q == param + (if d.width.Star? then 1 else 0) + if d.prec.Star? then 1 else 0
    ensures FullOne(d, args, param)
            == if !NeedsArg(d.conv) then FullField(spec, NO_ARG)
               else if |args| < q then MissingArg
               else FullField(spec, args[q - 1])
  {
    hide FullField, NeedsArg, Resolve;
  }

  /** A starred width comes first, then a starred precision, then the value. */
  lemma FieldMeans(d: Directive, args: seq<Arg>, param: nat, p: nat, q: nat)
    requires d.Field? && param >= 1
    requires p == (if d.width.Star? then param + 1 else param) && q == if d.prec.Star? then p + 1 else p
    requires (d.width.Number? ==> d.width.n <= 0x7FFF_FFFF) && (d.prec.Number? ==> d.prec.n <= 0x7FFF_FFFF)
    requires d.width.Star? ==> param <= |args| && args[param - 1].cell != -0x8000_0000
    requires d.prec.Star? ==> p <= |args|
    ensures var w: int := if d.width.Star? then args[param - 1].cell else if d.width.Number? then d.width.n else 0;
            var places := if d.prec.Star? then args[p - 1].cell % 0x1_0000_0000
                          else if d.prec.Number? then d.prec.n else 0;
            FullOne(d, args, param)
            == if d.conv !in "diuxXobfFcs" then FullField(Asks(d, w, places), NO_ARG)
               else if |args| < q then MissingArg
               else FullField(Asks(d, w, places), args[q - 1])
  {
    ResolveMeans(d, args, param, p);
    TakesValue(d.conv);
    hide FullField, FullOne, Resolve, Asks, NeedsArg;
    ResolvedPrints(d, args, param, q, Resolve(d, args, param).spec);
  }

  /** Anything else does not print: a number past `int`, the smallest cell as a width, a star without parameter. */
  lemma FieldFails(flags: Flags, width: Amount, prec: Amount, conv: char, args: seq<Arg>, param: nat)
    requires param >= 1
    requires || (width.Number? && width.n > 0x7FFF_FFFF) || (prec.Number? && prec.n > 0x7FFF_FFFF)
             || (width.Star? && (|args| < param || args[param - 1].cell == -0x8000_0000))
             || (prec.Star? && |args| < param + if width.Star? then 1 else 0)
    ensures !FullOne(Field(flags, width, prec, conv), args, param).Text?
  {
  }

  // ----- plain text --------------------------------------------------------------------------------

  /** `s` with every '%' doubled. */
  function Escape(s: string): string {
    if s == "" then "" else (if s[0] == '%' then "%%" else [s[0]]) + Escape(s[1..])
  }

  lemma ScanEscaped(c: char, rest: string)
    ensures var f := (if c == '%' then "%%" else [c]) + rest;
            ScanDirective(f) == (if c == '%' then Field(NO_FLAGS, Absent, Absent, '%') else Literal(c), rest)
  {
    if c == '%' {
      var f := "%%" + rest;
      assert f[1..] == "%" + rest;
      assert ("%" + rest)[1..] == rest;
      StarAndPoint("%" + rest);
    } else {
      assert ([c] + rest)[1..] == rest;
    }
  }

  lemma EscapedOne(c: char, args: seq<Arg>, param: nat)
    requires param >= 1
    ensures var d := if c == '%' then Field(NO_FLAGS, Absent, Absent, '%') else Literal(c);
            FullOne(d, args, param) == Text([c]) && ArgsUsed(d) == 0
  {
    TakesValue(c);
    assert FullField(Spec(NO_FLAGS, 0, 0, '%'), NO_ARG) == Text("%");
    hide FullField, NeedsArg;
  }

  /** Text whose '%' are doubled prints as it is and takes no parameter. */
  lemma {:induction false} EscapedPrintsItself(s: string, args: seq<Arg>, param: nat)
    requires param >= 1
    ensures Render(Parse(Escape(s)), args, param) == Text(s)
    decreases |s|
  {
    if s != "" {
      var rest := Escape(s[1..]);
      var d := if s[0] == '%' then Field(NO_FLAGS, Absent, Absent, '%') else Literal(s[0]);
      ScanEscaped(s[0], rest);
      EscapedOne(s[0], args, param);
      ParseFirst(Escape(s));
      hide FullOne, ArgsUsed, ScanDirective, Parse, Render;
      EscapedPrintsItself(s[1..], args, param);
      RenderFirst(d, Parse(rest), args, param, s[0]);
      assert [s[0]] + s[1..] == s;
    }
  }

  lemma ParseFirst(s: string)
    requires s != ""
    ensures var (d, rest) := ScanDirective(s); Parse(s) == [d] + Parse(rest)
  {
  }

  lemma RenderFirst(d: Directive, ds: seq<Directive>, args: seq<Arg>, param: nat, c: char)
    requires param >= 1 && FullOne(d, args, param) == Text([c]) && ArgsUsed(d) == 0
    ensures Render([d] + ds, args, param) == Prepend([c], Render(ds, args, param))
  {
    hide FullOne, ArgsUsed;
    assert ([d] + ds)[1..] == ds;
  }

  // ----- floats in cells ---------------------------------------------------------------------------

  lemma {:induction false} Times2Both(x: real, a: nat, b: nat)
    ensures Times2(x, a + b) == Times2(Times2(x, a), b)
  {
    if b > 0 { Times2Both(x, a, b - 1); }
  }

  lemma {:induction false} Shift2Both(n: int, a: nat, b: nat)
    ensures Shift2(n, a + b) == Shift2(Shift2(n, a), b)
  {
    if b > 0 { Shift2Both(n, a, b - 1); }
  }

  /** The magnitude of a float: `n` * 2^(`e` - 150). */
  lemma MagnitudeScaled(n: nat, e: nat)
    ensures var mag := if e >= 150 then Shift2(n, e - 150) as real else Halve(n as real, 150 - e);
            Times2(mag, 150) == Shift2(n, e) as real
  {
    if e >= 150 {
      Shift2Both(n, e - 150, 150);
      Times2Int(Shift2(n, e - 150), 150);
    } else {
      HalveIsScaled(n as real, 150 - e);
      Times2Both(Halve(n as real, 150 - e), 150 - e, e);
      Times2Int(n, e);
    }
  }

  lemma CellBits(c: Cell, s: nat, e: nat, m: nat)
    requires s <= 1 && e <= 255 && m < 0x80_0000
    requires c % 0x1_0000_0000 == s * 0x8000_0000 + e * 0x80_0000 + m
    ensures c < 0 <==> s == 1
    ensures Exponent(c) == e && Significand(c) == if e == 0 then m else 0x80_0000 + m
  {
    WordOf(c);
    var u := Unsigned(c);
    assert u / 0x80_0000 == s * 256 + e;
  }

  lemma WordOf(c: Cell)
    ensures Unsigned(c) == c % 0x1_0000_0000
  {
  }

  /** A cell whose 32 bits are a sign, eight bits of exponent and 23 of fraction is the IEEE 754 binary32 value:
      (2^23 + m) * 2^(e - 150), without the hidden bit and with e = 1 for e = 0, and no value for e = 255. */
  lemma CellIsFloat(c: Cell, s: nat, e: nat, m: nat)
    requires s <= 1 && e <= 255 && m < 0x80_0000
    requires c % 0x1_0000_0000 == s * 0x8000_0000 + e * 0x80_0000 + m
    ensures IsFinite(c) <==> e < 255
    ensures e < 255 ==>
      var significand := if e == 0 then m else 0x80_0000 + m;
      var exponent := if e == 0 then 1 else e;
      var n := Shift2(significand, exponent);
      Times2(CellToFloat(c), 150) == (if s == 1 then 0 - n else n) as real
  {
    CellBits(c, s, e, m);
    if e < 255 {
      var significand, exponent := if e == 0 then m else 0x80_0000 + m, if e == 0 then 1 else e;
      hide Exponent, Significand, Halve, Shift2, Times2;
      MagnitudeScaled(significand, exponent);
      var mag := if exponent >= 150 then Shift2(significand, exponent - 150) as real
                 else Halve(significand as real, 150 - exponent);
      assert CellToFloat(c) == if c < 0 then -mag else mag;
      Times2Negate(mag, 150);
    }
  }
}
