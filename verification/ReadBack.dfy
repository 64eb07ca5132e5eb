/** Reading printed integers back, and exactly when that gives the printed value. */
module ReadBack {
  import opened Basics
  import opened Text
  import opened Numerals
  import opened NumberLayout
  import opened IntPrinter

  predicate IsSign(c: char) { c == '+' || c == '-' }

  /** An optional sign, then a nonempty numeral and nothing else. */
  function ReadCore(t: string, base: nat): Option<int> {
    var digits := if t != "" && IsSign(t[0]) then t[1..] else t;
    if digits == "" || !IsNumeral(digits, base) then None
    else Some(Signed(Value(digits, base), t[0] == '-'))
  }

  function ReadInt(text: string, base: nat): Option<int> { ReadCore(Strip(text), base) }

  function Signed(value: nat, negative: bool): int { if negative then 0 - value else value }

  /** The sign and digits without the space that may stand for the sign. */
  function Core(negative: bool, flags: Flags, digits: string): string {
    var sign := Sign(negative, flags);
    if sign == " " then digits else sign + digits
  }

  lemma SignCore(c: char, digits: string, base: nat)
    requires IsSign(c) && IsNumeral(digits, base)
    ensures ReadCore([c] + digits, base)
            == if digits == "" then None else Some(Signed(Value(digits, base), c == '-'))
  {
  }

  /** A numeral does not start with a sign. */
  lemma UnsignedCore(digits: string, base: nat)
    requires IsNumeral(digits, base) && base <= 16
    ensures ReadCore(digits, base) == if digits == "" then None else Some(Value(digits, base))
  {
    assert digits != "" ==> 0 <= DigitValue(digits[0]);
  }

  lemma ReadSigned(negative: bool, flags: Flags, digits: string, base: nat)
    requires IsNumeral(digits, base) && base <= 16
    ensures ReadCore(Core(negative, flags, digits), base)
            == if digits == "" then None else Some(Signed(Value(digits, base), negative))
  {
    hide ReadCore, Value, IsNumeral;
    if negative || flags.plus {
      SignCore(if negative then '-' else '+', digits, base);
    } else {
      UnsignedCore(digits, base);
      assert Core(negative, flags, digits) == digits;
    }
  }

  /** Padding and the space that may stand for the sign come off; the core stays. */
  lemma StripSign(a: int, negative: bool, flags: Flags, body: string, b: int)
    requires body != "" ==> body[0] != ' ' && body[|body| - 1] != ' '
    ensures Strip(Spaces(a) + (Sign(negative, flags) + body) + Spaces(b)) == Core(negative, flags, body)
  {
    var sign, core := Sign(negative, flags), Core(negative, flags, body);
    var a' := if sign == " " then Max(a, 0) + 1 else a;
    assert Spaces(a) + (sign + body) + Spaces(b) == Spaces(a') + core + Spaces(b);
    if core == "" {
      AllSpaces(a', b);
    } else {
      assert core[|core| - 1] == if body != "" then body[|body| - 1] else sign[0];
      StripPadded(a', core, b);
    }
  }

  lemma AllSpaces(a: int, b: int)
    ensures Strip(Spaces(a) + "" + Spaces(b)) == ""
  {
  }

  lemma JustifyPads(text: string, width: nat, flags: Flags)
    ensures exists a: int, b: int :: Justify(text, width, flags) == Spaces(a) + text + Spaces(b)
  {
    var fill := width - |text|;
    if flags.left {
      assert Justify(text, width, flags) == Spaces(0) + text + Spaces(fill);
    } else if flags.zeroPad {
      assert Justify(text, width, flags) == Spaces(0) + text + Spaces(0);
    } else {
      assert Justify(text, width, flags) == Spaces(fill) + text + Spaces(0);
    }
  }

  lemma ReadJustified(negative: bool, digits: string, width: nat, flags: Flags, base: nat)
    requires IsNumeral(digits, base) && base <= 16
    ensures ReadInt(Justify(Sign(negative, flags) + digits, width, flags), base)
            == if digits == "" then None else Some(Signed(Value(digits, base), negative))
  {
    JustifyPads(Sign(negative, flags) + digits, width, flags);
    var a: int, b: int :|
      Justify(Sign(negative, flags) + digits, width, flags) == Spaces(a) + (Sign(negative, flags) + digits) + Spaces(b);
    assert digits != "" ==> 0 <= DigitValue(digits[0]) && 0 <= DigitValue(digits[|digits| - 1]);
    StripSign(a, negative, flags, digits, b);
    ReadSigned(negative, flags, digits, base);
  }

  /** Length of digits and leading zeros together. */
  function BodyLength(digits: nat, prec: nat, width: nat, flags: Flags): nat {
    if flags.left then digits
    else Max(digits, Min(SCRATCH, if flags.zeroPad then Max(prec, width) else prec))
  }

  /** `body` is zeros in front of the digits of `value`. */
  ghost predicate IsBody(body: string, digits: string, value: nat, base: nat) {
    && base <= 16
    && IsNumeral(digits, base)
    && |digits| <= |body| <= SCRATCH
    && body == Zeros(|body| - |digits|) + digits
    && Value(digits, base) == value
    && (if value == 0 then |digits| <= 1 else digits != "" && DigitValue(digits[0]) > 0)
  }

  lemma DigitsAreBody(value: nat, base: nat, flags: Flags)
    requires IsBase(base) && value < WORD
    ensures var digits := IntDigits(value, base, flags); IsBody(digits, digits, value, base)
  {
    var digits := IntDigits(value, base, flags);
    assert Value("", base) == 0;
    hide Value, IsNumeral, Digits, Repeat;
    NoZeros(digits);
    IntDigitsFit(value, base, flags);
    if digits != "" {
      DigitsDenote(value, base, flags.upper);
      DigitsLead(value, base, flags.upper);
    }
  }

  lemma PadZerosKeepsBody(body: string, digits: string, value: nat, base: nat, target: nat)
    requires IsBody(body, digits, value, base)
    ensures var r := PadZeros(body, target);
            |r| == Max(|body|, Min(target, SCRATCH)) && IsBody(r, digits, value, base)
  {
  }

  lemma IntBodyShape(value: nat, base: nat, prec: nat, width: nat, flags: Flags)
    requires IsBase(base) && value < WORD
    ensures var digits, body := IntDigits(value, base, flags), IntBody(value, base, prec, width, flags);
            && |body| == BodyLength(|digits|, prec, width, flags)
            && IsBody(body, digits, value, base)
  {
    var digits := IntDigits(value, base, flags);
    DigitsAreBody(value, base, flags);
    if !flags.left {
      PadZerosKeepsBody(digits, digits, value, base, prec);
      PadZerosKeepsBody(PadZeros(digits, prec), digits, value, base, width);
    }
  }

  lemma BodyDenotes(body: string, digits: string, value: nat, base: nat)
    requires IsBody(body, digits, value, base) && base >= 2
    ensures IsNumeral(body, base) && Value(body, base) == value
  {
    LeadingZeros(|body| - |digits|, digits, base);
  }

  /** Dropping the lead of the body keeps the value just when the lead is padding. */
  lemma DisplacedLead(body: string, digits: string, value: nat, base: nat)
    requires IsBody(body, digits, value, base) && base >= 2 && body != ""
    ensures IsNumeral(body[1..], base)
    ensures body[1..] != "" && Value(body[1..], base) == value <==> |body| > Max(|digits|, 1)
  {
    BodyDenotes(body, digits, value, base);
    if |body| > |digits| {
      assert body[1..] == Zeros(|body| - |digits| - 1) + digits;
      LeadingZeros(|body| - |digits| - 1, digits, base);
    } else {
      assert body == digits;
      DropLead(digits, base);
    }
  }

  /** A caller's test for a faithful print: there is something to print; a sign does not displace a
      digit, which it does when the digits alone fill the width; and a full scratch buffer does not
      swallow a minus. */
  predicate Readable(len: nat, digits: nat, negative: bool, width: nat, flags: Flags) {
    && len > 0
    && (Sign(negative, flags) != "" && len == width ==> len > Max(digits, 1))
    && (len == SCRATCH != width ==> !negative)
  }

  lemma SignedRoundTrip(body: string, digits: string, value: nat, negative: bool, base: nat, width: nat, flags: Flags)
    requires IsBody(body, digits, value, base) && base >= 2
    requires SignHasRoom(body, negative, width, flags) && (negative ==> value > 0)
    ensures ReadInt(Justify(WithSign(body, negative, width, flags), width, flags), base)
            == Some(Signed(value, negative))
            <==> Readable(|body|, |digits|, negative, width, flags)
  {
    BodyDenotes(body, digits, value, base);
    hide ReadInt, Justify, Value, IsNumeral;
    if Sign(negative, flags) != "" && |body| == width {
      DisplacedLead(body, digits, value, base);
      ReadJustified(negative, body[1..], width, flags, base);
    } else if |body| < SCRATCH {
      ReadJustified(negative, body, width, flags, base);
    } else {
      ReadPlain(body, width, flags, base);
    }
  }

  /** Integer printing reads back exactly when `Readable` says so. */
  lemma IntRoundTrip(value: nat, negative: bool, base: nat, prec: nat, width: nat, flags: Flags)
    requires IntPrintable(value, negative, base, prec, width, flags)
    requires !flags.hash && (negative ==> value > 0)
    ensures var digits := |IntDigits(value, base, flags)|;
            ReadInt(Justify(IntText(value, negative, base, prec, width, flags), width, flags), base)
            == Some(Signed(value, negative))
            <==> Readable(BodyLength(digits, prec, width, flags), digits, negative, width, flags)
  {
    IntBodyShape(value, base, prec, width, flags);
    SignedRoundTrip(IntBody(value, base, prec, width, flags), IntDigits(value, base, flags),
                    value, negative, base, width, flags);
  }

  /** Hexadecimal may carry "0x" or "0X"; an octal prefix is just a leading zero. */
  function ReadPrefixedCore(t: string, base: nat): Option<int> {
    if base == 16 && |t| >= 2 && t[0] == '0' && (t[1] == 'x' || t[1] == 'X') then
      if |t| == 2 || !IsNumeral(t[2..], base) then None else Some(Value(t[2..], base))
    else ReadCore(t, base)
  }

  function ReadPrefixed(text: string, base: nat): Option<int> { ReadPrefixedCore(Strip(text), base) }

  /** A hexadecimal numeral behind its prefix neither starts nor ends with a space. */
  lemma HexCore(kept: string, upper: bool)
    requires IsNumeral(kept, 16)
    ensures var text := (if upper then "0X" else "0x") + kept;
            && text[0] != ' ' && text[|text| - 1] != ' '
            && ReadPrefixedCore(text, 16) == if kept == "" then None else Some(Value(kept, 16))
  {
    var text := (if upper then "0X" else "0x") + kept;
    assert text[2..] == kept;
    assert kept != "" ==> text[|text| - 1] == kept[|kept| - 1] && 0 <= DigitValue(kept[|kept| - 1]);
  }

  lemma ReadHexPrefix(kept: string, width: nat, flags: Flags)
    requires IsNumeral(kept, 16)
    ensures ReadPrefixed(Justify((if flags.upper then "0X" else "0x") + kept, width, flags), 16)
            == if kept == "" then None else Some(Value(kept, 16))
  {
    hide ReadPrefixedCore, Value, IsNumeral, Justify, Strip;
    HexCore(kept, flags.upper);
    StripJustified((if flags.upper then "0X" else "0x") + kept, width, flags);
  }

  lemma StripJustified(text: string, width: nat, flags: Flags)
    requires text != "" && text[0] != ' ' && text[|text| - 1] != ' '
    ensures Strip(Justify(text, width, flags)) == text
  {
    JustifyPads(text, width, flags);
    var a: int, b: int :| Justify(text, width, flags) == Spaces(a) + text + Spaces(b);
    StripPadded(a, text, b);
  }

  lemma PlainCore(digits: string, base: nat)
    requires IsNumeral(digits, base) && digits != "" && base <= 16
    ensures ReadPrefixedCore(digits, base) == ReadCore(digits, base) == Some(Value(digits, base))
    ensures digits[0] != ' ' && digits[|digits| - 1] != ' '
  {
  }

  lemma ReadPlain(digits: string, width: nat, flags: Flags, base: nat)
    requires IsNumeral(digits, base) && digits != "" && base <= 16
    ensures ReadPrefixed(Justify(digits, width, flags), base) == Some(Value(digits, base))
    ensures ReadInt(Justify(digits, width, flags), base) == Some(Value(digits, base))
  {
    PlainCore(digits, base);
    StripJustified(digits, width, flags);
  }

  /** A caller's test for '#': the room taken for the prefix is padding, and a hexadecimal prefix is
      put on whole or not at all. Octal zero survives anyway, as the prefix itself is a zero. */
  predicate HashReadable(value: nat, len: nat, digits: nat, base: nat, prec: nat, width: nat) {
    var kept := len - HashCost(len, base, prec, width);
    if base == 16 then kept >= Max(digits, 1) && kept != SCRATCH - 1
    else kept >= digits || value == 0
  }

  lemma DropPadding(body: string, digits: string, value: nat, base: nat, n: nat)
    requires IsBody(body, digits, value, base) && base >= 2 && n <= |body| - |digits|
    ensures IsNumeral(body[n..], base) && Value(body[n..], base) == value
  {
    hide Value, IsNumeral;
    assert body[n..] == Zeros(|body| - n - |digits|) + digits;
    LeadingZeros(|body| - n - |digits|, digits, base);
  }

  lemma BehindDigit(body: string, digits: string, zeros: nat, n: nat)
    requires body == Zeros(zeros) + digits && zeros <= n <= |body|
    ensures body[n..] == digits[n - zeros..]
  {
  }

  lemma DropDigit(body: string, digits: string, value: nat, base: nat, n: nat)
    requires IsBody(body, digits, value, base) && base >= 2 && |body| - |digits| < n <= |body|
    ensures IsNumeral(body[n..], base)
    ensures Value(body[n..], base) == value <==> value == 0
  {
    var k := |body| - |digits|;
    BehindDigit(body, digits, k, n);
    assert IsNumeral(digits[n - k..], base);
    hide Value, IsNumeral;
    DropLeads(digits, base, n - k);
  }

  lemma DropForHash(body: string, digits: string, value: nat, base: nat, n: nat)
    requires IsBody(body, digits, value, base) && base >= 2 && n <= |body|
    ensures IsNumeral(body[n..], base)
    ensures Value(body[n..], base) == value <==> |body| - n >= |digits| || value == 0
  {
    hide Value, IsNumeral;
    if |body| - n >= |digits| {
      DropPadding(body, digits, value, base, n);
    } else {
      DropDigit(body, digits, value, base, n);
    }
  }

  /** '#' printing reads back exactly when `HashReadable` says so. */
  lemma HashRoundTrip(value: nat, base: nat, prec: nat, width: nat, flags: Flags)
    requires (base == 8 || base == 16) && value < WORD
    requires flags.hash && !flags.plus && !flags.space
    ensures var digits := |IntDigits(value, base, flags)|;
            ReadPrefixed(Justify(IntText(value, false, base, prec, width, flags), width, flags), base) == Some(value)
            <==> HashReadable(value, BodyLength(digits, prec, width, flags), digits, base, prec, width)
  {
    IntBodyShape(value, base, prec, width, flags);
    UnsignedIsText(value, base, prec, width, flags);
    HashedBody(IntBody(value, base, prec, width, flags), IntDigits(value, base, flags),
               value, base, prec, width, flags);
  }

  lemma UnsignedIsText(value: nat, base: nat, prec: nat, width: nat, flags: Flags)
    requires IsBase(base) && value < WORD && !flags.plus && !flags.space
    ensures IntPrintable(value, false, base, prec, width, flags)
    ensures IntText(value, false, base, prec, width, flags) == UnsignedText(value, base, prec, width, flags)
  {
  }

  lemma HashedBody(body: string, digits: string, value: nat, base: nat, prec: nat, width: nat, flags: Flags)
    requires (base == 8 || base == 16) && flags.hash && IsBody(body, digits, value, base)
    ensures ReadPrefixed(Justify(WithHash(body, base, prec, width, flags), width, flags), base) == Some(value)
            <==> HashReadable(value, |body|, |digits|, base, prec, width)
  {
    var n := HashCost(|body|, base, prec, width);
    DropForHash(body, digits, value, base, n);
    PrefixRoundTrip(body[n..], width, flags, base);
  }

  lemma PrefixRoundTrip(kept: string, width: nat, flags: Flags, base: nat)
    requires (base == 8 || base == 16) && IsNumeral(kept, base) && |kept| <= SCRATCH
    ensures ReadPrefixed(Justify(WithPrefix(kept, base, flags), width, flags), base)
            == if base == 16 && (kept == "" || |kept| == SCRATCH - 1) then None else Some(Value(kept, base))
  {
    if |kept| == SCRATCH {
      ReadPlain(kept, width, flags, base);
    } else if base == 8 {
      assert Zeros(1) == "0";
      LeadingZeros(1, kept, base);
      ReadPlain("0" + kept, width, flags, base);
    } else if |kept| == SCRATCH - 1 {
      LonePrefix(kept, width, flags);
    } else {
      assert WithPrefix(kept, base, flags) == (if flags.upper then "0X" else "0x") + kept;
      ReadHexPrefix(kept, width, flags);
    }
  }

  /** A prefix letter without its zero is no number. */
  lemma LonePrefix(kept: string, width: nat, flags: Flags)
    requires IsNumeral(kept, 16) && kept != ""
    ensures ReadPrefixed(Justify((if flags.upper then "X" else "x") + kept, width, flags), 16) == None
  {
    var text := (if flags.upper then "X" else "x") + kept;
    PlainCore(kept, 16);
    assert text[|text| - 1] == kept[|kept| - 1];
    LetterCore(text);
    StripJustified(text, width, flags);
  }

  lemma LetterCore(text: string)
    requires text != "" && (text[0] == 'x' || text[0] == 'X')
    ensures ReadPrefixedCore(text, 16) == None
  {
  }

  /** "%3d" of -123 prints "-23", and "%#4x" of 0xABCD prints "0xcd". */
  lemma LostDigits()
    ensures IntText(123, true, 10, 0, 3, NO_FLAGS) == "-23"
    ensures IntText(0xABCD, false, 16, 0, 4, NO_FLAGS.(hash := true)) == "0xcd"
  {
    assert Digits(123, 10, false) == "123";
    assert Digits(0xABCD, 16, false) == "abcd";
  }
}
