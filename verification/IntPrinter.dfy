/** Integer conversion: digit generation, precision and width zeros, the '#' prefix. */
module IntPrinter {
  import opened Basics
  import opened Text
  import opened Numerals
  import opened NumberLayout

  /** `unsigned long` has 32 bits. */
  const WORD := 0x1_0000_0000

  predicate IsBase(base: nat) { base == 2 || base == 8 || base == 10 || base == 16 }

  /** The digits; an explicit precision prints nothing for zero. */
  function IntDigits(value: nat, base: nat, flags: Flags): (s: string)
    requires IsBase(base)
    ensures IsNumeral(s, base)
  {
    if flags.precision && value == 0 then "" else Digits(value, base, flags.upper)
  }

  /** Digits with leading zeros: none when left-justified. */
  function IntBody(value: nat, base: nat, prec: nat, width: nat, flags: Flags): (r: string)
    requires IsBase(base)
    ensures |IntDigits(value, base, flags)| <= SCRATCH ==> |r| <= SCRATCH
  {
    var digits := IntDigits(value, base, flags);
    if flags.left then digits
    else
      var precise := PadZeros(digits, prec);
      if flags.zeroPad then PadZeros(precise, width) else precise
  }

  /** Leading characters given up for the prefix when a body of `len` fills precision or width. */
  function HashCost(len: nat, base: nat, prec: nat, width: nat): (n: nat)
    ensures n <= len
  {
    if len > 0 && (len == prec || len == width) then (if base == 16 && len > 1 then 2 else 1) else 0
  }

  /** The prefix "0x", "0X" or "0", as far as the scratch buffer has room for it. */
  function WithPrefix(kept: string, base: nat, flags: Flags): (r: string)
    ensures |kept| <= SCRATCH ==> |r| <= SCRATCH
  {
    var x := if base == 16 && |kept| < SCRATCH then (if flags.upper then "X" else "x") + kept else kept;
    if |x| < SCRATCH then "0" + x else x
  }

  function WithHash(body: string, base: nat, prec: nat, width: nat, flags: Flags): (r: string)
    ensures |body| <= SCRATCH ==> |r| <= SCRATCH
  {
    if flags.hash then WithPrefix(body[HashCost(|body|, base, prec, width)..], base, flags) else body
  }

  function UnsignedText(value: nat, base: nat, prec: nat, width: nat, flags: Flags): string
    requires IsBase(base)
  {
    WithHash(IntBody(value, base, prec, width, flags), base, prec, width, flags)
  }

  predicate IntPrintable(value: nat, negative: bool, base: nat, prec: nat, width: nat, flags: Flags) {
    && IsBase(base)
    && value < WORD
    && SignHasRoom(UnsignedText(value, base, prec, width, flags), negative, width, flags)
  }

  /** The signed text, before justification. */
  function IntText(value: nat, negative: bool, base: nat, prec: nat, width: nat, flags: Flags): string
    requires IntPrintable(value, negative, base, prec, width, flags)
  {
    WithSign(UnsignedText(value, base, prec, width, flags), negative, width, flags)
  }

  lemma IntDigitsFit(value: nat, base: nat, flags: Flags)
    requires IsBase(base) && value < WORD
    ensures |IntDigits(value, base, flags)| <= SCRATCH
  {
    Pow2Word();
    DigitsFit(value, base, flags.upper, SCRATCH);
  }

  method PutPrefix(buf: array<char>, len0: nat, base: nat, flags: Flags) returns (len: nat)
    requires buf.Length == SCRATCH && len0 <= SCRATCH
    modifies buf
    ensures len <= SCRATCH
    ensures Reverse(buf[..len]) == WithPrefix(Reverse(old(buf[..len0])), base, flags)
  {
    len := len0;
    if base == 16 && !flags.upper && len < SCRATCH {
      len := PutLead(buf, len, 'x');
    }
    if base == 16 && flags.upper && len < SCRATCH {
      len := PutLead(buf, len, 'X');
    }
    if len < SCRATCH {
      len := PutLead(buf, len, '0');
    }
  }

  method PutHash(buf: array<char>, len0: nat, base: nat, prec: nat, width: nat, flags: Flags) returns (len: nat)
    requires buf.Length == SCRATCH && len0 <= SCRATCH && flags.hash
    modifies buf
    ensures len <= SCRATCH
    ensures Reverse(buf[..len]) == WithHash(Reverse(old(buf[..len0])), base, prec, width, flags)
  {
    hide WithPrefix, Reverse;
    len := len0;
    if (len == prec || len == width) && len > 0 {
      len := len - 1;
      if base == 16 && len > 0 {
        len := len - 1;
      }
    }
    ReverseCut(buf[..len0], len0 - len);
    assert buf[..len0][..len] == buf[..len];
    len := PutPrefix(buf, len, base, flags);
  }

  method PutIntDigits(buf: array<char>, value: nat, base: nat, flags: Flags) returns (len: nat)
    requires buf.Length == SCRATCH && IsBase(base) && value < WORD
    modifies buf
    ensures len <= SCRATCH
    ensures Reverse(buf[..len]) == IntDigits(value, base, flags)
  {
    IntDigitsFit(value, base, flags);
    len := 0;
    assert Reverse(buf[..0]) == "";
    if !flags.precision || value != 0 {
      len := PutDigits(buf, 0, value, base, flags.upper);
    }
  }

  /** Everything but the sign. */
  method PutUnsigned(buf: array<char>, value: nat, base: nat, prec: nat, width: nat, flags: Flags) returns (len: nat)
    requires buf.Length == SCRATCH && IsBase(base) && value < WORD
    modifies buf
    ensures len <= SCRATCH
    ensures Reverse(buf[..len]) == UnsignedText(value, base, prec, width, flags)
  {
    len := PutIntDigits(buf, value, base, flags);
    if !flags.left {
      len := PutZeros(buf, len, prec);
    }
    if !flags.left && flags.zeroPad {
      len := PutZeros(buf, len, width);
    }
    if flags.hash {
      len := PutHash(buf, len, base, prec, width, flags);
    }
  }

  /** Prints `value` to `buffer` from `at` on, in at most `room` characters. */
  method PrintInt(buffer: array<char>, at: nat, value: nat, negative: bool, base: nat, room: nat,
                  prec: nat, width: nat, flags: Flags)
    returns (idx: nat)
    requires IntPrintable(value, negative, base, prec, width, flags)
    requires at + room <= buffer.Length
    modifies buffer
    ensures at <= idx <= at + room
    ensures buffer[..idx] == old(buffer[..at])
                             + Place(IntText(value, negative, base, prec, width, flags), room, width, flags)
  {
    if room == 0 { return at; }
    var buf := new char[SCRATCH];
    var len := PutUnsigned(buf, value, base, prec, width, flags);
    len := PutSign(buf, len, negative, width, flags);
    assert buffer[..at] == old(buffer[..at]);
    idx := PutText(buffer, at, buf, len, room, width, flags);
  }
}
