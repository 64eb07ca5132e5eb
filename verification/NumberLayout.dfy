/** The sign, padding and reversal shared by the integer and the float printer. */
module NumberLayout {
  import opened Basics
  import opened Text
  import opened Numerals

  const SCRATCH := 32

  datatype Flags = Flags(zeroPad: bool, left: bool, plus: bool, space: bool,
                         hash: bool, upper: bool, precision: bool)

  const NO_FLAGS := Flags(false, false, false, false, false, false, false)

  /** The sign character asked for: '-' wins over '+', '+' over ' '. */
  function Sign(negative: bool, flags: Flags): string {
    if negative then "-" else if flags.plus then "+" else if flags.space then " " else ""
  }

  /** Leading zeros up to `target` characters, as far as the scratch buffer reaches. */
  function PadZeros(text: string, target: nat): (r: string)
    ensures |text| <= SCRATCH ==> |r| <= SCRATCH
  {
    Zeros(Min(target, SCRATCH) - |text|) + text
  }

  /** A sign takes the place of the leading character of a field that already fills its width,
      and is dropped when the scratch buffer is full. */
  function WithSign(text: string, negative: bool, width: nat, flags: Flags): (r: string)
    requires SignHasRoom(text, negative, width, flags)
    ensures |text| <= SCRATCH ==> |r| <= SCRATCH
  {
    var sign := Sign(negative, flags);
    var kept := if |text| == width && sign != "" then text[1..] else text;
    if |kept| < SCRATCH then sign + kept else kept
  }

  /** The sign never has to take the place of a character that is not there. */
  predicate SignHasRoom(text: string, negative: bool, width: nat, flags: Flags) {
    |text| == 0 && width == 0 ==> Sign(negative, flags) == ""
  }

  /** The unbounded rendering: `text` justified in a field of `width` characters. */
  function Justify(text: string, width: nat, flags: Flags): string {
    if flags.left then text + Spaces(width - |text|)
    else if flags.zeroPad then text
    else Spaces(width - |text|) + text
  }

  /** What reaches a buffer with room for `room` characters. */
  function Place(text: string, room: nat, width: nat, flags: Flags): (r: string)
    ensures |r| == if flags.zeroPad && !flags.left then Min(room, |text|) else Min(room, Max(width, |text|))
  {
    var shown := text[..Min(room, |text|)];
    if flags.left then shown + Spaces(Min(width, room) - |shown|)
    else if flags.zeroPad then shown
    else Spaces(Min(width, room) - |text|) + shown
  }

  /** With enough room nothing is lost. */
  lemma PlaceIsJustify(text: string, room: nat, width: nat, flags: Flags)
    requires |Justify(text, width, flags)| <= room
    ensures Place(text, room, width, flags) == Justify(text, width, flags)
  {
  }

  /** A number cut short is a prefix of the full field, except that a right-justified number
      gives up padding before digits and so shows its text too early. */
  predicate CutsCleanly(text: string, room: nat, width: nat, flags: Flags) {
    || flags.left || flags.zeroPad || width <= |text| || width <= room
    || forall i :: 0 <= i < Min(room, |text|) ==> text[i] == ' '
  }

  lemma PlaceIsPrefix(text: string, room: nat, width: nat, flags: Flags)
    ensures Place(text, room, width, flags) <= Justify(text, width, flags)
            <==> CutsCleanly(text, room, width, flags)
  {
    var p, full := Place(text, room, width, flags), Justify(text, width, flags);
    if flags.left || flags.zeroPad || width <= |text| || width <= room {
      assert p <= full;
    } else if p <= full {
      forall i | 0 <= i < Min(room, |text|)
        ensures text[i] == ' '
      {
        ShownIsBlank(text, room, width, flags, i);
      }
    } else {
      BlankIsPrefix(text, room, width, flags);
    }
  }

  lemma BlankIsPrefix(text: string, room: nat, width: nat, flags: Flags)
    requires !flags.left && !flags.zeroPad && |text| < width && room < width
    ensures CutsCleanly(text, room, width, flags) ==> Place(text, room, width, flags) <= Justify(text, width, flags)
  {
  }

  lemma {:induction false} ShownIsBlank(text: string, room: nat, width: nat, flags: Flags, i: nat)
    requires !flags.left && !flags.zeroPad && |text| < width && room < width
    requires Place(text, room, width, flags) <= Justify(text, width, flags)
    requires i < Min(room, |text|)
    ensures text[i] == ' '
  {
    var pad := Max(Min(width, room) - |text|, 0);
    assert Place(text, room, width, flags)[pad + i] == text[i];
    assert Justify(text, width, flags)[pad + i] == text[i];
    if pad + i >= width - |text| {
      ShownIsBlank(text, room, width, flags, pad + i - (width - |text|));
    }
  }

  /** `a[n++] = c`, seen as appending to the part written so far. */
  method Put(a: array<char>, n: nat, c: char) returns (n': nat)
    requires n < a.Length
    modifies a
    ensures n' == n + 1
    ensures a[..n'] == old(a[..n]) + [c]
  {
    a[n] := c;
    n' := n + 1;
  }

  /** The scratch buffer is filled backwards, so appending to it leads the text. */
  method PutLead(buf: array<char>, len0: nat, c: char) returns (len: nat)
    requires len0 < buf.Length
    modifies buf
    ensures len == len0 + 1
    ensures Reverse(buf[..len]) == [c] + Reverse(old(buf[..len0]))
  {
    len := Put(buf, len0, c);
    assert buf[..len] == old(buf[..len0]) + [c];
  }

  /** The digit loop: puts the digits of `value` in front of what the scratch buffer holds. */
  method PutDigits(buf: array<char>, len0: nat, value: nat, base: nat, upper: bool) returns (len: nat)
    requires buf.Length == SCRATCH && 2 <= base <= 16
    requires len0 + |Digits(value, base, upper)| <= SCRATCH
    modifies buf
    ensures len == len0 + |Digits(value, base, upper)|
    ensures Reverse(buf[..len]) == Digits(value, base, upper) + Reverse(old(buf[..len0]))
  {
    ghost var all := Digits(value, base, upper) + Reverse(buf[..len0]);
    len := len0;
    var v: nat := value;
    var more := true;
    while more
      invariant len <= SCRATCH
      invariant all == Pending(v, base, upper, more) + Reverse(buf[..len])
      invariant len + |Pending(v, base, upper, more)| == len0 + |Digits(value, base, upper)|
      decreases more, SCRATCH - len
    {
      DigitsStep(v, base, upper);
      Regroup(Pending(v / base, base, upper, v / base != 0), DigitChar(v % base, upper), Reverse(buf[..len]));
      len := PutLead(buf, len, DigitChar(v % base, upper));
      v := v / base;
      more := len < SCRATCH && v != 0;
    }
  }

  /** The digits the loop has still to put out. */
  ghost function Pending(v: nat, base: nat, upper: bool, more: bool): string
    requires 2 <= base <= 16
  {
    if more then Digits(v, base, upper) else ""
  }

  lemma PadZerosIs(text: string, target: nat, n: nat)
    requires n == Max(Min(target, SCRATCH) - |text|, 0)
    ensures PadZeros(text, target) == Zeros(n) + text
  {
    assert Zeros(n) == Zeros(Min(target, SCRATCH) - |text|);
  }

  lemma NoZeros(text: string)
    ensures Repeat('0', 0) + text == text
  {
  }

  /** The zero-padding loops. */
  method PutZeros(buf: array<char>, len0: nat, target: nat) returns (len: nat)
    requires buf.Length == SCRATCH && len0 <= SCRATCH
    modifies buf
    ensures len0 <= len <= SCRATCH
    ensures Reverse(buf[..len]) == PadZeros(Reverse(old(buf[..len0])), target)
  {
    hide Reverse, Repeat, PadZeros;
    ghost var text, n: nat := Reverse(buf[..len0]), 0;
    len := len0;
    NoZeros(text);
    while len < target && len < SCRATCH
      invariant len == len0 + n && (n == 0 || len <= Min(target, SCRATCH))
      invariant Reverse(buf[..len]) == Repeat('0', n) + text
    {
      OneMore('0', n, text);
      len := PutLead(buf, len, '0');
      n := n + 1;
    }
    PadZerosIs(text, target, n);
  }

  /** Puts the sign into the scratch buffer: the step that may cost the leading character. */
  method PutSign(buf: array<char>, len0: nat, negative: bool, width: nat, flags: Flags) returns (len: nat)
    requires buf.Length == SCRATCH && len0 <= SCRATCH
    requires SignHasRoom(Reverse(buf[..len0]), negative, width, flags)
    modifies buf
    ensures len <= SCRATCH
    ensures Reverse(buf[..len]) == WithSign(Reverse(old(buf[..len0])), negative, width, flags)
  {
    len := len0;
    if len == width && (negative || flags.plus || flags.space) {
      len := len - 1;
      ReverseCut(buf[..len0], 1);
      assert buf[..len0][..len] == buf[..len];
    }
    if len < SCRATCH {
      if negative {
        len := PutLead(buf, len, '-');
      } else if flags.plus {
        len := PutLead(buf, len, '+');
      } else if flags.space {
        len := PutLead(buf, len, ' ');
      }
    }
  }

  /** The padding loop: a space for every i with i0 <= i < width and i < room. */
  method PutSpaces(buffer: array<char>, at: nat, i0: nat, width: nat, room: nat) returns (idx: nat)
    requires at + Max(room - i0, 0) <= buffer.Length
    modifies buffer
    ensures idx == at + Max(Min(width, room) - i0, 0)
    ensures buffer[..idx] == old(buffer[..at]) + Spaces(Min(width, room) - i0)
  {
    idx := at;
    var i := i0;
    while i < width && i < room
      invariant idx == at + i - i0 && i0 <= i <= Max(i0, Min(width, room))
      invariant buffer[..idx] == old(buffer[..at]) + Spaces(i - i0)
    {
      idx := Put(buffer, idx, ' ');
      i := i + 1;
    }
  }

  /** The reversing loop. */
  method PutReversed(buffer: array<char>, at: nat, buf: array<char>, len: nat, room: nat) returns (idx: nat)
    requires buf != buffer && len <= buf.Length && at + Min(len, room) <= buffer.Length
    modifies buffer
    ensures idx == at + Min(len, room)
    ensures buffer[..idx] == old(buffer[..at]) + Reverse(buf[..len])[..Min(len, room)]
  {
    ghost var text := Reverse(buf[..len]);
    idx := at;
    var i := 0;
    while i < len && i < room
      invariant i <= len && i <= room && idx == at + i
      invariant buffer[..idx] == old(buffer[..at]) + text[..i]
    {
      assert text[..i + 1] == text[..i] + [buf[len - i - 1]];
      idx := Put(buffer, idx, buf[len - i - 1]);
      i := i + 1;
    }
  }

  /** Copies the reversed scratch text to `buffer` at `at`, padded to `width`. */
  method PutText(buffer: array<char>, at: nat, buf: array<char>, len: nat, room: nat, width: nat, flags: Flags)
    returns (idx: nat)
    requires buf != buffer && len <= buf.Length && at + room <= buffer.Length
    modifies buffer
    ensures at <= idx <= at + room
    ensures buffer[..idx] == old(buffer[..at]) + Place(Reverse(buf[..len]), room, width, flags)
  {
    hide Reverse, Repeat;
    ghost var start, shown := buffer[..at], Reverse(buf[..len])[..Min(len, room)];
    if flags.left {
      idx := PutReversed(buffer, at, buf, len, room);
      idx := PutSpaces(buffer, idx, idx - at, width, room);
      Associates(start, shown, Spaces(Min(width, room) - |shown|));
    } else if flags.zeroPad {
      idx := PutReversed(buffer, at, buf, len, room);
    } else {
      idx := PutSpaces(buffer, at, len, width, room);
      idx := PutReversed(buffer, idx, buf, len, room);
      Associates(start, Spaces(Min(width, room) - len), shown);
    }
  }
}
