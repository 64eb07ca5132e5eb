/** Cutting an incomplete character off the end of a UTF-8 string. */
module Utf8Trim {
  type Byte = bv8

  /** A Unicode scalar value: a code point that is no surrogate. */
  type Scalar = c: bv32 | c <= 0x10FFFF && !(0xD800 <= c <= 0xDFFF) witness 0

  function Tail(c: bv32): Byte { (0x80 | (c & 0x3F)) as Byte }

  /** Section 3 of RFC 3629. */
  function Encode(c: Scalar): (e: seq<Byte>)
    ensures 1 <= |e| <= 4
  {
    if c < 0x80 then [c as Byte]
    else if c < 0x800 then [(0xC0 | (c >> 6)) as Byte, Tail(c)]
    else if c < 0x1_0000 then [(0xE0 | (c >> 12)) as Byte, Tail(c >> 6), Tail(c)]
    else [(0xF0 | (c >> 18)) as Byte, Tail(c >> 12), Tail(c >> 6), Tail(c)]
  }

  function EncodeAll(s: seq<Scalar>): seq<Byte> {
    if s == [] then [] else Encode(s[0]) + EncodeAll(s[1..])
  }

  predicate IsAscii(b: Byte) { b & 0x80 == 0 }

  predicate IsContinuation(b: Byte) { b & 0xC0 == 0x80 }

  /** Bytes of the character a byte announces; 0 for a byte that announces none. */
  function Announced(b: Byte): nat {
    if b & 0xF0 == 0xC0 || b & 0xF0 == 0xD0 then 2
    else if b & 0xF0 == 0xE0 then 3
    else if b & 0xF0 == 0xF0 then 4
    else 0
  }

  lemma LeadAnnounces(c: Scalar)
    ensures !IsContinuation(Encode(c)[0])
    ensures |Encode(c)| == 1 <==> IsAscii(Encode(c)[0])
    ensures |Encode(c)| > 1 ==> Announced(Encode(c)[0]) == |Encode(c)|
  {
  }

  lemma TailsContinue(c: Scalar)
    ensures forall i :: 1 <= i < |Encode(c)| ==> IsContinuation(Encode(c)[i])
  {
  }

  // ----- trimming -----------------------------------------------------------------------------

  /** A string the backward search ends on: it has a byte that starts a character. */
  predicate HasLead(s: seq<Byte>) { |s| == 1 || exists i :: 0 <= i < |s| && !IsContinuation(s[i]) }

  /** The last byte that is no continuation byte. */
  function LastLead(s: seq<Byte>): (pos: nat)
    requires exists i :: 0 <= i < |s| && !IsContinuation(s[i])
    ensures pos < |s| && !IsContinuation(s[pos])
    ensures forall i :: pos < i < |s| ==> IsContinuation(s[i])
  {
    var last := |s| - 1;
    if !IsContinuation(s[last]) then last else LastLead(s[..last])
  }

  /** `s` without a last character that is shorter than its first byte announces. */
  function Trimmed(s: seq<Byte>): (r: seq<Byte>)
    requires s != [] && HasLead(s)
    ensures r <= s
  {
    if |s| == 1 then if IsAscii(s[0]) then s else []
    else
      var pos := LastLead(s);
      if |s| - pos < Announced(s[pos]) then s[..pos] else s
  }

  method TrimMultiByteChar(str0: seq<Byte>) returns (str: seq<Byte>)
    requires str0 != [] && HasLead(str0)
    ensures str == Trimmed(str0)
  {
    str := str0;
    var strLen := |str|;
    if IsAscii(str[strLen - 1]) {
      HighBits(str[strLen - 1]);
      return;
    }
    if strLen < 2 {
      var b := str[0];
      var long := b & 0xF0 != 0 || b & 0xE0 != 0;
      HighBits(b);
      if long { str := []; }
      return;
    }
    var pos := strLen - 1;
    while IsContinuation(str[pos])
      invariant 0 <= pos < strLen
      invariant forall i :: pos < i < strLen ==> IsContinuation(str[i])
      decreases pos
    {
      assert pos > 0;
      pos := pos - 1;
    }
    assert pos == LastLead(str0);
    var kind := str[pos] & 0xF0;
    if kind == 0xC0 || kind == 0xD0 {
      if strLen - pos < 2 { str := str[..pos]; }
    } else if kind == 0xE0 {
      if strLen - pos < 3 { str := str[..pos]; }
    } else if kind == 0xF0 {
      if strLen - pos < 4 { str := str[..pos]; }
    }
  }

  lemma HighBits(b: Byte)
    ensures if IsAscii(b) then !IsContinuation(b) && Announced(b) == 0 else b & 0xF0 != 0
  {
  }

  // ----- the longest valid prefix -------------------------------------------------------------

  /** How many characters of `s` fit in `room` bytes. */
  function Fits(s: seq<Scalar>, room: nat): (k: nat)
    ensures k <= |s|
  {
    if s == [] || |Encode(s[0])| > room then 0 else 1 + Fits(s[1..], room - |Encode(s[0])|)
  }

  /** `Fits` is the largest number of characters that fit. */
  lemma {:induction false} FitsIsLargest(s: seq<Scalar>, room: nat, k: nat)
    requires k <= |s|
    ensures |EncodeAll(s[..k])| <= room <==> k <= Fits(s, room)
  {
    if s != [] && k > 0 {
      assert s[..k][0] == s[0] && s[..k][1..] == s[1..][..k - 1];
      if |Encode(s[0])| <= room {
        FitsIsLargest(s[1..], room - |Encode(s[0])|, k - 1);
      }
    }
  }

  /** Some bytes of a character behind whole characters: kept if it is all of it. */
  lemma TrimLastCharacter(a: seq<Byte>, c: Scalar, n: nat)
    requires 0 < n <= |Encode(c)|
    ensures var s := a + Encode(c)[..n];
            HasLead(s) && Trimmed(s) == if n == |Encode(c)| then s else a
  {
    var e := Encode(c);
    var s := a + e[..n];
    LeadAnnounces(c);
    TailsContinue(c);
    assert s[|a|] == e[0];
    assert forall i :: |a| < i < |s| ==> s[i] == e[i - |a|] && IsContinuation(s[i]);
    HighBits(e[0]);
    if |s| > 1 {
      assert LastLead(s) == |a|;
    }
    assert s[..|a|] == a;
  }

  lemma SplitBehind(a: seq<Byte>, e: seq<Byte>, rest: seq<Byte>, n: nat)
    requires n <= |e| + |rest|
    ensures if n <= |e| then (e + rest)[..n] == e[..n] else a + (e + rest)[..n] == (a + e) + rest[..n - |e|]
  {
  }

  lemma FirstFits(a: seq<Byte>, s: seq<Scalar>, n: nat)
    requires s != [] && n > |Encode(s[0])|
    ensures var e := Encode(s[0]);
            a + EncodeAll(s[..Fits(s, n)]) == (a + e) + EncodeAll(s[1..][..Fits(s[1..], n - |e|)])
  {
    hide Encode;
    var k := Fits(s[1..], n - |Encode(s[0])|);
    assert s[..k + 1][0] == s[0] && s[..k + 1][1..] == s[1..][..k];
  }

  /** Whole characters, possibly followed by a part of the next. */
  lemma {:induction false} TrimPrefix(a: seq<Byte>, s: seq<Scalar>, n: nat)
    requires 0 < n <= |EncodeAll(s)|
    ensures var p := a + EncodeAll(s)[..n];
            HasLead(p) && Trimmed(p) == a + EncodeAll(s[..Fits(s, n)])
    decreases |s|
  {
    assert s != [] && EncodeAll(s) == Encode(s[0]) + EncodeAll(s[1..]);
    hide Trimmed, HasLead, LastLead, Encode, EncodeAll, Fits;
    var e, rest := Encode(s[0]), EncodeAll(s[1..]);
    SplitBehind(a, e, rest, n);
    if n <= |e| {
      TrimLastCharacter(a, s[0], n);
      OneFits(s, n);
    } else {
      TrimPrefix(a + e, s[1..], n - |e|);
      FirstFits(a, s, n);
    }
  }

  lemma OneFits(s: seq<Scalar>, n: nat)
    requires s != [] && 0 < n <= |Encode(s[0])|
    ensures EncodeAll(s[..Fits(s, n)]) == if n == |Encode(s[0])| then Encode(s[0])[..n] else []
  {
  }

  /** Trimming a cut-off UTF-8 text leaves the most whole characters that fit in it. */
  lemma TrimIsLongestValidPrefix(s: seq<Scalar>, n: nat)
    requires 0 < n <= |EncodeAll(s)|
    ensures HasLead(EncodeAll(s)[..n])
    ensures Trimmed(EncodeAll(s)[..n]) == EncodeAll(s[..Fits(s, n)])
  {
    TrimPrefix([], s, n);
    assert [] + EncodeAll(s)[..n] == EncodeAll(s)[..n];
    assert [] + EncodeAll(s[..Fits(s, n)]) == EncodeAll(s[..Fits(s, n)]);
  }

  /** Valid text is left alone, so trimming twice trims once. */
  lemma ValidIsKept(s: seq<Scalar>)
    requires s != []
    ensures EncodeAll(s) != [] && HasLead(EncodeAll(s)) && Trimmed(EncodeAll(s)) == EncodeAll(s)
  {
    hide Trimmed, HasLead, LastLead, Encode;
    var n := |EncodeAll(s)|;
    TrimIsLongestValidPrefix(s, n);
    FitsIsLargest(s, n, |s|);
    assert s[..|s|] == s && EncodeAll(s)[..n] == EncodeAll(s);
  }

  lemma TrimIsIdempotent(s: seq<Scalar>, n: nat)
    requires 0 < n <= |EncodeAll(s)|
    requires HasLead(EncodeAll(s)[..n]) && Trimmed(EncodeAll(s)[..n]) != []
    ensures var r := Trimmed(EncodeAll(s)[..n]); HasLead(r) && Trimmed(r) == r
  {
    TrimIsLongestValidPrefix(s, n);
    ValidIsKept(s[..Fits(s, n)]);
  }

  // ----- any bytes ------------------------------------------------------------------------------

  /** The last byte that starts a character announces no more bytes than there are from it on. */
  ghost predicate EndsWhole(s: seq<Byte>) {
    exists pos :: 0 <= pos < |s| && IsLastLead(s, pos) && Announced(s[pos]) <= |s| - pos
  }

  ghost predicate IsLastLead(s: seq<Byte>, pos: nat)
    requires pos < |s|
  {
    !IsContinuation(s[pos]) && forall i :: pos < i < |s| ==> IsContinuation(s[i])
  }

  lemma OneLastLead(s: seq<Byte>, a: nat, b: nat)
    requires a < |s| && b < |s| && IsLastLead(s, a) && IsLastLead(s, b)
    ensures a == b
  {
  }

  /** One pass removes nothing exactly when the bytes end in a whole character. */
  lemma KeptIffWhole(s: seq<Byte>)
    requires s != [] && HasLead(s)
    ensures Trimmed(s) == s <==> EndsWhole(s)
  {
    if |s| == 1 {
      HighBits(s[0]);
      LoneByte(s[0]);
      assert EndsWhole(s) <==> !IsContinuation(s[0]) && Announced(s[0]) <= 1;
    } else {
      var pos := LastLead(s);
      assert IsLastLead(s, pos);
      forall a | 0 <= a < |s| && IsLastLead(s, a)
        ensures a == pos
      {
        OneLastLead(s, a, pos);
      }
    }
  }

  lemma LoneByte(b: Byte)
    ensures IsAscii(b) <==> !IsContinuation(b) && Announced(b) <= 1
  {
  }

  /** On any bytes, a second pass over a nonempty result is defined and removes nothing exactly when the
      bytes end in a whole character, or those before their last lead do. */
  lemma SecondPassIff(s: seq<Byte>)
    requires s != [] && HasLead(s) && Trimmed(s) != []
    ensures var r := Trimmed(s);
            HasLead(r) && Trimmed(r) == r <==> EndsWhole(s) || EndsWhole(s[..LastLead(s)])
  {
    var r := Trimmed(s);
    hide Announced;
    KeptIffWhole(s);
    assert r != s ==> r == s[..LastLead(s)];
    if HasLead(r) {
      KeptIffWhole(r);
    } else {
      assert !EndsWhole(r);
    }
  }

  /** A lead behind another that lacks its bytes is no UTF-8, and is trimmed twice. */
  lemma NotIdempotentOnRawBytes()
    ensures var s: seq<Byte> := [0x41, 0xE2, 0xE2];
            HasLead(s) && HasLead(Trimmed(s)) && Trimmed(Trimmed(s)) != Trimmed(s)
  {
  }
}
