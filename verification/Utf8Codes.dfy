/** The bytes of UTF-8 by their values, and what an encoding carries. */
module Utf8Codes {
  import opened Utf8Trim

  /** The bytes by their values. */
  lemma ByteRanges(b: Byte)
    ensures IsAscii(b) <==> b <= 0x7F
    ensures IsContinuation(b) <==> 0x80 <= b <= 0xBF
    ensures Announced(b) == if b < 0xC0 then 0 else if b <= 0xDF then 2 else if b <= 0xEF then 3 else 4
  {
  }

  /** The bits of an encoding: 7, 5 + 6, 4 + 6 + 6 or 3 + 6 + 6 + 6, by its number of bytes. */
  function Decode(e: seq<Byte>): bv32
    requires 1 <= |e| <= 4
  {
    if |e| == 1 then e[0] as bv32
    else if |e| == 2 then Join(Low(e[0], 0x1F), e[1])
    else if |e| == 3 then Join(Join(Low(e[0], 0x0F), e[1]), e[2])
    else Join(Join(Join(Low(e[0], 0x07), e[1]), e[2]), e[3])
  }

  function Low(b: Byte, mask: Byte): bv32 { (b & mask) as bv32 }

  /** Six more bits. */
  function Join(c: bv32, b: Byte): bv32 { (c << 6) | Low(b, 0x3F) }

  lemma JoinTail(c: bv32)
    requires c <= 0x10FFFF
    ensures Join(c >> 6, Tail(c)) == c
  {
  }

  lemma Shifted(c: bv32)
    requires c <= 0x10FFFF
    ensures (c >> 6) >> 6 == c >> 12 && (c >> 12) >> 6 == c >> 18
    ensures c >> 6 <= 0x10FFFF && c >> 12 <= 0x10FFFF
  {
  }

  lemma Leads(c: bv32)
    requires c <= 0x10FFFF
    ensures c < 0x80 ==> c as Byte as bv32 == c
    ensures c < 0x800 ==> Low((0xC0 | (c >> 6)) as Byte, 0x1F) == c >> 6
    ensures c < 0x1_0000 ==> Low((0xE0 | (c >> 12)) as Byte, 0x0F) == c >> 12
    ensures Low((0xF0 | (c >> 18)) as Byte, 0x07) == c >> 18
  {
  }

  /** A character's bytes, as few as carry it, give it back. */
  lemma DecodeEncode(c: Scalar)
    ensures Decode(Encode(c)) == c
    ensures |Encode(c)| == if c <= 0x7F then 1 else if c <= 0x7FF then 2 else if c <= 0xFFFF then 3 else 4
  {
    JoinTail(c);
    JoinTail(c >> 6);
    JoinTail(c >> 12);
    Shifted(c);
    Leads(c);
    hide Join, Low, Tail;
  }
}
