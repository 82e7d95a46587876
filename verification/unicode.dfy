/** Unicode code points and their encodings: UTF-8 as in sections 3 and 4 of RFC 3629, UTF-16 as in sections 2.1 and
    2.2 of RFC 2781. Shifts and masks are written as the divisions and remainders they are. */
module Unicode {
  type Utf32 = c: int | 0 <= c < 0x1_0000_0000
  type Utf16 = u: int | 0 <= u < 0x1_0000
  type Utf8 = b: int | 0 <= b < 0x100

  const REPLACEMENT: Utf32 := 0xFFFD
  const MAX_BMP: Utf32 := 0xFFFF
  const MAX_LEGAL: Utf32 := 0x10FFFF

  predicate IsSurrogate(c: Utf32) { 0xD800 <= c <= 0xDFFF }

  /** A Unicode scalar value. */
  predicate IsScalar(c: Utf32) { c <= MAX_LEGAL && !IsSurrogate(c) }

  ghost predicate AllScalars(cs: seq<Utf32>) {
    forall k | 0 <= k < |cs| :: IsScalar(cs[k])
  }

  // ---- UTF-8

  /** The octets of a code point: section 3 of RFC 3629. */
  function Octets(c: Utf32): (bs: seq<Utf8>)
    requires c <= MAX_LEGAL
    ensures 1 <= |bs| <= 4
  {
    if c < 0x80 then [c]
    else if c < 0x800 then [0xC0 + c / 0x40, 0x80 + c % 0x40]
    else if c < 0x10000 then [0xE0 + c / 0x1000, 0x80 + c / 0x40 % 0x40, 0x80 + c % 0x40]
    else [0xF0 + c / 0x40000, 0x80 + c / 0x1000 % 0x40, 0x80 + c / 0x40 % 0x40, 0x80 + c % 0x40]
  }

  predicate IsTail(b: Utf8) { 0x80 <= b <= 0xBF }

  /** The octets of one character: the syntax in section 4 of RFC 3629. */
  predicate IsCharacter(bs: seq<Utf8>) {
    match |bs|
    case 1 => bs[0] <= 0x7F
    case 2 => 0xC2 <= bs[0] <= 0xDF && IsTail(bs[1])
    case 3 =>
      && IsTail(bs[2])
      && (|| (bs[0] == 0xE0 && 0xA0 <= bs[1] <= 0xBF)
          || (0xE1 <= bs[0] <= 0xEC && IsTail(bs[1]))
          || (bs[0] == 0xED && 0x80 <= bs[1] <= 0x9F)
          || (0xEE <= bs[0] <= 0xEF && IsTail(bs[1])))
    case 4 =>
      && IsTail(bs[2]) && IsTail(bs[3])
      && (|| (bs[0] == 0xF0 && 0x90 <= bs[1] <= 0xBF)
          || (0xF1 <= bs[0] <= 0xF3 && IsTail(bs[1]))
          || (bs[0] == 0xF4 && 0x80 <= bs[1] <= 0x8F))
    case _ => false
  }

  /** A code point's octets fit that syntax exactly if it is a scalar value. */
  lemma OctetsAreACharacter(c: Utf32)
    requires c <= MAX_LEGAL
    ensures IsCharacter(Octets(c)) <==> IsScalar(c)
  {
    if c >= 0x10000 { FourOctets(c); } else if c >= 0x800 { ThreeOctets(c); }
  }

  lemma ThreeOctets(c: Utf32)
    requires 0x800 <= c < 0x10000
    ensures IsCharacter(Octets(c)) <==> !IsSurrogate(c)
  {
    assert c / 0x40 == 0x40 * (c / 0x1000) + c / 0x40 % 0x40;
  }

  lemma FourOctets(c: Utf32)
    requires 0x10000 <= c <= MAX_LEGAL
    ensures IsCharacter(Octets(c))
  {
    assert c / 0x1000 == 0x40 * (c / 0x40000) + c / 0x1000 % 0x40;
  }

  // ---- UTF-16

  predicate IsHigh(u: Utf16) { 0xD800 <= u <= 0xDBFF }

  predicate IsLow(u: Utf16) { 0xDC00 <= u <= 0xDFFF }

  /** The code units of a code point: section 2.1 of RFC 2781. */
  function CodeUnits(c: Utf32): (us: seq<Utf16>)
    requires c <= MAX_LEGAL
    ensures 1 <= |us| <= 2
  {
    if c <= MAX_BMP then [c]
    else [0xD800 + (c - 0x10000) / 0x400, 0xDC00 + (c - 0x10000) % 0x400]
  }
}
