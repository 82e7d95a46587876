/** convert_UTF.c, one character at a time. */
module ConvertUtf {
  import opened Bits
  import opened Unicode

  // ---- Shifts and masks, and what they come to

  /** A trailing byte, from the low six bits. */
  function Trailing(ch: Utf32): (b: Utf8)
    ensures b == 0x80 + ch % 64
  {
    TrailMark(ch);
    And(Or(ch, 0x80), 0xBF)
  }

  function AfterSixBits(ch: Utf32): (rest: Utf32)
    ensures rest == ch / 64
  {
    LowSix(ch);
    ShiftRight(ch, 6)
  }

  const FIRST_BYTE_MARK: seq<Utf8> := [0x00, 0x00, 0xC0, 0xE0, 0xF0, 0xF8, 0xFC]

  /** The bits of a leading byte below its mark are free. */
  predicate FitsLead(ch: Utf32, bytesToWrite: nat) {
    match bytesToWrite
    case 1 => ch < 0x80
    case 2 => ch < 0x20
    case 3 => ch < 0x10
    case 4 => ch < 0x08
    case _ => false
  }

  function Leading(ch: Utf32, bytesToWrite: nat): (b: Utf8)
    requires FitsLead(ch, bytesToWrite)
    ensures b == ch + FIRST_BYTE_MARK[bytesToWrite]
  {
    LeadMarks(ch);
    Or(ch, FIRST_BYTE_MARK[bytesToWrite])
  }

  /** Room for six bits more, while there is any. */
  function WithSixBits(ch: Utf32): (more: Utf32)
    requires ch < 0x400_0000
    ensures more == 64 * ch
  {
    Up(ch);
    ShiftLeft(ch, 6)
  }

  function HighHalf(ch: Utf32): (u: Utf16)
    requires ch < 0x10_0000
    ensures u == ch / 0x400 + 0xD800
  {
    LowTen(ch);
    ShiftRight(ch, 10) + 0xD800
  }

  function LowHalf(ch: Utf32): (u: Utf16)
    ensures u == ch % 0x400 + 0xDC00
  {
    MaskTen(ch);
    And(ch, 0x3FF) + 0xDC00
  }

  function Paired(high: Utf16, low: Utf16): (c: int)
    requires IsHigh(high) && IsLow(low)
    ensures c == 0x400 * (high - 0xD800) + (low - 0xDC00) + 0x10000
  {
    Up(high - 0xD800);
    ShiftLeft(high - 0xD800, 10) + (low - 0xDC00) + 0x10000
  }

  // ---- UTF-8

  function TrailingBytes(lead: Utf8): nat {
    if lead < 0xC0 then 0 else if lead < 0xE0 then 1 else if lead < 0xF0 then 2
    else if lead < 0xF8 then 3 else if lead < 0xFC then 4 else 5
  }

  /** isLegalUTF8, for the length that the first byte gives. */
  predicate IsLegal(bs: seq<Utf8>)
    requires bs != []
  {
    var n := |bs|;
    && n <= 4
    && (n >= 4 ==> 0x80 <= bs[n - 1] <= 0xBF)
    && (n >= 3 ==> 0x80 <= bs[2] <= 0xBF)
    && (n >= 2 ==>
          && bs[1] <= 0xBF
          && (if bs[0] == 0xE0 then bs[1] >= 0xA0
              else if bs[0] == 0xED then bs[1] <= 0x9F
              else if bs[0] == 0xF0 then bs[1] >= 0x90
              else if bs[0] == 0xF4 then bs[1] <= 0x8F
              else bs[1] >= 0x80))
    && !(0x80 <= bs[0] < 0xC2)
    && bs[0] <= 0xF4
  }

  ghost predicate HasItsLength(bs: seq<Utf8>) {
    bs != [] && |bs| == TrailingBytes(bs[0]) + 1
  }

  /** After the leads ED and F4 there is no lower bound on the second byte. */
  predicate HasLowSecondByte(bs: seq<Utf8>) {
    || (|bs| == 3 && bs[0] == 0xED && bs[1] < 0x80 && IsTail(bs[2]))
    || (|bs| == 4 && bs[0] == 0xF4 && bs[1] < 0x80 && IsTail(bs[2]) && IsTail(bs[3]))
  }

  /** That is all that is let through beyond RFC 3629. */
  lemma LegalExactly(bs: seq<Utf8>)
    requires HasItsLength(bs)
    ensures IsLegal(bs) <==> IsCharacter(bs) || HasLowSecondByte(bs)
  {
  }

  function Offset(extra: nat): int {
    if extra == 0 then 0 else if extra == 1 then 0x3080 else if extra == 2 then 0xE2080
    else if extra == 3 then 0x3C82080 else if extra == 4 then 0xFA082080 else 0x82082080
  }

  /** The fall-through sum of the first `n` bytes. */
  function SumOf(bs: seq<Utf8>, n: nat): nat
    requires 1 <= n <= |bs|
    decreases n, |bs|
  {
    if n == 1 then bs[0] else 64 * SumOf(bs, n - 1) + bs[n - 1]
  }

  lemma Sums(bs: seq<Utf8>)
    requires 1 <= |bs| <= 4
    ensures SumOf(bs, 1) == bs[0]
    ensures |bs| >= 2 ==> SumOf(bs, 2) == 0x40 * (bs[0] as int) + bs[1]
    ensures |bs| >= 3 ==> SumOf(bs, 3) == 0x1000 * (bs[0] as int) + 0x40 * (bs[1] as int) + bs[2]
    ensures |bs| >= 4 ==> SumOf(bs, 4) == 0x40000 * (bs[0] as int) + 0x1000 * (bs[1] as int) + 0x40 * (bs[2] as int) + bs[3]
  {
  }

  function Decoded(bs: seq<Utf8>): int
    requires bs != []
  {
    SumOf(bs, |bs|) - Offset(|bs| - 1)
  }

  /** What is accepted decodes without overflow or underflow, to a scalar value. */
  lemma LegalDecodesToScalar(bs: seq<Utf8>)
    requires HasItsLength(bs) && IsLegal(bs)
    ensures forall n | 1 <= n <= |bs| :: SumOf(bs, n) < 0x1_0000_0000
    ensures 0 <= Decoded(bs) <= MAX_LEGAL && IsScalar(Decoded(bs))
  {
    Sums(bs);
  }

  /** Four groups of six bits, and what taking them apart gives. */
  lemma SixBitGroups(w: nat, x: nat, y: nat, z: nat)
    requires x < 0x40 && y < 0x40 && z < 0x40
    ensures var c := 0x40000 * w + 0x1000 * x + 0x40 * y + z;
            c % 0x40 == z && c / 0x40 % 0x40 == y && c / 0x1000 % 0x40 == x && c / 0x40000 == w
            && (w == 0 ==> c / 0x1000 == x) && (w == 0 && x == 0 ==> c / 0x40 == y)
  {
    var c := 0x40000 * w + 0x1000 * x + 0x40 * y + z;
    assert c == 0x40 * (0x1000 * w + 0x40 * x + y) + z;
    assert c / 0x40 == 0x40 * (0x40 * w + x) + y;
    assert c / 0x1000 == 0x40 * w + x;
  }

  lemma Reencodes(bs: seq<Utf8>)
    requires IsCharacter(bs)
    ensures HasItsLength(bs) && IsLegal(bs) && 0 <= Decoded(bs) <= MAX_LEGAL && Octets(Decoded(bs)) == bs
  {
    Sums(bs);
    match |bs|
    case 1 =>
    case 2 => SixBitGroups(0, 0, bs[0] - 0xC0, bs[1] - 0x80);
    case 3 => SixBitGroups(0, bs[0] - 0xE0, bs[1] - 0x80, bs[2] - 0x80);
    case _ => SixBitGroups(bs[0] - 0xF0, bs[1] - 0x80, bs[2] - 0x80, bs[3] - 0x80);
  }

  /** Encoding what was decoded gives the same bytes back exactly for the characters of RFC 3629. */
  lemma ReencodesExactly(bs: seq<Utf8>)
    requires HasItsLength(bs) && IsLegal(bs)
    ensures 0 <= Decoded(bs) <= MAX_LEGAL
    ensures Octets(Decoded(bs)) == bs <==> IsCharacter(bs)
  {
    LegalDecodesToScalar(bs);
    if IsCharacter(bs) {
      Reencodes(bs);
    } else {
      OctetsAreACharacter(Decoded(bs));
    }
  }

  /** A sequence that is accepted, and decodes as if it were another. */
  lemma LowSecondByteExample()
    ensures IsLegal([0xED, 0x00, 0x80]) && Decoded([0xED, 0x00, 0x80]) == 0xB000
    ensures Octets(0xB000) == [0xEB, 0x80, 0x80]
  {
    Sums([0xED, 0x00, 0x80]);
  }

  lemma GroupsOf(c: nat)
    ensures c == 0x40 * (c / 0x40) + c % 0x40
    ensures c / 0x40 == 0x40 * (c / 0x1000) + c / 0x40 % 0x40
    ensures c / 0x1000 == 0x40 * (c / 0x40000) + c / 0x1000 % 0x40
  {
  }

  /** The bytes that come when six bits at a time are taken off. */
  predicate TakenFromTheEnd(bs: seq<Utf8>, c: Utf32) {
    var d, e := c / 64, c / 64 / 64;
    match |bs|
    case 1 => bs == [c] && c < 0x80
    case 2 => bs[0] == 0xC0 + d && bs[1] == 0x80 + c % 64 && d < 0x20
    case 3 => bs[0] == 0xE0 + e && bs[1] == 0x80 + d % 64 && bs[2] == 0x80 + c % 64 && e < 0x10
    case 4 => bs[0] == 0xF0 + e / 64 && bs[1] == 0x80 + e % 64 && bs[2] == 0x80 + d % 64 && bs[3] == 0x80 + c % 64
              && e / 64 < 0x08
    case _ => false
  }

  lemma OctetsFromTheEnd(c: Utf32)
    requires c <= MAX_LEGAL
    ensures TakenFromTheEnd(Octets(c), c)
  {
    GroupsOf(c);
  }

  lemma DecodesOctets(c: Utf32)
    requires IsScalar(c)
    ensures Decoded(Octets(c)) == c && HasItsLength(Octets(c)) && IsLegal(Octets(c))
  {
    OctetsAreACharacter(c);
    CharacterIsLegal(Octets(c));
    DecodesBack(c);
  }

  lemma CharacterIsLegal(bs: seq<Utf8>)
    requires IsCharacter(bs)
    ensures HasItsLength(bs) && IsLegal(bs)
  {
  }

  lemma DecodesBack(c: Utf32)
    requires c <= MAX_LEGAL
    ensures Decoded(Octets(c)) == c
  {
    GroupsOf(c);
    Sums(Octets(c));
  }

  // ---- Surrogate pairs

  /** A pair stands for one character beyond the BMP, which is encoded as that pair. */
  lemma PairIsACharacter(high: Utf16, low: Utf16)
    requires IsHigh(high) && IsLow(low)
    ensures MAX_BMP < Paired(high, low) <= MAX_LEGAL && CodeUnits(Paired(high, low)) == [high, low]
  {
  }

  lemma UnitsArePaired(c: Utf32)
    requires MAX_BMP < c <= MAX_LEGAL
    ensures var us := CodeUnits(c);
            |us| == 2 && IsHigh(us[0]) && IsLow(us[1]) && Paired(us[0], us[1]) == c
  {
  }
}
