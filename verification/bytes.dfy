/** Bytes in memory, and unsigned integers in them, least significant byte first. */
module Bytes {
  type Byte = b: int | 0 <= b < 256

  /** The low `width` bytes of `n`, in two's complement; what does not fit is cut off. */
  function Little(n: int, width: nat): (bs: seq<Byte>)
    ensures |bs| == width
    decreases width, n
  {
    if width == 0 then [] else [n % 256] + Little(n / 256, width - 1)
  }

  /** Eight bytes are the low word's four, and then the high word's. */
  lemma LittleInHalves(n: nat)
    ensures Little(n, 8) == Little(n % 0x1_0000_0000, 4) + Little(n / 0x1_0000_0000 % 0x1_0000_0000, 4)
  {
    LittleSplit(n, 4, 4);
    LittleOfWord(n);
    LittleOfWord(n / 0x1_0000_0000);
    ShiftedByWord(n);
  }

  /** What is left of `n` after its low `width` bytes. */
  function Shifted(n: nat, width: nat): nat {
    if width == 0 then n else Shifted(n / 256, width - 1)
  }

  lemma ShiftedByWord(n: nat)
    ensures Shifted(n, 4) == n / 0x1_0000_0000
  {
    assert Shifted(n, 4) == Shifted(n / 256, 3);
    assert Shifted(n / 256, 3) == Shifted(n / 256 / 256, 2);
    assert Shifted(n / 256 / 256, 2) == Shifted(n / 256 / 256 / 256, 1);
    assert Shifted(n / 256 / 256 / 256, 1) == n / 256 / 256 / 256 / 256;
  }

  lemma {:induction false} LittleSplit(n: nat, w: nat, w': nat)
    ensures Little(n, w + w') == Little(n, w) + Little(Shifted(n, w), w')
  {
    if w > 0 { LittleSplit(n / 256, w - 1, w'); }
  }

  /** Four bytes hold a number modulo 2^32. */
  lemma LittleOfWord(n: nat)
    ensures Little(n % 0x1_0000_0000, 4) == [n % 256, n / 256 % 256, n / 0x1_0000 % 256, n / 0x100_0000 % 256]
    ensures Little(n, 4) == Little(n % 0x1_0000_0000, 4)
  {
    FourBytes(n);
    FourBytes(n % 0x1_0000_0000);
    SameLowBytes(n % 0x1_0000_0000, n / 0x1_0000_0000);
  }

  lemma SameLowBytes(r: nat, q: nat)
    ensures var n := r + 0x1_0000_0000 * q;
            && n % 256 == r % 256 && n / 256 % 256 == r / 256 % 256
            && n / 0x1_0000 % 256 == r / 0x1_0000 % 256 && n / 0x100_0000 % 256 == r / 0x100_0000 % 256
  {
    var n := r + 0x1_0000_0000 * q;
    assert n % 256 == r % 256 by { assert n == r + 256 * (0x100_0000 * q); }
    assert n / 256 == r / 256 + 0x100_0000 * q;
    assert n / 0x1_0000 == r / 0x1_0000 + 0x1_0000 * q;
    assert n / 0x100_0000 == r / 0x100_0000 + 256 * q;
    Multiple(r / 256, 0x1_0000 * q);
    Multiple(r / 0x1_0000, 256 * q);
    Multiple(r / 0x100_0000, q);
  }

  lemma Multiple(r: nat, q: nat)
    ensures (r + 256 * q) % 256 == r % 256
  {
  }

  lemma FourBytes(n: nat)
    ensures Little(n, 4) == [n % 256, n / 256 % 256, n / 0x1_0000 % 256, n / 0x100_0000 % 256]
  {
    var n1, n2, n3 := n / 256, n / 0x1_0000, n / 0x100_0000;
    assert Little(n, 4) == [n % 256] + Little(n1, 3);
    assert Little(n1, 3) == [n1 % 256] + Little(n2, 2);
    assert Little(n2, 2) == [n2 % 256] + Little(n3, 1);
  }

  function Number(bs: seq<Byte>): nat {
    if bs == [] then 0 else bs[0] + 256 * Number(bs[1..])
  }

  function Limit(width: nat): (limit: nat)
    ensures limit > 0
  {
    if width == 0 then 1 else 256 * Limit(width - 1)
  }

  lemma {:induction false} NumberOfLittle(n: int, width: nat)
    requires 0 <= n < Limit(width)
    ensures Number(Little(n, width)) == n
  {
    if width > 0 {
      NumberOfLittle(n / 256, width - 1);
      assert Little(n, width)[1..] == Little(n / 256, width - 1);
    }
  }

  lemma {:induction false} NumberFits(bs: seq<Byte>)
    ensures Number(bs) < Limit(|bs|)
  {
    if bs != [] { NumberFits(bs[1..]); }
  }

  lemma Limits()
    ensures Limit(4) == 0x1_0000_0000 && Limit(8) == 0x1_0000_0000_0000_0000
  {
    assert Limit(2) == 0x1_0000 && Limit(3) == 0x100_0000;
    assert Limit(5) == 256 * Limit(4) && Limit(6) == 256 * Limit(5) && Limit(7) == 256 * Limit(6);
  }

  /** Nothing outside [from, to) differs. */
  predicate OnlyWritten(before: seq<Byte>, after: seq<Byte>, from: int, to: int) {
    |before| == |after|
    && forall k | 0 <= k < |after| && !(from <= k < to) :: after[k] == before[k]
  }

  /** `bs` was written at `at`, and nothing else. */
  predicate Wrote(before: seq<Byte>, after: seq<Byte>, at: int, bs: seq<Byte>) {
    OnlyWritten(before, after, at, at + |bs|) && Holds(after, at, bs)
  }

  method PutLittle(buffer: array<Byte>, at: nat, n: int, width: nat)
    requires at + width <= buffer.Length
    modifies buffer
    ensures Wrote(old(buffer[..]), buffer[..], at, Little(n, width))
  {
    var rest := n;
    for i := 0 to width
      invariant OnlyWritten(old(buffer[..]), buffer[..], at, at + i)
      invariant buffer[at..at + i] + Little(rest, width - i) == Little(n, width)
    {
      buffer[at + i] := rest % 256;
      assert Little(rest, width - i) == [rest % 256] + Little(rest / 256, width - i - 1);
      assert buffer[at..at + i + 1] == buffer[at..at + i] + [rest % 256];
      rest := rest / 256;
    }
    assert buffer[..][at..at + width] == buffer[at..at + width] == Little(n, width);
  }

  method PutBytes(buffer: array<Byte>, at: nat, bs: seq<Byte>)
    requires at + |bs| <= buffer.Length
    modifies buffer
    ensures Wrote(old(buffer[..]), buffer[..], at, bs)
  {
    for i := 0 to |bs|
      invariant OnlyWritten(old(buffer[..]), buffer[..], at, at + i)
      invariant buffer[at..at + i] == bs[..i]
    {
      buffer[at + i] := bs[i];
    }
    assert buffer[..][at..at + |bs|] == buffer[at..at + |bs|] == bs;
  }

  /** `buffer` holds `bs` from `at` on. */
  predicate Holds(buffer: seq<Byte>, at: int, bs: seq<Byte>) {
    0 <= at && at + |bs| <= |buffer| && buffer[at..at + |bs|] == bs
  }

  lemma WroteIs(before: seq<Byte>, after: seq<Byte>, at: nat, bs: seq<Byte>)
    requires Wrote(before, after, at, bs)
    ensures after == before[..at] + bs + before[at + |bs|..]
  {
    assert after[at..at + |bs|] == bs;
    assert after == after[..at] + after[at..at + |bs|] + after[at + |bs|..];
  }

  /** What a buffer holds, it holds part by part. */
  lemma HoldsParts(buffer: seq<Byte>, at: nat, a: seq<Byte>, b: seq<Byte>)
    ensures Holds(buffer, at, a + b) <==> Holds(buffer, at, a) && Holds(buffer, at + |a|, b)
  {
    if Holds(buffer, at, a + b) {
      assert buffer[at..at + |a|] == (a + b)[..|a|] == a;
      assert buffer[at + |a|..at + |a| + |b|] == (a + b)[|a|..] == b;
    }
    if Holds(buffer, at, a) && Holds(buffer, at + |a|, b) {
      assert buffer[at..at + |a| + |b|] == buffer[at..at + |a|] + buffer[at + |a|..at + |a| + |b|];
    }
  }

  lemma HoldsFourParts(buffer: seq<Byte>, at: nat, a: seq<Byte>, b: seq<Byte>, c: seq<Byte>, d: seq<Byte>)
    ensures Holds(buffer, at, a + (b + (c + d))) <==>
            && Holds(buffer, at, a) && Holds(buffer, at + |a|, b)
            && Holds(buffer, at + |a| + |b|, c) && Holds(buffer, at + |a| + |b| + |c|, d)
  {
    HoldsParts(buffer, at, a, b + (c + d));
    HoldsParts(buffer, at + |a|, b, c + d);
    HoldsParts(buffer, at + |a| + |b|, c, d);
  }

  /** A number that fits its bytes is read back. */
  lemma ReadsLittle(buffer: seq<Byte>, at: nat, n: int, width: nat)
    requires 0 <= n < Limit(width) && Holds(buffer, at, Little(n, width))
    ensures at + width <= |buffer| && Number(buffer[at..at + width]) == n
  {
    NumberOfLittle(n, width);
  }

  /** What a buffer holds outside a written region, it still holds. */
  lemma HoldsStays(before: seq<Byte>, after: seq<Byte>, from: int, to: int, at: int, bs: seq<Byte>)
    requires OnlyWritten(before, after, from, to)
    requires Holds(before, at, bs) && (at + |bs| <= from || to <= at)
    ensures Holds(after, at, bs)
  {
    assert after[at..at + |bs|] == before[at..at + |bs|];
  }

  /** Writing `b` right after `a` extends what is held; a part elsewhere stays. */
  lemma HoldsGrows(before: seq<Byte>, after: seq<Byte>, at: int, a: seq<Byte>, b: seq<Byte>)
    requires Holds(before, at, a) && Wrote(before, after, at + |a|, b)
    ensures Holds(after, at, a + b)
  {
    HoldsStays(before, after, at + |a|, at + |a| + |b|, at, a);
    HoldsParts(after, at, a, b);
  }

  /** Three runs of parts lying after each other in a buffer, each extended by one part in turn. */
  lemma ThreeGrow(b0: seq<Byte>, b1: seq<Byte>, b2: seq<Byte>, b3: seq<Byte>,
                  x: int, a: seq<Byte>, atA: int, a': seq<Byte>, y: int, b: seq<Byte>, atB: int, b': seq<Byte>,
                  z: int, c: seq<Byte>, atC: int, c': seq<Byte>)
    requires x + |a| == atA && atA + |a'| <= y && y + |b| == atB && atB + |b'| <= z && z + |c| == atC
    requires Holds(b0, x, a) && Holds(b0, y, b) && Holds(b0, z, c)
    requires Wrote(b0, b1, atA, a') && Wrote(b1, b2, atB, b') && Wrote(b2, b3, atC, c')
    ensures Holds(b3, x, a + a') && Holds(b3, y, b + b') && Holds(b3, z, c + c')
  {
    HoldsGrows(b0, b1, x, a, a');
    HoldsStays(b1, b2, y + |b|, y + |b| + |b'|, x, a + a');
    HoldsStays(b2, b3, z + |c|, z + |c| + |c'|, x, a + a');
    HoldsStays(b0, b1, x + |a|, x + |a| + |a'|, y, b);
    HoldsGrows(b1, b2, y, b, b');
    HoldsStays(b2, b3, z + |c|, z + |c| + |c'|, y, b + b');
    HoldsStays(b0, b1, x + |a|, x + |a| + |a'|, z, c);
    HoldsStays(b1, b2, y + |b|, y + |b| + |b'|, z, c);
    HoldsGrows(b2, b3, z, c, c');
  }

  lemma OnlyWrittenTwice(before: seq<Byte>, between: seq<Byte>, after: seq<Byte>,
                         from: int, to: int, from': int, to': int, lo: int, hi: int)
    requires OnlyWritten(before, between, from, to) && OnlyWritten(between, after, from', to')
    requires lo <= from && to <= hi && lo <= from' && to' <= hi
    ensures OnlyWritten(before, after, lo, hi)
  {
  }
}
