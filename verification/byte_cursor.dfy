/** ByteCursor: reading numbers from a buffer without running off its end. */
module ByteCursors {
  import opened Bits
  import opened Bytes

  /** A number whose most significant byte comes first. */
  function BigNumber(bs: seq<Byte>): nat {
    if bs == [] then 0 else 256 * BigNumber(bs[..|bs| - 1]) + bs[|bs| - 1]
  }

  /** The low `width` bytes of `n`, the most significant first. */
  function Big(n: nat, width: nat): (bs: seq<Byte>)
    ensures |bs| == width
  {
    if width == 0 then [] else Big(n / 256, width - 1) + [n % 256]
  }

  lemma {:induction false} NumberOfBig(n: nat, width: nat)
    requires n < Limit(width)
    ensures BigNumber(Big(n, width)) == n
  {
    if width > 0 { NumberOfBig(n / 256, width - 1); }
  }

  function NumberIn(bs: seq<Byte>, bigEndian: bool): nat {
    if bigEndian then BigNumber(bs) else Number(bs)
  }

  lemma {:induction false} BigNumberFits(bs: seq<Byte>)
    ensures BigNumber(bs) < Limit(|bs|)
  {
    if bs != [] { BigNumberFits(bs[..|bs| - 1]); }
  }

  lemma NumberInFits(bs: seq<Byte>, bigEndian: bool)
    ensures NumberIn(bs, bigEndian) < Limit(|bs|)
  {
    NumberFits(bs);
    BigNumberFits(bs);
  }

  /** What a type of `width` bytes holds of a number of `|bs|` bytes: a signed one that is narrower is extended, and what
      does not fit is cut off. A negative number is given by its two's complement. */
  function Taken(bs: seq<Byte>, bigEndian: bool, signed: bool, width: nat): nat {
    var n := NumberIn(bs, bigEndian);
    if signed && 0 < |bs| < width && 2 * n >= Limit(|bs|) then
      LimitGrows(|bs|, width);
      n + (Limit(width) - Limit(|bs|))
    else Low(n, 8 * width)
  }

  lemma {:induction false} LimitGrows(size: nat, width: nat)
    requires size <= width
    ensures Limit(size) <= Limit(width)
    decreases width
  {
    if size < width { LimitGrows(size, width - 1); } else if size > 0 { LimitGrows(size - 1, width - 1); }
  }

  /** A number that fits is taken as it is. */
  lemma TakenWhole(bs: seq<Byte>, bigEndian: bool, width: nat)
    requires |bs| <= width
    ensures Taken(bs, bigEndian, false, width) == NumberIn(bs, bigEndian)
  {
    NumberInFits(bs, bigEndian);
    LimitGrows(|bs|, width);
    LimitInBits(width);
    LowWhole(NumberIn(bs, bigEndian), 8 * width);
  }

  /** Cutting off may wait until the end. */
  lemma CutLater(n: nat, b: Byte, width: nat)
    ensures Low(ShiftLeft(Low(n, 8 * width), 8) + b, 8 * width) == Low(256 * n + b, 8 * width)
  {
    LowTwice(n, 8 * width);
    LimitInBits(1);
    SameShifted(Low(n, 8 * width), n, b, 8, 8 * width);
    Up(n);
  }

  lemma {:induction false} LimitInBits(size: nat)
    ensures ShiftLeft(1, 8 * size) == Limit(size) && Ones(8 * size) == Limit(size) - 1
  {
    if size > 0 {
      LimitInBits(size - 1);
      var k := 8 * (size - 1);
      assert Ones(k + 4) == 16 * Ones(k) + 15 by { assert Ones(k + 2) == 4 * Ones(k) + 3; }
      assert Ones(k + 8) == 16 * Ones(k + 4) + 15 by { assert Ones(k + 6) == 4 * Ones(k + 4) + 3; }
      ShiftSum(1, k, 8);
      Up(ShiftLeft(1, k));
    }
  }

  /** Flipping the sign bit and taking it away again. */
  lemma SignBit(v: nat, size: nat)
    requires 0 < size && v < Limit(size)
    ensures var s := ShiftLeft(1, 8 * size - 1);
            2 * s == Limit(size) && Xor(v, s) == if v < s then v + s else v - s
  {
    LimitInBits(size);
    TopBit(v, 8 * size - 1);
  }

  class ByteCursor {
    const buffer: seq<Byte>
    const bigEndian: bool
    var here: nat
    /** False once a read has run off the end. */
    var complete: bool

    constructor (buffer: seq<Byte>, bigEndian: bool)
      ensures this.buffer == buffer && this.bigEndian == bigEndian && here == 0 && complete
    {
      this.buffer, this.bigEndian, here, complete := buffer, bigEndian, 0, true;
    }

    method CheckAvailable(size: nat) returns (available: bool)
      requires here <= |buffer|
      modifies this
      ensures available <==> old(here) + size <= |buffer|
      ensures if available then here == old(here) && complete == old(complete) else here == |buffer| && !complete
    {
      if |buffer| - here >= size { return true; }
      here, complete := |buffer|, false;
      return false;
    }

    /** Read a number of `size` bytes into a type of `width` bytes. */
    method Read(size: nat, signed: bool, width: nat) returns (v: nat)
      requires here <= |buffer| && (signed ==> 0 < size)
      modifies this
      ensures here <= |buffer|
      ensures if old(here) + size <= |buffer| then
                && here == old(here) + size && complete == old(complete)
                && v == Taken(buffer[old(here)..here], bigEndian, signed, width)
              else here == |buffer| && !complete && v == Low(0xdeadbeef, 8 * width)
    {
      var available := CheckAvailable(size);
      if !available { return Low(0xdeadbeef, 8 * width); }
      v := Accumulate(size, width);
      if signed && size < width {
        TakenWhole(buffer[here..here + size], bigEndian, width);
        NumberInFits(buffer[here..here + size], bigEndian);
        LimitGrows(size, width);
        v := Extended(v, size, width);
      }
      here := here + size;
    }

    /** The loop over the bytes, most significant first. */
    method Accumulate(size: nat, width: nat) returns (v: nat)
      requires here + size <= |buffer|
      ensures v == Low(NumberIn(buffer[here..here + size], bigEndian), 8 * width)
    {
      ghost var bs := buffer[here..here + size];
      v := 0;
      LowWhole(0, 8 * width);
      if bigEndian {
        for i := 0 to size
          invariant v == Low(BigNumber(bs[..i]), 8 * width)
        {
          assert bs[..i + 1][..i] == bs[..i];
          CutLater(BigNumber(bs[..i]), bs[i], width);
          v := Low(ShiftLeft(v, 8) + buffer[here + i], 8 * width);
        }
        assert bs[..size] == bs;
      } else {
        for i := size downto 0
          invariant v == Low(Number(bs[i..]), 8 * width)
        {
          assert bs[i..][1..] == bs[i + 1..];
          CutLater(Number(bs[i + 1..]), bs[i], width);
          v := Low(ShiftLeft(v, 8) + buffer[here + i], 8 * width);
        }
      }
    }
  }

  /** Sign extension by flipping the sign bit and subtracting it, modulo the size of the type. */
  method Extended(n: nat, size: nat, width: nat) returns (v: nat)
    requires 0 < size < width && n < Limit(size) <= Limit(width)
    ensures v == if 2 * n >= Limit(size) then n + (Limit(width) - Limit(size)) else n
  {
    SignBit(n, size);
    var signBit := ShiftLeft(1, 8 * size - 1);
    v := Xor(n, signBit);
    v := if v >= signBit then v - signBit else v - signBit + Limit(width);
  }
}
