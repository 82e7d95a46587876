/** The bit operators of C on unsigned values, bit by bit. */
module Bits {

  /** Shifting up by `k`. */
  function ShiftLeft(x: nat, k: nat): nat {
    if k == 0 then x else 2 * ShiftLeft(x, k - 1)
  }

  /** Shifting down by `k`. */
  function ShiftRight(x: nat, k: nat): nat {
    if k == 0 then x else ShiftRight(x / 2, k - 1)
  }

  function And(x: nat, y: nat): nat {
    if x == 0 || y == 0 then 0 else (if x % 2 == 1 && y % 2 == 1 then 1 else 0) + 2 * And(x / 2, y / 2)
  }

  function Or(x: nat, y: nat): nat {
    if x == 0 then y else if y == 0 then x
    else (if x % 2 == 1 || y % 2 == 1 then 1 else 0) + 2 * Or(x / 2, y / 2)
  }

  function Xor(x: nat, y: nat): nat {
    if x == 0 then y else if y == 0 then x
    else (if x % 2 == y % 2 then 0 else 1) + 2 * Xor(x / 2, y / 2)
  }

  /** `k` ones. */
  function Ones(k: nat): nat {
    if k == 0 then 0 else 2 * Ones(k - 1) + 1
  }

  /** The low `k` bits of a number. */
  function Low(x: nat, k: nat): nat {
    if k == 0 then 0 else x % 2 + 2 * Low(x / 2, k - 1)
  }

  // ---- One bit at a time: numbers put together from a low bit and the rest

  lemma AndBit(x: nat, b: nat, y: nat, c: nat)
    requires b < 2 && c < 2
    ensures And(2 * x + b, 2 * y + c) == (if b == 1 && c == 1 then 1 else 0) + 2 * And(x, y)
  {
    var m, n := 2 * x + b, 2 * y + c;
    assert m / 2 == x && n / 2 == y;
  }

  lemma OrBit(x: nat, b: nat, y: nat, c: nat)
    requires b < 2 && c < 2
    ensures Or(2 * x + b, 2 * y + c) == (if b == 1 || c == 1 then 1 else 0) + 2 * Or(x, y)
  {
    var m, n := 2 * x + b, 2 * y + c;
    assert m / 2 == x && n / 2 == y;
  }

  lemma XorBit(x: nat, b: nat, y: nat, c: nat)
    requires b < 2 && c < 2
    ensures Xor(2 * x + b, 2 * y + c) == (if b == c then 0 else 1) + 2 * Xor(x, y)
  {
    var m, n := 2 * x + b, 2 * y + c;
    assert m / 2 == x && n / 2 == y;
  }

  // ---- Shifts

  /** A number is its low bits and what is above them. */
  lemma {:induction false} LowAndHigh(x: nat, k: nat)
    ensures x == Low(x, k) + ShiftLeft(ShiftRight(x, k), k) && Low(x, k) <= Ones(k)
  {
    if k > 0 { LowAndHigh(x / 2, k - 1); }
  }

  lemma {:induction false} LowWhole(x: nat, k: nat)
    requires x <= Ones(k)
    ensures Low(x, k) == x
  {
    if k > 0 { LowWhole(x / 2, k - 1); }
  }

  lemma {:induction false} LowTwice(x: nat, k: nat)
    ensures Low(Low(x, k), k) == Low(x, k)
  {
    LowAndHigh(x, k);
    LowWhole(Low(x, k), k);
  }

  lemma {:induction false} SameLower(x: nat, y: nat, k: nat)
    requires k > 0 && Low(x, k) == Low(y, k)
    ensures Low(x, k - 1) == Low(y, k - 1)
  {
    if k > 1 { SameLower(x / 2, y / 2, k - 1); }
  }

  lemma SameWithBit(x: nat, y: nat, b: nat, k: nat)
    requires Low(x, k) == Low(y, k) && b < 2
    ensures Low(2 * x + b, k) == Low(2 * y + b, k)
  {
    if k > 0 {
      SameLower(x, y, k);
      var m, n := 2 * x + b, 2 * y + b;
      assert m / 2 == x && n / 2 == y;
    }
  }

  /** Numbers with the same low bits, shifted up and filled with the same bits, have the same low bits. */
  lemma {:induction false} SameShifted(x: nat, y: nat, b: nat, j: nat, k: nat)
    requires Low(x, k) == Low(y, k) && b <= Ones(j)
    ensures Low(ShiftLeft(x, j) + b, k) == Low(ShiftLeft(y, j) + b, k)
    decreases j
  {
    if j > 0 {
      SameShifted(x, y, b / 2, j - 1, k);
      SameWithBit(ShiftLeft(x, j - 1) + b / 2, ShiftLeft(y, j - 1) + b / 2, b % 2, k);
    }
  }

  lemma {:induction false} ShiftSum(x: nat, j: nat, k: nat)
    ensures ShiftLeft(x, j + k) == ShiftLeft(ShiftLeft(x, j), k)
    decreases k
  {
    if k > 0 { ShiftSum(x, j, k - 1); }
  }

  lemma Up(x: nat)
    ensures ShiftLeft(x, 3) == 8 * x && ShiftLeft(x, 6) == 64 * x && ShiftLeft(x, 8) == 256 * x && ShiftLeft(x, 10) == 0x400 * x
  {
    ShiftSum(x, 3, 3);
    ShiftSum(x, 6, 2);
    ShiftSum(x, 8, 2);
    UpByTwoOrThree(x);
    UpByTwoOrThree(8 * x);
    UpByTwoOrThree(64 * x);
    UpByTwoOrThree(256 * x);
  }

  lemma UpByTwoOrThree(x: nat)
    ensures ShiftLeft(x, 2) == 4 * x && ShiftLeft(x, 3) == 8 * x
  {
    assert ShiftLeft(x, 1) == 2 * x;
  }

  lemma LowSix(x: nat)
    ensures Low(x, 6) == x % 64 && ShiftRight(x, 6) == x / 64
  {
    LowAndHigh(x, 6);
    Up(ShiftRight(x, 6));
    Constants();
    PartsOfSix(x, Low(x, 6), ShiftRight(x, 6));
  }

  lemma PartsOfSix(x: nat, low: nat, high: nat)
    requires low < 64 && x == low + 64 * high
    ensures low == x % 64 && high == x / 64
  {
  }

  lemma PartsOfTen(x: nat, low: nat, high: nat)
    requires low < 0x400 && x == low + 0x400 * high
    ensures low == x % 0x400 && high == x / 0x400
  {
  }

  lemma LowTen(x: nat)
    ensures Low(x, 10) == x % 0x400 && ShiftRight(x, 10) == x / 0x400
  {
    LowAndHigh(x, 10);
    Up(ShiftRight(x, 10));
    Constants();
    PartsOfTen(x, Low(x, 10), ShiftRight(x, 10));
  }

  // ---- Masks

  lemma {:induction false} LowBits(x: nat, k: nat)
    ensures And(x, Ones(k)) == Low(x, k)
  {
    if k > 0 {
      LowBits(x / 2, k - 1);
      AndBit(x / 2, x % 2, Ones(k - 1), 1);
    }
  }

  lemma Constants()
    ensures Ones(6) == 0x3F && Ones(10) == 0x3FF
    ensures ShiftLeft(2, 6) == 0x80
    ensures ShiftLeft(6, 5) == 0xC0 && ShiftLeft(14, 4) == 0xE0 && ShiftLeft(30, 3) == 0xF0
  {
  }

  lemma MaskTen(x: nat)
    ensures And(x, 0x3FF) == x % 0x400
  {
    Constants();
    LowBits(x, 10);
    LowTen(x);
  }

  // ---- Marks

  /** Bits that are neither marked nor masked out. */
  lemma {:induction false} Unmarked(x: nat, mark: nat, mask: nat, k: nat)
    ensures And(Or(x, ShiftLeft(mark, k)), ShiftLeft(mask, k) + Ones(k))
         == Low(x, k) + ShiftLeft(And(Or(ShiftRight(x, k), mark), mask), k)
  {
    if k > 0 {
      Unmarked(x / 2, mark, mask, k - 1);
      UnmarkedBit(x / 2, x % 2, ShiftLeft(mark, k - 1), ShiftLeft(mask, k - 1) + Ones(k - 1));
    }
  }

  lemma UnmarkedBit(x: nat, b: nat, mark: nat, mask: nat)
    requires b < 2
    ensures And(Or(2 * x + b, 2 * mark), 2 * mask + 1) == b + 2 * And(Or(x, mark), mask)
  {
    OrBit(x, b, mark, 0);
    AndBit(Or(x, mark), b, mask, 1);
  }

  /** Marking a trailing byte: the low six bits, with the mark above them. */
  lemma TrailMark(x: nat)
    ensures And(Or(x, 0x80), 0xBF) == 0x80 + x % 64
  {
    Constants();
    Unmarked(x, 2, 2, 6);
    LowSix(x);
    MarkAbove(ShiftRight(x, 6));
  }

  lemma MarkAbove(x: nat)
    ensures And(Or(x, 2), 2) == 2
  {
    OrBit(x / 2, x % 2, 1, 0);
    AndBit(Or(x / 2, 1), x % 2, 1, 0);
    OrBit(x / 4, x / 2 % 2, 0, 1);
    AndBit(Or(x / 4, 0), 1, 0, 1);
  }

  /** Marking a lead byte, when the bits of the mark are free. */
  lemma {:induction false} FreeMark(x: nat, mark: nat, k: nat)
    requires x <= Ones(k)
    ensures Or(x, ShiftLeft(mark, k)) == x + ShiftLeft(mark, k)
  {
    if k > 0 {
      FreeMark(x / 2, mark, k - 1);
      OrBit(x / 2, x % 2, ShiftLeft(mark, k - 1), 0);
    }
  }

  lemma LeadMarks(x: nat)
    ensures x < 0x20 ==> Or(x, 0xC0) == 0xC0 + x
    ensures x < 0x10 ==> Or(x, 0xE0) == 0xE0 + x
    ensures x < 0x08 ==> Or(x, 0xF0) == 0xF0 + x
  {
    Constants();
    assert Ones(3) == 7 && Ones(4) == 15 && Ones(5) == 31;
    if x < 0x20 { FreeMark(x, 6, 5); }
    if x < 0x10 { FreeMark(x, 14, 4); }
    if x < 0x08 { FreeMark(x, 30, 3); }
  }

  /** Turning the top bit of a number around. */
  lemma {:induction false} TopBit(x: nat, k: nat)
    requires x <= Ones(k + 1)
    ensures Xor(x, ShiftLeft(1, k)) == if x < ShiftLeft(1, k) then x + ShiftLeft(1, k) else x - ShiftLeft(1, k)
    ensures ShiftLeft(1, k) == Ones(k) + 1
  {
    if k > 0 {
      TopBit(x / 2, k - 1);
      XorBit(x / 2, x % 2, ShiftLeft(1, k - 1), 0);
    }
  }
}
