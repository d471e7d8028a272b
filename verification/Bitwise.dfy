/**
 Shifts, masks and bitwise or on unsigned 32-bit words, as operations on the numbers the words stand
 for, binary digit by binary digit; and the arithmetic they amount to for the shifts and masks of the
 UTF-8 code and of the trie lookup.
 */
module Bitwise {
  import opened Int32

  function ShiftRight(x: nat, k: nat): nat {
    if k == 0 then x else ShiftRight(x / 2, k - 1)
  }

  /** `x` with `k` zeros behind its digits. */
  function Scaled(x: nat, k: nat): nat {
    if k == 0 then x else 2 * Scaled(x, k - 1)
  }

  /** What a word keeps of it. */
  function ShiftLeft(x: nat, k: nat): nat {
    Scaled(x, k) % WORD
  }

  function And(x: nat, y: nat): nat {
    if x == 0 || y == 0 then 0
    else (if x % 2 == 1 && y % 2 == 1 then 1 else 0) + 2 * And(x / 2, y / 2)
  }

  function Or(x: nat, y: nat): nat {
    if x == 0 then y
    else if y == 0 then x
    else (if x % 2 == 1 || y % 2 == 1 then 1 else 0) + 2 * Or(x / 2, y / 2)
  }

  /** The `k` lowest digits. */
  function LowDigits(x: nat, k: nat): nat {
    if k == 0 then 0 else x % 2 + 2 * LowDigits(x / 2, k - 1)
  }

  /** The mask with `k` ones. */
  function Ones(k: nat): nat {
    if k == 0 then 0 else 1 + 2 * Ones(k - 1)
  }

  // ---------------------------------------------------------------------------------------------
  // Masks and sums
  // ---------------------------------------------------------------------------------------------

  lemma {:induction false} OrCommutes(x: nat, y: nat)
    ensures Or(x, y) == Or(y, x)
  {
    if x != 0 && y != 0 {
      OrCommutes(x / 2, y / 2);
    }
  }

  lemma {:induction false} AndOnes(x: nat, k: nat)
    ensures And(x, Ones(k)) == LowDigits(x, k)
  {
    if k > 0 {
      AndOnes(x / 2, k - 1);
      NoLowDigits(k);
    }
  }

  lemma {:induction false} NoLowDigits(k: nat)
    ensures LowDigits(0, k) == 0
  {
    if k > 0 {
      NoLowDigits(k - 1);
    }
  }

  /** A mask whose lowest digits are zero works on what the shift leaves. */
  lemma {:induction false} AndScaled(x: nat, mask: nat, k: nat)
    ensures And(x, Scaled(mask, k)) == Scaled(And(ShiftRight(x, k), mask), k)
  {
    if k > 0 {
      AndScaled(x / 2, mask, k - 1);
    }
  }

  /** An or of numbers without common digits is a sum. */
  lemma {:induction false} OrScaled(x: nat, y: nat, k: nat)
    requires ShiftRight(y, k) == 0
    ensures Or(Scaled(x, k), y) == Scaled(x, k) + y
  {
    if k > 0 {
      OrScaled(x, y / 2, k - 1);
    }
  }

  lemma {:induction false} ShiftTwice(x: nat, j: nat, k: nat)
    ensures ShiftRight(x, j + k) == ShiftRight(ShiftRight(x, j), k)
    ensures Scaled(x, j + k) == Scaled(Scaled(x, k), j)
  {
    if j > 0 {
      ShiftTwice(x / 2, j - 1, k);
      ShiftTwice(x, j - 1, k);
    }
  }

  lemma {:induction false} ShiftAndRest(x: nat, k: nat)
    ensures x == Scaled(ShiftRight(x, k), k) + LowDigits(x, k)
  {
    if k > 0 {
      ShiftAndRest(x / 2, k - 1);
    }
  }

  // ---------------------------------------------------------------------------------------------
  // The shifts and masks of the sources
  // ---------------------------------------------------------------------------------------------

  lemma SmallShifts(x: nat)
    ensures ShiftRight(x, 2) == x / 4 && ShiftRight(x, 3) == x / 8 && ShiftRight(x, 4) == x / 16
    ensures ShiftRight(x, 5) == x / 32 && ShiftRight(x, 6) == x / 64
  {
    ShiftTwice(x, 1, 1);
    ShiftTwice(x, 2, 1);
    ShiftTwice(x, 3, 1);
    ShiftTwice(x, 4, 1);
    ShiftTwice(x, 5, 1);
  }

  lemma ShiftByNine(x: nat)
    ensures ShiftRight(x, 9) == x / 512
  {
    SmallShifts(x);
    ShiftTwice(x, 6, 3);
    SmallShifts(x / 64);
  }

  lemma SixBitShifts(x: nat)
    ensures ShiftRight(x, 12) == x / 64 / 64 && ShiftRight(x, 18) == x / 64 / 64 / 64
  {
    SmallShifts(x);
    SmallShifts(x / 64);
    ShiftTwice(x, 6, 6);
    ShiftTwice(x, 12, 6);
    SmallShifts(x / 64 / 64);
  }

  lemma Scales(x: nat)
    ensures Scaled(x, 2) == 4 * x && Scaled(x, 3) == 8 * x && Scaled(x, 4) == 16 * x
    ensures Scaled(x, 5) == 32 * x && Scaled(x, 6) == 64 * x && Scaled(x, 8) == 256 * x
  {
    ShiftTwice(x, 1, 1);
    ShiftTwice(x, 1, 2);
    ShiftTwice(x, 1, 3);
    ShiftTwice(x, 1, 4);
    ShiftTwice(x, 1, 5);
    ShiftTwice(x, 2, 6);
    ShiftTwice(Scaled(x, 6), 1, 1);
  }

  lemma Masks(x: nat)
    ensures And(x, 0x03) == x % 4 && And(x, 0x07) == x % 8 && And(x, 0x0F) == x % 16
    ensures And(x, 0x1F) == x % 32 && And(x, 0x3F) == x % 64
  {
    assert Ones(2) == 0x03 && Ones(3) == 0x07 && Ones(4) == 0x0F && Ones(5) == 0x1F && Ones(6) == 0x3F;
    MaskIsRemainder(x, 2, 4);
    MaskIsRemainder(x, 3, 8);
    MaskIsRemainder(x, 4, 16);
    MaskIsRemainder(x, 5, 32);
    MaskIsRemainder(x, 6, 64);
  }

  lemma MaskIsRemainder(x: nat, k: nat, d: nat)
    requires 2 <= k <= 6 && d == if k == 2 then 4 else if k == 3 then 8 else if k == 4 then 16 else if k == 5 then 32 else 64
    ensures And(x, Ones(k)) == x % d
  {
    AndOnes(x, k);
    ShiftAndRest(x, k);
    SmallShifts(x);
    Scales(ShiftRight(x, k));
  }
}
