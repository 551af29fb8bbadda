/** Bit operations on natural numbers, as fixed-width code uses them. */
module Bits {
  const U32: nat := 0x1_0000_0000
  const U64: nat := 0x1_0000_0000_0000_0000

  function Pow2(k: nat): (r: nat)
    ensures r >= 1
  {
    if k == 0 then 1 else 2 * Pow2(k - 1)
  }

  /** Bitwise or. */
  function Or(x: nat, y: nat): nat {
    if x == 0 && y == 0 then 0
    else 2 * Or(x / 2, y / 2) + if x % 2 == 1 || y % 2 == 1 then 1 else 0
  }

  /** Bitwise and. */
  function And(x: nat, y: nat): nat {
    if x == 0 && y == 0 then 0
    else 2 * And(x / 2, y / 2) + if x % 2 == 1 && y % 2 == 1 then 1 else 0
  }

  /** Left shift of a 32-bit word: bits shifted out are lost. */
  function Shl32(x: nat, k: nat): nat {
    x * Pow2(k) % U32
  }

  function ShiftRight(x: nat, k: nat): nat
    decreases k
  {
    if k == 0 then x else ShiftRight(x / 2, k - 1)
  }

  function Shl64(x: nat, k: nat): nat {
    x * Pow2(k) % U64
  }

  predicate Bit(x: nat, i: nat) {
    ShiftRight(x, i) % 2 == 1
  }

  /** A bit is set in `Or` if it is in either word, and in `And` if it is in both. */
  lemma {:induction false} BitwiseBits(x: nat, y: nat, i: nat)
    ensures Bit(Or(x, y), i) <==> Bit(x, i) || Bit(y, i)
    ensures Bit(And(x, y), i) <==> Bit(x, i) && Bit(y, i)
    decreases i
  {
    Halves(x, y);
    if i > 0 {
      BitwiseBits(x / 2, y / 2, i - 1);
    }
  }

  lemma Halves(x: nat, y: nat)
    ensures Or(x, y) / 2 == Or(x / 2, y / 2) && And(x, y) / 2 == And(x / 2, y / 2)
    ensures Or(x, y) % 2 == (if x % 2 == 1 || y % 2 == 1 then 1 else 0)
    ensures And(x, y) % 2 == (if x % 2 == 1 && y % 2 == 1 then 1 else 0)
  {
  }

  /** Putting low bits into the space a shift has cleared is addition. */
  lemma {:induction false} OrDisjoint(high: nat, low: nat, k: nat)
    requires low < Pow2(k)
    ensures Or(high * Pow2(k), low) == high * Pow2(k) + low
  {
    if k == 0 {
      OrZero(high);
    } else {
      var shifted := high * Pow2(k - 1);
      assert high * Pow2(k) == 2 * shifted;
      OrDisjoint(high, low / 2, k - 1);
    }
  }

  lemma {:induction false} OrCommutes(x: nat, y: nat)
    ensures Or(x, y) == Or(y, x)
  {
    if x > 0 || y > 0 {
      OrCommutes(x / 2, y / 2);
    }
  }

  lemma {:induction false} OrZero(x: nat)
    ensures Or(x, 0) == x
  {
    if x > 0 {
      OrZero(x / 2);
    }
  }

  /** Masking with two or four ones keeps the remainder by 4 or 16. */
  lemma Masks(x: nat)
    ensures And(x, 0) == 0 && And(x, 3) == x % 4 && And(x, 15) == x % 16
  {
    AndZero(x);
    MaskTwo(x, 0);
    MaskTwo(x, 3);
    MaskTwo(x / 4, 0);
    AndZero(x / 4);
    AndZero(x / 4 / 4);
    Mod16(x);
  }

  /** Two ones below a mask. */
  lemma MaskTwo(x: nat, y: nat)
    ensures And(x, 4 * y + 3) == 4 * And(x / 4, y) + x % 4
  {
    AndOdd(x, 2 * y + 1);
    AndOdd(x / 2, y);
    HalfTwice(x);
  }

  lemma HalfTwice(x: nat)
    ensures x / 2 / 2 == x / 4 && 2 * (x / 2 % 2) + x % 2 == x % 4
  {
  }

  lemma Mod16(x: nat)
    ensures 4 * (x / 4 % 4) + x % 4 == x % 16
  {
  }

  lemma AndOdd(x: nat, y: nat)
    ensures And(x, 2 * y + 1) == 2 * And(x / 2, y) + x % 2
  {
    assert (2 * y + 1) / 2 == y && (2 * y + 1) % 2 == 1;
  }

  lemma {:induction false} AndZero(x: nat)
    ensures And(x, 0) == 0
  {
    if x > 0 {
      AndZero(x / 2);
    }
  }
}
