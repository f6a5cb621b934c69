/** Unsigned bytes and the bitwise operators of the sources, on naturals. */
module Bytes {

  type byte = x: int | 0 <= x < 256

  /** Bitwise AND of two naturals. */
  function And(x: nat, y: nat): nat
    decreases x
  {
    if x == 0 || y == 0 then 0
    else 2 * And(x / 2, y / 2) + (if x % 2 == 1 && y % 2 == 1 then 1 else 0)
  }

  lemma AndStep(x: nat, y: nat)
    ensures And(x, 0) == 0
    ensures And(x, y) == 2 * And(x / 2, y / 2) + (if x % 2 == 1 && y % 2 == 1 then 1 else 0)
  {
  }

  lemma {:induction false} AndSelf(x: nat)
    ensures And(x, x) == x
    decreases x
  {
    if x != 0 {
      AndSelf(x / 2);
    }
  }

  /** Binary digit k of a natural. */
  function Digit(x: nat, k: nat): (d: nat)
    decreases k
  {
    if k == 0 then x % 2 else Digit(x / 2, k - 1)
  }

  lemma {:induction false} DigitIsBinary(x: nat, k: nat)
    ensures Digit(x, k) < 2
    decreases k
  {
    if k != 0 {
      DigitIsBinary(x / 2, k - 1);
    }
  }

  lemma {:induction false} ZeroDigit(k: nat)
    ensures Digit(0, k) == 0
    decreases k
  {
    if k != 0 {
      ZeroDigit(k - 1);
    }
  }

  /** The digits of an AND. */
  lemma {:induction false} AndDigit(x: nat, y: nat, k: nat)
    ensures Digit(And(x, y), k) == Digit(x, k) * Digit(y, k)
    decreases k
  {
    AndStep(x, y);
    hide And;
    if k != 0 {
      AndDigit(x / 2, y / 2, k - 1);
    }
  }

  /** The digits of an exclusive or. */
  lemma {:induction false} XorDigit(x: nat, y: nat, k: nat)
    ensures Digit(Xor(x, y), k) == (Digit(x, k) + Digit(y, k)) % 2
    decreases k
  {
    XorStep(x, y);
    hide Xor;
    if k != 0 {
      XorDigit(x / 2, y / 2, k - 1);
    }
  }

  function Power(k: nat): nat {
    if k == 0 then 1 else 2 * Power(k - 1)
  }

  /** Bitwise exclusive or of two naturals. */
  function Xor(x: nat, y: nat): nat
    decreases x + y
  {
    if x == 0 && y == 0 then 0 else 2 * Xor(x / 2, y / 2) + (if x % 2 == y % 2 then 0 else 1)
  }

  lemma {:induction false} XorZero(x: nat)
    ensures Xor(0, x) == x
    decreases x
  {
    if x != 0 {
      XorZero(x / 2);
    }
  }

  lemma {:induction false} XorCommutes(x: nat, y: nat)
    ensures Xor(x, y) == Xor(y, x)
    decreases x + y
  {
    if x != 0 || y != 0 {
      XorCommutes(x / 2, y / 2);
    }
  }

  lemma {:induction false} XorInjective(x: nat, y: nat, z: nat)
    requires Xor(x, y) == Xor(x, z)
    ensures y == z
    decreases x + y + z
  {
    if x + y + z != 0 {
      hide Xor;
      XorStep(x, y);
      XorStep(x, z);
      XorInjective(x / 2, y / 2, z / 2);
    }
  }

  lemma XorStep(x: nat, y: nat)
    ensures Xor(x, y) == 2 * Xor(x / 2, y / 2) + (if x % 2 == y % 2 then 0 else 1)
  {
  }

  lemma {:induction false} XorFits(x: nat, y: nat, k: nat)
    requires x < Power(k) && y < Power(k)
    ensures Xor(x, y) < Power(k)
    decreases k
  {
    if k != 0 {
      XorStep(x, y);
      XorFits(x / 2, y / 2, k - 1);
    }
  }

  /** The exclusive or of two bytes. */
  function XorByte(x: byte, y: byte): byte {
    assert Power(4) == 16 && Power(8) == 16 * Power(4);
    XorFits(x, y, 8);
    Xor(x, y)
  }
}
