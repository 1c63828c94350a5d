/** Bytes and the bitwise operators the controller applies to them.

    The controller keeps every frame as a list of plain integers and combines
    them with the integer operators `^` and `|`. Here a byte is an integer in
    [0, 255], and exclusive-or and inclusive-or are defined digit by digit on
    natural numbers, so that the facts the checksum relies on (zero is neutral,
    order does not matter, a value cancels itself) are proved rather than
    assumed. */
module Bits {

  /** One octet of a frame. */
  type Byte = x: int | 0 <= x < 256

  /** 2 to the power k. */
  function Pow2(k: nat): (p: nat)
    ensures p >= 1
  {
    if k == 0 then 1 else 2 * Pow2(k - 1)
  }

  /** Bitwise exclusive-or of two natural numbers (the `^` of the source). */
  function Xor(a: nat, b: nat): nat
    decreases a + b
  {
    if a == 0 && b == 0 then 0 else 2 * Xor(a / 2, b / 2) + (a + b) % 2
  }

  /** Bitwise inclusive-or of two natural numbers (the `|` of the source). */
  function Or(a: nat, b: nat): nat
    decreases a + b
  {
    if a == 0 && b == 0 then 0
    else 2 * Or(a / 2, b / 2) + (if a % 2 == 1 || b % 2 == 1 then 1 else 0)
  }

  /** Splitting 2q + r into its lowest binary digit and the rest. */
  lemma HalveDigit(q: nat, r: nat)
    requires r < 2
    ensures (2 * q + r) % 2 == r && (2 * q + r) / 2 == q
  {
  }

  /** The lowest binary digit and the remaining digits of an exclusive-or. */
  lemma {:induction false} XorDigits(a: nat, b: nat)
    ensures Xor(a, b) % 2 == (a + b) % 2
    ensures Xor(a, b) / 2 == Xor(a / 2, b / 2)
  {
    if a != 0 || b != 0 {
      HalveDigit(Xor(a / 2, b / 2), (a + b) % 2);
    }
  }

  /** Two naturals with the same lowest digit and the same remaining digits are equal. */
  lemma SameDigits(x: nat, y: nat)
    requires x % 2 == y % 2 && x / 2 == y / 2
    ensures x == y
  {
  }

  /** Zero is the neutral element of exclusive-or, on both sides. */
  lemma {:induction false} XorZero(a: nat)
    ensures Xor(a, 0) == a && Xor(0, a) == a
    decreases a
  {
    if a != 0 {
      XorZero(a / 2);
    }
  }

  /** Exclusive-or does not depend on the order of its operands. */
  lemma {:induction false} XorCommutes(a: nat, b: nat)
    ensures Xor(a, b) == Xor(b, a)
    decreases a + b
  {
    if a != 0 || b != 0 {
      XorCommutes(a / 2, b / 2);
    }
  }

  /** Adding the same number to two numbers of equal parity keeps their
      parities equal. */
  lemma ParityShift(m: nat, n: nat, k: nat)
    requires m % 2 == n % 2
    ensures (m + k) % 2 == (n + k) % 2
  {
  }

  /** The lowest digit of a three-way exclusive-or does not depend on the
      grouping: both are the parity of a + b + c. */
  lemma {:induction false} XorParityAssociates(a: nat, b: nat, c: nat)
    ensures Xor(Xor(a, b), c) % 2 == (a + b + c) % 2
    ensures Xor(a, Xor(b, c)) % 2 == (a + b + c) % 2
  {
    var ab, bc := Xor(a, b), Xor(b, c);
    XorDigits(a, b);
    XorDigits(ab, c);
    ParityShift(ab, a + b, c);
    XorDigits(b, c);
    XorDigits(a, bc);
    ParityShift(bc, b + c, a);
  }

  /** Exclusive-or does not depend on how its operands are grouped. */
  lemma {:induction false} XorAssociates(a: nat, b: nat, c: nat)
    ensures Xor(Xor(a, b), c) == Xor(a, Xor(b, c))
    decreases a + b + c
  {
    if a + b + c != 0 {
      var x, y := Xor(Xor(a, b), c), Xor(a, Xor(b, c));
      XorParityAssociates(a, b, c);
      XorDigits(a, b);
      XorDigits(b, c);
      XorDigits(Xor(a, b), c);
      XorDigits(a, Xor(b, c));
      XorAssociates(a / 2, b / 2, c / 2);
      assert x / 2 == y / 2;
      SameDigits(x, y);
    }
  }

  /** Every value cancels itself under exclusive-or. */
  lemma {:induction false} XorSelf(a: nat)
    ensures Xor(a, a) == 0
    decreases a
  {
    if a != 0 {
      XorSelf(a / 2);
    }
  }

  /** Exclusive-or of two k-bit numbers is a k-bit number. */
  lemma {:induction false} XorBelow(a: nat, b: nat, k: nat)
    requires a < Pow2(k) && b < Pow2(k)
    ensures Xor(a, b) < Pow2(k)
    decreases k
  {
    if a + b != 0 {
      XorBelow(a / 2, b / 2, k - 1);
    }
  }

  /** Inclusive-or of two k-bit numbers is a k-bit number. */
  lemma {:induction false} OrBelow(a: nat, b: nat, k: nat)
    requires a < Pow2(k) && b < Pow2(k)
    ensures Or(a, b) < Pow2(k)
    decreases k
  {
    if a + b != 0 {
      OrBelow(a / 2, b / 2, k - 1);
    }
  }

  /** Inclusive-or is zero exactly when both operands are zero. */
  lemma {:induction false} OrZero(a: nat, b: nat)
    ensures Or(a, b) == 0 <==> a == 0 && b == 0
    decreases a + b
  {
    if a + b != 0 {
      OrZero(a / 2, b / 2);
    }
  }

  /** Exclusive-or of two bytes, as a byte. */
  function XorByte(a: Byte, b: Byte): (r: Byte)
    ensures r == Xor(a, b)
  {
    XorBelow(a, b, 8);
    Xor(a, b)
  }

  /** Inclusive-or of two bytes, as a byte. */
  function OrByte(a: Byte, b: Byte): (r: Byte)
    ensures r == Or(a, b)
  {
    OrBelow(a, b, 8);
    Or(a, b)
  }
}
