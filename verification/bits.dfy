/** Bitwise OR on unsigned values of a fixed width, defined bit by bit from the least
    significant end, and the facts about it that the Or operation relies on. */
module Bits {
  import opened Arith

  /** 2 to the power n. */
  function Pow2(n: nat): (p: nat)
    ensures p >= 1
  {
    if n == 0 then 1 else 2 * Pow2(n - 1)
  }

  /** Bit k of a, counting from the least significant. */
  predicate Bit(a: nat, k: nat) {
    (a / Pow2(k)) % 2 == 1
  }

  /** The bitwise OR of two n-bit values: the low bit is set when either low bit is set,
      and the remaining n - 1 bits are the OR of the values shifted right by one. */
  function OrBits(a: nat, b: nat, n: nat): (r: nat)
    requires a < Pow2(n) && b < Pow2(n)
    ensures r < Pow2(n)
    decreases n
  {
    if n == 0 then 0
    else 2 * OrBits(a / 2, b / 2, n - 1) + (if a % 2 == 1 || b % 2 == 1 then 1 else 0)
  }

  /** Bit k of a value is bit k - 1 of the value halved. */
  lemma BitOfHalf(a: nat, k: nat)
    requires k >= 1
    ensures Bit(a, k) <==> Bit(a / 2, k - 1)
  {
    DivDiv(a, 2, Pow2(k - 1));
  }

  /** Dividing by p and then by q is dividing by p * q. */
  lemma DivDiv(a: nat, p: nat, q: nat)
    requires p >= 1 && q >= 1
    ensures a / p / q == a / (p * q)
  {
    var q1, r1 := a / p, a % p;
    var q2, r2 := q1 / q, q1 % q;
    assert a == p * q1 + r1;
    assert q1 == q * q2 + r2;
    assert p * q1 == p * q * q2 + p * r2;
    assert p * r2 <= p * (q - 1) by {
      MulMono(p, r2, q - 1);
    }
    ModUnique(a, p * q, q2, p * r2 + r1);
  }

  /** Multiplying by a natural number keeps order. */
  lemma MulMono(p: nat, x: nat, y: nat)
    requires x <= y
    ensures p * x <= p * y
  {
    assert p * y == p * x + p * (y - x);
  }

  /** One step of OrBits: the low bit of the OR, and the OR of the halves above it. */
  lemma OrBitsStep(a: nat, b: nat, n: nat)
    requires a < Pow2(n) && b < Pow2(n) && n >= 1
    ensures OrBits(a, b, n) % 2 == (if a % 2 == 1 || b % 2 == 1 then 1 else 0)
    ensures OrBits(a, b, n) / 2 == OrBits(a / 2, b / 2, n - 1)
  {
  }

  /** A bit of the OR is set exactly when that bit is set in either operand. */
  lemma {:induction false} OrBitsBit(a: nat, b: nat, n: nat, k: nat)
    requires a < Pow2(n) && b < Pow2(n) && k < n
    ensures Bit(OrBits(a, b, n), k) <==> Bit(a, k) || Bit(b, k)
    decreases n
  {
    var o := OrBits(a, b, n);
    OrBitsStep(a, b, n);
    if k == 0 {
      assert Pow2(0) == 1;
    } else {
      BitOfHalf(o, k);
      BitOfHalf(a, k);
      BitOfHalf(b, k);
      OrBitsBit(a / 2, b / 2, n - 1, k - 1);
      assert Bit(o, k) <==> Bit(OrBits(a / 2, b / 2, n - 1), k - 1);
    }
  }

  /** OrBitsBit for every bit position at once. */
  lemma OrBitsBitwise(a: nat, b: nat, n: nat)
    requires a < Pow2(n) && b < Pow2(n)
    ensures forall k: nat | k < n :: Bit(OrBits(a, b, n), k) <==> Bit(a, k) || Bit(b, k)
  {
    forall k: nat | k < n
      ensures Bit(OrBits(a, b, n), k) <==> Bit(a, k) || Bit(b, k)
    {
      OrBitsBit(a, b, n, k);
    }
  }

  /** Two n-bit values with the same bits are equal. */
  lemma {:induction false} BitsDetermine(a: nat, b: nat, n: nat)
    requires a < Pow2(n) && b < Pow2(n)
    requires forall k | 0 <= k < n :: Bit(a, k) <==> Bit(b, k)
    ensures a == b
    decreases n
  {
    if n > 0 {
      assert Bit(a, 0) <==> Bit(b, 0);
      forall k | 0 <= k < n - 1
        ensures Bit(a / 2, k) <==> Bit(b / 2, k)
      {
        BitOfHalf(a, k + 1);
        BitOfHalf(b, k + 1);
      }
      BitsDetermine(a / 2, b / 2, n - 1);
    }
  }

  /** OR-ing in the same operand again changes nothing. */
  lemma OrBitsAbsorbs(a: nat, b: nat, n: nat)
    requires a < Pow2(n) && b < Pow2(n)
    ensures OrBits(OrBits(a, b, n), b, n) == OrBits(a, b, n)
  {
    var r := OrBits(a, b, n);
    forall k | 0 <= k < n
      ensures Bit(OrBits(r, b, n), k) <==> Bit(r, k)
    {
      OrBitsBit(r, b, n, k);
      OrBitsBit(a, b, n, k);
    }
    BitsDetermine(OrBits(r, b, n), r, n);
  }

  /** The OR contains both operands: OR-ing either one into it again changes nothing. */
  lemma OrBitsContains(a: nat, b: nat, n: nat)
    requires a < Pow2(n) && b < Pow2(n)
    ensures OrBits(a, OrBits(a, b, n), n) == OrBits(a, b, n)
    ensures OrBits(b, OrBits(a, b, n), n) == OrBits(a, b, n)
  {
    var r := OrBits(a, b, n);
    forall k | 0 <= k < n
      ensures Bit(OrBits(a, r, n), k) <==> Bit(r, k)
      ensures Bit(OrBits(b, r, n), k) <==> Bit(r, k)
    {
      OrBitsBit(a, r, n, k);
      OrBitsBit(b, r, n, k);
      OrBitsBit(a, b, n, k);
    }
    BitsDetermine(OrBits(a, r, n), r, n);
    BitsDetermine(OrBits(b, r, n), r, n);
  }

  /** A value OR-ed with itself is itself. */
  lemma OrBitsSelf(a: nat, n: nat)
    requires a < Pow2(n)
    ensures OrBits(a, a, n) == a
  {
    forall k | 0 <= k < n
      ensures Bit(OrBits(a, a, n), k) <==> Bit(a, k)
    {
      OrBitsBit(a, a, n, k);
    }
    BitsDetermine(OrBits(a, a, n), a, n);
  }

  /** Widening the width by one bit does not change the OR of values that already fit. */
  lemma {:induction false} OrBitsWiden(a: nat, b: nat, n: nat)
    requires a < Pow2(n) && b < Pow2(n)
    ensures OrBits(a, b, n + 1) == OrBits(a, b, n)
    decreases n
  {
    if n > 0 {
      OrBitsWiden(a / 2, b / 2, n - 1);
    }
  }

  /** 0x0A | 0x0C == 0x0E on bytes. */
  lemma OrBitsExample()
    ensures OrBits(0x0A, 0x0C, 8) == 0x0E
  {
    assert OrBits(0x0A, 0x0C, 4) == 0x0E;
    OrBitsWiden(0x0A, 0x0C, 4);
    OrBitsWiden(0x0A, 0x0C, 5);
    OrBitsWiden(0x0A, 0x0C, 6);
    OrBitsWiden(0x0A, 0x0C, 7);
  }
}
