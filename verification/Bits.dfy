/** Powers of two and the bitwise operators of Go on numbers. */
module Bits {

  function Pow2(n: nat): (p: nat)
    ensures p > 0
  {
    if n == 0 then 1 else 2 * Pow2(n - 1)
  }

  lemma {:induction false} Pow2Adds(a: nat, b: nat)
    ensures Pow2(a + b) == Pow2(a) * Pow2(b)
  {
    if a > 0 {
      Pow2Adds(a - 1, b);
      assert a + b - 1 == a - 1 + b;
      Doubled(Pow2(a - 1), Pow2(b));
    }
  }

  lemma Doubled(a: nat, b: nat)
    ensures 2 * (a * b) == (2 * a) * b
  {}

  lemma Pow2Widths()
    ensures Pow2(7) == 128 && Pow2(8) == 256 && Pow2(63) == 0x8000_0000_0000_0000 && Pow2(64) == 0x1_0000_0000_0000_0000
  {
    assert Pow2(7) == 128 by { assert Pow2(3) == 8; }
    Pow2Adds(7, 7);
    assert Pow2(14) == 0x4000;
    Pow2Adds(14, 14);
    assert Pow2(28) == 0x1000_0000;
    Pow2Adds(28, 28);
    assert Pow2(56) == 0x100_0000_0000_0000;
    Pow2Adds(56, 7);
    assert Pow2(63) == 0x8000_0000_0000_0000;
  }

  lemma {:induction false} Pow2Grows(a: nat, b: nat)
    requires a <= b
    ensures Pow2(a) <= Pow2(b)
  {
    if a < b {
      Pow2Grows(a, b - 1);
    }
  }

  // Exclusive or of the lowest `bits` bits.
  function XorBits(a: nat, b: nat, bits: nat): (x: nat) {
    if bits == 0 then 0 else (a % 2 + b % 2) % 2 + 2 * XorBits(a / 2, b / 2, bits - 1)
  }

  lemma {:induction false} XorBound(a: nat, b: nat, bits: nat, limit: nat)
    requires limit == Pow2(bits)
    ensures XorBits(a, b, bits) < limit
  {
    if bits > 0 {
      XorBound(a / 2, b / 2, bits - 1, Pow2(bits - 1));
    }
  }

  lemma {:induction false} XorTwice(a: nat, b: nat, bits: nat)
    requires a < Pow2(bits)
    ensures XorBits(XorBits(a, b, bits), b, bits) == a
  {
    if bits > 0 {
      var rest := XorBits(a / 2, b / 2, bits - 1);
      XorTwice(a / 2, b / 2, bits - 1);
      XorLowest(a % 2, b % 2, rest);
      assert XorBits(a, b, bits) == (a % 2 + b % 2) % 2 + 2 * rest;
    }
  }

  lemma XorLowest(p: nat, q: nat, rest: nat)
    requires p < 2 && q < 2
    ensures var x := (p + q) % 2 + 2 * rest; x / 2 == rest && (x % 2 + q) % 2 == p
  {}

  lemma {:induction false} XorZero(a: nat, bits: nat)
    requires a < Pow2(bits)
    ensures XorBits(a, 0, bits) == a
  {
    if bits > 0 {
      XorZero(a / 2, bits - 1);
    }
  }

  lemma {:induction false} XorOnes(a: nat, bits: nat)
    requires a < Pow2(bits)
    ensures XorBits(a, Pow2(bits) - 1, bits) == Pow2(bits) - 1 - a
  {
    if bits > 0 {
      XorOnes(a / 2, bits - 1);
      var ones := Pow2(bits) - 1;
      assert ones % 2 == 1 && ones / 2 == Pow2(bits - 1) - 1;
    }
  }

  // The bit of weight 2^i.
  function Bit(a: nat, i: nat): nat {
    if i == 0 then a % 2 else Bit(a / 2, i - 1)
  }

  // A bit is set exactly if it is set in one of the two.
  lemma {:induction false} XorOfBits(a: nat, b: nat, bits: nat, i: nat)
    requires i < bits
    ensures Bit(XorBits(a, b, bits), i) == if Bit(a, i) != Bit(b, i) then 1 else 0
  {
    if i == 0 {
      BitIsOneOrZero(a, 0);
    } else {
      XorOfBits(a / 2, b / 2, bits - 1, i - 1);
      XorLowest(a % 2, b % 2, XorBits(a / 2, b / 2, bits - 1));
    }
  }

  lemma {:induction false} BitIsOneOrZero(a: nat, i: nat)
    ensures Bit(a, i) <= 1
  {
    if i > 0 {
      BitIsOneOrZero(a / 2, i - 1);
    }
  }

  // Bitwise or of the lowest `bits` bits.
  function OrBits(a: nat, b: nat, bits: nat): (x: nat)
    ensures x < Pow2(bits)
  {
    if bits == 0 then 0 else (if a % 2 == 1 || b % 2 == 1 then 1 else 0) + 2 * OrBits(a / 2, b / 2, bits - 1)
  }

  // Or adds numbers that have no bit in common: one below 2^k, the other a multiple of 2^k.
  lemma {:induction false} OrAdds(a: nat, m: nat, k: nat, bits: nat)
    requires a < Pow2(k) && a + m * Pow2(k) < Pow2(bits)
    ensures OrBits(a, m * Pow2(k), bits) == a + m * Pow2(k)
  {
    if k == 0 {
      OrZero(m, bits);
    } else if bits == 0 {
      assert m * Pow2(k) == 0;
    } else {
      HalfMultiple(m, k);
      OrAdds(a / 2, m, k - 1, bits - 1);
    }
  }

  lemma HalfMultiple(m: nat, k: nat)
    requires k > 0
    ensures m * Pow2(k) == 2 * (m * Pow2(k - 1))
  {}

  lemma {:induction false} OrZero(m: nat, bits: nat)
    requires m < Pow2(bits)
    ensures OrBits(0, m, bits) == m
  {
    if bits > 0 {
      OrZero(m / 2, bits - 1);
    }
  }
}
