/** XOR of n-bit unsigned integers, bit by bit from the lowest. The other bit
    operators of the client are masks and shifts by constants; the models write
    those as quotients and remainders by powers of two. */
module Bits {
  function Pow2(n: nat): (p: nat)
    ensures p >= 1
  {
    if n == 0 then 1 else 2 * Pow2(n - 1)
  }

  function XorBits(a: nat, b: nat, n: nat): (r: nat)
    ensures r < Pow2(n)
  {
    if n == 0 then 0
    else (if a % 2 != b % 2 then 1 else 0) + 2 * XorBits(a / 2, b / 2, n - 1)
  }

  lemma Powers()
    ensures Pow2(8) == 0x100 && Pow2(16) == 0x1_0000 && Pow2(32) == 0x1_0000_0000
  {
    assert Pow2(4) == 0x10;
    assert Pow2(8) == 0x100;
    assert Pow2(12) == 0x1000;
    assert Pow2(16) == 0x1_0000;
    assert Pow2(20) == 0x10_0000;
    assert Pow2(24) == 0x100_0000;
    assert Pow2(28) == 0x1000_0000;
  }

  /** The k-th bit of a, counted from the lowest. */
  function BitAt(a: nat, k: nat): (b: nat)
    ensures b < 2
  {
    if k == 0 then a % 2 else BitAt(a / 2, k - 1)
  }

  /** A bit of the result is set if the two bits there differ. */
  lemma {:induction false} XorBitAt(a: nat, b: nat, n: nat, k: nat)
    requires k < n
    ensures BitAt(XorBits(a, b, n), k) == 1 <==> BitAt(a, k) != BitAt(b, k)
  {
    var r := XorBits(a, b, n);
    assert r / 2 == XorBits(a / 2, b / 2, n - 1);
    if k > 0 {
      XorBitAt(a / 2, b / 2, n - 1, k - 1);
    }
  }

  /** XOR with the same number twice gives the number back. */
  lemma {:induction false} XorBitsCancels(a: nat, b: nat, n: nat)
    requires a < Pow2(n)
    ensures XorBits(XorBits(a, b, n), b, n) == a
  {
    if n > 0 {
      XorBitsCancels(a / 2, b / 2, n - 1);
      assert XorBits(a, b, n) / 2 == XorBits(a / 2, b / 2, n - 1);
    }
  }

  /** The number made of the k lowest bits of a. */
  function Low(a: nat, k: nat): (r: nat)
    ensures r < Pow2(k)
  {
    if k == 0 then 0 else a % 2 + 2 * Low(a / 2, k - 1)
  }

  lemma {:induction false} LowOfSmall(a: nat, k: nat)
    requires a < Pow2(k)
    ensures Low(a, k) == a
  {
    if k > 0 {
      LowOfSmall(a / 2, k - 1);
    }
  }

  /** What the low bits leave is a multiple of the power. */
  lemma {:induction false} LowIsRemainder(a: nat, k: nat) returns (q: nat)
    ensures a == Low(a, k) + Pow2(k) * q
  {
    if k == 0 {
      q := a;
    } else {
      q := LowIsRemainder(a / 2, k - 1);
      Double(Pow2(k - 1), q);
    }
  }

  lemma Double(p: nat, q: nat)
    ensures (2 * p) * q == 2 * (p * q)
  {}

  lemma FourMore(a: nat, k: nat)
    ensures Low(a, k + 4) == a % 16 + 16 * Low(a / 16, k)
  {
    var b := a / 2;
    var c := b / 2;
    var d := c / 2;
    assert d / 2 == a / 16;
    assert Low(b, k + 3) == b % 2 + 2 * Low(c, k + 2);
    assert Low(c, k + 2) == c % 2 + 2 * Low(d, k + 1);
    assert Low(d, k + 1) == d % 2 + 2 * Low(d / 2, k);
  }

  lemma EightMore(a: nat, k: nat)
    ensures Low(a, k + 8) == a % 0x100 + 0x100 * Low(a / 0x100, k)
  {
    hide Low, Pow2;
    FourMore(a, k + 4);
    FourMore(a / 16, k);
    Split(a);
  }

  lemma Split(a: nat)
    ensures a % 0x100 == a % 16 + 16 * (a / 16 % 16) && a / 16 / 16 == a / 0x100
  {}

  lemma Low16(a: nat)
    ensures Low(a, 16) == a % 0x1_0000
  {
    hide Low, Pow2;
    EightMore(a, 8);
    EightMore(a / 0x100, 0);
    LowNothing(a / 0x100 / 0x100);
    SplitMore(a);
  }

  lemma LowNothing(a: nat)
    ensures Low(a, 0) == 0
  {}

  lemma SplitMore(a: nat)
    ensures a % 0x1_0000 == a % 0x100 + 0x100 * (a / 0x100 % 0x100)
  {}

  lemma XorWithOnes(a: nat, p: nat, n: nat)
    requires p >= 1 && n >= 1
    ensures XorBits(a, 2 * p - 1, n) == 1 - a % 2 + 2 * XorBits(a / 2, p - 1, n - 1)
  {
    assert (2 * p - 1) / 2 == p - 1 && (2 * p - 1) % 2 == 1;
  }

  lemma {:induction false} XorWithNothing(a: nat, n: nat)
    requires a < Pow2(n)
    ensures XorBits(a, 0, n) == a
  {
    if n > 0 {
      XorWithNothing(a / 2, n - 1);
    }
  }

  /** XOR with k ones complements the k lowest bits and keeps the others. */
  lemma {:induction false} XorLowOnes(a: nat, k: nat, n: nat)
    requires k <= n && a < Pow2(n)
    ensures XorBits(a, Pow2(k) - 1, n) == a + Pow2(k) - 1 - 2 * Low(a, k)
    decreases n
  {
    hide XorBits;
    if k > 0 {
      XorLowOnes(a / 2, k - 1, n - 1);
      XorWithOnes(a, Pow2(k - 1), n);
    } else {
      XorWithNothing(a, n);
    }
  }

  /** Complementing at least b low bits of a b-bit number, then keeping b bits. */
  lemma {:induction false} LowOfComplement(a: nat, b: nat, k: nat, n: nat)
    requires b <= k <= n && a < Pow2(b)
    ensures Low(XorBits(a, Pow2(k) - 1, n), b) == Pow2(b) - 1 - a
  {
    hide XorBits;
    if b > 0 {
      LowOfComplement(a / 2, b - 1, k - 1, n - 1);
      XorWithOnes(a, Pow2(k - 1), n);
      LowOfOdd(XorBits(a / 2, Pow2(k - 1) - 1, n - 1), 1 - a % 2, b);
    }
  }

  lemma LowOfOdd(h: nat, bit: nat, b: nat)
    requires bit < 2 && b > 0
    ensures Low(bit + 2 * h, b) == bit + 2 * Low(h, b - 1)
  {
    assert (bit + 2 * h) / 2 == h;
  }

  lemma {:induction false} LowIncrement(a: nat, k: nat)
    requires Low(a, k) + 1 < Pow2(k)
    ensures Low(a + 1, k) == Low(a, k) + 1
  {
    if a % 2 == 1 {
      LowIncrement(a / 2, k - 1);
      assert (a + 1) / 2 == a / 2 + 1;
    }
  }

  lemma {:induction false} SeventeenMore(k: nat)
    ensures Pow2(17 + k) == 0x2_0000 * Pow2(k)
  {
    if k == 0 {
      Powers();
    } else {
      SeventeenMore(k - 1);
    }
  }

  lemma {:induction false} PowMonotone(a: nat, b: nat)
    requires a <= b
    ensures Pow2(a) <= Pow2(b)
    decreases b
  {
    if a < b {
      PowMonotone(a, b - 1);
    }
  }
}
