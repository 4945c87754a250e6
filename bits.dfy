/**
 * Python's bitwise operators on non-negative integers. Python integers are
 * unbounded, so `^` and `|` are defined bit by bit on naturals; masking with
 * 2^n - 1 is `% Pow2(n)` and shifts are multiplication and division by powers of two.
 */
module Bits {
  import opened Common

  /** a ^ b */
  function Xor(a: nat, b: nat): nat
    decreases a + b
  {
    if a == 0 && b == 0 then 0 else 2 * Xor(a / 2, b / 2) + (a % 2 + b % 2) % 2
  }

  /** a | b */
  function Or(a: nat, b: nat): nat
    decreases a + b
  {
    if a == 0 && b == 0 then 0
    else 2 * Or(a / 2, b / 2) + (if a % 2 == 1 || b % 2 == 1 then 1 else 0)
  }

  /** a << k */
  function Shl(a: nat, k: nat): nat {
    a * Pow2(k)
  }

  /** a >> k */
  function Shr(a: nat, k: nat): nat {
    var p := Pow2(k);
    DivNonnegative(a, p);
    a / p
  }

  /** A nonnegative number divided by a positive one is nonnegative. */
  lemma DivNonnegative(a: nat, p: nat)
    requires p >= 1
    ensures a / p >= 0
  {
  }

  /** Two n-bit numbers have an n-bit XOR. */
  lemma {:induction false} XorBound(a: nat, b: nat, n: nat)
    requires a < Pow2(n) && b < Pow2(n)
    ensures Xor(a, b) < Pow2(n)
  {
    if n > 0 && !(a == 0 && b == 0) {
      XorBound(a / 2, b / 2, n - 1);
    }
  }

  /** XOR with the same value twice gives the value back. */
  lemma {:induction false} XorXor(a: nat, b: nat)
    ensures Xor(Xor(a, b), b) == a
    decreases a + b
  {
    if !(a == 0 && b == 0) {
      var h, bit := Xor(a / 2, b / 2), (a % 2 + b % 2) % 2;
      assert a / 2 + b / 2 < a + b;
      XorXor(a / 2, b / 2);
      XorStep(a, b);
      var c := Xor(a, b);
      XorOfDigits(c, b, h, bit);
      Recombine(a, b, bit, Xor(c, b), Xor(h, b / 2));
    } else {
      XorStep(0, 0);
    }
  }

  /** The XOR of 2h + bit with b, one step down. */
  lemma XorOfDigits(c: nat, b: nat, h: nat, bit: nat)
    requires bit < 2 && c == 2 * h + bit
    ensures Xor(c, b) == 2 * Xor(h, b / 2) + (bit + b % 2) % 2
  {
    XorStep(c, b);
    Halves(c, h, bit);
  }

  /** The last step of XorXor, on plain numbers. */
  lemma Recombine(a: nat, b: nat, bit: nat, x: nat, y: nat)
    requires bit == (a % 2 + b % 2) % 2 && y == a / 2 && x == 2 * y + (bit + b % 2) % 2
    ensures x == a
  {
    BitCancels(a % 2, b % 2);
    LowDigits(a);
  }

  /** Adding the bit y twice modulo 2 gives the bit x back. */
  lemma BitCancels(x: nat, y: nat)
    requires x < 2 && y < 2
    ensures ((x + y) % 2 + y) % 2 == x
  {
    if y == 1 {
      if x == 1 {
        assert (x + y) % 2 == 0;
      } else {
        assert (x + y) % 2 == 1;
      }
    }
  }

  lemma Halves(x: nat, y: nat, t: nat)
    requires t < 2 && x == 2 * y + t
    ensures x / 2 == y && x % 2 == t
  {
  }

  /** The defining step of Xor, also when both operands are zero. */
  lemma XorStep(a: nat, b: nat)
    ensures Xor(a, b) == 2 * Xor(a / 2, b / 2) + (a % 2 + b % 2) % 2
  {
  }

  lemma {:induction false} XorCommutes(a: nat, b: nat)
    ensures Xor(a, b) == Xor(b, a)
    decreases a + b
  {
    if !(a == 0 && b == 0) {
      XorCommutes(a / 2, b / 2);
    }
  }

  /** The low n bits of a XOR depend only on the low n bits of its operands. */
  lemma {:induction false} XorLowBits(a: nat, b: nat, n: nat)
    ensures Xor(a, b) % Pow2(n) == Xor(a % Pow2(n), b % Pow2(n))
    decreases n
  {
    if n > 0 {
      var p := Pow2(n - 1);
      var a', b' := a % (2 * p), b % (2 * p);
      var c, h := Xor(a, b), Xor(a / 2, b / 2);
      var bit := (a % 2 + b % 2) % 2;
      XorLowBits(a / 2, b / 2, n - 1);
      DivModHalf(a, p);
      DivModHalf(b, p);
      XorStep(a, b);
      Halves(c, h, bit);
      DivModHalf(c, p);
      XorStep(a', b');
      LowDigits(c % (2 * p));
    }
  }

  lemma LowDigits(x: nat)
    ensures x == 2 * (x / 2) + x % 2
  {
  }

  /** (x mod 2p) / 2 == (x / 2) mod p and the parity survives the reduction. */
  lemma DivModHalf(x: nat, p: nat)
    requires p >= 1
    ensures (x % (2 * p)) / 2 == (x / 2) % p && (x % (2 * p)) % 2 == x % 2
  {
    var q := x / (2 * p);
    var r := x % (2 * p);
    assert x == 2 * p * q + r;
    assert x / 2 == p * q + r / 2;
    assert r / 2 < p;
    assert (x / 2) % p == r / 2 by {
      DivModUnique(x / 2, p, q, r / 2);
    }
  }

  /** Division with remainder has only one answer. */
  lemma DivModUnique(x: nat, p: nat, q: nat, r: nat)
    requires p >= 1 && r < p && x == p * q + r
    ensures x / p == q && x % p == r
  {
    var q' := x / p;
    var r' := x % p;
    MulGap(p, q, q');
  }

  /** Distinct multiples of p are at least p apart. */
  lemma MulGap(p: nat, q: nat, q': nat)
    ensures q < q' ==> p * q + p <= p * q'
    ensures q' < q ==> p * q' + p <= p * q
  {
    if q < q' {
      MulAtLeast(p, q' - q);
      assert p * q' == p * q + p * (q' - q);
    } else if q' < q {
      MulAtLeast(p, q - q');
      assert p * q == p * q' + p * (q - q');
    }
  }

  lemma {:induction false} MulAtLeast(p: nat, k: nat)
    requires k >= 1
    ensures p * k >= p
  {
    if k > 1 {
      MulAtLeast(p, k - 1);
      assert p * k == p * (k - 1) + p;
    }
  }

  /** OR of a value and a multiple of 2^k above it adds them: the bits do not overlap. */
  lemma {:induction false} OrDisjoint(a: nat, b: nat, k: nat)
    requires a < Pow2(k)
    ensures Or(a, b * Pow2(k)) == a + b * Pow2(k)
  {
    if k == 0 {
      OrZeroLeft(b);
    } else {
      var p := Pow2(k - 1);
      var c := b * p;
      assert b * Pow2(k) == 2 * c by {
        Double(b, p);
      }
      OrDisjoint(a / 2, b, k - 1);
      OrStep(a, 2 * c);
      Halves(2 * c, c, 0);
    }
  }

  lemma Double(b: nat, p: nat)
    ensures b * (2 * p) == 2 * (b * p)
  {
  }

  /** The defining step of Or, also when both operands are zero. */
  lemma OrStep(a: nat, b: nat)
    ensures Or(a, b) == 2 * Or(a / 2, b / 2) + (if a % 2 == 1 || b % 2 == 1 then 1 else 0)
  {
  }

  lemma {:induction false} OrZeroLeft(b: nat)
    ensures Or(0, b) == b
    decreases b
  {
    if b != 0 {
      OrZeroLeft(b / 2);
    }
  }

  lemma {:induction false} OrCommutes(a: nat, b: nat)
    ensures Or(a, b) == Or(b, a)
    decreases a + b
  {
    if !(a == 0 && b == 0) {
      OrCommutes(a / 2, b / 2);
    }
  }

  /** x | x == x */
  lemma {:induction false} OrSelf(x: nat)
    ensures Or(x, x) == x
    decreases x
  {
    if x != 0 {
      OrSelf(x / 2);
    }
  }

  /** A quotient by p of something below p * q is below q. */
  lemma DivBelow(a: nat, p: nat, q: nat)
    requires p >= 1 && a < p * q
    ensures a / p < q
  {
    var h := a / p;
    assert p * h <= a;
    MulGap(p, q, h);
  }

  /** a = hi * p + lo scaled by q, where p * q = m. */
  lemma MulSplit(a: nat, hi: nat, lo: nat, p: nat, q: nat, m: nat)
    requires a == hi * p + lo && m == p * q
    ensures a * q == m * hi + lo * q
  {
    calc {
      a * q;
      (hi * p + lo) * q;
      (hi * p) * q + lo * q;
      (p * q) * hi + lo * q;
    }
  }

  /** A digit below p scaled by q, plus a digit below q, is below p * q. */
  lemma SumBelow(lo: nat, hi: nat, p: nat, q: nat)
    requires lo < p && hi < q
    ensures lo * q + hi < p * q
  {
    MulGap(q, lo, p);
  }

  /** (hi + m * hi + y) % m is hi + y when that is below m. */
  lemma ModOfSum(x: nat, hi: nat, y: nat, m: nat)
    requires x == m * hi + y && y + hi < m
    ensures (hi + x) % m == y + hi
  {
    DivModUnique(hi + x, m, hi, y + hi);
  }

  /** Reducing an addend first does not change a sum modulo m. */
  lemma ModAddLeft(x: nat, b: nat, m: nat)
    requires m >= 1
    ensures (x % m + b) % m == (x + b) % m
  {
    var y := x % m + b;
    DivModUnique(x + b, m, x / m + y / m, y % m);
  }

  /** A sum modulo m depends only on its addends modulo m. */
  lemma ModAdd(a: nat, b: nat, m: nat)
    requires m >= 1
    ensures (a + b) % m == (a % m + b % m) % m
  {
    ModAddLeft(a, b, m);
    ModAddLeft(b, a % m, m);
  }

  /** Adding a positive d below m changes a residue modulo m. */
  lemma ModDistinct(x: nat, d: nat, m: nat)
    requires 0 < d < m
    ensures x % m != (x + d) % m
  {
    var q, r := x / m, x % m;
    if r + d < m {
      DivModUnique(x + d, m, q, r + d);
    } else {
      DivModUnique(x + d, m, q + 1, r + d - m);
    }
  }
}
