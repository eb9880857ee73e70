/** Bits of a non-negative integer.  PHP tests a permission bit with
    `$perms & MASK` for a one-bit mask; here bit `i` of `m` is read by halving
    `m` `i` times, and `BitIsMaskTest` ties that to the mask test. */
module Bits {

  function Pow(b: nat, k: nat): (r: nat)
    ensures b > 0 ==> r > 0
  {
    if k == 0 then 1 else b * Pow(b, k - 1)
  }

  /** Bit `i` of `m` (bit 0 is the least significant). */
  predicate Bit(m: nat, i: nat) {
    if i == 0 then m % 2 == 1 else Bit(m / 2, i - 1)
  }

  /** PHP's `($m & mask) != 0` for a mask with exactly one bit set. */
  predicate MaskSet(m: nat, mask: nat)
    requires mask > 0
  {
    (m / mask) % 2 == 1
  }

  /** `m` with bit `i` toggled. */
  function Flip(m: nat, i: nat): nat {
    if i == 0 then (if m % 2 == 1 then m - 1 else m + 1)
    else 2 * Flip(m / 2, i - 1) + m % 2
  }

  /** Quotient and remainder are unique. */
  lemma DivModUnique(n: int, d: int, q: int, r: int)
    requires d > 0 && 0 <= r < d && n == d * q + r
    ensures n / d == q && n % d == r
  {
    var q', r' := n / d, n % d;
    var t := q - q';
    assert d * t == r' - r by {
      assert d * q - d * q' == d * (q - q');
    }
    MulAwayFromZero(d, t);
  }

  lemma MulAwayFromZero(d: int, t: int)
    requires d > 0
    ensures t >= 1 ==> d * t >= d
    ensures t <= -1 ==> d * t <= -d
  {
    if t >= 1 {
      assert d * t == d + d * (t - 1);
    } else if t <= -1 {
      assert d * t == -d - d * (-t - 1);
    }
  }

  /** Dividing by `b` then by `p` is dividing by `b * p`; the remainder modulo
      `b * p` is made of the two remainders. */
  lemma DivModSplit(n: nat, b: nat, p: nat)
    requires b > 0 && p > 0
    ensures n / (b * p) == (n / b) / p
    ensures n % (b * p) == b * ((n / b) % p) + n % b
  {
    var q, r := n / b, n % b;
    var q2, r2 := q / p, q % p;
    assert n == (b * p) * q2 + (b * r2 + r) by {
      assert n == b * q + r;
      assert q == p * q2 + r2;
      MulSplit(b, p, q2, r2);
    }
    assert b * r2 + r < b * p by {
      MulLeft(b, r2, p - 1);
      assert b * (p - 1) == b * p - b;
    }
    DivModUnique(n, b * p, q2, b * r2 + r);
  }

  /** Distributing a product over a sum. */
  lemma MulSplit(b: int, p: int, q: int, r: int)
    ensures b * (p * q + r) == (b * p) * q + b * r
  {
  }

  /** Multiplying by a natural number keeps the order. */
  lemma MulLeft(b: nat, x: int, y: int)
    requires x <= y
    ensures b * x <= b * y
  {
    assert b * y - b * x == b * (y - x);
  }

  /** Bit `i` is set exactly when PHP's mask test with `2^i` succeeds. */
  lemma {:induction false} BitIsMaskTest(m: nat, i: nat)
    ensures Bit(m, i) <==> MaskSet(m, Pow(2, i))
  {
    if i > 0 {
      BitIsMaskTest(m / 2, i - 1);
      DivModSplit(m, 2, Pow(2, i - 1));
    }
  }

  /** Toggling bit `i` changes bit `i` and no other bit. */
  lemma {:induction false} FlipBits(m: nat, i: nat, j: nat)
    ensures Bit(Flip(m, i), j) <==> (if j == i then !Bit(m, j) else Bit(m, j))
  {
    var f := Flip(m, i);
    if i == 0 {
      if j > 0 {
        assert f / 2 == m / 2;
      }
    } else {
      var g := Flip(m / 2, i - 1);
      assert f / 2 == g && f % 2 == m % 2;
      if j > 0 {
        FlipBits(m / 2, i - 1, j - 1);
      }
    }
  }

  /** The low `k` bits of two numbers agree exactly when the numbers agree
      modulo `2^k`. */
  lemma LowBitsAgree(m1: nat, m2: nat, k: nat)
    ensures (forall i: nat :: i < k ==> (Bit(m1, i) <==> Bit(m2, i)))
        ==> m1 % Pow(2, k) == m2 % Pow(2, k)
    ensures m1 % Pow(2, k) == m2 % Pow(2, k)
        ==> (forall i: nat :: i < k ==> (Bit(m1, i) <==> Bit(m2, i)))
  {
    if forall i: nat :: i < k ==> (Bit(m1, i) <==> Bit(m2, i)) {
      SameLowBits(m1, m2, k);
    }
    if m1 % Pow(2, k) == m2 % Pow(2, k) {
      forall i: nat | i < k ensures Bit(m1, i) <==> Bit(m2, i) {
        SameRemainderSameBit(m1, m2, k, i);
      }
    }
  }

  lemma {:induction false} SameLowBits(m1: nat, m2: nat, k: nat)
    requires forall i: nat :: i < k ==> (Bit(m1, i) <==> Bit(m2, i))
    ensures m1 % Pow(2, k) == m2 % Pow(2, k)
  {
    if k > 0 {
      var p := Pow(2, k - 1);
      forall i: nat | i < k - 1 ensures Bit(m1 / 2, i) <==> Bit(m2 / 2, i) {
        assert Bit(m1, i + 1) <==> Bit(m2, i + 1);
      }
      SameLowBits(m1 / 2, m2 / 2, k - 1);
      assert Bit(m1, 0) <==> Bit(m2, 0);
      DivModSplit(m1, 2, p);
      DivModSplit(m2, 2, p);
    }
  }

  /** `2 * a + b` with `b` a bit determines `a` and `b`. */
  lemma HalfParts(v: int, b1: int, a1: int, b2: int, a2: int)
    requires 0 <= b1 < 2 && 0 <= b2 < 2
    requires v == 2 * a1 + b1 && v == 2 * a2 + b2
    ensures b1 == b2 && a1 == a2
  {
  }

  lemma {:induction false} SameRemainderSameBit(m1: nat, m2: nat, k: nat, i: nat)
    requires i < k && m1 % Pow(2, k) == m2 % Pow(2, k)
    ensures Bit(m1, i) <==> Bit(m2, i)
  {
    var p := Pow(2, k - 1);
    assert m1 % 2 == m2 % 2 && (m1 / 2) % p == (m2 / 2) % p by {
      DivModSplit(m1, 2, p);
      DivModSplit(m2, 2, p);
      HalfParts(m1 % Pow(2, k), m1 % 2, (m1 / 2) % p, m2 % 2, (m2 / 2) % p);
    }
    if i > 0 {
      SameRemainderSameBit(m1 / 2, m2 / 2, k - 1, i - 1);
    }
  }
}
