/** The C++ bitwise operators `&`, `|` and `^` on unsigned values, bit by
    bit from the least significant end, and the powers of two that masks
    and shifts are built from. */
module Bits {

  function Pow2(k: nat): (p: nat)
    ensures p >= 1
  {
    if k == 0 then 1 else 2 * Pow2(k - 1)
  }

  /** `a & b`. */
  function BitAnd(a: nat, b: nat): (r: nat)
    ensures r <= a && r <= b
    decreases a + b
  {
    if a == 0 && b == 0 then 0
    else 2 * BitAnd(a / 2, b / 2) + (if a % 2 == 1 && b % 2 == 1 then 1 else 0)
  }

  /** `a | b`. */
  function BitOr(a: nat, b: nat): (r: nat)
    decreases a + b
  {
    if a == 0 && b == 0 then 0
    else 2 * BitOr(a / 2, b / 2) + (if a % 2 == 1 || b % 2 == 1 then 1 else 0)
  }

  /** `a ^ b`. */
  function BitXor(a: nat, b: nat): (r: nat)
    decreases a + b
  {
    if a == 0 && b == 0 then 0
    else 2 * BitXor(a / 2, b / 2) + (a % 2 + b % 2) % 2
  }

  /** `|` and `^` of two k-bit values are k-bit values. */
  lemma {:induction false} BitsBelow(a: nat, b: nat, k: nat)
    requires a < Pow2(k) && b < Pow2(k)
    ensures BitOr(a, b) < Pow2(k) && BitXor(a, b) < Pow2(k)
    decreases k
  {
    if a == 0 && b == 0 {
    } else {
      assert k > 0;
      BitsBelow(a / 2, b / 2, k - 1);
    }
  }

  /** The byte operators stay within a byte. */
  lemma ByteOps(a: nat, b: nat)
    requires a < 0x100 && b < 0x100
    ensures BitOr(a, b) < 0x100 && BitXor(a, b) < 0x100 && BitAnd(a, b) < 0x100
  {
    assert Pow2(8) == 0x100;
    BitsBelow(a, b, 8);
  }

  /** `^ 0` is the identity. */
  lemma {:induction false} XorZero(a: nat)
    ensures BitXor(a, 0) == a
    decreases a
  {
    if a != 0 {
      XorZero(a / 2);
    }
  }

  /** The bits of `a ^ b` above the lowest are those of `a / 2 ^ b / 2`, and
      the lowest is the XOR of the lowest bits. */
  lemma XorHalves(a: nat, b: nat)
    ensures BitXor(a, b) / 2 == BitXor(a / 2, b / 2)
    ensures BitXor(a, b) % 2 == (a % 2 + b % 2) % 2
  {
    if a == 0 && b == 0 {
    } else {
      var half, low := BitXor(a / 2, b / 2), (a % 2 + b % 2) % 2;
      ModUnique(BitXor(a, b), 2, half, low);
    }
  }

  /** XOR-ing with the same value twice gives the original back. */
  lemma {:induction false} XorCancel(a: nat, b: nat)
    ensures BitXor(BitXor(a, b), b) == a
    decreases a + b
  {
    var c := BitXor(a, b);
    if a == 0 && b == 0 {
    } else if c == 0 && b == 0 {
      XorZero(a);
    } else {
      XorHalves(a, b);
      XorCancel(a / 2, b / 2);
      var low := if a % 2 == 1 then 1 else 0;
      assert (c % 2 + b % 2) % 2 == low by {
        if b % 2 == 0 { assert c % 2 == a % 2; } else { assert c % 2 == 1 - a % 2; }
      }
      assert BitXor(c, b) == 2 * (a / 2) + low;
    }
  }

  /** OR-ing with the same value again changes nothing. */
  lemma {:induction false} OrIdempotent(a: nat, b: nat)
    ensures BitOr(BitOr(a, b), b) == BitOr(a, b)
    decreases a + b
  {
    var c := BitOr(a, b);
    if a == 0 && b == 0 {
    } else {
      OrIdempotent(a / 2, b / 2);
      assert c / 2 == BitOr(a / 2, b / 2);
    }
  }

  /** AND-ing with the same value again changes nothing. */
  lemma {:induction false} AndIdempotent(a: nat, b: nat)
    ensures BitAnd(BitAnd(a, b), b) == BitAnd(a, b)
    decreases a + b
  {
    var c := BitAnd(a, b);
    if a == 0 && b == 0 {
    } else {
      AndIdempotent(a / 2, b / 2);
      assert c / 2 == BitAnd(a / 2, b / 2);
    }
  }

  /** A mask of the k low bits keeps the value modulo 2^k. */
  lemma {:induction false} LowMask(a: nat, k: nat)
    ensures BitAnd(a, Pow2(k) - 1) == a % Pow2(k)
    decreases k
  {
    if k == 0 {
    } else if a == 0 {
      AndZero(Pow2(k) - 1);
    } else {
      LowMask(a / 2, k - 1);
      assert (Pow2(k) - 1) / 2 == Pow2(k - 1) - 1;
      assert (Pow2(k) - 1) % 2 == 1;
      SplitDivMod(a, 2, Pow2(k - 1));
    }
  }

  /** `0 & b` is 0. */
  lemma {:induction false} AndZero(b: nat)
    ensures BitAnd(0, b) == 0
    decreases b
  {
    if b != 0 {
      AndZero(b / 2);
    }
  }

  /** Appending a hexadecimal digit to an n-digit value gives an
      (n + 1)-digit value. */
  lemma ShiftInDigit(a: nat, d: nat, n: nat)
    requires a < Pow2(4 * n) && d < 16
    ensures 16 * a + d < Pow2(4 * (n + 1))
  {
    var p := Pow2(4 * n);
    assert Pow2(4 * n + 2) == 4 * p;
    assert Pow2(4 * (n + 1)) == 16 * p;
    AtMost(16, a, p - 1);
  }

  /** Offsets along a wrapping axis of length m: cell r lies d after s
      exactly when r is (s + d) mod m. */
  lemma WrapInverse(s: nat, d: nat, m: nat, r: nat)
    requires s < m && d < m && r < m
    ensures (r - s) % m == d <==> r == (s + d) % m
  {
    if r >= s {
      ModUnique(r - s, m, 0, r - s);
    } else {
      ModUnique(r - s, m, -1, r - s + m);
    }
    if s + d < m {
      ModUnique(s + d, m, 0, s + d);
    } else {
      ModUnique(s + d, m, 1, s + d - m);
    }
  }

  /** `a & 2^k` keeps exactly bit k of a. */
  lemma {:induction false} SingleBit(a: nat, k: nat)
    ensures BitAnd(a, Pow2(k)) == if a / Pow2(k) % 2 == 1 then Pow2(k) else 0
    decreases k
  {
    if k > 0 {
      var p := Pow2(k - 1);
      assert Pow2(k) == 2 * p && Pow2(k) % 2 == 0 && Pow2(k) / 2 == p;
      assert BitAnd(a, Pow2(k)) == 2 * BitAnd(a / 2, p);
      SingleBit(a / 2, k - 1);
      SplitDivMod(a, 2, p);
    }
  }

  /** Dividing by p * q is dividing by p and then by q; the remainder
      splits the same way. */
  lemma SplitDivMod(a: nat, p: nat, q: nat)
    requires p >= 1 && q >= 1
    ensures a % (p * q) == p * (a / p % q) + a % p
    ensures a / (p * q) == a / p / q
  {
    var t, u, w := a / p / q, a / p % q, a % p;
    assert a / p == q * t + u;
    assert a == p * (q * t + u) + w;
    assert a == (p * q) * t + (p * u + w);
    AtMost(p, u, q - 1);
    ModUnique(a, p * q, t, p * u + w);
  }

  lemma AtMost(p: nat, u: nat, v: nat)
    requires u <= v
    ensures p * u <= p * v
  {
    assert p * v - p * u == p * (v - u);
  }

  /** The remainder is the unique r in [0, d) with a = d * q + r. */
  lemma ModUnique(a: int, d: int, q: int, r: int)
    requires d > 0 && a == d * q + r && 0 <= r < d
    ensures a % d == r && a / d == q
  {
    var q', r' := a / d, a % d;
    assert a == d * q' + r';
    if q' > q {
      assert d * q' - d * q == d * (q' - q);
      AtLeastOnce(d, q' - q);
    } else if q' < q {
      assert d * q - d * q' == d * (q - q');
      AtLeastOnce(d, q - q');
    }
  }

  lemma AtLeastOnce(d: int, k: int)
    requires d > 0 && k >= 1
    ensures d * k >= d
  {
  }
}
