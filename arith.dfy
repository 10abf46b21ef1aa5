/**
 * Arithmetic shared by the MSM model: powers of two and the splitting of a
 * remainder into a low part and the next window.
 */
module Arith {

  /** 2^k */
  function Pow2(k: nat): (p: nat)
    ensures p >= 1
  {
    if k == 0 then 1 else 2 * Pow2(k - 1)
  }

  lemma {:induction false} Pow2Add(a: nat, b: nat)
    ensures Pow2(a + b) == Pow2(a) * Pow2(b)
  {
    if a > 0 {
      Pow2Add(a - 1, b);
      assert Pow2(a + b) == 2 * Pow2(a - 1 + b);
    }
  }

  lemma {:induction false} Pow2Monotone(a: nat, b: nat)
    requires a <= b
    ensures Pow2(a) <= Pow2(b)
  {
    if a < b {
      Pow2Monotone(a, b - 1);
    }
  }

  lemma MulComm(x: int, y: int)
    ensures x * y == y * x
  {
  }

  lemma MulSucc(j: nat, w: nat)
    ensures (j + 1) * w == j * w + w
  {
  }

  /** Division and remainder are determined by any decomposition s == q*m + r with 0 <= r < m. */
  lemma DivModUnique(s: int, m: int, q: int, r: int)
    requires m > 0 && 0 <= r < m && s == q * m + r
    ensures s / m == q && s % m == r
  {
    var q', r' := s / m, s % m;
    assert s == q' * m + r';
    assert (q - q') * m == r' - r by {
      assert q * m - q' * m == (q - q') * m;
    }
    MulBelowOne(q - q', m, r' - r);
  }

  /** A multiple of m strictly between -m and m is zero. */
  lemma MulBelowOne(x: int, m: int, d: int)
    requires m > 0 && x * m == d && -m < d < m
    ensures x == 0
  {
  }

  /**
   * The remainder modulo a*b is the remainder modulo a plus the next
   * base-b digit of s/a, scaled by a.
   */
  lemma ModSplit(s: nat, a: nat, b: nat)
    requires a >= 1 && b >= 1
    ensures s % (a * b) == s % a + ((s / a) % b) * a
  {
    var q, r := s / a, s % a;
    var hi, lo := q / b, q % b;
    assert s == q * a + r;
    assert q == hi * b + lo;
    calc {
      s;
      (hi * b + lo) * a + r;
      hi * (a * b) + (lo * a + r);
    }
    assert lo * a + r < a * b by {
      assert lo <= b - 1;
      assert lo * a <= (b - 1) * a;
    }
    DivModUnique(s, a * b, hi, lo * a + r);
  }

  /** s < a*b means the quotient s/a is below b. */
  lemma DivBelow(s: nat, a: nat, b: nat)
    requires a >= 1 && s < a * b
    ensures s / a < b
  {
    var q := s / a;
    assert q * a <= s;
  }

  /** s < a*b with b <= c: the quotient s/a is its own remainder modulo c, and is below b. */
  lemma SmallQuotientMod(s: nat, a: nat, b: nat, c: nat)
    requires a >= 1 && b <= c && s < a * b
    ensures (s / a) % c == s / a < b
  {
    DivBelow(s, a, b);
    DivModUnique(s / a, c, 0, s / a);
  }
}
