/** Powers of two, the integer logarithm the constructor computes, and the
    division facts the address codec rests on. */
module Arith {

  /** 2^k. */
  function Pow2(k: nat): (r: nat)
    ensures r >= 1
  {
    if k == 0 then 1 else 2 * Pow2(k - 1)
  }

  /** (int)log2(n) for a positive int: the largest e with 2^e <= n. */
  function FloorLog2(n: nat): (e: nat)
    requires n >= 1
    ensures Pow2(e) <= n < Pow2(e + 1)
  {
    if n == 1 then 0 else 1 + FloorLog2(n / 2)
  }

  /** n >= 2^k means the logarithm is at least k. */
  lemma FloorLog2AtLeast(n: nat, k: nat)
    requires n >= 1 && n >= Pow2(k)
    ensures FloorLog2(n) >= k
  {
    var e := FloorLog2(n);
    if e < k {
      Pow2Monotone(e + 1, k);
    }
  }

  lemma {:induction false} Pow2Add(a: nat, b: nat)
    ensures Pow2(a + b) == Pow2(a) * Pow2(b)
  {
    if a > 0 {
      Pow2Add(a - 1, b);
      assert Pow2(a + b) == 2 * Pow2(a - 1 + b);
    }
  }

  lemma {:induction false} Pow2Monotone(a: nat, b: nat)
    requires a <= b
    ensures Pow2(a) <= Pow2(b)
  {
    if a < b {
      Pow2Monotone(a, b - 1);
    }
  }

  /** The logarithm of an exact power of two is its exponent. */
  lemma {:induction false} FloorLog2OfPow2(k: nat)
    ensures FloorLog2(Pow2(k)) == k
  {
    var e := FloorLog2(Pow2(k));
    if e < k {
      Pow2Monotone(e + 1, k);
    } else if e > k {
      Pow2Monotone(k + 1, e);
    }
  }

  /** Quotient and remainder are determined by any decomposition x = q*d + r
      with 0 <= r < d. */
  lemma DivModUnique(x: int, d: int, q: int, r: int)
    requires d > 0 && 0 <= r < d && x == q * d + r
    ensures x / d == q && x % d == r
  {
    var q0, r0 := x / d, x % d;
    MulSubDistrib(q, q0, d);
    var k := q - q0;
    assert k * d == r0 - r;
    if k > 0 {
      MulAtLeast(k, d);
    } else if k < 0 {
      MulAtLeast(-k, d);
    }
  }

  lemma MulSubDistrib(a: int, b: int, d: int)
    ensures (a - b) * d == a * d - b * d
  {
  }

  lemma MulAtLeast(k: int, d: int)
    requires k >= 1 && d > 0
    ensures k * d >= d
  {
    assert k * d == (k - 1) * d + d;
  }

  /** Shifting right by a then by b is shifting right by a + b. */
  lemma DivDiv(x: nat, m: nat, n: nat)
    requires m > 0 && n > 0
    ensures x / (m * n) == (x / m) / n
    ensures x % (m * n) == ((x / m) % n) * m + x % m
  {
    var q, r := x / m, x % m;
    var q2, r2 := q / n, q % n;
    Regroup(q2, n, r2, m, r);
    MulBelow(r2, n, m, r);
    DivModUnique(x, m * n, q2, r2 * m + r);
  }

  lemma Regroup(q2: int, n: int, r2: int, m: int, r: int)
    ensures (q2 * n + r2) * m + r == q2 * (m * n) + (r2 * m + r)
  {
  }

  lemma MulBelow(r2: nat, n: nat, m: nat, r: nat)
    requires r2 < n && r < m
    ensures r2 * m + r < m * n
  {
    assert r2 * m <= (n - 1) * m;
  }

  /** A two-level positional number h * (pp * ps) + k * pp with k < ps:
      dividing by the outer radix gives h back, dividing by the inner one
      gives h * ps + k, whose low digit is k. */
  lemma TwoDigits(h: nat, k: nat, pp: nat, ps: nat)
    requires pp > 0 && k < ps
    ensures var p := pp * ps;
            var x := h * p + k * pp;
            && k * pp < p
            && x / p == h && x % p == k * pp
            && x / pp == h * ps + k && x % pp == 0
            && (h * ps + k) / ps == h && (h * ps + k) % ps == k
  {
    var p := pp * ps;
    MulBelow(k, ps, pp, 0);
    var x := h * p + k * pp;
    DivModUnique(x, p, h, k * pp);
    Regroup(h, ps, k, pp, 0);
    DivModUnique(x, pp, h * ps + k, 0);
    DivModUnique(h * ps + k, ps, h, k);
  }

  /** The powers of two the model quotes as numbers. */
  lemma Pow2Values()
    ensures Pow2(10) == 1024 && Pow2(11) == 2048 && Pow2(12) == 4096 && Pow2(22) == 0x40_0000
    ensures Pow2(31) == 0x8000_0000 && Pow2(32) == 0x1_0000_0000
    ensures Pow2(64) == 0x1_0000_0000_0000_0000
  {
    assert Pow2(8) == 256;
    Pow2Add(8, 2);
    Pow2Add(8, 4);
    Pow2Add(8, 8);
    Pow2Add(16, 6);
    Pow2Add(16, 15);
    Pow2Add(16, 16);
    Pow2Add(32, 32);
  }

  /** Every value is its quotient times the divisor plus its remainder. */
  lemma DivMod(x: nat, m: nat)
    requires m > 0
    ensures x == (x / m) * m + x % m && x / m >= 0
  {
  }

  /** A value below m*n shifted right by m stays below n. */
  lemma DivBelow(x: nat, m: nat, n: nat)
    requires m > 0 && x < m * n
    ensures x / m < n
  {
  }

  /** A value already below the modulus is its own remainder. */
  lemma ModBelow(x: nat, m: nat)
    requires x < m
    ensures x % m == x && x / m == 0
  {
    DivModUnique(x, m, 0, x);
  }
}
