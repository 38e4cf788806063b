/** Division, remainders and powers of two, a small step at a time. */
module Arithmetic {
  import opened Bytes

  /** The quotient and the remainder, without `/` and `%` in the way of the solver. */
  lemma Quotient(x: nat, m: nat) returns (k: nat)
    requires m > 0
    ensures x == m * k + x % m && k == x / m
  {
    k := x / m;
  }

  lemma ModOfSum(m: nat, k: nat, r: nat)
    requires r < m
    ensures (m * k + r) % m == r && (m * k + r) / m == k
  {
    var x := m * k + r;
    var q := Quotient(x, m);
    SameQuotient(m, k, r, q, x % m);
  }

  lemma SameQuotient(m: nat, k: nat, r: nat, q: nat, s: nat)
    requires r < m && s < m && m * k + r == m * q + s
    ensures k == q && r == s
  {
    if k > q {
      Multiply(m, q, k);
    } else if q > k {
      Multiply(m, k, q);
    }
  }

  lemma Multiply(m: nat, x: nat, y: nat)
    requires x < y
    ensures m * x + m <= m * y
  {
    assert m * y == m * x + m * (y - x);
    assert m * (y - x) == m + m * (y - x - 1);
  }

  /** Whole blocks of `m` in front do not change the remainder. */
  lemma ModOfBlocks(m: nat, k: nat, x: nat)
    requires m > 0
    ensures (m * k + x) % m == x % m
  {
    var q := Quotient(x, m);
    assert m * k + x == m * (k + q) + x % m;
    ModOfSum(m, k + q, x % m);
  }

  /** With a digit `x` to the base `d` behind, `u` is a multiple of `d * m` just if `x` is 0 and `u` one of `m`. */
  lemma MultipleWithDigit(u: nat, x: nat, d: nat, m: nat)
    requires x < d && m > 0 && d * m > 0
    ensures (d * u + x) % (d * m) == 0 <==> x == 0 && u % m == 0
  {
    var k := Quotient(u, m);
    var r := u % m;
    Scale(r, m, d);
    Multiply(d, r, m);
    assert d * u + x == d * (m * k + r) + x;
    Distribute(d, m, k, r);
    ModOfSum(d * m, k, d * r + x);
  }

  lemma Distribute(d: nat, m: nat, k: nat, r: nat)
    ensures d * (m * k + r) == (d * m) * k + d * r
  {
  }

  lemma DividedTwice(x: nat, m: nat, n: nat)
    requires m > 0 && n > 0
    ensures m * n > 0 && x / (m * n) == x / m / n
  {
    Scale(0, m, n);
    var k := Quotient(x, m);
    var j := Quotient(k, n);
    assert x == m * (n * j + k % n) + x % m;
    Distribute(m, n, j, k % n);
    Multiply(m, k % n, n);
    ModOfSum(m * n, j, m * (k % n) + x % m);
  }

  lemma {:induction false} TwoToProduct(m: nat, n: nat)
    ensures TwoTo(m) * TwoTo(n) == TwoTo(m + n)
  {
    if m > 0 {
      TwoToProduct(m - 1, n);
    }
  }

  lemma SixteenBits()
    ensures TwoTo(16) == 0x1_0000
  {
    assert TwoTo(4) == 16;
    TwoToProduct(4, 4);
    TwoToProduct(8, 8);
  }

  lemma Scale(x: nat, y: nat, m: nat)
    requires m > 0
    ensures x < y <==> x * m < y * m
  {
    if x < y {
      Multiply(m, x, y);
    } else if y < x {
      Multiply(m, y, x);
    }
  }

  lemma PowersOfTwo()
    ensures TwoTo(0) == 1 && TwoTo(1) == 2 && TwoTo(2) == 4 && TwoTo(3) == 8 && TwoTo(4) == 16
    ensures TwoTo(5) == 32 && TwoTo(6) == 64 && TwoTo(7) == 128 && TwoTo(8) == 256
  {
    assert TwoTo(4) == 16 && TwoTo(6) == 64;
  }
}
