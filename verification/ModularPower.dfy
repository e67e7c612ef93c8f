/** Powers of naturals under a modulus, for any positive modulus. */
module ModularPower {

  function Pow(b: nat, e: nat): nat {
    if e == 0 then 1 else b * Pow(b, e - 1)
  }

  /** big.Int's Exp with a modulus. */
  function Exp(b: nat, e: nat, n: nat): (r: nat)
    requires n > 0
    ensures r < n
  {
    Pow(b, e) % n
  }

  lemma {:induction false} PowAdd(b: nat, d: nat, e: nat)
    ensures Pow(b, d + e) == Pow(b, d) * Pow(b, e)
  {
    if d > 0 {
      PowAdd(b, d - 1, e);
      Associate(b, Pow(b, d - 1), Pow(b, e));
    }
  }

  lemma Associate(a: int, b: int, c: int)
    ensures a * (b * c) == (a * b) * c
  {
  }

  lemma {:induction false} PowMul(b: nat, d: nat, e: nat)
    ensures d * e >= 0 && Pow(Pow(b, d), e) == Pow(b, d * e)
  {
    if e > 0 {
      PowMul(b, d, e - 1);
      assert d * e == d + d * (e - 1);
      PowAdd(b, d, d * (e - 1));
    }
  }

  lemma Unique(n: int, q1: int, r1: int, q2: int, r2: int)
    requires n > 0 && n * q1 + r1 == n * q2 + r2
    requires 0 <= r1 < n && 0 <= r2 < n
    ensures q1 == q2 && r1 == r2
  {
    if q1 < q2 {
      Apart(n, q1, q2);
    } else if q2 < q1 {
      Apart(n, q2, q1);
    }
  }

  lemma Apart(n: int, p: int, q: int)
    requires n > 0 && p < q
    ensures n * p + n <= n * q
    decreases q - p
  {
    if p + 1 < q {
      Apart(n, p, q - 1);
    }
  }

  lemma RemainderIs(a: int, n: int, q: int, r: int)
    requires n > 0 && a == n * q + r && 0 <= r < n
    ensures a / n == q && a % n == r
  {
    Unique(n, a / n, a % n, q, r);
  }

  lemma AddMultiple(a: int, n: int, q: int)
    requires n > 0
    ensures (a + n * q) % n == a % n
  {
    assert a + n * q == n * (a / n + q) + a % n by {
      assert n * (a / n + q) == n * (a / n) + n * q;
    }
    RemainderIs(a + n * q, n, a / n + q, a % n);
  }

  lemma MulRemainders(a: int, b: int, n: int)
    requires n > 0
    ensures (a % n) * (b % n) % n == a * b % n
  {
    var p, q, r, s := a / n, b / n, a % n, b % n;
    assert a * b == r * s + n * (p * b + r * q) by {
      assert a == n * p + r && b == n * q + s;
      assert a * b == n * p * b + r * b;
      assert r * b == r * (n * q) + r * s;
      assert n * (p * b + r * q) == n * (p * b) + n * (r * q);
      assert r * (n * q) == n * (r * q);
    }
    AddMultiple(r * s, n, p * b + r * q);
  }

  /** Raising a remainder to a power leaves the same remainder. */
  lemma {:induction false} ExpOfRemainder(b: nat, e: nat, n: nat)
    requires n > 0
    ensures Exp(b % n, e, n) == Exp(b, e, n)
  {
    if e > 0 {
      ExpOfRemainder(b, e - 1, n);
      var p, p' := Pow(b, e - 1), Pow(b % n, e - 1);
      MulRemainders(b, p, n);
      MulRemainders(b % n, p', n);
      assert b % n % n == b % n by {
        RemainderIs(b % n, n, 0, b % n);
      }
    }
  }

  /** A power of a power, with a reduction in between. */
  lemma ExpOfExp(b: nat, d: nat, e: nat, n: nat)
    requires n > 0
    ensures d * e >= 0 && Exp(Exp(b, d, n), e, n) == Exp(b, d * e, n)
  {
    ExpOfRemainder(Pow(b, d), e, n);
    PowMul(b, d, e);
  }

  lemma ExpAdd(b: nat, d: nat, e: nat, n: nat)
    requires n > 0
    ensures Exp(b, d, n) * Exp(b, e, n) % n == Exp(b, d + e, n)
  {
    MulRemainders(Pow(b, d), Pow(b, e), n);
    PowAdd(b, d, e);
  }

  /** Adding and then removing a term modulo `n` restores a reduced value. */
  lemma SubtractAdded(k: int, g: int, n: int)
    requires n > 0 && 0 <= g < n
    ensures ((k + g) % n - k) % n == g
  {
    var q := (k + g) / n;
    assert (k + g) % n - k == g + n * (-q) by {
      assert n * (-q) == -(n * q);
    }
    AddMultiple(g, n, -q);
    RemainderIs(g, n, 0, g);
  }

  /** Reducing a factor, or what is taken off, leaves the remainder as it is. */
  lemma ReduceFirst(a: int, b: int, n: int)
    requires n > 0
    ensures a * (b % n) % n == a * b % n
    ensures (a - b % n) % n == (a - b) % n
  {
    MulRemainders(a, b, n);
    MulRemainders(a, b % n, n);
    RemainderIs(b % n, n, 0, b % n);
    assert b == n * (b / n) + b % n;
    AddMultiple(a - b, n, b / n);
  }

  /** Dividing by a product is dividing by each factor in turn. */
  lemma TwoDivisions(i: nat, p: nat, m: nat)
    requires p > 0 && m > 0
    ensures p * m > 0
    ensures i / m / p == i / (p * m)
    ensures i % (p * m) / m == i / m % p
    ensures i % (p * m) % m == i % m
  {
    var a, b := i / m, i % m;
    var q, r := a / p, a % p;
    assert p * m > 0;
    assert m * r <= m * (p - 1);
    assert m * (p - 1) == p * m - m;
    assert i == (p * m) * q + (m * r + b) by {
      assert m * (p * q + r) == (p * m) * q + m * r;
    }
    RemainderIs(i, p * m, q, m * r + b);
    RemainderIs(m * r + b, m, r, b);
  }
}
