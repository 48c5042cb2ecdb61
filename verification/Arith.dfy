/** Division facts the solver does not find by itself. */
module Arith {

  lemma MulNonneg(a: nat, b: nat)
    ensures a * b >= 0
  {
  }

  lemma MulStep(d: int, n: int)
    requires n >= 0
    ensures d > 0 ==> n * d >= n
    ensures d < 0 ==> n * d <= -n
  {
    if d > 0 {
      MulNonneg(n, d - 1);
    }
    if d < 0 {
      MulNonneg(n, -d - 1);
    }
  }

  lemma {:induction false} DivUnique(x: nat, n: nat, q: int, r: nat)
    requires n > 0 && r < n && x == n * q + r
    ensures x / n == q && x % n == r
  {
    var d := x / n - q;
    var r' := x % n;
    assert x == n * (x / n) + r';
    assert n * d == n * (x / n) - n * q;
    assert n * d == r - r';
    MulStep(d, n);
  }

  lemma {:induction false} ModAddMultiple(a: nat, k: nat, n: nat)
    requires n > 0
    ensures (k * n + a) % n == a % n
  {
    var q := a / n;
    assert a == n * q + a % n;
    assert k * n + a == n * (k + q) + a % n by {
      assert n * (k + q) == n * k + n * q;
      assert n * k == k * n;
    }
    DivUnique(k * n + a, n, k + q, a % n);
  }

  lemma {:induction false} ModMul(a: nat, b: nat, n: nat)
    requires n > 0
    ensures ((a % n) * b) % n == (a * b) % n
  {
    var q, r := a / n, a % n;
    assert a == q * n + r;
    Distribute(q, n, r, b);
    ModAddMultiple(r * b, q * b, n);
  }

  lemma Distribute(q: nat, n: nat, r: nat, b: nat)
    ensures (q * n + r) * b == (q * b) * n + r * b
  {
    assert (q * n + r) * b == q * n * b + r * b;
    assert q * n * b == q * (n * b) == q * (b * n) == (q * b) * n;
  }

  lemma CarryDigit(x: nat, t: nat)
    ensures (x + 30 * t) % 30 == x % 30 && (x + 30 * t) / 30 == x / 30 + t
  {
  }

  lemma FlipTwice(a: nat, b: nat, x: nat)
    ensures ((a + b) % 2 + 2 * x) / 2 == x
    ensures ((a + b) % 2 + 2 * x + b) % 2 == a % 2
  {
  }

  lemma {:induction false} ModSplit(x: nat, p: nat)
    requires p > 0
    ensures x % (30 * p) == 30 * (x / 30 % p) + x % 30
  {
    var q, r := x / 30 / p, x / 30 % p;
    assert x / 30 == p * q + r;
    assert x == 30 * (p * q) + (30 * r + x % 30);
    assert 30 * (p * q) == (30 * p) * q;
    DivUnique(x, 30 * p, q, 30 * r + x % 30);
  }

  /** Two numbers leave the same remainder exactly when their difference is a multiple. */
  lemma {:induction false} SameResidue(a: nat, b: nat, n: nat)
    requires n > 0 && a <= b
    ensures a % n == b % n <==> (b - a) % n == 0
  {
    var k := b / n - a / n;
    assert n * (b / n) - n * (a / n) == n * k;
    if a % n == b % n {
      DivUnique(b - a, n, k, 0);
    }
    if (b - a) % n == 0 {
      var j := (b - a) / n;
      assert b == j * n + a;
      ModAddMultiple(a, j, n);
    }
  }

  lemma {:induction false} ModShift(a: nat, b: nat, c: nat, n: nat)
    requires n > 0
    ensures (a + c) % n == (b + c) % n <==> a % n == b % n
  {
    if a <= b {
      SameResidue(a, b, n);
      SameResidue(a + c, b + c, n);
    } else {
      SameResidue(b, a, n);
      SameResidue(b + c, a + c, n);
    }
  }

  /** Which remainder makes up for a summand. */
  lemma {:induction false} Complement(x: nat, s: nat, n: nat) returns (r: nat)
    requires n > 0
    ensures r < n && (r + s) % n == x % n
  {
    var q := x + (n - s % n);
    r := q % n;
    assert s == n * (s / n) + s % n;
    assert q + s == (s / n + 1) * n + x by {
      assert (s / n + 1) * n == n * (s / n) + n;
    }
    ModAddMultiple(x, s / n + 1, n);
    DivUnique(r, n, 0, r);
    ModShift(q, r, s, n);
  }
}
