/** Facts about multiplication and Euclidean division on naturals that the
    solver does not find by itself, shared by the drivers' models. */
module Arith {

  lemma MulLe(m: nat, a: nat, b: nat)
    requires a <= b
    ensures m * a <= m * b
  {
  }

  lemma MulCancelLt(m: nat, x: nat, y: nat)
    requires m * x < m * y
    ensures x < y
  {
    if y <= x {
      MulLe(m, y, x);
    }
  }

  /** A positive multiple of `m` is at least `m`. */
  lemma MulAtLeast(d: int, m: nat)
    requires d >= 1
    ensures d * m >= m
  {
    MulLe(m, 1, d as nat);
  }

  /** The quotient is the only `q` with `x == m * q + r` and `r < m`. */
  lemma DivUnique(x: nat, m: nat, q: nat, r: nat)
    requires m > 0 && r < m && x == m * q + r
    ensures x / m == q
  {
    var q' := x / m;
    assert m * q' <= x < m * q' + m;
    assert m * q' + m == m * (q' + 1);
    assert m * q + m == m * (q + 1);
    MulCancelLt(m, q', q + 1);
    MulCancelLt(m, q, q' + 1);
  }

  lemma DivExact(m: nat, k: nat)
    requires m > 0
    ensures (m * k) / m == k
  {
    DivUnique(m * k, m, k, 0);
  }

  lemma DivMonotone(a: nat, b: nat, m: nat)
    requires m > 0 && a <= b
    ensures a / m <= b / m
  {
    var qa := a / m;
    var qb := b / m;
    assert m * qa <= a;
    assert b < m * qb + m;
    assert m * qb + m == m * (qb + 1);
    MulCancelLt(m, qa, qb + 1);
  }

  /** Dividing by `2 * k` is halving and then dividing by `k`. */
  lemma DivTwice(x: nat, k: nat)
    requires k > 0
    ensures x / (2 * k) == (x / 2) / k
  {
    var q := (x / 2) / k;
    var r := (x / 2) % k;
    assert x / 2 == k * q + r;
    assert x == 2 * k * q + (2 * r + x % 2);
    assert 2 * r + x % 2 < 2 * k;
    DivUnique(x, 2 * k, q, 2 * r + x % 2);
  }
}
