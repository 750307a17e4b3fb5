/**
 Products and quotients of integers.  Times names multiplication so that a
 proof can hide it and treat products as atoms; the lemmas here are what such a
 proof may use about it.
 */
module Arithmetic {

  function Min(a: nat, b: nat): (m: nat)
    ensures m <= a && m <= b && (m == a || m == b)
  {
    if a < b then a else b
  }

  function Max(a: nat, b: nat): (m: nat) {
    if a >= b then a else b
  }

  /** Multiplication under a name, so that a proof can hide it and treat products as atoms. */
  function Abs(x: int): (m: nat) {
    if x < 0 then -x else x
  }

  function Times(a: int, b: int): (p: int) {
    a * b
  }

  lemma TimesMinus(a: int, b: int)
    ensures Times(0 - a, b) == 0 - Times(a, b) == Times(a, 0 - b)
  {}

  lemma TimesFoil(x: int, y: int, a: int, a': int, b: int, b': int)
    requires x == a + a' && y == b + b'
    ensures Times(x, y) == Times(a, b) + Times(a', b) + Times(a, b') + Times(a', b')
  {}

  lemma TimesLeft(x: int, a: int, a': int, b: int)
    requires x == a + a'
    ensures Times(x, b) == Times(a, b) + Times(a', b)
  {}

  lemma TimesSign(a: int, b: int)
    requires 0 <= a && 0 <= b
    ensures 0 <= Times(a, b) == Times(b, a)
  {}

  lemma Assoc(a: int, b: int, c: int)
    ensures (a * b) * c == a * (b * c)
  {}

  lemma Distrib(a: int, b: int, c: int)
    ensures a * (b + c) == a * b + a * c
    ensures (b + c) * a == b * a + c * a
    ensures a * (b - c) == a * b - a * c
    ensures (b - c) * a == b * a - c * a
  {}

  lemma MulMono(a: int, b: int, c: int)
    requires a <= b && 0 <= c
    ensures a * c <= b * c && c * a <= c * b
  {}

  lemma MulMono2(a: int, a': int, b: int, b': int)
    requires 0 <= a <= a' && 0 <= b <= b'
    ensures 0 <= a * b <= a' * b'
  {
    MulMono(a, a', b);
    MulMono(b, b', a');
  }

  lemma TimesSum(d: int, v: int, u: int, u': int)
    requires v == u + u'
    ensures Times(d, v) == Times(d, u) + Times(d, u')
  {}

  lemma TimesAssoc(a: int, b: int, c: int)
    ensures Times(a, Times(b, c)) == Times(Times(a, b), c)
  {}

  lemma TimesSwap(a: int, b: int)
    ensures Times(a, b) == Times(b, a)
  {}

  lemma Regroup(a: int, b: int, c: int, d: int)
    ensures Times(Times(a, b), Times(c, d)) == Times(Times(a, c), Times(b, d))
    ensures Times(Times(a, b), Times(c, d)) == Times(Times(d, a), Times(c, b))
  {}

  lemma TimesMono(a: int, b: int, c: int)
    requires 0 <= c
    ensures a <= b ==> Times(a, c) <= Times(b, c) && Times(c, a) <= Times(c, b)
    ensures 0 < c && a < b ==> Times(a, c) < Times(b, c)
  {
    if a <= b { MulMono(a, b, c); }
    if a < b {
      MulMono(a + 1, b, c);
      Distrib(c, a, 1);
    }
  }

  lemma TimesPositive(a: int, b: int)
    requires a >= 1 && b >= 1
    ensures Times(a, b) >= 1
  {
    MulMono(1, a, b);
  }

  lemma TimesUnit(a: int)
    ensures Times(a, 1) == a == Times(1, a)
    ensures Times(a, 2) == 2 * a == Times(2, a) && Times(3, a) == 3 * a
  {}

  lemma TimesDiff(r: int, i: int, j: int)
    ensures Times(r, i - j) == Times(r, i) - Times(r, j)
  {}

  lemma AtMost(d: nat, q: int, r: int)
    requires d >= 1 && Times(d, q) <= Times(d, r)
    ensures q <= r
  {
    if q > r {
      MulMono(r + 1, q, d);
      Distrib(d, r, 1);
    }
  }

  /** A quotient is below a bound when the dividend is below its multiple. */
  lemma QuotientBelow(d: nat, q: int, r: int)
    requires d >= 1 && Times(d, q) < Times(d, r)
    ensures q < r
  {
    if q >= r { MulMono(r, q, d); }
  }

  lemma TimesCancel(a: int, b: int, p: int)
    requires p >= 1 && Times(a, p) < Times(b, p)
    ensures a < b
  {
    if a >= b { MulMono(b, a, p); }
  }

  /** Quotient and remainder are determined. */
  lemma DivUnique(a: int, d: int, q: int, r: int)
    requires 0 <= r < d && a == Times(d, q) + r
    ensures a / d == q && a % d == r
  {
    var q', r' := a / d, a % d;
    assert a == d * q' + r';
    Distrib(d, q, q');
    if q' < q {
      MulMono(1, q - q', d);
    } else if q < q' {
      Distrib(d, q', q);
      MulMono(1, q' - q, d);
    }
  }

  lemma DivIs(a: int, d: int)
    requires d > 0
    ensures a == Times(d, a / d) + a % d && 0 <= a % d < d
  {}

  /** Dividing by d and then by e is dividing by their product. */
  lemma DivDiv(a: int, d: int, e: int)
    requires d > 0 && e > 0
    ensures Times(d, e) > 0 && a / d / e == a / Times(d, e)
  {
    var q := a / d;
    DivIs(a, d);
    DivIs(q, e);
    var r := Times(d, q % e) + a % d;
    calc {
      a;
      Times(d, q) + a % d;
      Times(d, Times(e, q / e) + q % e) + a % d;
      { Distrib(d, Times(e, q / e), q % e); }
      Times(d, Times(e, q / e)) + r;
      { Assoc(d, e, q / e); }
      Times(Times(d, e), q / e) + r;
    }
    MulMono(q % e + 1, e, d);
    Distrib(d, q % e, 1);
    MulMono(0, q % e, d);
    DivUnique(a, Times(d, e), q / e, r);
  }

  lemma DivNat(a: int, d: int)
    requires 0 <= a && d > 0
    ensures 0 <= a / d
  {
    DivIs(a, d);
    if a / d < 0 { MulMono(a / d, -1, d); }
  }

  /** Quotient bounds as inequalities between products. */
  lemma DivBounds(a: nat, d: nat)
    requires d > 0
    ensures 0 <= a / d && Times(d, a / d) <= a < Times(d, a / d + 1)
  {
    hide Times;
    DivIs(a, d);
    DivNat(a, d);
    TimesFoil(d, a / d + 1, d, 0, a / d, 1);
    TimesUnit(d);
    TimesZero(a / d);
    TimesUnit(0);
  }

  lemma TimesZero(v: int)
    ensures Times(0, v) == 0 == Times(v, 0)
  {}
}
