/** Common divisors and what the steps of the binary GCD algorithms do to them. */
module GcdMath {
  import opened Arithmetic
  import opened PowersOfTwo
  import opened TrailingZeros

  ghost predicate Divides(d: int, x: int) {
    exists m: int :: x == Times(d, m)
  }

  ghost predicate Common(d: int, x: int, y: int) {
    Divides(d, x) && Divides(d, y)
  }

  /** g is the greatest common divisor of x and y: a common divisor every other one divides. */
  ghost predicate IsGcd(g: int, x: int, y: int) {
    && g >= 1 && Common(g, x, y)
    && forall d: int :: Common(d, x, y) ==> Divides(d, g)
  }

  /** The same common divisors. */
  ghost predicate SameCommon(x: int, y: int, x': int, y': int) {
    forall d: int :: Common(d, x, y) <==> Common(d, x', y')
  }

  lemma DividesSum(d: int, x: int, y: int)
    requires Common(d, x, y)
    ensures Divides(d, x + y) && Divides(d, x - y)
  {
    hide Times;
    var m :| x == Times(d, m);
    var n :| y == Times(d, n);
    TimesSum(d, m + n, m, n);
    TimesDiff(d, m, n);
  }

  lemma DividesTimes(d: int, x: int, k: int)
    requires Divides(d, x)
    ensures Divides(d, Times(x, k)) && Divides(d, Times(k, x))
  {
    hide Times;
    var m :| x == Times(d, m);
    TimesAssoc(d, m, k);
    TimesSwap(x, k);
  }

  lemma DividesTwice(d: int, x: int)
    requires Divides(d, x)
    ensures Divides(d, 2 * x)
  {
    hide Times;
    DividesTimes(d, x, 2);
    TimesUnit(x);
  }

  lemma DividesZero(d: int)
    ensures Divides(d, 0) && Divides(d, d)
  {
    hide Times;
    TimesZero(d);
    TimesUnit(d);
  }

  /** A divisor of an odd number is odd, and one that divides 2x divides x. */
  lemma OddDivisor(d: int, x: int, y: int)
    requires Divides(d, y) && y % 2 == 1 && Divides(d, 2 * x)
    ensures Divides(d, x)
  {
    hide Times;
    var n :| y == Times(d, n);
    var m :| 2 * x == Times(d, m);
    ParityOfProduct(d, n);
    ParityOfProduct(d, m);
    var h := m / 2;
    HalfProduct(d, m, h);
    assert x == Times(d, h);
  }

  lemma ParityOfProduct(a: int, b: int)
    ensures Times(a, b) % 2 == 1 <==> a % 2 == 1 && b % 2 == 1
  {
    var p, q := a / 2, b / 2;
    var i, j := a % 2, b % 2;
    assert a == 2 * p + i && b == 2 * q + j;
    assert Times(a, b) == 2 * (p * b + i * q) + i * j;
    assert i * j == if i == 1 && j == 1 then 1 else 0;
  }

  lemma HalfProduct(d: int, m: int, h: int)
    requires m == 2 * h
    ensures Times(d, m) == 2 * Times(d, h)
  {}

  /** Halving one of a pair whose other member is odd keeps the common divisors. */
  lemma HalveCommon(x: int, y: int)
    requires y % 2 == 1
    ensures SameCommon(2 * x, y, x, y)
  {
    hide Divides;
    forall d: int ensures Common(d, 2 * x, y) <==> Common(d, x, y) {
      if Common(d, 2 * x, y) { OddDivisor(d, x, y); }
      if Common(d, x, y) { DividesTwice(d, x); }
    }
  }

  /** So does taking the odd part. */
  lemma {:induction false} OddPartCommon(x: int, y: int, k: nat)
    requires y % 2 == 1
    ensures SameCommon(Times(Exp2(k), x), y, x, y)
  {
    hide Times, Common;
    if k == 0 {
      Exp2None(x);
    } else {
      OddPartCommon(x, y, k - 1);
      TwoTimes(Exp2(k - 1), x);
      HalveCommon(Times(Exp2(k - 1), x), y);
    }
  }

  /** Subtracting one from the other keeps the common divisors. */
  lemma SubtractCommon(x: int, y: int)
    ensures SameCommon(x, y, x - y, y)
  {
    hide Divides;
    forall d: int ensures Common(d, x, y) <==> Common(d, x - y, y) {
      if Common(d, x, y) { DividesSum(d, x, y); }
      if Common(d, x - y, y) { DividesSum(d, x - y, y); }
    }
  }

  lemma SameCommonTrans(a: int, b: int, c: int, d: int, e: int, f: int)
    requires SameCommon(a, b, c, d) && SameCommon(c, d, e, f)
    ensures SameCommon(a, b, e, f)
  {
    hide Common;
  }

  /** When the two numbers meet they are the answer. */
  lemma MeetIsGcd(u: int, x: int, y: int)
    requires u >= 1 && SameCommon(u, u, x, y)
    ensures IsGcd(u, x, y)
  {
    hide Divides;
    DividesZero(u);
    assert Common(u, u, u);
    forall d: int | Common(d, x, y) ensures Divides(d, u) {
      assert Common(d, u, u);
    }
  }

  /** A common factor of two goes straight to the answer. */
  lemma DoubleGcd(g: int, x: int, y: int)
    requires IsGcd(g, x, y)
    ensures IsGcd(2 * g, 2 * x, 2 * y)
  {
    hide Times, Divides;
    DoubleDivides(g, x);
    DoubleDivides(g, y);
    forall d: int | Common(d, 2 * x, 2 * y) ensures Divides(d, 2 * g) {
      if d % 2 == 1 {
        DividesZero(d);
        OddDivisor(d, x, d);
        OddDivisor(d, y, d);
        assert Common(d, x, y);
        DividesTwice(d, g);
      } else {
        HalveDivides(d / 2, x);
        HalveDivides(d / 2, y);
        assert d == 2 * (d / 2);
        assert Common(d / 2, x, y);
        DoubleDivides(d / 2, g);
      }
    }
  }

  lemma DoubleDivides(d: int, x: int)
    requires Divides(d, x)
    ensures Divides(2 * d, 2 * x)
  {
    hide Times;
    var m :| x == Times(d, m);
    TwoTimes(d, m);
  }

  lemma HalveDivides(d: int, x: int)
    requires Divides(2 * d, 2 * x)
    ensures Divides(d, x)
  {
    hide Times;
    var m :| 2 * x == Times(2 * d, m);
    TwoTimes(d, m);
  }

  lemma {:induction false} ScaleGcd(g: int, x: int, y: int, k: nat)
    requires IsGcd(g, x, y)
    ensures IsGcd(Times(g, Exp2(k)), Times(x, Exp2(k)), Times(y, Exp2(k)))
  {
    hide Times, IsGcd;
    if k == 0 {
      TimesUnit(g);
      TimesUnit(x);
      TimesUnit(y);
    } else {
      ScaleGcd(g, x, y, k - 1);
      DoubleGcd(Times(g, Exp2(k - 1)), Times(x, Exp2(k - 1)), Times(y, Exp2(k - 1)));
      HalfProduct(g, Exp2(k), Exp2(k - 1));
      HalfProduct(x, Exp2(k), Exp2(k - 1));
      HalfProduct(y, Exp2(k), Exp2(k - 1));
    }
  }

  /** The gcd with zero is the other number. */
  lemma ZeroGcd(x: int)
    requires x >= 1
    ensures IsGcd(x, x, 0) && IsGcd(x, 0, x)
  {
    hide Divides;
    DividesZero(x);
  }
}
