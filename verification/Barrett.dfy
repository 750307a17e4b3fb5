/** s_reduce: reduction modulo m with a precomputed reciprocal. */
module Barrett {
  import opened Arithmetic
  import opened Digits
  import opened PowersOfTwo
  import opened MpInt
  import opened Shifts

  /** The quotient guess of s_reduce, with p = BASE^(k-1) and r = BASE^(k+1). */
  function Guess(x: nat, mu: nat, p: nat, r: nat): (q: nat)
    requires p >= 1 && r >= 1
  {
    TimesSign(x / p, mu);
    DivNat(Times(x / p, mu), r);
    Times(x / p, mu) / r
  }

  /** The guess never exceeds the quotient. */
  lemma GuessLow(x: nat, m: nat, mu: nat, p: nat, r: nat, a: nat, q: nat)
    requires p >= 1 && r >= 1 && m >= 1
    requires Times(p, a) <= x && Times(m, mu) <= Times(p, r) && Times(r, q) <= Times(a, mu)
    ensures Times(q, m) <= x
  {
    hide Times;
    var n := Times(p, r);
    TimesPositive(p, r);
    TimesPositive(p, m);
    TimesSign(m, mu);
    Regroup(q, m, p, r);
    TimesMono(Times(r, q), Times(a, mu), Times(p, m));
    Regroup(a, mu, p, m);
    TimesSwap(a, p);
    TimesSwap(mu, m);
    TimesMono(Times(p, a), x, Times(m, mu));
    TimesMono(Times(m, mu), n, x);
    TimesMono(x, Times(q, m), n);
  }

  /** The guess is at most two short. */
  lemma GuessHigh(x: nat, m: nat, mu: nat, p: nat, r: nat, a: nat, q: nat)
    requires p >= 1 && r >= 1 && m >= 1
    requires x < Times(p, a + 1) && Times(p, r) <= Times(m, mu + 1) && Times(a, mu) < Times(r, q + 1)
    requires a + 1 <= r && mu <= r
    ensures x < Times(q + 3, m)
  {
    hide Times;
    var n, s, t := Times(p, r), Times(p, a + 1), Times(m, mu + 1);
    TimesPositive(p, r);
    TimesPositive(p, m);
    TimesMono(x, s, n);
    TimesMono(n, t, s);
    Regroup(p, a + 1, m, mu + 1);
    GuessSlack(a, mu, r, q);
    TimesMono(Times(a + 1, mu + 1), Times(r, q + 3), Times(p, m));
    Regroup(p, m, r, q + 3);
    TimesSwap(m, q + 3);
    TimesSwap(n, Times(q + 3, m));
    TimesMono(Times(q + 3, m), x, n);
  }

  lemma GuessSlack(a: nat, mu: nat, r: nat, q: nat)
    requires Times(a, mu) < Times(r, q + 1) && a + 1 <= r && mu <= r
    ensures Times(a + 1, mu + 1) <= Times(r, q + 3)
  {
    hide Times;
    TimesFoil(a + 1, mu + 1, a, 1, mu, 1);
    TimesUnit(a);
    TimesUnit(mu);
    TimesUnit(1);
    TimesUnit(r);
    TimesSum(r, q + 3, q + 1, 2);
  }

  /** Barrett's bound: the guess leaves a remainder between 0 and three times the modulus. */
  lemma BarrettBound(x: nat, m: nat, mu: nat, k: nat)
    requires k >= 1 && Pow(k - 1) <= m && x < Pow(2 * k) && mu == Pow(2 * k) / m
    ensures var q := Guess(x, mu, Pow(k - 1), Pow(k + 1));
      Times(q, m) <= x < Times(q + 3, m)
  {
    hide Times, Pow;
    var p, r, a := Pow(k - 1), Pow(k + 1), x / Pow(k - 1);
    PowAdd(k - 1, k + 1);
    DivBounds(x, p);
    DivBounds(Pow(2 * k), m);
    TimesSign(a, mu);
    DivBounds(Times(a, mu), r);
    QuotientBelow(p, a, r);
    TimesMono(p, m, mu);
    AtMost(p, mu, r);
    var q := Times(a, mu) / r;
    GuessLow(x, m, mu, p, r, a, q);
    GuessHigh(x, m, mu, p, r, a, q);
  }

  /** Subtracting modulo r gives the difference or, when it wraps, the difference less r. */
  lemma WrappedDifference(x: nat, v: nat, r: nat)
    requires r > 0 && v <= x < v + r
    ensures var d := x % r - v % r;
      d == if d >= 0 then x - v else x - v - r
  {
    hide Times;
    DivIs(x, r);
    DivIs(v, r);
    TimesDiff(r, x / r, v / r);
    WrapSteps(x, v, r, x / r - v / r, x % r - v % r);
  }

  lemma WrapSteps(x: nat, v: nat, r: nat, n: int, d: int)
    requires v <= x < v + r && d < r && 0 < d + r && x - v == Times(r, n) + d
    ensures d == if d >= 0 then x - v else x - v - r
  {
    if n >= 2 { MulMono(2, n, r); }
    if n <= -1 { MulMono(n, -1, r); }
    TimesUnit(r);
  }

  /** No two of the numbers share storage. */
  ghost predicate Distinct5(a: Mpz, b: Mpz, c: Mpz, d: Mpz, e: Mpz)
    reads a, b, c, d, e
  {
    && Separate(a, b) && Separate(a, c) && Separate(a, d) && Separate(a, e)
    && Separate(b, c) && Separate(b, d) && Separate(b, e)
    && Separate(c, d) && Separate(c, e) && Separate(d, e)
  }

  /** The truncated difference brought to zero or above; s_qsub works on the digits the difference has. */
  function Pinned(d: int): (y: nat) {
    if d < 0 then
      CountBounds(0 - d);
      Pow(DigitCount(0 - d)) + d
    else d
  }

  /** One conditional subtraction of the modulus. */
  function BackedOff(y: nat, m: int): (z: nat) {
    if y >= m then y - m else y
  }

  /** What s_reduce makes of x for a modulus m of k digits and any constant mu. */
  function Reduced(x: nat, m: int, mu: nat, k: nat): (z: nat)
    requires k >= 1
  {
    var r := Pow(k + 1);
    var d := x % r - Times(Guess(x, mu, Pow(k - 1), r), Abs(m)) % r;
    BackedOff(BackedOff(Pinned(d), m), m)
  }

  /** mu is the reduction constant of a modulus m of k digits. */
  ghost predicate ExactConstant(m: int, mu: nat, k: nat) {
    k >= 1 && 0 < m && Pow(k - 1) <= m < Pow(k) && mu == Pow(2 * k) / m
  }

  /** Barrett's theorem: with the exact constant, everything below BASE^(2k) is reduced to its remainder. */
  lemma ReducedRight(x: nat, m: int, mu: nat, k: nat)
    requires ExactConstant(m, mu, k) && x < Pow(2 * k)
    ensures Reduced(x, m, mu, k) == x % m
  {
    hide Pow, Times, Guess, DigitCount;
    var q, r := Guess(x, mu, Pow(k - 1), Pow(k + 1)), Pow(k + 1);
    BarrettBound(x, m, mu, k);
    RemainderOfGuess(x, m, q, k);
    var rho, d := x - Times(q, m), x % r - Times(q, m) % r;
    if d < 0 {
      PowNext(k);
      CountIs(0 - d, k + 1);
    }
    assert Pinned(d) == rho;
    SmallQuotient(rho, m, BackedOff(BackedOff(rho, m), m));
  }

  /** q2 = the quotient guess for x. */
  method GuessQuotient(threshold: nat, x: Mpz, m: Mpz, mu: Mpz, q1: Mpz, q2: Mpz)
    requires threshold == 0 || threshold >= 4
    requires x.Valid() && m.Valid() && mu.Valid() && q1.Valid() && q2.Valid() && Distinct5(x, m, mu, q1, q2)
    modifies q1, q1.digits, q2, q2.digits
    ensures q1.Valid() && q2.Valid() && q1.neg == (x.neg && q1.Mag() != 0)
    ensures q2.Mag() == Guess(x.Mag(), mu.Mag(), Pow(m.used - 1), Pow(m.used + 1))
    ensures (q1.digits == old(q1.digits) || fresh(q1.digits)) && (q2.digits == old(q2.digits) || fresh(q2.digits))
    ensures q1.digits != q2.digits
  {
    hide Val, Exp2, Pow, Times;
    var um := m.used;
    Copy(x, q1);
    QDiv(q1, DIGIT_BITS * (um - 1));
    UMulTo(threshold, q1, mu, q2);
    QDiv(q2, DIGIT_BITS * (um + 1));
    Exp2Digits(um - 1);
    Exp2Digits(um + 1);
  }

  /** x = x - q * m computed modulo BASE^(k+1), for the guess q. */
  method TruncatedDifference(threshold: nat, x: Mpz, m: Mpz, mu: Mpz, q1: Mpz, q2: Mpz)
    requires threshold == 0 || threshold >= 4
    requires x.Valid() && m.Valid() && mu.Valid() && q1.Valid() && q2.Valid() && Distinct5(x, m, mu, q1, q2)
    requires !x.neg
    modifies x, x.digits, q1, q1.digits, q2, q2.digits
    ensures x.Valid() && q1.Valid() && q2.Valid() && x.neg == (x.Value() < 0)
    ensures var r := Pow(m.used + 1);
      x.Value() == old(x.Mag()) % r - Times(Guess(old(x.Mag()), mu.Mag(), Pow(m.used - 1), r), m.Mag()) % r
    ensures Distinct5(x, m, mu, q1, q2)
    ensures x.digits == old(x.digits) || fresh(x.digits)
    ensures q1.digits == old(q1.digits) || fresh(q1.digits)
    ensures q2.digits == old(q2.digits) || fresh(q2.digits)
  {
    hide Val, Exp2, Pow, Times, Guess;
    var bits := DIGIT_BITS * (m.used + 1);
    Exp2Digits(m.used + 1);
    GuessQuotient(threshold, x, m, mu, q1, q2);
    QMod(x, bits);
    SubtractProduct(threshold, x, m, q1, q2, bits);
  }

  /** x = x - (q2 * m) % 2^bits, through q1. */
  method SubtractProduct(threshold: nat, x: Mpz, m: Mpz, q1: Mpz, q2: Mpz, bits: nat)
    requires threshold == 0 || threshold >= 4
    requires x.Valid() && m.Valid() && q1.Valid() && q2.Valid() && !x.neg && !q1.neg
    requires Separate(x, m) && Separate(x, q1) && Separate(x, q2) && Separate(m, q1) && Separate(q2, q1)
    modifies x, x.digits, q1, q1.digits
    ensures x.Valid() && q1.Valid() && x.neg == (x.Value() < 0)
    ensures x.Value() == old(x.Mag()) - Times(q2.Mag(), m.Mag()) % Exp2(bits)
    ensures x.digits == old(x.digits) || fresh(x.digits)
    ensures q1.digits == old(q1.digits) || fresh(q1.digits)
    ensures x.digits != q1.digits
  {
    hide Val, Exp2, Times;
    UMulTo(threshold, q2, m, q1);
    QMod(q1, bits);
    Sub(x, q1, x);
  }

  lemma PinnedIs(d: int, n: nat)
    requires 0 < 0 - d < Pow(n)
    ensures 0 - d < Exp2(DIGIT_BITS * n) && Complement(0 - d, DIGIT_BITS * n) == Pinned(d)
  {
    hide Pow, Exp2, DigitCount;
    var c := DigitCount(0 - d);
    CountBounds(0 - d);
    Exp2Digits(n);
    if c > n { PowMono(n, c - 1); }
  }

  /** If the truncated difference went negative, bring it up. */
  method PinDifference(x: Mpz, n: nat)
    requires x.Valid() && x.neg == (x.Value() < 0) && 0 - x.Value() < Pow(n)
    modifies x, x.digits
    ensures x.Valid() && !x.neg && x.Mag() == Pinned(old(x.Value()))
    ensures x.digits == old(x.digits) || fresh(x.digits)
  {
    hide Val, Pow, Exp2;
    var c := CompareZero(x);
    if c < 0 {
      PinnedIs(x.Value(), n);
      QSub(x, DIGIT_BITS * n);
    }
  }

  /** mp_int_compare and mp_int_sub: take the modulus off unless x is below it. */
  method BackOff(x: Mpz, m: Mpz)
    requires x.Valid() && m.Valid() && Separate(x, m) && !x.neg
    modifies x, x.digits
    ensures x.Valid() && !x.neg && x.Mag() == BackedOff(old(x.Mag()), m.Value())
    ensures x.digits == old(x.digits) || fresh(x.digits)
  {
    hide Val;
    var c := Compare(x, m);
    if c >= 0 {
      Sub(x, m, x);
    }
  }

  lemma SmallQuotient(v: nat, m: nat, r: nat)
    requires r < m && (v == r || v == r + m || v == r + 2 * m)
    ensures v % m == r
  {
    TimesUnit(m);
    DivUnique(v, m, if v == r then 0 else if v == r + m then 1 else 2, r);
  }

  /** s_reduce, for any modulus and any constant. */
  method Reduce(threshold: nat, x: Mpz, m: Mpz, mu: Mpz, q1: Mpz, q2: Mpz)
    requires threshold == 0 || threshold >= 4
    requires x.Valid() && m.Valid() && mu.Valid() && q1.Valid() && q2.Valid() && Distinct5(x, m, mu, q1, q2)
    requires !x.neg
    modifies x, x.digits, q1, q1.digits, q2, q2.digits
    ensures x.Valid() && q1.Valid() && q2.Valid() && !x.neg && Distinct5(x, m, mu, q1, q2)
    ensures x.Mag() == Reduced(old(x.Mag()), m.Value(), mu.Mag(), m.used)
    ensures x.digits == old(x.digits) || fresh(x.digits)
    ensures q1.digits == old(q1.digits) || fresh(q1.digits)
    ensures q2.digits == old(q2.digits) || fresh(q2.digits)
  {
    hide Val, Pow, Times, Guess, Pinned, BackedOff, Reduced;
    ghost var v := x.Mag();
    TruncatedDifference(threshold, x, m, mu, q1, q2);
    ReducedIs(v, m.Value(), mu.Mag(), m.used, x.Value());
    BringIntoRange(x, m);
  }

  /** The last steps of s_reduce, which change x only. */
  method BringIntoRange(x: Mpz, m: Mpz)
    requires x.Valid() && m.Valid() && Separate(x, m) && x.neg == (x.Value() < 0) && 0 - x.Value() < Pow(m.used + 1)
    modifies x, x.digits
    ensures x.Valid() && !x.neg
    ensures x.Mag() == BackedOff(BackedOff(Pinned(old(x.Value())), m.Value()), m.Value())
    ensures x.digits == old(x.digits) || fresh(x.digits)
  {
    hide Val, Pow, Pinned, BackedOff;
    PinDifference(x, m.used + 1);
    BackOff(x, m);
    BackOff(x, m);
  }

  lemma ReducedIs(x: nat, m: int, mu: nat, k: nat, d: int)
    requires k >= 1 && d == x % Pow(k + 1) - Times(Guess(x, mu, Pow(k - 1), Pow(k + 1)), Abs(m)) % Pow(k + 1)
    ensures 0 - d < Pow(k + 1) && BackedOff(BackedOff(Pinned(d), m), m) == Reduced(x, m, mu, k)
  {
    hide Pow, Times, Guess, Pinned, BackedOff;
    DivIs(x, Pow(k + 1));
    DivIs(Times(Guess(x, mu, Pow(k - 1), Pow(k + 1)), Abs(m)), Pow(k + 1));
  }

  /** What is left after subtracting q * m is congruent to v and, taken modulo BASE^(k+1), wraps at most once. */
  lemma RemainderOfGuess(v: nat, m: nat, q: nat, k: nat)
    requires 0 < m < Pow(k) && Times(q, m) <= v < Times(q + 3, m)
    ensures var rho := v - Times(q, m);
      var d := v % Pow(k + 1) - Times(q, m) % Pow(k + 1);
      && 0 <= rho < 3 * m && rho % m == v % m
      && d == (if d < 0 then rho - Pow(k + 1) else rho) && -d < Pow(k + 1)
  {
    hide Pow, Times;
    var r, w := Pow(k + 1), Times(q, m);
    TimesLeft(q + 3, q, 3, m);
    TimesUnit(m);
    TimesSign(q, m);
    PowNext(k);
    WrappedDifference(v, w, r);
    DivIs(v, r);
    DivIs(w, r);
    DivIs(v - w, m);
    TimesSwap(q, m);
    TimesSum(m, q + (v - w) / m, q, (v - w) / m);
    DivUnique(v, m, q + (v - w) / m, (v - w) % m);
  }
}
