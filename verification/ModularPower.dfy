/** s_embar: modular exponentiation by squaring with Barrett reduction. */
module ModularPower {
  import opened Arithmetic
  import opened Digits
  import opened PowersOfTwo
  import opened MpInt
  import opened Shifts
  import opened Barrett

  function Power(a: int, e: nat): (p: int) {
    if e == 0 then 1 else Times(a, Power(a, e - 1))
  }

  lemma {:induction false} PowerSquare(a: int, h: nat)
    ensures Power(a, 2 * h) == Power(Times(a, a), h)
  {
    hide Times;
    if h > 0 {
      PowerSquare(a, h - 1);
      assert Power(a, 2 * h) == Times(a, Times(a, Power(a, 2 * (h - 1))));
      TimesAssoc(a, a, Power(a, 2 * (h - 1)));
    }
  }

  /** Congruence modulo m. */
  ghost predicate Cong(x: int, y: int, m: int)
    requires m > 0
  {
    x % m == y % m
  }

  lemma CongMul(x: int, x': int, y: int, m: int)
    requires m > 0 && Cong(x, x', m)
    ensures Cong(Times(x, y), Times(x', y), m) && Cong(Times(y, x), Times(y, x'), m)
  {
    hide Times;
    DivIs(x, m);
    DivIs(x', m);
    var k := x / m - x' / m;
    TimesDiff(m, x / m, x' / m);
    TimesLeft(x, x', Times(m, k), y);
    TimesAssoc(m, k, y);
    TimesSwap(x, y);
    TimesSwap(x', y);
    CongShift(Times(x', y), Times(k, y), m);
  }

  lemma CongShift(v: int, k: int, m: int)
    requires m > 0
    ensures Cong(v + Times(m, k), v, m)
  {
    hide Times;
    DivIs(v, m);
    TimesSum(m, v / m + k, v / m, k);
    DivUnique(v + Times(m, k), m, v / m + k, v % m);
  }

  lemma CongMod(v: int, m: int)
    requires m > 0
    ensures Cong(v % m, v, m) && 0 <= v % m < m
  {
    DivIs(v, m);
    DivUnique(v % m, m, 0, v % m);
  }

  lemma {:induction false} CongPower(a: int, b: int, e: nat, m: int)
    requires m > 0 && Cong(a, b, m)
    ensures Cong(Power(a, e), Power(b, e), m)
  {
    hide Times, Cong;
    if e == 0 {
      CongSame(1, m);
    } else {
      CongPower(a, b, e - 1, m);
      CongMul(a, b, Power(a, e - 1), m);
      CongMul(Power(a, e - 1), Power(b, e - 1), b, m);
      CongTrans(Times(a, Power(a, e - 1)), Times(b, Power(a, e - 1)), Times(b, Power(b, e - 1)), m);
    }
  }

  lemma CongSame(x: int, m: int)
    requires m > 0
    ensures Cong(x, x, m)
  {}

  lemma CongTrans(x: int, y: int, z: int, m: int)
    requires m > 0 && Cong(x, y, m) && Cong(y, z, m)
    ensures Cong(x, z, m)
  {}

  /** The invariant of every loop: what is accumulated times what is left of the power is the goal. */
  ghost predicate Progress(c: int, a: int, rest: nat, goal: int, m: int)
    requires m > 0
  {
    Cong(Times(c, Power(a, rest)), goal, m)
  }

  /** Using up the low bit. */
  lemma TakeBit(c: int, a: int, rest: nat, goal: int, m: int)
    requires m > 0 && rest % 2 == 1 && Progress(c, a, rest, goal, m)
    ensures Progress(Times(c, a) % m, a, rest - 1, goal, m)
  {
    hide Times, Cong;
    var p := Power(a, rest - 1);
    TimesAssoc(c, a, p);
    CongMod(Times(c, a), m);
    CongMul(Times(c, a) % m, Times(c, a), p, m);
    CongTrans(Times(Times(c, a) % m, p), Times(Times(c, a), p), goal, m);
  }

  /** Squaring the base halves what is left. */
  lemma HalveRest(c: int, a: int, rest: nat, goal: int, m: int)
    requires m > 0 && rest % 2 == 0 && Progress(c, a, rest, goal, m)
    ensures Progress(c, Times(a, a) % m, rest / 2, goal, m)
  {
    hide Times, Cong, Power;
    var s, h := Times(a, a), rest / 2;
    PowerSquare(a, h);
    assert 2 * h == rest;
    CongMod(s, m);
    CongPower(s % m, s, h, m);
    CongMul(Power(s % m, h), Power(s, h), c, m);
    CongTrans(Times(c, Power(s % m, h)), Times(c, Power(s, h)), goal, m);
  }

  /**
   What s_embar computes from the values: base a, result so far c, exponent e still
   to be used, for a modulus m of k digits and any reduction constant mu.
   */
  function Ladder(c: nat, a: nat, e: nat, m: int, mu: nat, k: nat): (r: nat)
    requires k >= 1
    decreases e
  {
    TimesSign(c, a);
    TimesSign(a, a);
    if e == 0 then c
    else
      var c' := if e % 2 == 1 then Reduced(Times(c, a), m, mu, k) else c;
      Ladder(c', Reduced(Times(a, a), m, mu, k), e / 2, m, mu, k)
  }

  /** Multiplying for a set bit, or squaring after it, leaves the outcome as it was. */
  lemma LadderBit(c: nat, a: nat, e: nat, m: int, mu: nat, k: nat)
    requires k >= 1 && e % 2 == 1
    ensures 0 <= Times(c, a) && Ladder(Reduced(Times(c, a), m, mu, k), a, e - 1, m, mu, k) == Ladder(c, a, e, m, mu, k)
  {
    hide Times, Reduced;
    TimesSign(c, a);
    TimesSign(a, a);
    var c', a' := Reduced(Times(c, a), m, mu, k), Reduced(Times(a, a), m, mu, k);
    assert (e - 1) / 2 == e / 2;
    LadderEnd(c', a', m, mu, k);
  }

  lemma LadderEnd(c: nat, a: nat, m: int, mu: nat, k: nat)
    requires k >= 1
    ensures Ladder(c, a, 0, m, mu, k) == c
  {}

  lemma LadderSquare(c: nat, a: nat, e: nat, m: int, mu: nat, k: nat)
    requires k >= 1 && e % 2 == 0
    ensures 0 <= Times(a, a) && Ladder(c, Reduced(Times(a, a), m, mu, k), e / 2, m, mu, k) == Ladder(c, a, e, m, mu, k)
  {
    hide Times, Reduced;
    TimesSign(a, a);
    LadderEnd(c, Reduced(Times(a, a), m, mu, k), m, mu, k);
  }

  /** One step of the ladder with the exact constant works on remainders. */
  lemma StepRight(c: nat, a: nat, m: int, mu: nat, k: nat)
    requires ExactConstant(m, mu, k) && c <= m && a <= m
    ensures 0 <= Times(c, a) && Reduced(Times(c, a), m, mu, k) == Times(c, a) % m < m
  {
    hide Pow, Times, Reduced;
    ProductFits(c, a, m, k);
    ReducedRight(Times(c, a), m, mu, k);
    CongMod(Times(c, a), m);
  }

  /** With the exact constant the ladder ends at the power: the law exponentiation by squaring rests on. */
  lemma {:induction false} LadderPower(c: nat, a: nat, e: nat, m: int, mu: nat, k: nat)
    requires ExactConstant(m, mu, k) && c <= m && a <= m && e >= 1
    ensures Ladder(c, a, e, m, mu, k) == Times(c, Power(a, e)) % m
    decreases e
  {
    hide Times, Reduced, Power, Cong, ExactConstant;
    assert m > 0 by { ConstantPositive(m, mu, k); }
    var goal := Times(c, Power(a, e));
    CongSame(goal, m);
    StepRight(a, a, m, mu, k);
    var c' := c;
    if e % 2 == 1 {
      StepRight(c, a, m, mu, k);
      TakeBit(c, a, e, goal, m);
      c' := Times(c, a) % m;
    }
    var even := if e % 2 == 1 then e - 1 else e;
    HalveRest(c', a, even, goal, m);
    assert even / 2 == e / 2;
    if e == 1 {
      FirstPower(a);
    } else {
      LadderPower(c', Times(a, a) % m, e / 2, m, mu, k);
      CongIs(Times(c', Power(Times(a, a) % m, e / 2)), goal, m);
    }
  }

  lemma FirstPower(a: int)
    ensures Power(a, 1) == a
  {
    assert Power(a, 0) == 1;
    TimesUnit(a);
  }

  lemma CongIs(x: int, y: int, m: int)
    requires m > 0 && Cong(x, y, m)
    ensures x % m == y % m
  {}

  lemma ConstantPositive(m: int, mu: nat, k: nat)
    requires ExactConstant(m, mu, k)
    ensures m > 0 && k >= 1
  {}

  /** z shares no storage with the five numbers a reduction works on. */
  ghost predicate Outside(z: Mpz, t0: Mpz, m: Mpz, mu: Mpz, t1: Mpz, t2: Mpz)
    reads z, t0, m, mu, t1, t2
  {
    Separate(z, t0) && Separate(z, m) && Separate(z, mu) && Separate(z, t1) && Separate(z, t2)
  }

  /** Modulus, reduction constant and three temporaries, none sharing storage. */
  ghost predicate Workspace(t0: Mpz, m: Mpz, mu: Mpz, t1: Mpz, t2: Mpz)
    reads t0, m, mu, t1, t2, t0.digits, m.digits, mu.digits, t1.digits, t2.digits
  {
    && Distinct5(t0, m, mu, t1, t2) && m.Valid() && mu.Valid()
    && t0.Valid() && t1.Valid() && t2.Valid() && !t0.neg
  }

  lemma ProductFits(x: nat, y: nat, m: nat, k: nat)
    requires x <= m && y <= m && m < Pow(k)
    ensures 0 <= Times(x, y) < Pow(2 * k)
  {
    MulMono2(x, Pow(k) - 1, y, Pow(k) - 1);
    PowAdd(k, k);
    TimesFoil(Pow(k) - 1, Pow(k) - 1, Pow(k), -1, Pow(k), -1);
  }

  /** z = what s_reduce makes of t0. */
  method ReduceTo(threshold: nat, z: Mpz, m: Mpz, mu: Mpz, t0: Mpz, t1: Mpz, t2: Mpz)
    requires threshold == 0 || threshold >= 4
    requires Workspace(t0, m, mu, t1, t2) && z.Valid() && Outside(z, t0, m, mu, t1, t2)
    modifies z, z.digits, t0, t0.digits, t1, t1.digits, t2, t2.digits
    ensures Workspace(t0, m, mu, t1, t2) && z.Valid() && Outside(z, t0, m, mu, t1, t2) && !z.neg
    ensures z.Mag() == Reduced(old(t0.Mag()), m.Value(), mu.Mag(), m.used)
    ensures z.digits == old(z.digits) || fresh(z.digits)
    ensures t0.digits == old(t0.digits) || fresh(t0.digits)
    ensures t1.digits == old(t1.digits) || fresh(t1.digits)
    ensures t2.digits == old(t2.digits) || fresh(t2.digits)
  {
    hide Val, Times, Reduced;
    Reduce(threshold, t0, m, mu, t1, t2);
    Copy(t0, z);
  }

  /** c = c * a, reduced. */
  method MulMod(threshold: nat, c: Mpz, a: Mpz, m: Mpz, mu: Mpz, t0: Mpz, t1: Mpz, t2: Mpz)
    requires threshold == 0 || threshold >= 4
    requires Workspace(t0, m, mu, t1, t2) && a.Valid() && c.Valid() && Separate(a, c)
    requires Outside(a, t0, m, mu, t1, t2) && Outside(c, t0, m, mu, t1, t2)
    modifies c, c.digits, t0, t0.digits, t1, t1.digits, t2, t2.digits
    ensures Workspace(t0, m, mu, t1, t2) && c.Valid() && Separate(a, c) && !c.neg
    ensures Outside(a, t0, m, mu, t1, t2) && Outside(c, t0, m, mu, t1, t2)
    ensures Times(old(c.Mag()), a.Mag()) >= 0
    ensures c.Mag() == Reduced(Times(old(c.Mag()), a.Mag()), m.Value(), mu.Mag(), m.used)
    ensures c.digits == old(c.digits) || fresh(c.digits)
    ensures t0.digits == old(t0.digits) || fresh(t0.digits)
    ensures t1.digits == old(t1.digits) || fresh(t1.digits)
    ensures t2.digits == old(t2.digits) || fresh(t2.digits)
  {
    hide Val, Times, Reduced;
    TimesSign(c.Mag(), a.Mag());
    UMulTo(threshold, c, a, t0);
    ReduceTo(threshold, c, m, mu, t0, t1, t2);
  }

  /** a = a * a, reduced. */
  method SquareMod(threshold: nat, a: Mpz, m: Mpz, mu: Mpz, t0: Mpz, t1: Mpz, t2: Mpz)
    requires threshold == 0 || threshold >= 4
    requires Workspace(t0, m, mu, t1, t2) && a.Valid() && Outside(a, t0, m, mu, t1, t2)
    modifies a, a.digits, t0, t0.digits, t1, t1.digits, t2, t2.digits
    ensures Workspace(t0, m, mu, t1, t2) && a.Valid() && Outside(a, t0, m, mu, t1, t2)
    ensures Times(old(a.Mag()), old(a.Mag())) >= 0
    ensures a.Mag() == Reduced(Times(old(a.Mag()), old(a.Mag())), m.Value(), mu.Mag(), m.used)
    ensures a.digits == old(a.digits) || fresh(a.digits)
    ensures t0.digits == old(t0.digits) || fresh(t0.digits)
    ensures t1.digits == old(t1.digits) || fresh(t1.digits)
    ensures t2.digits == old(t2.digits) || fresh(t2.digits)
  {
    hide Val, Times, Reduced;
    TimesSign(a.Mag(), a.Mag());
    USqrTo(threshold, a, t0);
    ReduceTo(threshold, a, m, mu, t0, t1, t2);
  }

  /** Everything the loops work on: base a, result c, and the workspace. */
  ghost predicate Ready(a: Mpz, c: Mpz, m: Mpz, mu: Mpz, t0: Mpz, t1: Mpz, t2: Mpz)
    reads a, c, t0, m, mu, t1, t2, a.digits, c.digits, t0.digits, m.digits, mu.digits, t1.digits, t2.digits
  {
    && Workspace(t0, m, mu, t1, t2) && a.Valid() && c.Valid() && Separate(a, c)
    && Outside(a, t0, m, mu, t1, t2) && Outside(c, t0, m, mu, t1, t2) && !c.neg
  }

  /** db is none of the buffers that change. */
  ghost predicate Untouched(db: array<Digit>, a: Mpz, c: Mpz, t0: Mpz, t1: Mpz, t2: Mpz)
    reads a, c, t0, t1, t2
  {
    db != a.digits && db != c.digits && db != t0.digits && db != t1.digits && db != t2.digits
  }

  /** A run on its way: rest of the exponent is still to be used, and the exponent's buffer db is safe. */
  ghost predicate Running(a: Mpz, c: Mpz, m: Mpz, mu: Mpz, t0: Mpz, t1: Mpz, t2: Mpz, db: array<Digit>,
                          rest: nat, goal: int)
    reads a, c, t0, m, mu, t1, t2, a.digits, c.digits, t0.digits, m.digits, mu.digits, t1.digits, t2.digits
  {
    && Ready(a, c, m, mu, t0, t1, t2) && Untouched(db, a, c, t0, t1, t2)
    && Ladder(c.Mag(), a.Mag(), rest, m.Value(), mu.Mag(), m.used) == goal
  }

  /** Multiply the result by the base, using up a set bit. */
  method UseBit(threshold: nat, a: Mpz, c: Mpz, m: Mpz, mu: Mpz, t0: Mpz, t1: Mpz, t2: Mpz,
                ghost rest: nat, ghost goal: int, ghost db: array<Digit>)
    requires threshold == 0 || threshold >= 4
    requires Running(a, c, m, mu, t0, t1, t2, db, rest, goal) && rest % 2 == 1
    modifies c, c.digits, t0, t0.digits, t1, t1.digits, t2, t2.digits
    ensures Running(a, c, m, mu, t0, t1, t2, db, rest - 1, goal)
    ensures c.digits == old(c.digits) || fresh(c.digits)
    ensures t0.digits == old(t0.digits) || fresh(t0.digits)
    ensures t1.digits == old(t1.digits) || fresh(t1.digits)
    ensures t2.digits == old(t2.digits) || fresh(t2.digits)
  {
    hide Val, Times, Reduced, Ladder;
    LadderBit(c.Mag(), a.Mag(), rest, m.Value(), mu.Mag(), m.used);
    MulMod(threshold, c, a, m, mu, t0, t1, t2);
  }

  /** Square the base, halving what is left of the exponent. */
  method UseSquare(threshold: nat, a: Mpz, c: Mpz, m: Mpz, mu: Mpz, t0: Mpz, t1: Mpz, t2: Mpz,
                   ghost rest: nat, ghost goal: int, ghost db: array<Digit>)
    requires threshold == 0 || threshold >= 4
    requires Running(a, c, m, mu, t0, t1, t2, db, rest, goal) && rest % 2 == 0
    modifies a, a.digits, t0, t0.digits, t1, t1.digits, t2, t2.digits
    ensures Running(a, c, m, mu, t0, t1, t2, db, rest / 2, goal)
    ensures a.digits == old(a.digits) || fresh(a.digits)
    ensures t0.digits == old(t0.digits) || fresh(t0.digits)
    ensures t1.digits == old(t1.digits) || fresh(t1.digits)
    ensures t2.digits == old(t2.digits) || fresh(t2.digits)
  {
    hide Val, Times, Reduced, Ladder;
    LadderSquare(c.Mag(), a.Mag(), rest, m.Value(), mu.Mag(), m.used);
    SquareMod(threshold, a, m, mu, t0, t1, t2);
  }

  /** The lowest bit: multiply if it is set. */
  method UseLow(threshold: nat, bit: bool, a: Mpz, c: Mpz, m: Mpz, mu: Mpz, t0: Mpz, t1: Mpz, t2: Mpz,
                ghost rest: nat, ghost goal: int, ghost db: array<Digit>)
    requires threshold == 0 || threshold >= 4
    requires Running(a, c, m, mu, t0, t1, t2, db, rest, goal) && bit == (rest % 2 == 1)
    modifies c, c.digits, t0, t0.digits, t1, t1.digits, t2, t2.digits
    ensures Running(a, c, m, mu, t0, t1, t2, db, rest - rest % 2, goal)
    ensures c.digits == old(c.digits) || fresh(c.digits)
    ensures t0.digits == old(t0.digits) || fresh(t0.digits)
    ensures t1.digits == old(t1.digits) || fresh(t1.digits)
    ensures t2.digits == old(t2.digits) || fresh(t2.digits)
  {
    hide Val, Running;
    if bit { UseBit(threshold, a, c, m, mu, t0, t1, t2, rest, goal, db); }
  }

  /** One bit of a lower digit: multiply if it is set, then square. */
  method PowerBit(threshold: nat, bit: bool, a: Mpz, c: Mpz, m: Mpz, mu: Mpz, t0: Mpz, t1: Mpz, t2: Mpz,
                  ghost rest: nat, ghost goal: int, ghost db: array<Digit>)
    requires threshold == 0 || threshold >= 4
    requires Running(a, c, m, mu, t0, t1, t2, db, rest, goal) && bit == (rest % 2 == 1)
    modifies a, a.digits, c, c.digits, t0, t0.digits, t1, t1.digits, t2, t2.digits
    ensures Running(a, c, m, mu, t0, t1, t2, db, rest / 2, goal)
    ensures a.digits == old(a.digits) || fresh(a.digits)
    ensures c.digits == old(c.digits) || fresh(c.digits)
    ensures t0.digits == old(t0.digits) || fresh(t0.digits)
    ensures t1.digits == old(t1.digits) || fresh(t1.digits)
    ensures t2.digits == old(t2.digits) || fresh(t2.digits)
  {
    hide Val, Running;
    UseLow(threshold, bit, a, c, m, mu, t0, t1, t2, rest, goal, db);
    UseSquare(threshold, a, c, m, mu, t0, t1, t2, rest - rest % 2, goal, db);
  }

  /** The exponent still to be used while i bits of a digit are left above which hi stands. */
  function Left(d: nat, i: nat, hi: nat): (r: nat) {
    TimesSign(Exp2(i), hi);
    d + Times(Exp2(i), hi)
  }

  lemma LeftHalves(d: nat, i: nat, hi: nat)
    requires i >= 1
    ensures Left(d, i, hi) % 2 == d % 2 && Left(d, i, hi) / 2 == Left(d / 2, i - 1, hi)
  {
    Assoc(2, Exp2(i - 1), hi);
    var q := Times(Exp2(i - 1), hi);
    assert Left(d, i, hi) == d + 2 * q;
  }

  lemma LeftEnds(d: nat, hi: nat)
    ensures Left(d, DIGIT_BITS, hi) == d + BASE * hi && Left(0, 0, hi) == hi
  {
    Exp2Digit();
  }

  /** All 32 bits of a digit below the top one. */
  method PowerDigit(threshold: nat, digit: Digit, a: Mpz, c: Mpz, m: Mpz, mu: Mpz, t0: Mpz, t1: Mpz, t2: Mpz,
                    ghost hi: nat, ghost goal: int, ghost db: array<Digit>)
    requires threshold == 0 || threshold >= 4
    requires Running(a, c, m, mu, t0, t1, t2, db, digit as int + BASE * hi, goal)
    modifies a, a.digits, c, c.digits, t0, t0.digits, t1, t1.digits, t2, t2.digits
    ensures Running(a, c, m, mu, t0, t1, t2, db, hi, goal)
    ensures a.digits == old(a.digits) || fresh(a.digits)
    ensures c.digits == old(c.digits) || fresh(c.digits)
    ensures t0.digits == old(t0.digits) || fresh(t0.digits)
    ensures t1.digits == old(t1.digits) || fresh(t1.digits)
    ensures t2.digits == old(t2.digits) || fresh(t2.digits)
  {
    hide Val, Pow, Times, Running, Left;
    var d: nat, i := digit as int, DIGIT_BITS;
    LeftEnds(d, hi);
    Exp2Digit();
    while i > 0
      invariant 0 <= i <= DIGIT_BITS && d < Exp2(i)
      invariant Running(a, c, m, mu, t0, t1, t2, db, Left(d, i, hi), goal)
      invariant a.digits == old(a.digits) || fresh(a.digits)
      invariant c.digits == old(c.digits) || fresh(c.digits)
      invariant t0.digits == old(t0.digits) || fresh(t0.digits)
      invariant t1.digits == old(t1.digits) || fresh(t1.digits)
      invariant t2.digits == old(t2.digits) || fresh(t2.digits)
    {
      LeftHalves(d, i, hi);
      PowerBit(threshold, d % 2 == 1, a, c, m, mu, t0, t1, t2, Left(d, i, hi), goal, db);
      d, i := d / 2, i - 1;
    }
    LeftEnds(d, hi);
  }

  /** One more bit of the top digit: square first, then multiply if it is set. */
  method TopBit(threshold: nat, d: nat, a: Mpz, c: Mpz, m: Mpz, mu: Mpz, t0: Mpz, t1: Mpz, t2: Mpz,
                ghost goal: int, ghost db: array<Digit>)
    requires threshold == 0 || threshold >= 4
    requires Running(a, c, m, mu, t0, t1, t2, db, 2 * d, goal)
    modifies a, a.digits, c, c.digits, t0, t0.digits, t1, t1.digits, t2, t2.digits
    ensures Running(a, c, m, mu, t0, t1, t2, db, 2 * (d / 2), goal)
    ensures a.digits == old(a.digits) || fresh(a.digits)
    ensures c.digits == old(c.digits) || fresh(c.digits)
    ensures t0.digits == old(t0.digits) || fresh(t0.digits)
    ensures t1.digits == old(t1.digits) || fresh(t1.digits)
    ensures t2.digits == old(t2.digits) || fresh(t2.digits)
  {
    hide Val, Running;
    UseSquare(threshold, a, c, m, mu, t0, t1, t2, 2 * d, goal, db);
    UseLow(threshold, d % 2 == 1, a, c, m, mu, t0, t1, t2, d, goal, db);
  }

  /** The top digit: no squaring after its last bit. */
  method PowerTop(threshold: nat, digit: Digit, a: Mpz, c: Mpz, m: Mpz, mu: Mpz, t0: Mpz, t1: Mpz, t2: Mpz,
                  ghost goal: int, ghost db: array<Digit>)
    requires threshold == 0 || threshold >= 4
    requires Running(a, c, m, mu, t0, t1, t2, db, digit as int, goal)
    modifies a, a.digits, c, c.digits, t0, t0.digits, t1, t1.digits, t2, t2.digits
    ensures Running(a, c, m, mu, t0, t1, t2, db, 0, goal)
    ensures c.digits == old(c.digits) || fresh(c.digits)
  {
    hide Val, Pow, Times, Running;
    var d: nat := digit as int;
    UseLow(threshold, d % 2 == 1, a, c, m, mu, t0, t1, t2, d, goal, db);
    d := d / 2;
    while d != 0
      invariant Running(a, c, m, mu, t0, t1, t2, db, 2 * d, goal)
      invariant a.digits == old(a.digits) || fresh(a.digits)
      invariant c.digits == old(c.digits) || fresh(c.digits)
      invariant t0.digits == old(t0.digits) || fresh(t0.digits)
      invariant t1.digits == old(t1.digits) || fresh(t1.digits)
      invariant t2.digits == old(t2.digits) || fresh(t2.digits)
      decreases d
    {
      TopBit(threshold, d, a, c, m, mu, t0, t1, t2, goal, db);
      d := d / 2;
    }
  }

  /** s_embar, for any modulus and any constant; a is overwritten. */
  method Embar(threshold: nat, a: Mpz, b: Mpz, m: Mpz, mu: Mpz, c: Mpz)
    requires threshold == 0 || threshold >= 4
    requires a.Valid() && b.Valid() && c.Valid() && m.Valid() && mu.Valid()
    requires Separate(a, c) && Separate(a, m) && Separate(a, mu)
    requires Separate(c, m) && Separate(c, mu) && Separate(m, mu) && Separate(b, a) && Separate(b, c)
    modifies a, a.digits, c, c.digits
    ensures c.Valid() && !c.neg && c.Mag() == Ladder(1, old(a.Mag()), b.Mag(), m.Value(), mu.Mag(), m.used)
    ensures c.digits == old(c.digits) || fresh(c.digits)
  {
    hide Val, Ladder;
    var t0, t1, t2 := NewTemps(2 * mu.used);
    EmbarWith(threshold, a, b, m, mu, c, t0, t1, t2);
  }

  method NewTemps(size: nat) returns (t0: Mpz, t1: Mpz, t2: Mpz)
    ensures fresh(t0) && fresh(t0.digits) && fresh(t1) && fresh(t1.digits) && fresh(t2) && fresh(t2.digits)
    ensures t0.Valid() && t1.Valid() && t2.Valid() && !t0.neg && !t1.neg && !t2.neg
    ensures Separate(t0, t1) && Separate(t0, t2) && Separate(t1, t2)
  {
    hide Val;
    t0 := new Mpz(size);
    t1 := new Mpz(size);
    t2 := new Mpz(size);
  }

  method EmbarWith(threshold: nat, a: Mpz, b: Mpz, m: Mpz, mu: Mpz, c: Mpz, t0: Mpz, t1: Mpz, t2: Mpz)
    requires threshold == 0 || threshold >= 4
    requires a.Valid() && b.Valid() && c.Valid() && Separate(a, c) && Workspace(t0, m, mu, t1, t2)
    requires Outside(a, t0, m, mu, t1, t2) && Outside(c, t0, m, mu, t1, t2)
    requires Untouched(b.digits, a, c, t0, t1, t2) && b !in {a, c, t0, t1, t2}
    modifies a, a.digits, c, c.digits, t0, t0.digits, t1, t1.digits, t2, t2.digits
    ensures c.Valid() && !c.neg && c.Mag() == Ladder(1, old(a.Mag()), b.Mag(), m.Value(), mu.Mag(), m.used)
    ensures c.digits == old(c.digits) || fresh(c.digits)
  {
    hide Val, Ladder;
    ghost var goal := Ladder(1, a.Mag(), b.Mag(), m.Value(), mu.Mag(), m.used);
    SetOne(c);
    EmbarDigits(threshold, a, b, m, mu, c, t0, t1, t2, goal);
    LadderEnd(c.Mag(), a.Mag(), m.Value(), mu.Mag(), m.used);
  }

  method EmbarDigits(threshold: nat, a: Mpz, b: Mpz, m: Mpz, mu: Mpz, c: Mpz, t0: Mpz, t1: Mpz, t2: Mpz,
                     ghost goal: int)
    requires threshold == 0 || threshold >= 4
    requires b.Valid() && b !in {a, c, t0, t1, t2}
    requires Running(a, c, m, mu, t0, t1, t2, b.digits, b.Mag(), goal) && Untouched(b.digits, a, c, t0, t1, t2)
    modifies a, a.digits, c, c.digits, t0, t0.digits, t1, t1.digits, t2, t2.digits
    ensures Running(a, c, m, mu, t0, t1, t2, b.digits, 0, goal)
    ensures c.digits == old(c.digits) || fresh(c.digits)
  {
    hide Val, Running;
    var db, top := b.digits, b.used - 1;
    ghost var x := db[..b.used];
    assert x[0..] == x;
    var j := 0;
    while j < top
      invariant 0 <= j <= top
      invariant Running(a, c, m, mu, t0, t1, t2, db, Val(x[j..]), goal)
      invariant db[..top + 1] == x
      invariant a.digits == old(a.digits) || fresh(a.digits)
      invariant c.digits == old(c.digits) || fresh(c.digits)
      invariant t0.digits == old(t0.digits) || fresh(t0.digits)
      invariant t1.digits == old(t1.digits) || fresh(t1.digits)
      invariant t2.digits == old(t2.digits) || fresh(t2.digits)
    {
      ValHead(x, j);
      assert db[j] == x[j];
      PowerDigit(threshold, db[j], a, c, m, mu, t0, t1, t2, Val(x[j + 1..]), goal, db);
      j := j + 1;
    }
    ValHead(x, top);
    NoDigits(x[top + 1..]);
    PowerTop(threshold, db[top], a, c, m, mu, t0, t1, t2, goal, db);
  }
}
