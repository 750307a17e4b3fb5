/**
 Counting the factors of two in a number: s_dp2k and s_isp2.  Both walk the
 digits from the bottom and finish inside one digit.
 */
module TrailingZeros {
  import opened Arithmetic
  import opened Digits
  import opened PowersOfTwo
  import opened MpInt

  /** m is an odd number times the k-th power of two. */
  ghost predicate OddTimes(m: int, k: nat, odd: int) {
    m == Times(Exp2(k), odd) && odd % 2 == 1
  }

  /** Whatever stands above i zero digits is scaled by 32 * i bits. */
  lemma SkipZeroDigit(m: int, i: nat, rest: int)
    requires m == Times(Exp2(32 * i), BASE * rest)
    ensures m == Times(Exp2(32 * (i + 1)), rest)
  {
    hide Times, Exp2;
    Exp2Digit();
    Exp2Add(32 * i, 32);
    assert 32 * i + 32 == 32 * (i + 1);
    TimesBaseIs(rest);
    TimesAssoc(Exp2(32 * i), BASE, rest);
  }

  lemma TimesBaseIs(r: int)
    ensures Times(BASE, r) == BASE * r
  {}

  /** Position of the lowest nonzero digit. */
  method LowestDigit(z: Mpz) returns (i: nat)
    requires z.Valid() && z.Mag() > 0
    ensures i < z.used && z.digits[i] != 0
    ensures z.Mag() == Times(Exp2(32 * i), Val(z.digits[..z.used][i..]))
  {
    hide Val, Times, Exp2;
    ghost var x := z.digits[..z.used];
    i := 0;
    assert x[0..] == x;
    Exp2None(Val(x));
    BottomDigitOf(x, 0);
    while z.digits[i] == 0
      invariant i < z.used && Val(x[i..]) > 0
      invariant Val(x) == Times(Exp2(32 * i), Val(x[i..]))
      decreases z.used - i
    {
      ValHead(x, i);
      SkipZeroDigit(Val(x), i, Val(x[i + 1..]));
      BottomDigitOf(x, i + 1);
      i := i + 1;
    }
  }

  lemma Exp2None(m: int)
    ensures Times(Exp2(0), m) == m
  {}

  lemma BottomDigitOf(x: seq<Digit>, i: nat)
    requires i <= |x| && Val(x[i..]) > 0
    ensures i < |x|
  {}

  /** d shifted up by e bits, below rest digits; every even d gives up one more bit. */
  ghost predicate BitsOff(w: int, e: nat, d: int, rest: int) {
    e < 32 && 1 <= d && w == Times(Exp2(e), d + Times(Exp2(32 - e), rest)) && Times(Exp2(e), d) < BASE
  }

  lemma BitOff(w: int, e: nat, d: int, rest: int)
    requires BitsOff(w, e, d, rest) && d % 2 == 0
    ensures e + 1 < 32 && BitsOff(w, e + 1, d / 2, rest)
  {
    hide Times;
    var h := d / 2;
    DoubleBits(e, d, h);
    DoubleBits(e, d + Times(Exp2(32 - e), rest), h + Times(Exp2(31 - e), rest)) by {
      TwoTimes(Exp2(31 - e), rest);
    }
    if e == 31 {
      Exp2Digit();
      Exp2Step(31);
      TimesMono(1, h, Exp2(32));
      TimesUnit(Exp2(32));
      assert false;
    }
  }

  lemma TwoTimes(a: int, b: int)
    ensures Times(2 * a, b) == 2 * Times(a, b)
  {}

  lemma Exp2Step(e: nat)
    ensures Exp2(e + 1) == 2 * Exp2(e)
  {}

  lemma DoubleBits(e: nat, w: int, h: int)
    requires w == 2 * h
    ensures Times(Exp2(e), w) == Times(Exp2(e + 1), h)
  {
    hide Times;
    Exp2Step(e);
    DoubleBoth(Exp2(e), w, h);
  }

  lemma DoubleBoth(p: int, w: int, h: int)
    requires w == 2 * h
    ensures Times(p, w) == Times(2 * p, h)
  {}

  lemma BitsOdd(w: int, e: nat, d: int, rest: int)
    requires BitsOff(w, e, d, rest) && d % 2 == 1
    ensures OddTimes(w, e, d + Times(Exp2(32 - e), rest))
  {
    hide Times;
    Exp2Step(31 - e);
    TwoTimes(Exp2(31 - e), rest);
  }

  lemma BitsStart(d: Digit, rest: int)
    requires d != 0
    ensures BitsOff(d as int + BASE * rest, 0, d as int, rest)
  {
    Exp2Digit();
  }

  /** k is the number of factors of two in m. */
  ghost predicate TwoFactors(m: nat, k: nat) {
    m % Exp2(k) == 0 && (m / Exp2(k)) % 2 == 1
  }

  lemma OddIsTwoFactors(m: nat, k: nat, odd: int)
    requires OddTimes(m, k, odd)
    ensures TwoFactors(m, k)
  {
    hide Times, Exp2;
    DivUnique(m, Exp2(k), odd, 0);
  }

  /** Trailing zero bits of a digit with rest above it. */
  method LowestBit(digit: Digit, ghost rest: nat) returns (e: nat)
    requires digit != 0
    ensures TwoFactors(digit as int + BASE * rest, e)
  {
    hide Times, Exp2, BitsOff, OddTimes, TwoFactors;
    var d := digit as int;
    e := 0;
    BitsStart(digit, rest);
    while d % 2 == 0
      invariant d >= 1 && e < 32 && BitsOff(digit as int + BASE * rest, e, d, rest)
      decreases d
    {
      BitOff(digit as int + BASE * rest, e, d, rest);
      d, e := d / 2, e + 1;
    }
    BitsOdd(digit as int + BASE * rest, e, d, rest);
    OddIsTwoFactors(digit as int + BASE * rest, e, d + Times(Exp2(32 - e), rest));
  }

  /** Factors of two below and above add up. */
  lemma FactorsScaled(m: nat, k: nat, w: nat, e: nat)
    requires m == Times(Exp2(k), w) && TwoFactors(w, e)
    ensures TwoFactors(m, k + e)
  {
    hide Times, Exp2;
    var odd := w / Exp2(e);
    DivIs(w, Exp2(e));
    Exp2Add(k, e);
    TimesAssoc(Exp2(k), Exp2(e), odd);
    OddIsTwoFactors(m, k + e, odd);
  }

  /** s_dp2k: the number of factors of two in z, and 1 for zero. */
  method Dp2k(z: Mpz) returns (k: nat)
    requires z.Valid()
    ensures if z.Mag() == 0 then k == 1 else TwoFactors(z.Mag(), k)
  {
    hide Val, Times, Exp2, TwoFactors;
    ZeroIsOneDigit(z);
    if z.used == 1 && z.digits[0] == 0 {
      k := 1;
    } else {
      var i := LowestDigit(z);
      ghost var x := z.digits[..z.used];
      ValHead(x, i);
      var e := LowestBit(z.digits[i], Val(x[i + 1..]));
      FactorsScaled(Val(x), 32 * i, Val(x[i..]), e);
      k := 32 * i + e;
    }
  }

  ghost predicate PowerOfTwo(m: int) {
    exists e: nat :: m == Exp2(e)
  }

  /** A factor of 2^k comes off a power of two. */
  lemma {:induction false} PowerCancel(k: nat, w: int, e: nat)
    requires Times(Exp2(k), w) == Exp2(e) && w >= 1
    ensures e >= k && w == Exp2(e - k)
  {
    if k == 0 {
      Exp2None(w);
    } else {
      TwoTimes(Exp2(k - 1), w);
      TimesPositive(Exp2(k - 1), w);
      PowerCancel(k - 1, w, e - 1);
    }
  }

  /** A nonzero digit below something is not what a power of two looks like. */
  lemma MixedNotPower(m: int, i: nat, d: Digit, rest: int)
    requires m == Times(Exp2(32 * i), d as int + BASE * rest) && d != 0 && rest >= 1
    ensures !PowerOfTwo(m)
  {
    hide Times, Exp2;
    var w := d as int + BASE * rest;
    forall e: nat ensures m != Exp2(e) {
      if m == Exp2(e) {
        PowerCancel(32 * i, w, e);
        LargePower(e - 32 * i, w);
        assert false;
      }
    }
  }

  lemma LargePower(e: nat, w: int)
    requires w == Exp2(e) && w >= BASE
    ensures w % BASE == 0
  {
    hide Times, Exp2;
    Exp2Digit();
    if e < 32 {
      Exp2Above(e, 32);
    } else {
      Exp2Add(32, e - 32);
      TimesBaseIs(Exp2(e - 32));
    }
  }

  lemma OddNotPower(m: int, k: nat, odd: int)
    requires OddTimes(m, k, odd) && odd > 1
    ensures !PowerOfTwo(m)
  {
    hide Times;
    forall e: nat ensures m != Exp2(e) {
      if m == Exp2(e) {
        PowerCancel(k, odd, e);
        assert false;
      }
    }
  }

  /** s_isp2: the exponent of a power of two, -1 for anything else; zero gives 0. */
  method IsP2(z: Mpz) returns (k: int)
    requires z.Valid()
    ensures z.Mag() > 0 && k >= 0 ==> z.Mag() == Exp2(k)
    ensures z.Mag() > 0 && k < 0 ==> !PowerOfTwo(z.Mag())
    ensures z.Mag() == 0 ==> k == 0
  {
    hide Val, Times, Exp2, OddTimes, PowerOfTwo;
    ghost var x := z.digits[..z.used];
    ZeroIsOneDigit(z);
    Exp2None(Val(x));
    assert x[0..] == x;
    var i := 0;
    while i < z.used - 1
      invariant i < z.used
      invariant Val(x) == Times(Exp2(32 * i), Val(x[i..]))
    {
      ValHead(x, i);
      if z.digits[i] != 0 {
        AboveIsSome(x, i + 1);
        MixedNotPower(Val(x), i, x[i], Val(x[i + 1..]));
        return -1;
      }
      SkipZeroDigit(Val(x), i, Val(x[i + 1..]));
      i := i + 1;
    }
    ValHead(x, i);
    NoDigits(x[i + 1..]);
    k := BitOfDigit(z.digits[i], Val(x), 32 * i);
  }

  lemma AboveIsSome(x: seq<Digit>, i: nat)
    requires Canonical(x) && |x| > 1 && i < |x|
    ensures Val(x[i..]) >= 1
  {
    hide Val, Pow;
    TopIsPositive(x[i..]);
  }

  method BitOfDigit(digit: Digit, ghost m: int, base: nat) returns (k: int)
    requires m == Times(Exp2(base), digit as int)
    ensures digit == 0 ==> k == base
    ensures digit != 0 && k >= 0 ==> m == Exp2(k)
    ensures digit != 0 && k < 0 ==> !PowerOfTwo(m)
  {
    hide Times, Exp2, PowerOfTwo;
    var d: int := digit as int;
    k := base;
    while d > 1
      invariant d >= 0 && k >= 0 && m == Times(Exp2(k), d)
      invariant (digit == 0 ==> d == 0 && k == base) && (digit != 0 ==> d >= 1)
    {
      if d % 2 == 1 {
        OddNotPower(m, k, d);
        return -1;
      }
      DoubleBits(k, d, d / 2);
      d, k := d / 2, k + 1;
    }
    TimesUnit(Exp2(k));
  }
}
