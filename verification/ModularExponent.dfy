/** mp_int_exptmod: the reduction constant (s_2expt, s_brmu) and the modular power it is for. */
module ModularExponent {
  import opened Arithmetic
  import opened Digits
  import opened PowersOfTwo
  import opened Karatsuba
  import opened MpInt
  import opened Shifts
  import opened Barrett
  import opened DivisionLedger
  import opened QuotientList
  import opened Division
  import opened IntegerDivision
  import opened ModularPower

  lemma SingleBit(zeros: seq<Digit>, rest: nat, d: Digit)
    requires zeros == Zeros(|zeros|) && d as int == Exp2(rest)
    ensures Val(zeros + [d]) == Exp2(32 * |zeros| + rest)
  {
    hide Val, Exp2, Shl, Pow, Times;
    ValZeros(zeros);
    ValAppend(zeros, d);
    ShlPow(Exp2(rest), |zeros|);
    Exp2Digits(|zeros|);
    Exp2Add(32 * |zeros|, rest);
  }

  /** s_2expt: the number becomes 2^k. */
  method TwoExpt(z: Mpz, k: nat)
    requires z.Valid()
    modifies z, z.digits
    ensures z.Valid() && z.Mag() == Exp2(k) && z.neg == old(z.neg)
    ensures z.digits == old(z.digits) || fresh(z.digits)
  {
    hide Val, Exp2;
    var ndig, rest := (k + DIGIT_BITS) / DIGIT_BITS, k % DIGIT_BITS;
    assert k == 32 * (ndig - 1) + rest && rest < 32;
    z.Pad(ndig);
    ZeroDigits(z.digits, 0, ndig);
    Exp2Digit();
    Exp2Above(rest, 32);
    z.digits[ndig - 1] := Exp2(rest) as Digit;
    z.used := ndig;
    assert z.digits[..ndig - 1] == Zeros(ndig - 1);
    assert z.digits[..ndig] == z.digits[..ndig - 1] + [z.digits[ndig - 1]];
    SingleBit(z.digits[..ndig - 1], rest, z.digits[ndig - 1]);
  }

  /** The reduction constant s_brmu computes for a modulus with digits b. */
  ghost function CodeConstant(b: seq<Digit>): (mu: nat)
    requires |b| >= 1 && b[|b| - 1] != 0
  {
    CodeQuotient(Pow(2 * |b|), b)
  }

  /** The division that gives the reduction constant of the modulus keeps its guard quiet. */
  ghost predicate ConstantExact(b: seq<Digit>)
    requires |b| >= 1 && b[|b| - 1] != 0
  {
    GuardQuiet(Pow(2 * |b|), b)
  }

  /** s_brmu: exact if and only if the division's guard stays quiet. */
  method BrMu(z: Mpz, m: Mpz)
    requires z.Valid() && m.Valid() && Separate(z, m) && m.Mag() > 0 && !z.neg
    modifies z, z.digits
    ensures z.Valid() && (z.digits == old(z.digits) || fresh(z.digits)) && m.digits[m.used - 1] != 0
    ensures z.Mag() == CodeConstant(m.digits[..m.used])
    ensures z.Mag() == Pow(2 * m.used) / m.Mag() <==> ConstantExact(m.digits[..m.used])
  {
    hide Val, Exp2, Pow, GuardQuiet, CodeQuotient;
    var um := 2 * m.used;
    z.Pad(um);
    TwoExpt(z, DIGIT_BITS * um);
    Exp2Digits(um);
    TopDigit(m);
    DivNat(Pow(um), m.Mag());
    var res := Div(z, m, z, null);
  }

  /** What mp_int_mod leaves of the base, without its sign: for a positive modulus the remainder. */
  function ReducedBase(a: int, m: int): (x: nat)
    requires m != 0
  {
    var r := Remainder(a, m);
    Abs(if r < 0 then r + m else r)
  }

  lemma ReducedBaseIs(a: int, m: int)
    requires m > 0
    ensures ReducedBase(a, m) == a % m < m
  {
    hide Remainder;
    RemainderMod(a, m);
    DivIs(a, m);
  }

  /** What mp_int_exptmod gives, from the values and the digits b of the modulus. */
  ghost function CodePower(a: int, e: nat, m: int, b: seq<Digit>): (p: nat)
    requires |b| >= 1 && b[|b| - 1] != 0 && m != 0
  {
    Ladder(1, ReducedBase(a, m), e, m, CodeConstant(b), |b|)
  }

  /** With a positive modulus whose constant comes out exact: the power modulo m, 1 for a zero exponent. */
  lemma CodePowerRight(a: int, e: nat, m: int, b: seq<Digit>)
    requires |b| >= 1 && b[|b| - 1] != 0 && m == Val(b) && ConstantExact(b)
    ensures m > 0 && CodePower(a, e, m, b) == if e == 0 then 1 else Power(a % m, e) % m
  {
    hide Val, Pow, GuardQuiet, Ladder, Power, ReducedBase;
    TopIsPositive(b);
    ReducedBaseIs(a, m);
    ValBound(b);
    if |b| > 1 { CanonicalBound(b); } else { PowZero(); }
    var base, mu := ReducedBase(a, m), CodeConstant(b);
    assert ExactConstant(m, mu, |b|);
    if e == 0 {
      LadderEnd(1, base, m, mu, |b|);
    } else {
      LadderPower(1, base, e, m, mu, |b|);
      TimesUnit(Power(base, e));
    }
  }

  lemma PowZero()
    ensures Pow(0) == 1
  {}

  /** With a negative modulus no power is reduced: every result is at least twice its magnitude. */
  lemma {:induction false} NegativeModulus(c: nat, a: nat, e: nat, m: int, mu: nat, k: nat)
    requires k >= 1 && m < 0 && e >= 1
    ensures Ladder(c, a, e, m, mu, k) >= 2 * Abs(m)
    decreases e
  {
    hide Times, Pow, Guess, Pinned;
    TimesSign(c, a);
    TimesSign(a, a);
    var c' := if e % 2 == 1 then Reduced(Times(c, a), m, mu, k) else c;
    var a' := Reduced(Times(a, a), m, mu, k);
    if e == 1 {
      LadderEnd(c', a', m, mu, k);
    } else {
      NegativeModulus(c', a', e / 2, m, mu, k);
    }
  }

  /**
   A modulus for which the power is wrong: for m = 2^64 - 2^32 + 1 the constant is not
   exact, and m - 1 to the first power gives m - 2.
   */
  lemma WrongPower()
    ensures var b: seq<Digit> := [1, 0xFFFF_FFFF]; var m := Val(b);
      m > 1 && !ConstantExact(b) && CodePower(m - 1, 1, m, b) == m - 2
  {
    hide GuardQuiet, ListedDigits, Ladder, Reduced;
    var b: seq<Digit> := [1, 0xFFFF_FFFF];
    var m, mu := BASE * BASE - BASE + 1, BASE * BASE * BASE + 2 * BASE - 2;
    TwoDigits(1, 0xFFFF_FFFF);
    NoisyModulus();
    NoisyValue();
    assert CodeConstant(b) == mu;
    ReducedBaseIs(m - 1, m);
    TimesUnit(m - 1);
    WrongReduction();
    TimesSign(m - 1, m - 1);
    LadderBit(1, m - 1, 1, m, mu, 2);
    LadderEnd(m - 2, m - 1, m, mu, 2);
  }

  lemma NoisyValue()
    ensures ListVal([0, 1, 0, 1, 0xFFFF_FFFE]) == BASE * BASE * BASE + 2 * BASE - 2
  {
    hide ListVal;
    var l1, l2, l3, l4: seq<Digit> := [0], [0, 1], [0, 1, 0], [0, 1, 0, 1];
    EmptyShown([]);
    ListAppend([], 0);
    ListAppend(l1, 1);
    ListAppend(l2, 0);
    ListAppend(l3, 1);
    ListAppend(l4, 0xFFFF_FFFE);
    assert [] + [0] == l1 && l1 + [1] == l2 && l2 + [0] == l3 && l3 + [1] == l4;
    assert l4 + [0xFFFF_FFFE] == [0, 1, 0, 1, 0xFFFF_FFFE];
  }

  /** The reduction that goes wrong: the guess is BASE - 1 where the quotient is 0. */
  lemma WrongReduction()
    ensures var m, mu := BASE * BASE - BASE + 1, BASE * BASE * BASE + 2 * BASE - 2;
      Guess(m - 1, mu, Pow(1), Pow(3)) == BASE - 1 && Reduced(m - 1, m, mu, 2) == m - 2
  {
    hide DigitCount;
    Powers();
    var m, mu := BASE * BASE - BASE + 1, BASE * BASE * BASE + 2 * BASE - 2;
    assert Guess(m - 1, mu, Pow(1), Pow(3)) == BASE - 1;
    var d := 2 * m - 2 - BASE * BASE * BASE + m;
    assert d == (m - 1) % Pow(3) - Times(BASE - 1, m) % Pow(3);
    CountIs(0 - d, 3);
    assert Pinned(d) == 3 * m - 2;
  }

  /** The base reduced and the constant computed, in fresh numbers. */
  method Operands(a: Mpz, m: Mpz) returns (base: Mpz, mu: Mpz)
    requires a.Valid() && m.Valid() && Apart2(a, m) && m.Mag() > 0
    ensures fresh(base) && fresh(base.digits) && fresh(mu) && fresh(mu.digits) && Separate(base, mu)
    ensures base.Valid() && base.Mag() == ReducedBase(a.Value(), m.Value())
    ensures mu.Valid() && m.digits[m.used - 1] != 0 && mu.Mag() == CodeConstant(m.digits[..m.used])
  {
    hide Val, Pow, GuardQuiet, Remainder, CodeConstant;
    base := new Mpz(2 * m.used);
    mu := new Mpz(2 * m.used);
    var res := Mod(a, m, base);
    BrMu(mu, m);
  }

  /** The power in c, by way of a fresh number when c is the exponent or the modulus. */
  method PowerTo(threshold: nat, base: Mpz, b: Mpz, m: Mpz, mu: Mpz, c: Mpz)
    requires threshold == 0 || threshold >= 4
    requires base.Valid() && b.Valid() && m.Valid() && mu.Valid() && c.Valid()
    requires Apart2(b, c) && Apart2(m, c) && Separate(base, c) && Separate(mu, c)
    requires Separate(base, b) && Separate(base, m) && Separate(base, mu) && Separate(m, mu)
    modifies base, base.digits, c, c.digits
    ensures c.Valid() && (c.digits == old(c.digits) || fresh(c.digits))
    ensures c.Value() == Ladder(1, old(base.Mag()), old(b.Mag()), old(m.Value()), old(mu.Mag()), old(m.used))
  {
    hide Val, Ladder;
    var s := c;
    if c == b || c == m { s := new Mpz(2 * m.used); }
    Embar(threshold, base, b, m, mu, s);
    Copy(s, c);
  }

  /**
   mp_int_exptmod: the power of the reduced base, for a positive modulus whose
   reduction constant comes out exact; what the ladder makes of it for any other.
   */
  method ExptMod(threshold: nat, a: Mpz, b: Mpz, m: Mpz, c: Mpz) returns (res: MpResult)
    requires threshold == 0 || threshold >= 4
    requires a.Valid() && b.Valid() && m.Valid() && c.Valid()
    requires Apart2(a, m) && Apart2(a, c) && Apart2(b, c) && Apart2(m, c)
    modifies c, c.digits
    ensures c.Valid() && (c.digits == old(c.digits) || fresh(c.digits))
    ensures res == if old(m.Value()) == 0 then Undefined else if old(b.Value()) < 0 then OutOfRange else Done
    ensures res != Done ==> Kept(c)
    ensures res == Done ==>
      && old(m.digits[m.used - 1]) != 0
      && c.Value() == CodePower(old(a.Value()), old(b.Value()), old(m.Value()), old(m.digits[..m.used]))
    ensures res == Done && old(m.Value()) > 0 && ConstantExact(old(m.digits[..m.used])) ==>
      c.Value() == if old(b.Value()) == 0 then 1
                   else Power(old(a.Value()) % old(m.Value()), old(b.Value())) % old(m.Value())
  {
    hide Val, Pow, Power, ConstantExact, CodeConstant, Ladder, ReducedBase;
    var cm := CompareZero(m);
    if cm == 0 { return Undefined; }
    var cb := CompareZero(b);
    if cb < 0 { return OutOfRange; }
    ghost var x, e, y, md := a.Value(), b.Value(), m.Value(), m.digits[..m.used];
    var base, mu := Operands(a, m);
    PowerTo(threshold, base, b, m, mu, c);
    if y > 0 && ConstantExact(md) { CodePowerRight(x, e, y, md); }
    res := Done;
  }
}
