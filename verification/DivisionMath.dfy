/**
 The arithmetic of s_udiv: how good a quotient-digit guess from leading digits
 is, and when the guard of the guess fires.
 */
module DivisionMath {
  import opened Arithmetic
  import opened Digits
  import opened MpInt
  import opened Shifts

  /** A divisor with top digit v, normalised so that v is at least half the base; p is its top weight. */
  ghost predicate Normal(d: int, v: int, p: int) {
    p >= 1 && BASE <= 2 * v && v < BASE && Times(v, p) <= d < Times(v + 1, p)
  }

  /** The guess from the two leading digits w of the remainder is never too small. */
  lemma GuessNotSmall(r: nat, d: nat, v: nat, p: nat, w: nat, q: nat)
    requires Normal(d, v, p) && r < Times(w + 1, p) && Times(q, d) <= r
    ensures q <= w / v
  {
    hide Times;
    TimesMono(Times(v, p), d, q);
    TimesAssoc(q, v, p);
    TimesCancel(Times(q, v), w + 1, p);
    TimesSwap(q, v);
    DivBounds(w, v);
    if q > w / v {
      TimesMono(w / v + 1, q, v);
    }
  }

  /** ... and at most two too large, if it is a digit. */
  lemma GuessAtMostTwoLarge(r: nat, d: nat, v: nat, p: nat, w: nat, q: nat, g: nat)
    requires Normal(d, v, p) && Times(w, p) <= r < Times(q + 1, d) && g == w / v < BASE
    ensures g <= q + 2
  {
    hide Times;
    DivBounds(w, v);
    TimesMono(Times(v, g), w, p);
    TimesMono(d, Times(v + 1, p), q + 1);
    TimesSwap(q + 1, d);
    TimesAssoc(q + 1, v + 1, p);
    TimesCancel(Times(v, g), Times(q + 1, v + 1), p);
    TimesFoil(q + 1, v + 1, q + 1, 0, v, 1);
    TimesUnit(q + 1);
    TimesZero(v);
    TimesUnit(0);
    TimesSwap(v, g);
    if g >= q + 3 {
      TimesLeft(g, q + 1, g - (q + 1), v);
      TimesMono(2, g - (q + 1), v);
      TimesUnit(v);
    }
  }

  /** The digits from k up bound the number. */
  lemma LeadingBounds(s: seq<Digit>, k: nat)
    requires k <= |s|
    ensures Times(Val(s[k..]), Pow(k)) <= Val(s) < Times(Val(s[k..]) + 1, Pow(k))
  {
    hide Val, Pow, Times, Shl;
    ValSplit(s, k);
    ValBound(s[..k]);
    ShlPow(Val(s[k..]), k);
    TimesSwap(Pow(k), Val(s[k..]));
    TimesLeft(Val(s[k..]) + 1, Val(s[k..]), 1, Pow(k));
    TimesUnit(Pow(k));
  }

  function Top(s: seq<Digit>): (d: nat)
    requires |s| >= 1
  {
    s[|s| - 1] as int
  }

  /** The two leading digits as one number. */
  function Top2(s: seq<Digit>): (w: nat)
    requires |s| >= 2
  {
    s[|s| - 1] as int * BASE + s[|s| - 2] as int
  }

  lemma TopBounds(s: seq<Digit>)
    requires |s| >= 1
    ensures Times(Top(s), Pow(|s| - 1)) <= Val(s) < Times(Top(s) + 1, Pow(|s| - 1))
  {
    hide Pow, Times;
    var n := |s| - 1;
    assert s[n..] == [s[n]];
    ValOne(s[n]);
    LeadingBounds(s, n);
  }

  lemma Top2Bounds(s: seq<Digit>)
    requires |s| >= 2
    ensures Times(Top2(s), Pow(|s| - 2)) <= Val(s) < Times(Top2(s) + 1, Pow(|s| - 2))
  {
    hide Pow, Times;
    var n := |s| - 2;
    assert s[n..] == [s[n]] + [s[n + 1]];
    ConsVal(s[n], [s[n + 1]]);
    ValOne(s[n + 1]);
    LeadingBounds(s, n);
  }

  /** A divisor's digits with a normalised top digit. */
  ghost predicate NormalDigits(b: seq<Digit>) {
    |b| >= 1 && BASE <= 2 * Top(b)
  }

  lemma NormalDivisor(b: seq<Digit>)
    requires NormalDigits(b)
    ensures Normal(Val(b), Top(b), Pow(|b| - 1)) && Val(b) >= 1 && Pow(|b|) <= 2 * Val(b) && Val(b) < Pow(|b|)
  {
    hide Val, Pow, Times;
    TopBounds(b);
    ValBound(b);
    PowNext(|b| - 1);
    TimesMono(BASE, 2 * Top(b), Pow(|b| - 1));
    TimesBase(Pow(|b| - 1), Top(b));
    TimesPositive(Top(b), Pow(|b| - 1));
  }

  lemma TimesBase(p: int, v: int)
    ensures Times(BASE, p) == BASE * p && Times(2 * v, p) == 2 * Times(v, p)
  {}

  /** A partial remainder at least the divisor and below BASE times it. */
  ghost predicate Partial(s: seq<Digit>, b: seq<Digit>) {
    Canonical(s) && NormalDigits(b) && Val(b) <= Val(s) < BASE * Val(b)
  }

  lemma PartialLength(s: seq<Digit>, b: seq<Digit>)
    requires Partial(s, b)
    ensures |s| == |b| || |s| == |b| + 1
  {
    hide Val, Pow, Times;
    NormalDivisor(b);
    ValBound(s);
    PowNext(|b|);
    TopBounds(b);
    TimesMono(1, Top(b), Pow(|b| - 1));
    TimesUnit(Pow(|b| - 1));
    if |s| < |b| {
      PowMono(|s|, |b| - 1);
    } else if |s| > |b| + 1 {
      CanonicalBound(s);
      PowMono(|b| + 1, |s| - 1);
    }
  }

  /** Equal lengths: the digit is one, and the leading digits say so. */
  lemma SameLengthDigit(s: seq<Digit>, b: seq<Digit>)
    requires Partial(s, b) && |s| == |b|
    ensures Val(s) / Val(b) == 1 && Top(b) <= Top(s) && Top(s) / Top(b) == 1
    ensures Val(s) < Times(Top(b), Pow(|b|))
  {
    hide Val, Pow, Times;
    NormalDivisor(b);
    ValBound(s);
    TimesUnit(Val(b));
    DivUnique(Val(s), Val(b), 1, Val(s) - Val(b));
    TopBounds(s);
    TopBounds(b);
    TimesCancel(Top(b), Top(s) + 1, Pow(|b| - 1));
    TimesUnit(Top(b));
    DivUnique(Top(s), Top(b), 1, Top(s) - Top(b));
    TimesMono(1, Top(b), Pow(|b|));
    TimesUnit(Pow(|b|));
  }

  /** One digit longer: the top digit is at most the divisor's; equality is when the remainder reaches v * BASE^ub. */
  lemma LongerTop(s: seq<Digit>, b: seq<Digit>)
    requires Partial(s, b) && |s| == |b| + 1
    ensures Top(s) <= Top(b)
    ensures Top(s) == Top(b) <==> Val(s) >= Times(Top(b), Pow(|b|))
    ensures |b| == 1 ==> Top(s) < Top(b)
  {
    hide Val, Pow, Times;
    NormalDivisor(b);
    TopBounds(s);
    PowNext(|b| - 1);
    var v, p := Top(b), Pow(|b|);
    BaseTimes(v + 1, Pow(|b| - 1));
    TimesCancel(Top(s), v + 1, p);
    if Top(s) < v { TimesMono(Top(s) + 1, v, p); }
    if |b| == 1 { OneDigit(s, b); }
  }

  lemma BaseTimes(a: int, p: int)
    ensures BASE * Times(a, p) == Times(a, BASE * p)
  {}

  lemma OneDigit(s: seq<Digit>, b: seq<Digit>)
    requires |b| == 1 && |s| == 2 && Val(s) < BASE * Val(b)
    ensures Top(s) < Top(b)
  {
    assert b == [b[0]] && s == [s[0]] + [s[1]];
    ValOne(b[0]);
    ValOne(s[1]);
    ConsVal(s[0], [s[1]]);
  }

  lemma GuessIsDigit(s: seq<Digit>, v: nat)
    requires |s| >= 2 && Top(s) < v
    ensures 0 <= Top2(s) / v < BASE
  {
    hide Top2;
    Top2Below(s, v);
    DigitQuotient(Top2(s), v);
  }

  lemma Top2Below(s: seq<Digit>, v: nat)
    requires |s| >= 2 && Top(s) < v
    ensures Top2(s) < BASE * v
  {}

  lemma DigitQuotient(w: nat, v: nat)
    requires v >= 1 && w < BASE * v
    ensures 0 <= w / v < BASE
  {
    hide Times;
    DivBounds(w, v);
    TimesBase(v, v);
    TimesSwap(v, BASE);
    QuotientBelow(v, w / v, BASE);
  }

  /** A smaller top digit: the two-digit guess is a digit, at least the quotient and at most two above it. */
  lemma TwoDigitGuess(s: seq<Digit>, b: seq<Digit>, q: nat)
    requires Partial(s, b) && |s| == |b| + 1 && Top(s) < Top(b) && q == Val(s) / Val(b)
    ensures q <= Top2(s) / Top(b) < BASE && Top2(s) / Top(b) <= q + 2
  {
    hide Val, Pow, Times, Top2, Top, Normal;
    NormalDivisor(b);
    Top2Bounds(s);
    DivBounds(Val(s), Val(b));
    TimesSwap(q, Val(b));
    TimesSwap(q + 1, Val(b));
    var v, p, w := Top(b), Pow(|b| - 1), Top2(s);
    GuessNotSmall(Val(s), Val(b), v, p, w, q);
    GuessIsDigit(s, v);
    GuessAtMostTwoLarge(Val(s), Val(b), v, p, w, q, w / v);
  }

  /** An equal top digit: the digit is at least two, so a guess of one leaves a remainder that is still too large. */
  lemma EqualTopDigit(s: seq<Digit>, b: seq<Digit>)
    requires Partial(s, b) && |s| == |b| + 1 && Top(s) == Top(b)
    ensures 2 * Val(b) <= Val(s)
  {
    hide Val, Pow, Times;
    NormalDivisor(b);
    LongerTop(s, b);
    PowNext(|b| - 1);
    var v, p := Top(b), Pow(|b| - 1);
    BaseTimes(v, p);
    TimesLeft(v + 1, v, 1, p);
    TimesUnit(p);
    TimesMono(1, v, p);
  }
}
