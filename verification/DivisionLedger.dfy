/**
 Bookkeeping of s_udiv: the list of quotient digits, most significant first,
 with its skip counter, against the quotient that has really been taken off.
 */
module DivisionLedger {
  import opened Arithmetic
  import opened Digits
  import opened PowersOfTwo
  import opened Shifts
  import opened DivisionMath

  /** The number a list of digits denotes, most significant first. */
  function ListVal(l: seq<Digit>): (v: nat) {
    if l == [] then 0 else BASE * ListVal(l[..|l| - 1]) + l[|l| - 1] as int
  }

  lemma ListAppend(l: seq<Digit>, d: Digit)
    ensures ListVal(l + [d]) == BASE * ListVal(l) + d as int
  {
    assert (l + [d])[..|l|] == l;
  }

  /** Reversing the list gives the little-endian digits of the same number. */
  lemma {:induction false} ReversedVal(l: seq<Digit>, r: seq<Digit>)
    requires |r| == |l| && forall k :: 0 <= k < |l| ==> r[k] == l[|l| - 1 - k]
    ensures Val(r) == ListVal(l)
  {
    if l != [] {
      ReversedVal(l[..|l| - 1], r[1..]);
    }
  }

  /** A division: dividend n of ua digits, normalised divisor d of ub digits with top digit v. */
  datatype Task = Task(n: nat, d: nat, v: nat, ub: nat, ua: nat) {
    ghost predicate Valid() {
      ub >= 1 && Normal(d, v, Pow(ub - 1)) && 1 <= d < Pow(ub)
    }

    /** The window when it first reaches digit j. */
    ghost function PartialRemainder(j: nat): (r: int)
      requires Valid()
    {
      (n / Pow(j)) % (BASE * d)
    }

    /** At digit j the window is one digit longer than the divisor and shares its top digit. */
    ghost predicate Fires(j: nat)
      requires Valid()
    {
      PartialRemainder(j) >= Times(v, Pow(ub))
    }

    ghost predicate Quiet(lo: nat)
      requires Valid()
    {
      forall j: nat :: lo <= j < ua ==> !Fires(j)
    }
  }

  lemma QuietStep(t: Task, j: nat)
    requires t.Valid() && j < t.ua
    ensures t.Quiet(j) <==> t.Quiet(j + 1) && !t.Fires(j)
  {}

  /** What the digit list stands for, one digit short while a position is open. */
  function Shown(l: seq<Digit>, skip: nat): (x: nat) {
    if skip == 0 then ListVal(l) else BASE * ListVal(l)
  }

  /** No digit has been listed for the current position yet. */
  predicate Open(l: seq<Digit>, skip: nat) {
    skip > 0 || l == []
  }

  /** Window value r at digit pos, quotient q taken off so far. */
  ghost predicate Ledger(t: Task, pos: nat, r: nat, q: nat, l: seq<Digit>, skip: nat)
    requires t.Valid()
  {
    && pos < t.ua && q <= Shown(l, skip)
    && (skip == 0 && l != [] ==> ListVal(l) > 0)
    && (Open(l, skip) ==> r == t.PartialRemainder(pos) && (Shown(l, skip) == q <==> t.Quiet(pos + 1)))
    && (!Open(l, skip) ==> (Shown(l, skip) == q && r < t.d <==> t.Quiet(pos)))
    && (Shown(l, skip) == q ==> |l| <= t.ua - pos - if Open(l, skip) then 1 else 0)
  }

  /** A window below the divisor does not fire. */
  lemma SmallIsQuiet(t: Task, r: nat)
    requires t.Valid() && r < t.d
    ensures r < Times(t.v, Pow(t.ub))
  {
    hide Pow, Times;
    TimesMono(1, t.v, Pow(t.ub));
    TimesUnit(Pow(t.ub));
  }

  /** Before moving on, a window below the divisor settles the current position. */
  lemma Settled(t: Task, pos: nat, r: nat, q: nat, l: seq<Digit>, skip: nat)
    requires t.Valid() && Ledger(t, pos, r, q, l, skip) && r < t.d
    ensures Shown(l, skip) == q <==> t.Quiet(pos)
  {
    hide Pow, Times;
    QuietStep(t, pos);
    if Open(l, skip) { SmallIsQuiet(t, r); }
  }

  /** The list after one more digit position goes by without a digit. */
  function Skipped(l: seq<Digit>, skip: nat): (l': seq<Digit>) {
    if skip + 1 > 1 then l + [0] else l
  }

  lemma SkippedShown(l: seq<Digit>, skip: nat)
    ensures Shown(Skipped(l, skip), skip + 1) == BASE * Shown(l, skip)
    ensures ListVal(Skipped(l, skip)) == Shown(l, skip)
    ensures |Skipped(l, skip)| <= |l| + (if skip > 0 then 1 else 0)
  {
    ListAppend(l, 0);
  }

  /** Moving the window down one digit. */
  lemma LedgerDown(t: Task, pos: nat, r: nat, q: nat, l: seq<Digit>, skip: nat, r': nat)
    requires t.Valid() && Ledger(t, pos, r, q, l, skip) && r < t.d && pos >= 1
    requires r' == t.PartialRemainder(pos - 1)
    ensures Ledger(t, pos - 1, r', BASE * q, Skipped(l, skip), skip + 1)
  {
    hide ListVal;
    Settled(t, pos, r, q, l, skip);
    SkippedShown(l, skip);
  }

  /** Listing a digit g >= 1 for the current position. */
  lemma LedgerPush(t: Task, pos: nat, r: nat, q: nat, l: seq<Digit>, skip: nat, g: Digit, r': nat)
    requires t.Valid() && Ledger(t, pos, r, q, l, skip) && t.d <= r && g >= 1
    requires r' < t.d <==> r < Times(t.v, Pow(t.ub))
    ensures Ledger(t, pos, r', q + g as int, l + [g], 0)
  {
    hide ListVal, Pow, Times;
    ListAppend(l, g);
    QuietStep(t, pos);
    EmptyShown(l);
  }

  lemma EmptyShown(l: seq<Digit>)
    ensures l == [] ==> ListVal(l) == 0
  {}

  /** Digits a: those below pos are untouched, those from pos on are the window; q times the divisor is gone. */
  ghost predicate Balance(t: Task, a: seq<Digit>, pos: nat, q: nat) {
    && |a| == t.ua && pos < t.ua
    && t.n == Val(a[..pos]) + Shl(Val(a[pos..]) + Times(t.d, q), pos)
    && Val(a[pos..]) < BASE * t.d
  }

  lemma BalanceStart(t: Task, a: seq<Digit>)
    requires t.Valid() && t.ua == |a| >= 1 && t.n == Val(a)
    ensures Balance(t, a, t.ua - 1, 0) && Val(a[t.ua - 1..]) == t.PartialRemainder(t.ua - 1)
  {
    hide Val, Shl, Times, Pow;
    var n := t.ua - 1;
    ValSplit(a, n);
    assert a[n..] == [a[n]];
    ValOne(a[n]);
    TimesZero(t.d);
    WindowIsRemainder(t, a, n, 0);
  }

  /** The window at a position with BASE * q taken off above is the partial remainder there. */
  lemma WindowIsRemainder(t: Task, a: seq<Digit>, pos: nat, q: nat)
    requires t.Valid() && Balance(t, a, pos, BASE * q)
    ensures Val(a[pos..]) == t.PartialRemainder(pos)
  {
    hide Val, Shl, Times, Pow;
    var r, p := Val(a[pos..]), Pow(pos);
    ShlPow(r + Times(t.d, BASE * q), pos);
    ValBound(a[..pos]);
    DivUnique(t.n, p, r + Times(t.d, BASE * q), Val(a[..pos]));
    BaseShift(t.d, q);
    DivUnique(r + Times(t.d, BASE * q), BASE * t.d, q, r);
  }

  lemma BaseShift(d: int, q: int)
    ensures Times(d, BASE * q) == Times(BASE * d, q) == BASE * Times(d, q)
  {}

  lemma BalanceDown(t: Task, a: seq<Digit>, pos: nat, q: nat)
    requires t.Valid() && Balance(t, a, pos, q) && pos >= 1 && Val(a[pos..]) < t.d
    ensures Balance(t, a, pos - 1, BASE * q) && Val(a[pos - 1..]) == t.PartialRemainder(pos - 1)
  {
    hide Val, Shl, Times, Pow;
    var j, c, r := pos - 1, a[pos - 1] as int, Val(a[pos..]);
    assert a[j..] == [a[j]] + a[pos..];
    ConsVal(a[j], a[pos..]);
    ValStep(a, j);
    BaseShift(t.d, q);
    ShlNext(r + Times(t.d, q), j);
    ShlSum(c + BASE * (r + Times(t.d, q)), c, BASE * (r + Times(t.d, q)), j);
    WindowIsRemainder(t, a, j, q);
  }

  lemma BalancePush(t: Task, a: seq<Digit>, a': seq<Digit>, pos: nat, q: nat, g: nat)
    requires t.Valid() && Balance(t, a, pos, q) && |a'| == |a| && a'[..pos] == a[..pos]
    requires Val(a'[pos..]) == Val(a[pos..]) - Times(g, t.d)
    ensures Balance(t, a', pos, q + g)
  {
    hide Val, Shl, Times, Pow;
    TimesSum(t.d, q + g, q, g);
    TimesSwap(g, t.d);
    TimesSign(g, t.d);
  }

  /** At digit zero a window below the divisor is the remainder and q the quotient. */
  lemma BalanceEnd(t: Task, a: seq<Digit>, q: nat)
    requires t.Valid() && Balance(t, a, 0, q) && Val(a[0..]) < t.d
    ensures Val(a) == t.n % t.d && q == t.n / t.d
  {
    hide Val, Times, Pow;
    assert a[0..] == a;
    NoDigits(a[..0]);
    DivUnique(t.n, t.d, q, Val(a));
  }

  /** How many bits s_norm shifts a divisor with top digit d. */
  function NormShift(d: nat): (k: nat)
    requires 1 <= d < BASE
    decreases BASE - d
  {
    if BASE <= 2 * d then 0 else 1 + NormShift(2 * d)
  }

  lemma {:induction false} NormShiftTop(d: nat)
    requires 1 <= d < BASE
    ensures Times(d, Exp2(NormShift(d))) < BASE <= 2 * Times(d, Exp2(NormShift(d)))
    decreases BASE - d
  {
    var k := NormShift(d);
    if k == 0 {
      TimesUnit(d);
    } else {
      NormShiftTop(2 * d);
      TwiceTimes(d, Exp2(k - 1));
    }
  }

  lemma TwiceTimes(d: int, e: int)
    ensures Times(2 * d, e) == Times(d, 2 * e)
  {}

  /** The shift is less than a digit and leaves room for the bits below the top digit. */
  lemma NormShiftRoom(d: nat)
    requires 1 <= d < BASE
    ensures NormShift(d) < DIGIT_BITS && Times(d + 1, Exp2(NormShift(d))) <= BASE
  {
    hide Times, Exp2;
    var k := NormShift(d);
    NormShiftTop(d);
    Exp2Digit();
    TimesMono(1, d, Exp2(k));
    TimesUnit(Exp2(k));
    if k >= DIGIT_BITS { Exp2Mono(DIGIT_BITS, k); }
    Exp2Add(DIGIT_BITS - k, k);
    TimesCancel(d, Exp2(DIGIT_BITS - k), Exp2(k));
    TimesMono(d + 1, Exp2(DIGIT_BITS - k), Exp2(k));
  }

  /** The division a caller asks for, with both operands normalised; ua plays no part in it. */
  ghost function TaskFor(a: nat, b: seq<Digit>): (t: Task)
    requires |b| >= 1 && b[|b| - 1] != 0
  {
    var e := Exp2(NormShift(Top(b)));
    TimesSign(a, e);
    TimesSign(Val(b), e);
    var d := Times(Val(b), e);
    DivNat(d, Pow(|b| - 1));
    Task(Times(a, e), d, d / Pow(|b| - 1), |b|, 0)
  }

  /** The condition for a right quotient, in terms of the operands alone. */
  ghost predicate GuardQuiet(a: nat, b: seq<Digit>)
    requires |b| >= 1 && b[|b| - 1] != 0
  {
    TaskForValid(a, b);
    forall j: nat :: !TaskFor(a, b).Fires(j)
  }

  lemma SwapInner(d: int, p: int, e: int)
    ensures Times(Times(d, p), e) == Times(Times(d, e), p)
  {}

  lemma TaskForValid(a: nat, b: seq<Digit>)
    requires |b| >= 1 && b[|b| - 1] != 0
    ensures TaskFor(a, b).Valid()
  {
    hide Val, Pow, Times, Exp2, NormShift;
    var t, c, e, p := TaskFor(a, b), Top(b), Exp2(NormShift(Top(b))), Pow(|b| - 1);
    NormShiftTop(c);
    NormShiftRoom(c);
    TopBounds(b);
    TimesMono(Times(c, p), Val(b), e);
    TimesMono(Val(b), Times(c + 1, p), e);
    SwapInner(c, p, e);
    SwapInner(c + 1, p, e);
    TimesMono(Times(c + 1, e), BASE, p);
    TimesBase(p, p);
    PowNext(|b| - 1);
    DivBounds(t.d, p);
    TimesSwap(p, t.v);
    TimesSwap(p, t.v + 1);
    TimesCancel(Times(c, e), t.v + 1, p);
    TimesCancel(t.v, BASE, p);
    TimesPositive(t.v, p);
  }

  /** Above the dividend's digits the window is empty. */
  lemma FiresBelow(t: Task, j: nat, ua: nat)
    requires t.Valid() && t.n < Pow(ua) && ua <= j
    ensures !t.Fires(j)
  {
    hide Times, Pow;
    PowMono(ua, j);
    TimesZero(Pow(j));
    DivUnique(t.n, Pow(j), 0, t.n);
    TimesZero(BASE * t.d);
    DivUnique(0, BASE * t.d, 0, 0);
    SmallIsQuiet(t, 0);
  }

  /** Looking at the dividend's own digits is enough. */
  lemma QuietIsQuiet(t: Task, t': Task)
    requires t.Valid() && t' == t.(ua := t'.ua) && t'.Valid() && t.n < Pow(t'.ua)
    ensures t'.Quiet(0) <==> forall j: nat :: !t.Fires(j)
  {
    hide Times, Pow;
    forall j: nat ensures t.Fires(j) == t'.Fires(j) && (j >= t'.ua ==> !t.Fires(j)) {
      if j >= t'.ua { FiresBelow(t, j, t'.ua); }
    }
  }

  /** With a one-digit divisor the guard never fires. */
  lemma OneDigitQuiet(t: Task)
    requires t.Valid() && t.ub == 1
    ensures forall j: nat :: !t.Fires(j)
  {
    hide Times;
    TimesUnit(t.v);
    TimesUnit(t.v + 1);
    TimesUnit(t.d);
    TimesBase(t.d, t.d);
    TimesSwap(t.d, BASE);
    assert Pow(0) == 1 && Pow(1) == BASE;
    forall j: nat ensures !t.Fires(j) {
      DivIs(t.n / Pow(j), BASE * t.d);
    }
  }

  /** Division by one digit is always right. */
  lemma OneDigitDivisor(a: nat, b: seq<Digit>)
    requires |b| == 1 && b[0] != 0
    ensures GuardQuiet(a, b)
  {
    TaskForValid(a, b);
    OneDigitQuiet(TaskFor(a, b));
  }

  /**
   A dividend for which the guard fires: half the base times its square, divided
   by half the base squared plus one. The quotient is the base less one.
   */
  lemma NoisyInput()
    ensures !GuardQuiet(Val([0, 0, 0x8000_0000]), [1, 0x8000_0000])
    ensures Val([0, 0, 0x8000_0000]) / Val([1, 0x8000_0000]) == BASE - 1
  {
    hide NormShift;
    var a, b: seq<Digit> := Val([0, 0, 0x8000_0000]), [1, 0x8000_0000];
    assert [0, 0x8000_0000 as Digit] == [0, 0, 0x8000_0000][1..];
    assert a == 0x8000_0000 * BASE * BASE && Val(b) == 0x8000_0000 * BASE + 1 && Pow(1) == BASE;
    NoShiftNeeded();
    TaskForValid(a, b);
    assert TaskFor(a, b) == Task(a, Val(b), 0x8000_0000, 2, 0);
    assert Pow(0) == 1 && Pow(2) == BASE * BASE;
    assert TaskFor(a, b).Fires(0);
  }

  lemma NoShiftNeeded()
    ensures NormShift(0x8000_0000) == 0 && Exp2(0) == 1
  {}
}
