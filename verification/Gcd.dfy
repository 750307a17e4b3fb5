/** mp_int_gcd: Stein's binary algorithm. */
module Gcd {
  import opened Arithmetic
  import opened PowersOfTwo
  import opened Digits
  import opened MpInt
  import opened Shifts
  import opened TrailingZeros
  import opened IntegerDivision
  import opened MpBank
  import opened GcdMath

  /** Taking out k of the e factors of two. */
  lemma TakeTwos(m: nat, e: nat, k: nat)
    requires m >= 1 && TwoFactors(m, e) && k <= e
    ensures m == Times(m / Exp2(k), Exp2(k)) && m / Exp2(k) >= 1
    ensures e == k ==> (m / Exp2(k)) % 2 == 1
  {
    hide Times, Exp2;
    var o, f := m / Exp2(e), Exp2(e - k);
    DivIs(m, Exp2(e));
    Exp2Add(k, e - k);
    TimesAssoc(Exp2(k), f, o);
    DivUnique(m, Exp2(k), Times(f, o), 0);
    TimesSwap(Exp2(k), m / Exp2(k));
    DivNat(m, Exp2(k));
    TimesZero(Exp2(k));
  }

  /** What ShiftDown does to a number with k factors of two. */
  lemma ShiftExact(t: int, k: nat)
    requires t != 0 && TwoFactors(Abs(t), k)
    ensures var o := ShiftDown(t, k);
      t == Times(Exp2(k), o) && o % 2 == 1 && (o > 0) == (t > 0) && o != 0 && Abs(o) <= Abs(t)
  {
    hide Times, Exp2;
    var m := Abs(t) / Exp2(k);
    TakeTwos(Abs(t), k, k);
    TimesSwap(m, Exp2(k));
    TimesMinus(Exp2(k), m);
    TimesMono(1, Exp2(k), m);
    TimesUnit(m);
  }

  /** Divide out the common factors of two of cells i and j. */
  method StripTwos(ts: seq<Mpz>, i: nat, j: nat, ghost vs: seq<int>) returns (k: nat, ghost x: int, ghost y: int)
    requires Holds(ts, vs) && i < |ts| && j < |ts| && i != j && |vs| == |ts| && vs[i] >= 1 && vs[j] >= 1
    modifies Cells(ts)
    ensures Grown(ts) && Holds(ts, vs[i := x][j := y]) && x >= 1 && y >= 1
    ensures vs[i] == Times(x, Exp2(k)) && vs[j] == Times(y, Exp2(k)) && (x % 2 == 1 || y % 2 == 1)
  {
    hide Val, Times, Exp2, TwoFactors, Holds, Cells;
    HoldsAt(ts, vs, i);
    var e := TwosAt(ts, i, vs);
    var f := TwosAt(ts, j, vs);
    k := if e <= f then e else f;
    x, y := vs[i] / Exp2(k), vs[j] / Exp2(k);
    TakeTwos(vs[i], e, k);
    TakeTwos(vs[j], f, k);
    ShiftAt(ts, i, k, vs);
    ShiftAt(ts, j, k, vs[i := x]);
  }

  /** t waits to replace u or v; the pair then formed has the common divisors of x and y. */
  ghost predicate Pending(u: int, v: int, t: int, x: int, y: int) {
    && u >= 1 && v >= 1 && t != 0
    && (t > 0 ==> v % 2 == 1 && SameCommon(t, v, x, y))
    && (t < 0 ==> u % 2 == 1 && SameCommon(u, 0 - t, x, y))
  }

  function PendingSum(u: int, v: int, t: int): (s: int) {
    if t > 0 then t + v else u - t
  }

  /** One turn: take the odd part of t, replace u or v, subtract. */
  lemma SteinTurn(u: int, v: int, t: int, k: nat, x: int, y: int, u': int, v': int)
    requires Pending(u, v, t, x, y) && TwoFactors(Abs(t), k)
    requires var o := ShiftDown(t, k); if o > 0 then u' == o && v' == v else u' == u && v' == 0 - o
    ensures u' >= 1 && v' >= 1 && u' % 2 == 1 && v' % 2 == 1 && SameCommon(u', v', x, y)
    ensures u' != v' ==> Pending(u', v', u' - v', x, y) && PendingSum(u', v', u' - v') < PendingSum(u, v, t)
  {
    hide Times, Exp2, SameCommon;
    var o := ShiftDown(t, k);
    ShiftExact(t, k);
    if o > 0 {
      OddPartCommon(o, v, k);
      SameCommonSym(t, v, o, v);
      SameCommonTrans(o, v, t, v, x, y);
    } else {
      OddPartCommon(0 - o, u, k);
      TimesMinus(Exp2(k), o);
      FlipCommon(0 - t, u, 0 - o, u);
      SameCommonSym(u, 0 - t, u, 0 - o);
      SameCommonTrans(u, 0 - o, u, 0 - t, x, y);
    }
    if u' != v' { NextPending(u', v', x, y); }
  }

  lemma NextPending(u: int, v: int, x: int, y: int)
    requires u >= 1 && v >= 1 && u % 2 == 1 && v % 2 == 1 && SameCommon(u, v, x, y) && u != v
    ensures Pending(u, v, u - v, x, y)
  {
    hide SameCommon;
    SubtractCommon(u, v);
    SubtractCommon(v, u);
    SameCommonSym(u, v, u - v, v);
    SameCommonSym(v, u, v - u, u);
    FlipCommon(v - u, u, v, u);
    SameCommonTrans(u - v, v, u, v, x, y);
    SameCommonTrans(u, v - u, u, v, x, y);
  }

  lemma SameCommonSym(a: int, b: int, c: int, d: int)
    requires SameCommon(a, b, c, d)
    ensures SameCommon(c, d, a, b)
  {
    hide Common;
  }

  lemma FlipCommon(a: int, b: int, c: int, d: int)
    requires SameCommon(a, b, c, d)
    ensures SameCommon(b, a, d, c)
  {
    hide Divides;
    forall e: int ensures Common(e, b, a) <==> Common(e, d, c) {
      assert Common(e, a, b) <==> Common(e, c, d);
    }
  }

  /** One turn of the loop on u, v, t. */
  method SteinStep(ts: seq<Mpz>, ghost u: int, ghost v: int, ghost t: int, ghost x: int, ghost y: int)
    returns (met: bool, ghost u': int, ghost v': int)
    requires |ts| == 3 && Holds(ts, [u, v, t]) && Pending(u, v, t, x, y)
    modifies Cells(ts)
    ensures Grown(ts) && Holds(ts, [u', v', u' - v']) && u' >= 1 && v' >= 1 && SameCommon(u', v', x, y)
    ensures met == (u' == v')
    ensures !met ==> Pending(u', v', u' - v', x, y) && PendingSum(u', v', u' - v') < PendingSum(u, v, t)
  {
    hide Val, SameCommon, ShiftDown, TwoFactors, Holds, Pending, Cells;
    PendingNonzero(u, v, t, x, y);
    var k := TwosAt(ts, 2, [u, v, t]);
    ghost var o := ShiftDown(t, k);
    u', v' := if o > 0 then o else u, if o > 0 then v else 0 - o;
    SteinTurn(u, v, t, k, x, y, u', v');
    ShiftAt(ts, 2, k, [u, v, t]);
    assert [u, v, t][2 := o] == [u, v, o];
    var s := SignAt(ts, 2, [u, v, o]);
    if s > 0 {
      CopyAt(ts, 2, 0, [u, v, o]);
      assert [u, v, o][0 := o] == [u', v', o];
    } else {
      NegAt(ts, 2, 1, [u, v, o]);
      assert [u, v, o][1 := 0 - o] == [u', v', o];
    }
    SubAt(ts, 0, 1, 2, [u', v', o]);
    assert [u', v', o][2 := u' - v'] == [u', v', u' - v'];
    var z := SignAt(ts, 2, [u', v', u' - v']);
    met := z == 0;
  }

  lemma PendingNonzero(u: int, v: int, t: int, x: int, y: int)
    requires Pending(u, v, t, x, y)
    ensures t != 0
  {}

  lemma FirstPending(x: int, y: int, t: int)
    requires x >= 1 && y >= 1 && (x % 2 == 1 || y % 2 == 1) && t == if x % 2 == 1 then 0 - y else x
    ensures Pending(x, y, t, x, y)
  {
    hide Common;
  }

  /** The loop of mp_int_gcd: ends with both numbers equal. */
  method Stein(ts: seq<Mpz>, ghost x: int, ghost y: int, ghost t: int) returns (ghost g: int)
    requires |ts| == 3 && Holds(ts, [x, y, t]) && Pending(x, y, t, x, y)
    modifies Cells(ts)
    ensures Grown(ts) && Holds(ts, [g, g, 0]) && IsGcd(g, x, y)
  {
    hide Holds, Cells, Pending, SameCommon, IsGcd;
    var met := false;
    ghost var u, v, d := x, y, t;
    while !met
      invariant Grown(ts) && Holds(ts, [u, v, d])
      invariant if met then u == v && d == 0 && u >= 1 && SameCommon(u, v, x, y) else Pending(u, v, d, x, y)
      decreases !met, PendingSum(u, v, d)
    {
      PendingPositive(u, v, d, x, y);
      met, u, v := SteinStep(ts, u, v, d, x, y);
      d := u - v;
    }
    MeetIsGcd(u, x, y);
    g := u;
  }

  lemma PendingPositive(u: int, v: int, t: int, x: int, y: int)
    requires Pending(u, v, t, x, y)
    ensures PendingSum(u, v, t) >= 1
  {}

  /** The three working numbers. */
  method Prepare(a: Mpz, b: Mpz) returns (ts: seq<Mpz>)
    requires a.Valid() && b.Valid()
    ensures |ts| == 3 && Holds(ts, [Abs(a.Value()), Abs(b.Value()), 0]) && fresh(Cells(ts))
  {
    hide Val, Holds, Cells;
    ghost var x, y := Abs(a.Value()), Abs(b.Value());
    HoldsNothing();
    assert [] + [x] == [x] && [x] + [y] + [0] == [x, y, 0];
    ts := AppendAbs([], a, []);
    ts := AppendAbs(ts, b, [x]);
    ts := AppendZero(ts, [x] + [y]);
  }

  /** Strip the common twos and run the loop on what is left. */
  method GcdNonzero(a: Mpz, b: Mpz) returns (u: Mpz, k: nat, ghost g: int)
    requires a.Valid() && b.Valid() && a.Value() != 0 && b.Value() != 0
    ensures fresh(u) && fresh(u.digits) && u.Valid() && u.Value() == g >= 1
    ensures IsGcd(Times(g, Exp2(k)), Abs(a.Value()), Abs(b.Value()))
  {
    hide Val, Times, Exp2, IsGcd, Pending, Holds, Cells;
    ghost var m, n := Abs(a.Value()), Abs(b.Value());
    var ts := Prepare(a, b);
    ghost var x, y;
    k, x, y := StripTwos(ts, 0, 1, [m, n, 0]);
    assert [m, n, 0][0 := x][1 := y] == [x, y, 0];
    var odd := OddAt(ts, 0, [x, y, 0]);
    ghost var t := if x % 2 == 1 then 0 - y else x;
    if odd {
      NegAt(ts, 1, 2, [x, y, 0]);
    } else {
      CopyAt(ts, 0, 2, [x, y, 0]);
    }
    assert [x, y, 0][2 := t] == [x, y, t];
    FirstPending(x, y, t);
    g := Stein(ts, x, y, t);
    ScaleGcd(g, x, y, k);
    HoldsAt(ts, [g, g, 0], 0);
    CellIn(ts, 0);
    GcdPositive(g, x, y);
    u := ts[0];
  }

  lemma GcdPositive(g: int, x: int, y: int)
    requires IsGcd(g, x, y)
    ensures g >= 1
  {}

  lemma CellIn(ts: seq<Mpz>, i: nat)
    requires i < |ts|
    ensures ts[i] in Cells(ts) && ts[i].digits in Cells(ts)
  {}

  /** mp_int_gcd: the greatest common divisor of |a| and |b|; undefined only for two zeros. */
  method GreatestCommonDivisor(a: Mpz, b: Mpz, c: Mpz) returns (res: MpResult)
    requires a.Valid() && b.Valid() && c.Valid() && Apart2(a, c) && Apart2(b, c)
    modifies c, c.digits
    ensures c.Valid() && (c.digits == old(c.digits) || fresh(c.digits))
    ensures res == if old(a.Value()) == 0 && old(b.Value()) == 0 then Undefined else Done
    ensures res == Undefined ==> Kept(c)
    ensures res == Done ==> IsGcd(c.Value(), Abs(old(a.Value())), Abs(old(b.Value())))
  {
    hide Val, Times, Exp2, IsGcd;
    var ca := CompareZero(a);
    var cb := CompareZero(b);
    if ca == 0 && cb == 0 { return Undefined; }
    res := Done;
    if ca == 0 {
      ZeroGcd(Abs(b.Value()));
      AbsTo(b, c);
    } else if cb == 0 {
      ZeroGcd(Abs(a.Value()));
      AbsTo(a, c);
    } else {
      var u, k, g := GcdNonzero(a, b);
      AbsTo(u, c);
      QMul(c, k);
    }
  }
}
