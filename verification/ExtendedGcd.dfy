/** mp_int_egcd: the binary algorithm again, with the coefficients kept alongside. */
module ExtendedGcd {
  import opened Arithmetic
  import opened PowersOfTwo
  import opened Digits
  import opened MpInt
  import opened TrailingZeros
  import opened IntegerDivision
  import opened MpBank
  import opened GcdMath
  import opened Gcd

  /** w is the combination a * x + b * y. */
  ghost predicate Row(a: int, b: int, w: int, x: int, y: int) {
    Times(a, x) + Times(b, y) == w
  }

  /** Shifting an even number down one bit is exact. */
  lemma HalfExact(v: int)
    requires v % 2 == 0
    ensures 2 * ShiftDown(v, 1) == v
  {
    assert Exp2(1) == 2 * Exp2(0);
  }

  /** One of the pair odd and the combination even: the coefficients can be made even together. */
  lemma RowParity(a: int, b: int, w: int, x: int, y: int)
    requires Row(a, b, w, x, y) && w % 2 == 0 && (x % 2 == 1 || y % 2 == 1)
    ensures a % 2 == 1 || b % 2 == 1 ==> (a + y) % 2 == 0 && (b - x) % 2 == 0
  {
    hide Times;
    ParityOfProduct(a, x);
    ParityOfProduct(b, y);
  }

  /** Adding y to one coefficient and taking x from the other changes nothing. */
  lemma RowShifted(a: int, b: int, w: int, x: int, y: int)
    requires Row(a, b, w, x, y)
    ensures Row(a + y, b - x, w, x, y)
  {
    hide Times;
    TimesLeft(a + y, a, y, x);
    TimesLeft(b, b - x, x, y);
    TimesSwap(x, y);
  }

  lemma RowHalved(a: int, b: int, w: int, a': int, b': int, w': int, x: int, y: int)
    requires Row(a, b, w, x, y) && a == 2 * a' && b == 2 * b' && w == 2 * w'
    ensures Row(a', b', w', x, y)
  {
    hide Times;
    TwoTimes(a', x);
    TwoTimes(b', y);
  }

  lemma RowMinus(a: int, b: int, u: int, c: int, d: int, v: int, x: int, y: int)
    requires Row(a, b, u, x, y) && Row(c, d, v, x, y)
    ensures Row(a - c, b - d, u - v, x, y)
  {
    hide Times;
    TimesLeft(a, a - c, c, x);
    TimesLeft(b, b - d, d, y);
  }

  /** The row in cells a, b, w of the bank, for the numbers kept in cells 6 and 7. */
  ghost predicate RowAt(vs: seq<int>, a: nat, b: nat, w: nat) {
    && |vs| == 8 && a < b < w < 6 && vs[w] >= 1
    && Row(vs[a], vs[b], vs[w], vs[6], vs[7]) && (vs[6] % 2 == 1 || vs[7] % 2 == 1)
  }

  /** Only the three cells of a row may change. */
  ghost predicate RowOnly(vs: seq<int>, vs': seq<int>, a: nat, b: nat, w: nat) {
    |vs'| == |vs| && forall i :: 0 <= i < |vs| && i != a && i != b && i != w ==> vs'[i] == vs[i]
  }

  /** Make both coefficients even. */
  method EvenCoefficients(ts: seq<Mpz>, a: nat, b: nat, w: nat, ghost vs: seq<int>, ghost even: int)
    returns (ghost vs': seq<int>)
    requires |ts| == 8 && Holds(ts, vs) && |vs| == 8 && a < b < w < 6
    requires Row(vs[a], vs[b], even, vs[6], vs[7]) && even % 2 == 0 && (vs[6] % 2 == 1 || vs[7] % 2 == 1)
    modifies Cells(ts)
    ensures Grown(ts) && Holds(ts, vs') && RowOnly(vs, vs', a, b, w) && vs'[w] == vs[w]
    ensures vs'[a] % 2 == 0 && vs'[b] % 2 == 0 && Row(vs'[a], vs'[b], even, vs[6], vs[7])
  {
    hide Holds, Cells, Row;
    RowParity(vs[a], vs[b], even, vs[6], vs[7]);
    RowShifted(vs[a], vs[b], even, vs[6], vs[7]);
    vs' := vs;
    var odd := OddAt(ts, a, vs);
    if !odd {
      odd := OddAt(ts, b, vs);
    }
    if odd {
      AddAt(ts, a, 7, a, vs);
      vs' := vs[a := vs[a] + vs[7]];
      SubAt(ts, b, 6, b, vs');
      vs' := vs'[b := vs[b] - vs[6]];
    }
  }

  /** Halve the combination and both coefficients. */
  method HalveRowOnce(ts: seq<Mpz>, a: nat, b: nat, w: nat, ghost vs: seq<int>) returns (ghost vs': seq<int>)
    requires |ts| == 8 && Holds(ts, vs) && RowAt(vs, a, b, w) && vs[w] % 2 == 0
    modifies Cells(ts)
    ensures Grown(ts) && Holds(ts, vs') && RowAt(vs', a, b, w) && RowOnly(vs, vs', a, b, w) && 2 * vs'[w] == vs[w]
  {
    hide Holds, Cells, Row, ShiftDown;
    ghost var half := ShiftDown(vs[w], 1);
    HalfExact(vs[w]);
    ShiftAt(ts, w, 1, vs);
    vs' := EvenCoefficients(ts, a, b, w, vs[w := half], vs[w]);
    ghost var a', b' := ShiftDown(vs'[a], 1), ShiftDown(vs'[b], 1);
    HalfExact(vs'[a]);
    HalfExact(vs'[b]);
    RowHalved(vs'[a], vs'[b], vs[w], a', b', half, vs[6], vs[7]);
    ShiftAt(ts, a, 1, vs');
    vs' := vs'[a := a'];
    ShiftAt(ts, b, 1, vs');
    vs' := vs'[b := b'];
  }

  /** Divisors of the halved number divide the number. */
  ghost predicate Narrowed(u: int, u': int) {
    1 <= u' <= u && forall d: int :: Divides(d, u') ==> Divides(d, u)
  }

  lemma NarrowedHalf(u: int, m: int, n: int)
    requires Narrowed(u, m) && m == 2 * n && n >= 1
    ensures Narrowed(u, n)
  {
    hide Divides;
    forall d: int | Divides(d, n) ensures Divides(d, u) {
      DividesTwice(d, n);
    }
  }

  /** Halve a row until its combination is odd. */
  method HalveRow(ts: seq<Mpz>, a: nat, b: nat, w: nat, ghost vs: seq<int>) returns (ghost vs': seq<int>)
    requires |ts| == 8 && Holds(ts, vs) && RowAt(vs, a, b, w)
    modifies Cells(ts)
    ensures Grown(ts) && Holds(ts, vs') && RowAt(vs', a, b, w) && RowOnly(vs, vs', a, b, w)
    ensures vs'[w] % 2 == 1 && Narrowed(vs[w], vs'[w])
  {
    hide Holds, Cells, Row, Divides;
    vs' := vs;
    var odd := OddAt(ts, w, vs');
    while !odd
      invariant Grown(ts) && Holds(ts, vs') && RowAt(vs', a, b, w) && RowOnly(vs, vs', a, b, w)
      invariant Narrowed(vs[w], vs'[w]) && odd == (vs'[w] % 2 == 1)
      decreases vs'[w]
    {
      ghost var prev := vs'[w];
      vs' := HalveRowOnce(ts, a, b, w, vs');
      NarrowedHalf(vs[w], prev, vs'[w]);
      odd := OddAt(ts, w, vs');
    }
  }

  /** Both rows hold, and the common divisors of the two combinations divide cells 6 and 7. */
  ghost predicate Rows(vs: seq<int>) {
    && RowAt(vs, 0, 1, 4) && RowAt(vs, 2, 3, 5)
    && forall d: int :: Common(d, vs[4], vs[5]) ==> Common(d, vs[6], vs[7])
  }

  /** The same once cell 4 has reached zero. */
  ghost predicate RowsDone(vs: seq<int>) {
    && |vs| == 8 && vs[4] == 0 && RowAt(vs, 2, 3, 5)
    && forall d: int :: Common(d, 0, vs[5]) ==> Common(d, vs[6], vs[7])
  }

  lemma NarrowRows(vs: seq<int>, vs': seq<int>, a: nat, b: nat, w: nat)
    requires Rows(vs) && RowOnly(vs, vs', a, b, w) && RowAt(vs', a, b, w) && Narrowed(vs[w], vs'[w])
    requires (a == 0 && b == 1 && w == 4) || (a == 2 && b == 3 && w == 5)
    ensures Rows(vs')
  {
    hide Row, Divides;
    forall d: int | Common(d, vs'[4], vs'[5]) ensures Common(d, vs'[6], vs'[7]) {
      assert Common(d, vs[4], vs[5]);
    }
  }

  /** Subtract row two from row one, or row one from row two. */
  lemma SubtractRows(vs: seq<int>, vs': seq<int>)
    requires Rows(vs) && |vs'| == 8 && vs'[6] == vs[6] && vs'[7] == vs[7]
    requires vs[4] >= vs[5] ==>
      && vs'[4] == vs[4] - vs[5] && vs'[0] == vs[0] - vs[2] && vs'[1] == vs[1] - vs[3]
      && vs'[2..4] == vs[2..4] && vs'[5] == vs[5]
    requires vs[4] < vs[5] ==>
      && vs'[5] == vs[5] - vs[4] && vs'[2] == vs[2] - vs[0] && vs'[3] == vs[3] - vs[1]
      && vs'[..2] == vs[..2] && vs'[4] == vs[4]
    ensures if vs'[4] == 0 then RowsDone(vs') else Rows(vs')
    ensures 0 <= vs'[4] && 1 <= vs'[5] && vs'[4] + vs'[5] < vs[4] + vs[5]
  {
    hide Row, Divides;
    assert vs[4] >= vs[5] ==> vs'[2] == vs'[2..4][0] == vs[2] && vs'[3] == vs'[2..4][1] == vs[3];
    assert vs[4] < vs[5] ==> vs'[0] == vs'[..2][0] == vs[0] && vs'[1] == vs'[..2][1] == vs[1];
    if vs[4] >= vs[5] {
      RowMinus(vs[0], vs[1], vs[4], vs[2], vs[3], vs[5], vs[6], vs[7]);
    } else {
      RowMinus(vs[2], vs[3], vs[5], vs[0], vs[1], vs[4], vs[6], vs[7]);
    }
    forall d: int | Common(d, vs'[4], vs'[5]) ensures Common(d, vs'[6], vs'[7]) {
      DividesSum(d, vs'[4], vs'[5]);
      assert Common(d, vs[4], vs[5]);
    }
  }

  /** One turn of the main loop. */
  method EgcdTurn(ts: seq<Mpz>, ghost vs: seq<int>) returns (done: bool, ghost vs': seq<int>)
    requires |ts| == 8 && Holds(ts, vs) && Rows(vs)
    modifies Cells(ts)
    ensures Grown(ts) && Holds(ts, vs') && |vs'| == 8 && vs'[6] == vs[6] && vs'[7] == vs[7]
    ensures done == (vs'[4] == 0) && if done then RowsDone(vs') else Rows(vs')
    ensures 0 <= vs'[4] && 1 <= vs'[5] && vs'[4] + vs'[5] < vs[4] + vs[5]
  {
    hide Holds, Cells, Row, Divides;
    ghost var v1 := HalveRow(ts, 0, 1, 4, vs);
    NarrowRows(vs, v1, 0, 1, 4);
    ghost var v2 := HalveRow(ts, 2, 3, 5, v1);
    NarrowRows(v1, v2, 2, 3, 5);
    vs' := SubtractStep(ts, v2);
    var s := SignAt(ts, 4, vs');
    done := s == 0;
  }

  method SubtractStep(ts: seq<Mpz>, ghost vs: seq<int>) returns (ghost vs': seq<int>)
    requires |ts| == 8 && Holds(ts, vs) && Rows(vs)
    modifies Cells(ts)
    ensures Grown(ts) && Holds(ts, vs') && |vs'| == 8 && vs'[6] == vs[6] && vs'[7] == vs[7]
    ensures if vs'[4] == 0 then RowsDone(vs') else Rows(vs')
    ensures 0 <= vs'[4] && 1 <= vs'[5] && vs'[4] + vs'[5] < vs[4] + vs[5]
  {
    hide Holds, Cells, Row, Divides, RowsDone;
    var cmp := CompareAt(ts, 4, 5, vs);
    if cmp >= 0 {
      SubAt(ts, 4, 5, 4, vs);
      vs' := vs[4 := vs[4] - vs[5]];
      SubAt(ts, 0, 2, 0, vs');
      vs' := vs'[0 := vs[0] - vs[2]];
      SubAt(ts, 1, 3, 1, vs');
      vs' := vs'[1 := vs[1] - vs[3]];
    } else {
      SubAt(ts, 5, 4, 5, vs);
      vs' := vs[5 := vs[5] - vs[4]];
      SubAt(ts, 2, 0, 2, vs');
      vs' := vs'[2 := vs[2] - vs[0]];
      SubAt(ts, 3, 1, 3, vs');
      vs' := vs'[3 := vs[3] - vs[1]];
    }
    SubtractRows(vs, vs');
  }

  /** At the end the combination left over is the gcd. */
  lemma RowsGcd(vs: seq<int>)
    requires RowsDone(vs)
    ensures IsGcd(vs[5], vs[6], vs[7])
  {
    hide Times, Divides;
    DividesZero(vs[5]);
    forall d: int | Common(d, vs[6], vs[7]) ensures Divides(d, vs[5]) {
      DividesTimes(d, vs[6], vs[2]);
      DividesTimes(d, vs[7], vs[3]);
      DividesSum(d, Times(vs[2], vs[6]), Times(vs[3], vs[7]));
    }
  }

  lemma FirstRows(x: int, y: int)
    requires x >= 1 && y >= 1 && (x % 2 == 1 || y % 2 == 1)
    ensures Rows([1, 0, 0, 1, x, y, x, y])
  {
    hide Times, Divides;
    TimesUnit(x);
    TimesUnit(y);
    TimesZero(x);
    TimesZero(y);
  }

  /** A: 0, B: 1, C: 2, D: 3, u: 4, v: 5. */
  method PrepareSix(a: Mpz, b: Mpz) returns (ts: seq<Mpz>)
    requires a.Valid() && b.Valid()
    ensures |ts| == 6 && fresh(Cells(ts)) && Holds(ts, [1, 0, 0, 1, Abs(a.Value()), Abs(b.Value())])
  {
    hide Val, Holds, Cells;
    ghost var m, n := Abs(a.Value()), Abs(b.Value());
    HoldsNothing();
    assert [] + [1] == [1] && [1] + [0] + [0] + [1] + [m] + [n] == [1, 0, 0, 1, m, n];
    ts := AppendOne([], []);
    ts := AppendZero(ts, [1]);
    ts := AppendZero(ts, [1] + [0]);
    ts := AppendOne(ts, [1] + [0] + [0]);
    ts := AppendAbs(ts, a, [1] + [0] + [0] + [1]);
    ts := AppendAbs(ts, b, [1] + [0] + [0] + [1] + [m]);
  }

  /** The eight working numbers, with the common twos divided out. */
  method PrepareEight(a: Mpz, b: Mpz) returns (ts: seq<Mpz>, k: nat, ghost x: int, ghost y: int)
    requires a.Valid() && b.Valid() && a.Value() != 0 && b.Value() != 0
    ensures |ts| == 8 && fresh(Cells(ts)) && Holds(ts, [1, 0, 0, 1, x, y, x, y])
    ensures x >= 1 && y >= 1 && (x % 2 == 1 || y % 2 == 1)
    ensures Abs(a.Value()) == Times(x, Exp2(k)) && Abs(b.Value()) == Times(y, Exp2(k))
  {
    hide Val, Holds, Cells, Times, Exp2;
    ghost var m, n := Abs(a.Value()), Abs(b.Value());
    ts := PrepareSix(a, b);
    k, x, y := StripTwos(ts, 4, 5, [1, 0, 0, 1, m, n]);
    assert [1, 0, 0, 1, m, n][4 := x][5 := y] == [1, 0, 0, 1, x, y];
    assert [1, 0, 0, 1, x, y] + [x] + [y] == [1, 0, 0, 1, x, y, x, y];
    HoldsAt(ts, [1, 0, 0, 1, x, y], 4);
    ts := AppendAbs(ts, ts[4], [1, 0, 0, 1, x, y]);
    HoldsAt(ts, [1, 0, 0, 1, x, y] + [x], 5);
    ts := AppendAbs(ts, ts[5], [1, 0, 0, 1, x, y] + [x]);
  }

  /** The whole computation for two nonzero numbers: the gcd in cell 5, its coefficients in 2 and 3. */
  method EgcdNonzero(a: Mpz, b: Mpz) returns (ts: seq<Mpz>, ghost vs: seq<int>)
    requires a.Valid() && b.Valid() && a.Value() != 0 && b.Value() != 0
    ensures |ts| == 8 && fresh(Cells(ts)) && |vs| == 8 && Holds(ts, vs)
    ensures IsGcd(vs[5], Abs(a.Value()), Abs(b.Value())) && Row(vs[2], vs[3], vs[5], Abs(a.Value()), Abs(b.Value()))
  {
    hide Val, Holds, Cells, Times, Exp2, IsGcd, Rows, RowsDone;
    var k; ghost var x, y;
    ts, k, x, y := PrepareEight(a, b);
    vs := [1, 0, 0, 1, x, y, x, y];
    FirstRows(x, y);
    vs := EgcdLoop(ts, vs);
    RowsGcd(vs);
    ScaleRow(vs, k);
    ScaleAt(ts, 5, k, vs);
    vs := vs[5 := Times(vs[5], Exp2(k))];
  }

  lemma ScaleRow(vs: seq<int>, k: nat)
    requires RowsDone(vs)
    ensures vs[5] >= 1 && IsGcd(Times(vs[5], Exp2(k)), Times(vs[6], Exp2(k)), Times(vs[7], Exp2(k)))
    ensures Row(vs[2], vs[3], Times(vs[5], Exp2(k)), Times(vs[6], Exp2(k)), Times(vs[7], Exp2(k)))
  {
    hide Times, Exp2, IsGcd, Divides;
    RowsGcd(vs);
    ScaleGcd(vs[5], vs[6], vs[7], k);
    TimesAssoc(vs[2], vs[6], Exp2(k));
    TimesAssoc(vs[3], vs[7], Exp2(k));
    TimesLeft(vs[5], Times(vs[2], vs[6]), Times(vs[3], vs[7]), Exp2(k));
  }

  method EgcdLoop(ts: seq<Mpz>, ghost vs0: seq<int>) returns (ghost vs: seq<int>)
    requires |ts| == 8 && Holds(ts, vs0) && Rows(vs0)
    modifies Cells(ts)
    ensures |vs| == 8 && Grown(ts) && Holds(ts, vs) && RowsDone(vs) && vs[6] == vs0[6] && vs[7] == vs0[7]
  {
    hide Holds, Cells, Row, Divides;
    vs := vs0;
    var done := false;
    while !done
      invariant Grown(ts) && Holds(ts, vs) && |vs| == 8 && vs[6] == vs0[6] && vs[7] == vs0[7]
      invariant if done then RowsDone(vs) else Rows(vs)
      decreases !done, if done then 0 else vs[4] + vs[5]
    {
      done, vs := EgcdTurn(ts, vs);
    }
  }

  /** The storage rules of mp_int_egcd. */
  ghost predicate EgcdArgs(a: Mpz, b: Mpz, c: Mpz, x: Mpz?, y: Mpz?)
    reads a, a.digits, b, b.digits, c, c.digits, Space(x), Space(y)
  {
    && a.Valid() && b.Valid() && c.Valid() && Usable(x) && Usable(y)
    && x != c && y != c && (x != null || y != null) && x != y
    && Distinct(a, c) && Distinct(b, c) && Distinct(a, x) && Distinct(b, x) && Distinct(a, y) && Distinct(b, y)
    && Distinct(c, x) && Distinct(c, y) && Distinct(x, y)
  }

  /** The outcome: c is the gcd of m and n, and gx and gy its coefficients. */
  ghost predicate EgcdDone(c: Mpz, x: Mpz?, y: Mpz?, m: int, n: int, gx: int, gy: int)
    reads c, c.digits, Space(x), Space(y)
  {
    && c.Valid() && Usable(x) && Usable(y)
    && IsGcd(c.Value(), m, n) && Row(gx, gy, c.Value(), m, n)
    && (x != null ==> x.Value() == gx) && (y != null ==> y.Value() == gy)
  }

  twostate predicate SameSpaces(c: Mpz, x: Mpz?, y: Mpz?)
    reads c, x, y
  {
    SameSpace(c) && SameSpace(x) && SameSpace(y)
  }

  /** One operand zero: the other is the gcd, with coefficient 1. */
  method EgcdOneZero(a: Mpz, c: Mpz, x: Mpz, y: Mpz)
    requires a.Valid() && c.Valid() && x.Valid() && y.Valid() && x != c && y != c && x != y && a.Value() != 0
    requires Apart2(a, c) && Distinct(c, x) && Distinct(c, y) && Distinct(x, y)
    modifies c, c.digits, x, x.digits, y, y.digits
    ensures c.Valid() && x.Valid() && y.Valid() && SameSpace(c) && SameSpace(x) && SameSpace(y)
    ensures c.Value() == Abs(old(a.Value())) && x.Value() == 1 && y.Value() == 0
  {
    hide Val;
    AbsTo(a, c);
    SetOne(x);
    y.SetZero();
  }

  lemma OneZeroRow(m: int)
    requires m >= 1
    ensures IsGcd(m, m, 0) && IsGcd(m, 0, m) && Row(1, 0, m, m, 0) && Row(0, 1, m, 0, m)
  {
    hide IsGcd;
    ZeroGcd(m);
  }

  /** The results copied out of the bank. */
  method EgcdOut(ts: seq<Mpz>, ghost vs: seq<int>, c: Mpz, x: Mpz?, y: Mpz?)
    requires |ts| == 8 && |vs| == 8 && Holds(ts, vs) && c.Valid() && Usable(x) && Usable(y)
    requires x != c && y != c && (x == null || x != y) && Distinct(c, x) && Distinct(c, y) && Distinct(x, y)
    requires Cells(ts) !! ({c as object, c.digits} + Space(x) + Space(y))
    modifies c, c.digits, Space(x), Space(y)
    ensures c.Valid() && Usable(x) && Usable(y) && SameSpace(c) && SameSpace(x) && SameSpace(y)
    ensures c.Value() == vs[5] && (x != null ==> x.Value() == vs[2]) && (y != null ==> y.Value() == vs[3])
  {
    hide Val, Holds, Cells;
    var t2, t3, t5 := ts[2], ts[3], ts[5];
    HoldsAt(ts, vs, 2);
    HoldsAt(ts, vs, 3);
    HoldsAt(ts, vs, 5);
    CellIn(ts, 2);
    CellIn(ts, 3);
    CellIn(ts, 5);
    CopyTo(t2, x);
    CopyTo(t3, y);
    Copy(t5, c);
  }

  method EgcdGeneral(a: Mpz, b: Mpz, c: Mpz, x: Mpz?, y: Mpz?) returns (ghost gx: int, ghost gy: int)
    requires EgcdArgs(a, b, c, x, y) && a.Value() != 0 && b.Value() != 0
    modifies c, c.digits, Space(x), Space(y)
    ensures SameSpaces(c, x, y) && EgcdDone(c, x, y, Abs(old(a.Value())), Abs(old(b.Value())), gx, gy)
  {
    hide Val, Holds, Cells, Row, IsGcd;
    var ts, vs := EgcdNonzero(a, b);
    gx, gy := vs[2], vs[3];
    EgcdOut(ts, vs, c, x, y);
  }

  method EgcdFirstZero(a: Mpz, b: Mpz, c: Mpz, x: Mpz, y: Mpz)
    requires EgcdArgs(a, b, c, x, y) && a.Value() == 0 && b.Value() != 0
    modifies c, c.digits, Space(x), Space(y)
    ensures SameSpaces(c, x, y) && EgcdDone(c, x, y, 0, Abs(old(b.Value())), 0, 1)
  {
    hide Val, Row, IsGcd;
    OneZeroRow(Abs(b.Value()));
    EgcdOneZero(b, c, y, x);
  }

  method EgcdSecondZero(a: Mpz, b: Mpz, c: Mpz, x: Mpz, y: Mpz)
    requires EgcdArgs(a, b, c, x, y) && a.Value() != 0 && b.Value() == 0
    modifies c, c.digits, Space(x), Space(y)
    ensures SameSpaces(c, x, y) && EgcdDone(c, x, y, Abs(old(a.Value())), 0, 1, 0)
  {
    hide Val, Row, IsGcd;
    OneZeroRow(Abs(a.Value()));
    EgcdOneZero(a, c, x, y);
  }

  lemma EgcdArgsValid(a: Mpz, b: Mpz, c: Mpz, x: Mpz?, y: Mpz?)
    requires EgcdArgs(a, b, c, x, y)
    ensures a.Valid() && b.Valid()
  {}

  /**
   mp_int_egcd: the gcd of |a| and |b| with coefficients gx and gy such that
   |a| * gx + |b| * gy is the gcd; x and y receive them when given.
   */
  method Egcd(a: Mpz, b: Mpz, c: Mpz, x: Mpz?, y: Mpz?) returns (res: MpResult, ghost gx: int, ghost gy: int)
    requires EgcdArgs(a, b, c, x, y)
    requires (a.Value() == 0) != (b.Value() == 0) ==> x != null && y != null
    modifies c, c.digits, Space(x), Space(y)
    ensures res == if old(a.Value()) == 0 && old(b.Value()) == 0 then Undefined else Done
    ensures res == Undefined ==> Kept(c) && Kept(x) && Kept(y)
    ensures SameSpaces(c, x, y)
    ensures res == Done ==> EgcdDone(c, x, y, Abs(old(a.Value())), Abs(old(b.Value())), gx, gy)
  {
    hide Val, EgcdDone, EgcdArgs;
    EgcdArgsValid(a, b, c, x, y);
    gx, gy := 0, 0;
    var ca := CompareZero(a);
    var cb := CompareZero(b);
    if ca == 0 && cb == 0 { return Undefined, 0, 0; }
    res := Done;
    if ca == 0 {
      EgcdFirstZero(a, b, c, x, y);
      gx, gy := 0, 1;
    } else if cb == 0 {
      EgcdSecondZero(a, b, c, x, y);
      gx, gy := 1, 0;
    } else {
      gx, gy := EgcdGeneral(a, b, c, x, y);
    }
  }

  lemma GcdUnique(g: int, h: int, x: int, y: int)
    requires IsGcd(g, x, y) && IsGcd(h, x, y)
    ensures g == h
  {
    hide Times;
    var m :| g == Times(h, m);
    var n :| h == Times(g, n);
    DividesBelow(h, g, m);
    DividesBelow(g, h, n);
  }

  lemma DividesBelow(d: int, x: int, m: int)
    requires d >= 1 && x >= 1 && x == Times(d, m)
    ensures d <= x
  {
    hide Times;
    TimesZero(d);
    if m <= 0 { TimesMono(m, 0, d); }
    TimesMono(1, m, d);
    TimesUnit(d);
  }

  /** c is an inverse of a modulo m. */
  ghost predicate Inverse(a: int, c: int, m: int) {
    Divides(m, Times(a, c) - 1)
  }

  lemma UnitDivisor(m: int, w: int)
    requires m >= 1 && Times(m, w) == -1
    ensures m == 1
  {
    TimesMono(w, -1, m);
  }

  lemma InverseFrom(a: int, m: int, gx: int, gy: int, t: int)
    requires m >= 1 && Row(gx, gy, 1, Abs(a), m) && t == gx % m
    ensures Inverse(a, if a < 0 then m - t else t, m)
    ensures t == 0 <==> m == 1
  {
    hide Times;
    var n, q := Abs(a), gx / m;
    DivIs(gx, m);
    TimesDiff(n, gx, Times(m, q));
    SwapFirst(n, m, q);
    TimesSwap(gx, n);
    TimesSwap(gy, m);
    var w := 0 - gy - Times(n, q);
    TimesDiff(m, 0 - gy, Times(n, q));
    TimesMinus(m, gy);
    assert Times(n, t) - 1 == Times(m, w);
    TimesZero(n);
    if t == 0 { UnitDivisor(m, w); }
    if a < 0 {
      TimesDiff(a, m, t);
      TimesMinus(n, t);
      TimesMinus(n, m);
      TimesSwap(n, m);
      TimesDiff(m, w, n);
      assert Times(a, m - t) - 1 == Times(m, w - n);
    }
  }

  lemma SwapFirst(n: int, m: int, q: int)
    ensures Times(n, Times(m, q)) == Times(m, Times(n, q))
  {}

  /** mp_int_compare_value(z, 1) for the outcome that matters. */
  method IsOne(z: Mpz) returns (one: bool)
    requires z.Valid()
    ensures one == (z.Value() == 1)
  {
    hide Val;
    if z.neg { return false; }
    var v := new Digit[1](_ => 1);
    assert v[0..1] == [1] && z.digits[0..z.used] == z.digits[..z.used];
    ValOne(1);
    var c := UCmp(z.digits, 0, z.used, v, 0, 1);
    one := c == 0;
  }

  /**
   mp_int_invmod: an inverse of a modulo m, for either sign of a; out of range
   for a zero or m not positive, undefined when a and m have a common divisor.
   */
  method InvMod(a: Mpz, m: Mpz, c: Mpz) returns (res: MpResult)
    requires a.Valid() && m.Valid() && c.Valid() && Apart2(a, c) && Apart2(m, c) && Apart2(a, m)
    modifies c, c.digits
    ensures c.Valid() && (c.digits == old(c.digits) || fresh(c.digits))
    ensures res == OutOfRange <==> old(a.Value()) == 0 || old(m.Value()) <= 0
    ensures res == Done <==> old(a.Value()) != 0 && old(m.Value()) > 0 && IsGcd(1, Abs(old(a.Value())), old(m.Value()))
    ensures res != Done ==> Kept(c)
    ensures res == Done ==> Inverse(old(a.Value()), c.Value(), old(m.Value()))
    ensures res == Done ==> if old(m.Value()) == 1 then c.Value() == (if old(a.Value()) < 0 then 1 else 0)
                            else 0 < c.Value() < old(m.Value())
  {
    hide Val, Row, IsGcd, Inverse;
    var ca := CompareZero(a);
    var cm := CompareZero(m);
    if ca == 0 || cm <= 0 { return OutOfRange; }
    var coprime, t := ReducedCoefficient(a, m);
    if !coprime { return Undefined; }
    res := Done;
    if a.neg {
      Sub(m, t, c);
    } else {
      Copy(t, c);
    }
  }

  /** mp_int_egcd(a, m, g, t, NULL) with two fresh results. */
  method Coefficient(a: Mpz, m: Mpz) returns (g: Mpz, t: Mpz, ghost gy: int)
    requires a.Valid() && m.Valid() && Apart2(a, m) && a.Value() != 0 && m.Value() != 0
    ensures fresh(g) && fresh(g.digits) && g.Valid() && fresh(t) && fresh(t.digits) && t.Valid()
    ensures IsGcd(g.Value(), Abs(a.Value()), Abs(m.Value()))
    ensures Row(t.Value(), gy, g.Value(), Abs(a.Value()), Abs(m.Value()))
  {
    hide Val, Row, IsGcd;
    g := new Mpz(DEFAULT_PRECISION);
    t := new Mpz(DEFAULT_PRECISION);
    var res; ghost var gx;
    res, gx, gy := Egcd(a, m, g, t, null);
  }

  /** The coefficient of |a| reduced modulo m, when the gcd is 1. */
  method ReducedCoefficient(a: Mpz, m: Mpz) returns (coprime: bool, t: Mpz)
    requires a.Valid() && m.Valid() && Apart2(a, m) && a.Value() != 0 && m.Value() > 0
    ensures coprime == IsGcd(1, Abs(a.Value()), m.Value())
    ensures fresh(t) && fresh(t.digits) && t.Valid()
    ensures coprime ==> 0 <= t.Value() < m.Value() && (t.Value() == 0 <==> m.Value() == 1)
    ensures coprime ==> Inverse(a.Value(), if a.Value() < 0 then m.Value() - t.Value() else t.Value(), m.Value())
  {
    hide Val, Row, IsGcd, Inverse, Remainder;
    ghost var x, y := a.Value(), m.Value();
    var g; ghost var gy;
    g, t, gy := Coefficient(a, m);
    ghost var gx := t.Value();
    coprime := IsOne(g);
    if IsGcd(1, Abs(x), y) { GcdUnique(1, g.Value(), Abs(x), y); }
    if coprime {
      var r := Mod(t, m, t);
      DivIs(gx, y);
      InverseFrom(x, y, gx, gy, gx % y);
    }
  }
}
