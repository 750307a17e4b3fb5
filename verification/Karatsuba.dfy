/**
 s_kmul: recursive multiplication on digit buffers.  The three temporaries t1,
 t2 and t3 are slices of one allocation, and the product is assembled by adding
 into the destination; digits above the product are rewritten with the value
 they already hold.
 */
module Karatsuba {
  import opened Arithmetic
  import opened Digits
  import opened UnsignedKernel

  function Half(n: nat): (h: nat) {
    (n + 1) / 2
  }

  /** Whether s_kmul splits operands of na >= nb digits. */
  predicate Splits(threshold: nat, na: nat, nb: nat) {
    threshold != 0 && na >= threshold && nb > Half(na)
  }

  /** How many digits of the destination s_kmul reads and writes. */
  function Touched(threshold: nat, na: nat, nb: nat): (n: nat)
    ensures na + nb <= n
  {
    var l, s := Max(na, nb), if na >= nb then nb else na;
    if Splits(threshold, l, s) then 4 * Half(l) else na + nb
  }

  /** memset to zero. */
  method ZeroDigits(d: array<Digit>, o: nat, n: nat)
    requires o + n <= d.Length
    modifies d
    ensures forall k :: o <= k < o + n ==> d[k] == 0
    ensures forall k :: 0 <= k < d.Length && (k < o || o + n <= k) ==> d[k] == old(d[k])
  {
    forall k | o <= k < o + n { d[k] := 0; }
  }

  /** memcpy between two buffers. */
  method CopyDigits(s: array<Digit>, so: nat, d: array<Digit>, o: nat, n: nat)
    requires s != d && so + n <= s.Length && o + n <= d.Length
    modifies d
    ensures d[o..o + n] == s[so..so + n]
    ensures forall k :: 0 <= k < d.Length && (k < o || o + n <= k) ==> d[k] == old(d[k])
  {
    forall k | o <= k < o + n { d[k] := s[so + k - o]; }
  }

  /** Low part and high part by a digit position are determined. */
  lemma ShlUnique(r: int, q: int, r': int, q': int, m: nat)
    requires 0 <= r < Pow(m) && 0 <= r' < Pow(m)
    requires r + Shl(q, m) == r' + Shl(q', m)
    ensures r == r' && q == q'
  {
    hide Shl;
    ShlZero(m);
    if q < q' {
      ShlSum(q', q, q' - q, m);
      ShlMono(1, q' - q, m);
    } else if q' < q {
      ShlSum(q, q', q - q', m);
      ShlMono(1, q - q', m);
    }
  }

  /** If a sum fits m digits, adding leaves the digits above untouched. */
  lemma HighDigitsKept(lo: seq<Digit>, hi: seq<Digit>, v: nat, out: seq<Digit>, carry: Digit)
    requires |out| == |lo| + |hi|
    requires Val(lo) + v < Pow(|lo|)
    requires Val(out) + Shl(carry as int, |out|) == Val(lo + hi) + v
    ensures Val(out[..|lo|]) == Val(lo) + v && out[|lo|..] == hi
  {
    hide Val, Shl, Pow, Times;
    var m, h := |lo|, |hi|;
    ValConcat(lo, hi);
    ValSplit(out, m);
    ValBound(out[..m]);
    ValBound(hi);
    ShlShl(carry as int, h, m);
    var top := Val(out[m..]) + Shl(carry as int, h);
    ShlSum(top, Val(out[m..]), Shl(carry as int, h), m);
    ShlUnique(Val(out[..m]), top, Val(lo) + v, Val(hi), m);
    ShlCarry(carry as int, h);
    ValInjective(out[m..], hi);
  }

  lemma ShlCarry(c: nat, h: nat)
    ensures Shl(c, h) < Pow(h) ==> c == 0 && Shl(c, h) == 0
    ensures 0 <= Shl(c, h)
  {
    hide Shl;
    ShlZero(h);
    if c >= 1 { ShlMono(1, c, h); }
  }

  /** Add n digits of t into dc where the sum fits the first m: only those change. */
  method AddInto(t: array<Digit>, to: nat, dc: array<Digit>, o: nat, n: nat, ghost m: nat)
    requires t != dc && m <= n && to + n <= t.Length && o + n <= dc.Length
    requires Val(dc[o..o + m]) + Val(t[to..to + n]) < Pow(m)
    modifies dc
    ensures Val(dc[o..o + m]) == old(Val(dc[o..o + m])) + Val(t[to..to + n])
    ensures forall k :: 0 <= k < dc.Length && (k < o || o + m <= k) ==> dc[k] == old(dc[k])
  {
    hide Val, Shl, Pow, Times;
    ghost var lo, hi := dc[o..o + m], dc[o + m..o + n];
    SplitSlice(dc[..], o, n, m);
    var carry := UAdd(t, to, dc, o, dc, o, n, n);
    ghost var out := dc[o..o + n];
    HighDigitsKept(lo, hi, Val(t[to..to + n]), out, carry);
    SplitSlice(dc[..], o, n, m);
    forall k | 0 <= k < dc.Length && (k < o || o + m <= k) ensures dc[k] == old(dc[k]) {
      if o + m <= k < o + n { assert dc[k] == hi[k - o - m]; }
    }
  }

  /** The product of two numbers split at digit h, from the products of the parts. */
  lemma SplitProduct(x: int, y: int, a0: int, a1: int, b0: int, b1: int, h: nat)
    requires x == a0 + Shl(a1, h) && y == b0 + Shl(b1, h)
    ensures Times(x, y) == Times(a0, b0) + Shl(Times(a1, b0) + Times(a0, b1), h) + Shl(Times(a1, b1), 2 * h)
  {
    hide Shl, Times;
    TimesFoil(x, y, a0, Shl(a1, h), b0, Shl(b1, h));
    ShlTimes(a1, b0, h);
    ShlTimes(a0, b1, h);
    ShlTimes(a1, Shl(b1, h), h);
    ShlTimes(a1, b1, h);
    ShlShl(Times(a1, b1), h, h);
    ShlSum(Times(a1, b0) + Times(a0, b1), Times(a1, b0), Times(a0, b1), h);
  }

  /** Part of a digit window whose value is known to sit in front of zeros. */
  lemma WindowTail(win: seq<Digit>, h: nat, m: nat)
    requires h + m <= |win|
    requires forall k :: h + m <= k < |win| ==> win[k] == 0
    ensures Val(win) == Val(win[..h]) + Shl(Val(win[h..h + m]), h)
  {
    hide Val, Shl, Times;
    var rest := |win| - h - m;
    assert win == (win[..h] + win[h..h + m]) + Zeros(rest);
    ValPadZeros(win[..h] + win[h..h + m], rest);
    ValConcat(win[..h], win[h..h + m]);
  }

  lemma PowSplit(h: nat, n: nat)
    requires h <= n
    ensures Pow(n) == Shl(Pow(n - h), h)
  {
    ShlShl(1, n - h, h);
  }

  /** The middle term fits above the low half, whether the product area or the addend ends first. */
  lemma MiddleFits(win: seq<Digit>, h: nat, m: nat, mid: nat)
    requires 3 * h <= |win| && m == Min(2 * h + 1, |win| - h)
    requires forall k :: 2 * h <= k < |win| ==> win[k] == 0
    requires Val(win) + Shl(mid, h) < Pow(|win|)
    requires Pow(h) + mid <= Pow(2 * h + 1)
    ensures Val(win[h..h + m]) + mid < Pow(m)
  {
    hide Val, Shl, Pow, Times;
    var q := Val(win[h..h + m]);
    WindowTail(win, h, m);
    ShlSum(q + mid, q, mid, h);
    PowSplit(h, |win|);
    ShlMono(q + mid, Pow(|win| - h), h);
    assert win[h..h + m] == win[h..2 * h] + Zeros(m - h);
    ValPadZeros(win[h..2 * h], m - h);
    ValBound(win[h..2 * h]);
  }

  lemma TailFits(win: seq<Digit>, o: nat, v: nat)
    requires o <= |win| && Val(win) + Shl(v, o) < Pow(|win|)
    ensures Val(win[o..o + (|win| - o)]) + v < Pow(|win| - o)
  {
    hide Val, Shl, Pow, Times;
    assert win[o..o + (|win| - o)] == win[o..];
    var q := Val(win[o..]);
    ValSplit(win, o);
    ShlSum(q + v, q, v, o);
    PowSplit(o, |win|);
    ShlMono(q + v, Pow(|win| - o), o);
  }

  /** Adding v to a segment of a window adds v at the segment's position. */
  lemma SegmentAdded(win: seq<Digit>, win': seq<Digit>, o: nat, m: nat, v: int)
    requires o + m <= |win| == |win'|
    requires win[..o] == win'[..o] && win[o + m..] == win'[o + m..]
    requires Val(win'[o..o + m]) == Val(win[o..o + m]) + v
    ensures Val(win') == Val(win) + Shl(v, o)
  {
    hide Val, Shl, Times;
    var a, b, b', c := win[..o], win[o..o + m], win'[o..o + m], win[o + m..];
    assert win == a + (b + c) && win' == a + (b' + c);
    ValConcat(a, b + c);
    ValConcat(a, b' + c);
    ValConcat(b, c);
    ValConcat(b', c);
    ShlSum(Val(b' + c), Val(b + c), v, o);
  }

  /** Add len digits of t at digit o of the n-digit area at co. */
  method AddAt(t: array<Digit>, to: nat, dc: array<Digit>, co: nat, o: nat, len: nat, ghost m: nat, ghost n: nat)
    requires t != dc && m <= len && to + len <= t.Length && co + o + len <= dc.Length
    requires o + m <= n && co + n <= dc.Length
    requires Val(dc[co + o..co + o + m]) + Val(t[to..to + len]) < Pow(m)
    modifies dc
    ensures Val(dc[co..co + n]) == old(Val(dc[co..co + n])) + Shl(Val(t[to..to + len]), o)
    ensures forall k :: 0 <= k < dc.Length && (k < co || co + n <= k) ==> dc[k] == old(dc[k])
  {
    hide Val, Shl, Pow, Times;
    ghost var w0 := dc[co..co + n];
    SubSlice(dc[..], co, n, o, m);
    AddInto(t, to, dc, co + o, len, m);
    ghost var w1 := dc[co..co + n];
    SubSlice(dc[..], co, n, o, m);
    SegmentAdded(w0, w1, o, m, Val(t[to..to + len]));
  }

  lemma CopiedLow(low: seq<Digit>, win: seq<Digit>)
    requires |low| <= |win| && win[..|low|] == low
    requires forall k :: |low| <= k < |win| ==> win[k] == 0
    ensures Val(win) == Val(low)
  {
    assert win == low + Zeros(|win| - |low|);
    ValPadZeros(low, |win| - |low|);
  }

  /** A slice followed by zeros has the value of the slice. */
  lemma ZerosAbove(s: seq<Digit>, i: nat, n: nat, m: nat)
    requires n <= m && i + m <= |s|
    requires forall k :: i + n <= k < i + m ==> s[k] == 0
    ensures Val(s[i..i + m]) == Val(s[i..i + n])
  {
    hide Val;
    SubSlice(s, i, m, 0, n);
    CopiedLow(s[i..i + n], s[i..i + m]);
  }

  /** The low product starts the area; the rest of it is still zero. */
  method CopyLow(t: array<Digit>, dc: array<Digit>, co: nat, n: nat, ghost area: nat)
    requires t != dc && n <= t.Length && n <= area && co + area <= dc.Length
    requires forall k :: co <= k < co + area ==> dc[k] == 0
    modifies dc
    ensures Val(dc[co..co + area]) == Val(t[0..n])
    ensures forall k :: co + n <= k < co + area ==> dc[k] == 0
    ensures forall k :: 0 <= k < dc.Length && (k < co || co + area <= k) ==> dc[k] == old(dc[k])
  {
    hide Val;
    CopyDigits(t, 0, dc, co, n);
    ZerosAbove(dc[..], co, n, area);
  }

  /** Put the three partial products t1, t3, t2 together in a zeroed area of n digits. */
  method Assemble(t: array<Digit>, h: nat, dc: array<Digit>, co: nat, ghost n: nat)
    requires h >= 1 && t != dc && t.Length == 8 * h && 3 * h <= n <= 4 * h && co + 4 * h <= dc.Length
    requires forall k :: co <= k < co + n ==> dc[k] == 0
    requires Val(t[0..2 * h]) + Shl(Val(t[4 * h..6 * h + 1]), h) + Shl(Val(t[2 * h..4 * h]), 2 * h) < Pow(n)
    requires Pow(h) + Val(t[4 * h..6 * h + 1]) <= Pow(2 * h + 1)
    modifies dc
    ensures Val(dc[co..co + n]) ==
      Val(t[0..2 * h]) + Shl(Val(t[4 * h..6 * h + 1]), h) + Shl(Val(t[2 * h..4 * h]), 2 * h)
    ensures forall k :: 0 <= k < dc.Length && (k < co || co + n <= k) ==> dc[k] == old(dc[k])
  {
    hide Val, Shl, Pow, Times;
    ghost var mid, p2 := Val(t[4 * h..6 * h + 1]), Val(t[2 * h..4 * h]);
    CopyLow(t, dc, co, 2 * h, n);
    ghost var w0, m := dc[co..co + n], Min(2 * h + 1, n - h);
    MiddleFits(w0, h, m, mid);
    SubSlice(dc[..], co, n, h, m);
    AddAt(t, 4 * h, dc, co, h, 2 * h + 1, m, n);
    ghost var w1 := dc[co..co + n];
    TailFits(w1, 2 * h, p2);
    SubSlice(dc[..], co, n, 2 * h, n - 2 * h);
    AddAt(t, 2 * h, dc, co, 2 * h, 2 * h, n - 2 * h, n);
  }

  /** t = low half + high half of an n-digit operand, h + 1 digits with the carry. */
  method AddHalves(da: array<Digit>, ao: nat, h: nat, n: nat, t: array<Digit>, to: nat)
    requires da != t && h <= n <= 2 * h && ao + n <= da.Length && to + h < t.Length
    modifies t
    ensures Val(t[to..to + h + 1]) == Val(da[ao..ao + h]) + Val(da[ao + h..ao + n])
    ensures forall k :: 0 <= k < t.Length && (k < to || to + h < k) ==> t[k] == old(t[k])
  {
    hide Val, Shl, Times;
    var carry := UAdd(da, ao, da, ao + h, t, to, h, n - h);
    ValAppend(t[to..to + h], carry);
    Store(t, to, h, carry);
  }

  /** The operands of a split: halves a0, a1 and b0, b1 at digit h of two numbers, and a scratch buffer t. */
  ghost predicate SplitPre(threshold: nat, da: array<Digit>, ao: nat, db: array<Digit>, bo: nat, na: nat,
                           nb: nat, t: array<Digit>)
  {
    && (threshold == 0 || threshold >= 4) && Splits(threshold, na, nb) && nb <= na
    && ao + na <= da.Length && bo + nb <= db.Length
    && t != da && t != db && t.Length == 8 * Half(na)
  }

  /** t3 = (a1 + a0) * (b1 + b0); t1 and t2 are zero again. */
  method InnerProduct(threshold: nat, da: array<Digit>, ao: nat, db: array<Digit>, bo: nat, na: nat, nb: nat,
                      t: array<Digit>, h: nat)
    requires SplitPre(threshold, da, ao, db, bo, na, nb, t) && h == Half(na)
    requires forall k :: 0 <= k < t.Length ==> t[k] == 0
    modifies t
    ensures Val(t[4 * h..4 * h + (2 * h + 2)])
         == Times(Val(da[ao..ao + h]) + Val(da[ao + h..ao + na]), Val(db[bo..bo + h]) + Val(db[bo + h..bo + nb]))
    ensures forall k :: 0 <= k < t.Length && (k < 4 * h || 6 * h + 2 <= k) ==> t[k] == 0
    decreases na, 1
  {
    hide Val, Shl, Times;
    AddHalves(da, ao, h, na, t, 0);
    ghost var t1 := t[0..h + 1];
    AddHalves(db, bo, h, nb, t, 2 * h);
    assert t[0..h + 1] == t1;
    KMul(threshold, t, 0, t, 2 * h, t, 4 * h, h + 1, h + 1);
    ghost var t3 := t[4 * h..4 * h + (2 * h + 2)];
    ZeroDigits(t, 0, h + 1);
    ZeroDigits(t, 2 * h, h + 1);
    assert t[4 * h..4 * h + (2 * h + 2)] == t3;
  }

  method LowProduct(threshold: nat, da: array<Digit>, ao: nat, db: array<Digit>, bo: nat, t: array<Digit>, h: nat)
    requires (threshold == 0 || threshold >= 4) && h >= 2
    requires ao + h <= da.Length && bo + h <= db.Length && t != da && t != db && t.Length == 8 * h
    requires forall k :: 0 <= k < 4 * h ==> t[k] == 0
    modifies t
    ensures Val(t[0..2 * h]) == Times(Val(da[ao..ao + h]), Val(db[bo..bo + h]))
    ensures forall k :: 2 * h <= k < t.Length ==> t[k] == old(t[k])
    decreases h + 1, 0
  {
    hide Val, Times;
    KMul(threshold, da, ao, db, bo, t, 0, h, h);
    assert t[0..h + h] == t[0..2 * h];
  }

  /** t1 = a0 * b0, t2 = a1 * b1. */
  method OuterProducts(threshold: nat, da: array<Digit>, ao: nat, db: array<Digit>, bo: nat, na: nat, nb: nat,
                       t: array<Digit>, h: nat)
    requires SplitPre(threshold, da, ao, db, bo, na, nb, t) && h == Half(na)
    requires forall k :: 0 <= k < 4 * h ==> t[k] == 0
    modifies t
    ensures Val(t[0..2 * h]) == Times(Val(da[ao..ao + h]), Val(db[bo..bo + h]))
    ensures Val(t[2 * h..4 * h]) == Times(Val(da[ao + h..ao + na]), Val(db[bo + h..bo + nb]))
    ensures forall k :: 4 * h <= k < t.Length ==> t[k] == old(t[k])
    decreases na, 1
  {
    hide Val, Shl, Times;
    LowProduct(threshold, da, ao, db, bo, t, h);
    ghost var t1 := t[0..2 * h];
    var ra, rb := na - h, nb - h;
    KMul(threshold, da, ao + h, db, bo + h, t, 2 * h, ra, rb);
    assert t[0..2 * h] == t1;
    ZerosAbove(t[..], 2 * h, ra + rb, 2 * h);
  }

  lemma MiddleTerm(a0: nat, a1: nat, b0: nat, b1: nat, h: nat)
    requires a0 < Pow(h) && a1 < Pow(h) && b0 < Pow(h) && b1 < Pow(h)
    ensures Times(a0 + a1, b0 + b1) == Times(a0, b0) + Times(a1, b1) + (Times(a1, b0) + Times(a0, b1))
    ensures 0 <= Times(a0, b0) && 0 <= Times(a1, b1) && 0 <= Times(a1, b0) + Times(a0, b1)
    ensures Pow(h) + (Times(a1, b0) + Times(a0, b1)) <= Pow(2 * h + 1)
  {
    hide Pow, Times;
    TimesFoil(a0 + a1, b0 + b1, a0, a1, b0, b1);
    TimesSign(a0, b0);
    TimesSign(a1, b1);
    HalfProduct(a1, b0, h);
    HalfProduct(a0, b1, h);
    PowNext(2 * h);
    PowMono(h, 2 * h);
  }

  lemma HalfProduct(a: nat, b: nat, h: nat)
    requires a < Pow(h) && b < Pow(h)
    ensures 0 <= Times(a, b) <= Pow(2 * h)
  {
    MulMono2(a, Pow(h), b, Pow(h));
    PowAdd(h, h);
  }

  /** Subtract t1 and t2 from t3. */
  method SubtractOuter(t: array<Digit>, h: nat, ghost mid: nat)
    requires h >= 1 && t.Length == 8 * h
    requires Val(t[4 * h..4 * h + (2 * h + 2)]) == Val(t[0..2 * h]) + Val(t[2 * h..4 * h]) + mid
    requires mid < Pow(2 * h + 1)
    modifies t
    ensures Val(t[4 * h..6 * h + 1]) == mid
    ensures forall k :: 0 <= k < 4 * h ==> t[k] == old(t[k])
  {
    hide Val, Shl, Pow, Times;
    ghost var t2 := t[2 * h..4 * h];
    USub(t, 4 * h, t, 0, t, 4 * h, 2 * h + 2, 2 * h);
    assert t[2 * h..2 * h + 2 * h] == t2;
    USub(t, 4 * h, t, 2 * h, t, 4 * h, 2 * h + 2, 2 * h);
    TopDigitZero(t[4 * h..4 * h + (2 * h + 2)], 2 * h + 1);
    SubSlice(t[..], 4 * h, 2 * h + 2, 0, 2 * h + 1);
  }

  lemma TopDigitZero(s: seq<Digit>, m: nat)
    requires m <= |s| && Val(s) < Pow(m)
    ensures Val(s[0..m]) == Val(s)
  {
    hide Val, Shl, Pow, Times;
    ValSplit(s, m);
    ValBound(s[..m]);
    ShlZero(m);
    ShlUnique(Val(s[..m]), Val(s[m..]), Val(s), 0, m);
    assert s[0..m] == s[..m];
  }

  /** t3 = a1 * b0 + a0 * b1, what is left of the inner product. */
  method MiddleProduct(threshold: nat, da: array<Digit>, ao: nat, db: array<Digit>, bo: nat, na: nat, nb: nat,
                       t: array<Digit>, h: nat)
    requires SplitPre(threshold, da, ao, db, bo, na, nb, t) && h == Half(na)
    requires forall k :: 0 <= k < t.Length ==> t[k] == 0
    modifies t
    ensures Val(t[0..2 * h]) == Times(Val(da[ao..ao + h]), Val(db[bo..bo + h]))
    ensures Val(t[2 * h..4 * h]) == Times(Val(da[ao + h..ao + na]), Val(db[bo + h..bo + nb]))
    ensures Val(t[4 * h..6 * h + 1]) ==
      Times(Val(da[ao + h..ao + na]), Val(db[bo..bo + h])) + Times(Val(da[ao..ao + h]), Val(db[bo + h..bo + nb]))
    ensures Pow(h) + Val(t[4 * h..6 * h + 1]) <= Pow(2 * h + 1)
    decreases na, 2
  {
    hide Val, Shl, Pow, Times;
    ghost var a0, a1, b0, b1 :=
      Val(da[ao..ao + h]), Val(da[ao + h..ao + na]), Val(db[bo..bo + h]), Val(db[bo + h..bo + nb]);
    InnerProduct(threshold, da, ao, db, bo, na, nb, t, h);
    ghost var t3 := t[4 * h..4 * h + (2 * h + 2)];
    OuterProducts(threshold, da, ao, db, bo, na, nb, t, h);
    assert t[4 * h..4 * h + (2 * h + 2)] == t3;
    HalfBounds(da[ao..ao + h], da[ao + h..ao + na], h);
    HalfBounds(db[bo..bo + h], db[bo + h..bo + nb], h);
    MiddleTerm(a0, a1, b0, b1, h);
    ghost var t1, t2 := t[0..2 * h], t[2 * h..4 * h];
    SubtractOuter(t, h, Times(a1, b0) + Times(a0, b1));
    assert t[0..2 * h] == t1 && t[2 * h..4 * h] == t2;
  }

  lemma HalfBounds(lo: seq<Digit>, hi: seq<Digit>, h: nat)
    requires |lo| == h && |hi| <= h
    ensures Val(lo) < Pow(h) && Val(hi) < Pow(h)
  {
    hide Val, Pow;
    ValBound(lo);
    ValBound(hi);
    PowMono(|hi|, h);
  }

  /** The three partial products add up to the whole product, which fits. */
  lemma SplitTotal(x0: seq<Digit>, x1: seq<Digit>, y0: seq<Digit>, y1: seq<Digit>, h: nat, n: nat)
    requires |x0| == |y0| == h && n == 2 * h + |x1| + |y1|
    ensures Times(Val(x0), Val(y0)) + Shl(Times(Val(x1), Val(y0)) + Times(Val(x0), Val(y1)), h)
      + Shl(Times(Val(x1), Val(y1)), 2 * h)
         == Times(Val(x0 + x1), Val(y0 + y1)) < Pow(n)
  {
    hide Val, Shl, Pow, Times;
    ValConcat(x0, x1);
    ValConcat(y0, y1);
    SplitProduct(Val(x0 + x1), Val(y0 + y1), Val(x0), Val(x1), Val(y0), Val(y1), h);
    ProductBound(x0 + x1, y0 + y1);
  }

  lemma ProductBound(x: seq<Digit>, y: seq<Digit>)
    ensures 0 <= Times(Val(x), Val(y)) < Pow(|x| + |y|)
  {
    hide Val, Pow;
    var p, q := Pow(|x|), Pow(|y|);
    ValBound(x);
    ValBound(y);
    MulMono2(Val(x), p - 1, Val(y), q - 1);
    PowAdd(|x|, |y|);
    TimesFoil(p - 1, q - 1, p, -1, q, -1);
  }

  method KMulSplit(threshold: nat, da: array<Digit>, ao: nat, db: array<Digit>, bo: nat, dc: array<Digit>,
                   co: nat, na: nat, nb: nat)
    requires threshold == 0 || threshold >= 4
    requires nb <= na && Splits(threshold, na, nb)
    requires ao + na <= da.Length && bo + nb <= db.Length && co + 4 * Half(na) <= dc.Length
    requires forall k :: co <= k < co + na + nb ==> dc[k] == 0
    modifies dc
    ensures Val(dc[co..co + (na + nb)]) == Times(old(Val(da[ao..ao + na])), old(Val(db[bo..bo + nb])))
    ensures forall k :: 0 <= k < dc.Length && (k < co || co + (na + nb) <= k) ==> dc[k] == old(dc[k])
    decreases na, 3
  {
    hide Val, Shl, Pow, Times;
    var h := Half(na);
    var t := new Digit[8 * h](_ => 0);
    MiddleProduct(threshold, da, ao, db, bo, na, nb, t, h);
    SplitTotal(da[ao..ao + h], da[ao + h..ao + na], db[bo..bo + h], db[bo + h..bo + nb], h, na + nb);
    SplitSlice(da[..], ao, na, h);
    SplitSlice(db[..], bo, nb, h);
    Assemble(t, h, dc, co, na + nb);
  }

  /** s_kmul: dc gets da * db in na + nb digits; later digits keep their value. */
  method KMul(threshold: nat, da: array<Digit>, ao: nat, db: array<Digit>, bo: nat, dc: array<Digit>, co: nat,
              na: nat, nb: nat)
    requires threshold == 0 || threshold >= 4
    requires ao + na <= da.Length && bo + nb <= db.Length && co + Touched(threshold, na, nb) <= dc.Length
    requires da != dc || ao + na <= co || co + Touched(threshold, na, nb) <= ao
    requires db != dc || bo + nb <= co || co + Touched(threshold, na, nb) <= bo
    requires forall k :: co <= k < co + na + nb ==> dc[k] == 0
    modifies dc
    ensures Val(dc[co..co + (na + nb)]) == Times(old(Val(da[ao..ao + na])), old(Val(db[bo..bo + nb])))
    ensures forall k :: 0 <= k < dc.Length && (k < co || co + (na + nb) <= k) ==> dc[k] == old(dc[k])
    decreases Max(na, nb), if na < nb then 5 else 4
  {
    hide Val, Shl, Pow, Times;
    if nb > na {
      TimesSign(Val(da[ao..ao + na]), Val(db[bo..bo + nb]));
      KMul(threshold, db, bo, da, ao, dc, co, nb, na);
    } else if Splits(threshold, na, nb) {
      KMulSplit(threshold, da, ao, db, bo, dc, co, na, nb);
    } else {
      UMul(da, ao, db, bo, dc, co, na, nb);
    }
  }
}
