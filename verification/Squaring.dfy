/**
 s_usqr and s_ksqr: squaring on digit buffers.  The inner step of s_usqr needs
 one bit more than the 64-bit word the C code uses; words are reduced modulo
 WORD here exactly where the C code's uint64 arithmetic wraps.
 */
module Squaring {
  import opened Arithmetic
  import opened Digits
  import opened UnsignedKernel
  import opened Karatsuba

  const WORD: int := 0x1_0000_0000_0000_0000

  /** uint64 addition. */
  function WordAdd(a: nat, b: nat): (w: nat)
    ensures w < WORD
  {
    (a + b) % WORD
  }

  predicate HighBitSet(w: nat) {
    w / 0x8000_0000_0000_0000 != 0
  }

  predicate AddWillOverflow(w: nat, v: nat) {
    WORD - 1 - v < w
  }

  /**
   One column of a squaring row in wrapping words: t is doubled and u added; the
   flag ov records whether either addition wrapped.
   */
  method DoubleColumn(t: nat, u: nat) returns (w: nat, ov: bool)
    requires t <= (BASE - 1) * (BASE - 1) && u <= 3 * BASE - 2
    ensures w < WORD && 2 * t + u == w + if ov then WORD else 0
  {
    ov := HighBitSet(t);
    w := WordAdd(t, t);
    if AddWillOverflow(w, u) {
      ov := true;
    }
    w := WordAdd(w, u);
  }

  /** The digits stored so far and the carry w are z plus d * (d + 2 * BASE * xs). */
  ghost predicate SqrRow(d: Digit, xs: seq<Digit>, z: seq<Digit>, out: seq<Digit>, w: nat)
    requires 1 <= |out| <= |z| && |out| - 1 <= |xs|
  {
    w < 2 * BASE && Val(out) + Shl(w, |out|) == Val(z[..|out|]) + RowValue(d, xs[..|out| - 1])
  }

  /** What a row adds: the square of d and twice d times the digits above it. */
  function RowValue(d: Digit, xs: seq<Digit>): (v: nat) {
    Times(d as int, d as int) + 2 * Times(d as int, BASE * Val(xs))
  }

  lemma SqrRowStart(d: Digit, xs: seq<Digit>, z: seq<Digit>, word: nat)
    requires |z| >= 1 && word == Times(d as int, d as int) + z[0] as int
    ensures SqrRow(d, xs, z, [Lower(word)], Upper(word))
  {
    hide Times, Lower, Upper, RowValue;
    DigitProduct(d, d);
    WordCarry(word);
    Column([], word);
    assert [] + [Lower(word)] == [Lower(word)];
    NoRowYet(d, xs, z);
  }

  lemma NoRowYet(d: Digit, xs: seq<Digit>, z: seq<Digit>)
    requires |z| >= 1
    ensures RowValue(d, xs[..0]) == Times(d as int, d as int) && Val(z[..1]) == z[0] as int
  {
    assert z[..1][1..] == [];
  }

  lemma RowValueStep(d: Digit, xs: seq<Digit>, k: nat)
    requires k < |xs|
    ensures RowValue(d, xs[..k + 1]) == RowValue(d, xs[..k]) + Shl(2 * Times(d as int, xs[k] as int), k + 1)
  {
    hide Val, Shl, Times;
    var e := xs[k] as int;
    var p := Times(d as int, e);
    ValStep(xs, k);
    ShlNext(e, k);
    TimesSum(d as int, BASE * Val(xs[..k + 1]), BASE * Val(xs[..k]), Shl(e, k + 1));
    ShlTimes(d as int, e, k + 1);
    ShlSum(2 * p, p, p, k + 1);
  }

  lemma SqrRowStep(d: Digit, xs: seq<Digit>, z: seq<Digit>, out: seq<Digit>, w: nat, word: nat)
    requires 1 <= |out| < |z| && |out| - 1 < |xs|
    requires SqrRow(d, xs, z, out, w)
    requires word == 2 * Times(d as int, xs[|out| - 1] as int) + (w + z[|out|] as int)
    requires word < 2 * WORD
    ensures SqrRow(d, xs, z, out + [Lower(word)], Upper(word))
  {
    hide Val, Shl, RowValue, Lower, Upper, Times;
    var n := |out|;
    var p := 2 * Times(d as int, xs[n - 1] as int);
    Column(out, word);
    ShlSum(word, p, w + z[n] as int, n);
    ShlSum(w + z[n] as int, w, z[n] as int, n);
    ValStep(z, n);
    RowValueStep(d, xs, n - 1);
    UpperBound(word);
  }

  lemma UpperBound(w: nat)
    requires w < 2 * WORD
    ensures Upper(w) < 2 * BASE
  {}

  /** The digit products of one row: da[ia] against itself and every digit up to da[ia + len). */
  method SqrColumns(da: array<Digit>, ia: nat, len: nat, dc: array<Digit>, ro: nat) returns (w: nat)
    requires 1 <= len && ia + len <= da.Length && ro + len <= dc.Length
    requires da != dc || ia + len <= ro || ro + len <= ia
    modifies dc
    ensures SqrRow(old(da[ia]), old(da[ia + 1..ia + len]), old(dc[ro..ro + len]), dc[ro..ro + len], w)
    ensures forall k :: 0 <= k < dc.Length && (k < ro || ro + len <= k) ==> dc[k] == old(dc[k])
  {
    hide Val, Shl, RowValue, Lower, Upper, SqrRow, Times;
    var d := da[ia];
    ghost var xs, z := da[ia + 1..ia + len], dc[ro..ro + len];
    DigitProduct(d, d);
    var word := Times(d as int, d as int) + dc[ro] as int;
    SqrRowStart(d, xs, z, word);
    Store(dc, ro, 0, Lower(word));
    assert dc[ro..ro + 1] == [Lower(word)];
    w := Upper(word);
    var j := 1;
    while j < len
      invariant 1 <= j <= len
      invariant SqrRow(d, xs, z, dc[ro..ro + j], w)
      invariant forall k :: 0 <= k < dc.Length && (k < ro || ro + j <= k) ==> dc[k] == old(dc[k])
    {
      assert da[ia + j] == xs[j - 1] && dc[ro + j] == z[j];
      var word, carry := SqrStep(d, da[ia + j], w, dc[ro + j], xs, z, dc[ro..ro + j]);
      Store(dc, ro, j, word);
      w := carry;
      j := j + 1;
    }
  }

  /** One pass of the inner loop: the digit to store and the carry, which may need 33 bits. */
  method SqrStep(d: Digit, e: Digit, w: nat, c: Digit, ghost xs: seq<Digit>, ghost z: seq<Digit>, ghost out: seq<Digit>)
    returns (lo: Digit, hi: nat)
    requires 1 <= |out| < |z| && |out| - 1 < |xs| && e == xs[|out| - 1] && c == z[|out|]
    requires SqrRow(d, xs, z, out, w)
    ensures SqrRow(d, xs, z, out + [lo], hi)
  {
    hide Val, Shl, RowValue, Times, Lower, Upper;
    DigitProduct(d, e);
    var t := Times(d as int, e as int);
    var u := w + c as int;
    var v, ov := DoubleColumn(t, u);
    lo := Lower(v);
    hi := Upper(v);
    if ov {
      hi := hi + (BASE - 1);
      hi := hi + 1;
    }
    OverflowRepaired(v, ov, 2 * t + u);
    SqrRowStep(d, xs, z, out, w, 2 * t + u);
  }

  /** The flag stands for one whole word, that is BASE in the carry. */
  lemma OverflowRepaired(v: nat, ov: bool, word: nat)
    requires v < WORD && word == v + if ov then WORD else 0
    ensures Lower(word) == Lower(v) && Upper(word) == Upper(v) + if ov then BASE else 0
    ensures word < 2 * WORD
  {}

  /** The digits stored so far and the carry w are z plus r. */
  ghost predicate Carried(r: int, z: seq<Digit>, out: seq<Digit>, w: nat)
    requires |out| <= |z|
  {
    Val(out) + Shl(w, |out|) == Val(z[..|out|]) + r
  }

  lemma CarriedStep(r: int, z: seq<Digit>, out: seq<Digit>, w: nat, word: nat)
    requires |out| < |z| && Carried(r, z, out, w) && word == w + z[|out|] as int
    ensures Carried(r, z, out + [Lower(word)], Upper(word))
  {
    hide Val, Shl, Lower, Upper;
    Column(out, word);
    ValStep(z, |out|);
    ShlSum(word, w, z[|out|] as int, |out|);
  }

  /** A carry that is still pending has a digit left to go to. */
  lemma CarryHasRoom(r: int, z: seq<Digit>, out: seq<Digit>, w: nat)
    requires |out| <= |z| && Carried(r, z, out, w) && w != 0
    requires Val(z) + r < Pow(|z|)
    ensures |out| < |z|
  {
    hide Val, Shl, Pow;
    if |out| == |z| {
      assert z[..|out|] == z;
      ShlZero(|out|);
      ShlMono(1, w, |out|);
    }
  }

  /** Nothing pending: the digits above are as they were and the whole sum is in place. */
  lemma CarriedAll(r: int, z: seq<Digit>, z': seq<Digit>, n: nat)
    requires n <= |z| == |z'| && Carried(r, z, z'[..n], 0)
    requires z'[n..] == z[n..]
    ensures Val(z') == Val(z) + r
  {
    hide Val, Shl;
    ShlZero(n);
    ValSplit(z, n);
    ValSplit(z', n);
  }

  /** Let the carry of a row run up through the digits above it. */
  method SqrCarry(dc: array<Digit>, ro: nat, len: nat, c: nat, ghost z: seq<Digit>, ghost r: int)
    requires len < |z| && ro + |z| <= dc.Length
    requires forall k :: ro + len <= k < ro + |z| ==> dc[k] == z[k - ro]
    requires Carried(r, z, dc[ro..ro + len], c) && Val(z) + r < Pow(|z|)
    modifies dc
    ensures Val(dc[ro..ro + |z|]) == Val(z) + r
    ensures forall k :: 0 <= k < dc.Length && (k < ro || ro + |z| <= k) ==> dc[k] == old(dc[k])
  {
    hide Val, Shl, Pow, Lower, Upper, Carried;
    var w: nat, pos := c + dc[ro + len] as int, len;
    CarriedStep(r, z, dc[ro..ro + len], c, w);
    Store(dc, ro, pos, Lower(w));
    w, pos := Upper(w), pos + 1;
    while w != 0
      invariant len < pos <= |z|
      invariant Carried(r, z, dc[ro..ro + pos], w)
      invariant forall k :: 0 <= k < dc.Length && (k < ro || ro + pos <= k) ==> dc[k] == old(dc[k])
      decreases |z| - pos
    {
      CarryHasRoom(r, z, dc[ro..ro + pos], w);
      assert dc[ro + pos] == z[pos];
      CarriedStep(r, z, dc[ro..ro + pos], w, w + dc[ro + pos] as int);
      w := w + dc[ro + pos] as int;
      Store(dc, ro, pos, Lower(w));
      w, pos := Upper(w), pos + 1;
    }
    SubSlice(dc[..], ro, |z|, 0, pos);
    CarriedAll(r, z, dc[ro..ro + |z|], pos);
  }

  lemma RowCarried(d: Digit, xs: seq<Digit>, z: seq<Digit>, z0: seq<Digit>, out: seq<Digit>, w: nat)
    requires |xs| + 1 == |out| == |z0| <= |z| && z0 == z[..|out|]
    requires SqrRow(d, xs, z0, out, w)
    ensures Carried(RowValue(d, xs), z, out, w)
  {
    hide Val, Shl, RowValue;
    assert z0[..|out|] == z[..|out|] && xs[..|out| - 1] == xs;
  }

  /** Row i of s_usqr inside the remaining m digits of the square. */
  method SqrRowInto(da: array<Digit>, ia: nat, len: nat, dc: array<Digit>, ro: nat, ghost m: nat)
    requires 1 <= len < m && ia + len <= da.Length && ro + m <= dc.Length
    requires da != dc || ia + len <= ro || ro + m <= ia
    requires Val(dc[ro..ro + m]) + RowValue(da[ia], da[ia + 1..ia + len]) < Pow(m)
    modifies dc
    ensures Val(dc[ro..ro + m]) == old(Val(dc[ro..ro + m])) + old(RowValue(da[ia], da[ia + 1..ia + len]))
    ensures forall k :: 0 <= k < dc.Length && (k < ro || ro + m <= k) ==> dc[k] == old(dc[k])
  {
    hide Val, Shl, Pow, RowValue;
    if da[ia] == 0 {
      RowValueZero(da[ia + 1..ia + len]);
      return;
    }
    ghost var r, z := RowValue(da[ia], da[ia + 1..ia + len]), dc[ro..ro + m];
    var w := SqrColumns(da, ia, len, dc, ro);
    SubSlice(old(dc[..]), ro, m, 0, len);
    RowCarried(old(da[ia]), old(da[ia + 1..ia + len]), z, old(dc[ro..ro + len]), dc[ro..ro + len], w);
    SqrCarry(dc, ro, len, w, z, r);
  }

  lemma RowValueZero(xs: seq<Digit>)
    ensures RowValue(0, xs) == 0
  {}

  lemma SquareHead(x: int, d: Digit, xs: seq<Digit>)
    requires x == d as int + BASE * Val(xs)
    ensures Times(x, x) == RowValue(d, xs) + BASE * (BASE * Times(Val(xs), Val(xs)))
  {
    hide Val;
    TimesFoil(x, x, d as int, BASE * Val(xs), d as int, BASE * Val(xs));
  }

  /** What the digits from i on contribute to the square. */
  function Rest(x: seq<Digit>, i: nat): (r: int)
    requires i <= |x|
  {
    Shl(Times(Val(x[i..]), Val(x[i..])), 2 * i)
  }

  /** Row i moves its share from the rest into the accumulated digits. */
  lemma RestStep(x: seq<Digit>, i: nat)
    requires i < |x|
    ensures Rest(x, i) == Shl(RowValue(x[i], x[i + 1..]), 2 * i) + Rest(x, i + 1)
    ensures 0 <= Rest(x, i + 1)
  {
    hide Val, Shl, RowValue, Times;
    var v := Times(Val(x[i + 1..]), Val(x[i + 1..]));
    ValHead(x, i);
    SquareHead(Val(x[i..]), x[i], x[i + 1..]);
    TimesSign(Val(x[i + 1..]), Val(x[i + 1..]));
    ShlSum(Times(Val(x[i..]), Val(x[i..])), RowValue(x[i], x[i + 1..]), BASE * (BASE * v), 2 * i);
    ShlNext(v, 2 * i + 1);
    ShlNext(BASE * v, 2 * i);
  }

  lemma RestEnds(x: seq<Digit>)
    ensures Rest(x, 0) == Times(Val(x), Val(x)) && Rest(x, |x|) == 0
  {
    assert x[0..] == x && x[|x|..] == [];
  }

  /** s_usqr: the square of na digits in a zeroed area of twice as many. */
  method USqr(da: array<Digit>, ao: nat, dc: array<Digit>, co: nat, na: nat)
    requires ao + na <= da.Length && co + 2 * na <= dc.Length
    requires da != dc || ao + na <= co || co + 2 * na <= ao
    requires forall k :: co <= k < co + 2 * na ==> dc[k] == 0
    modifies dc
    ensures Val(dc[co..co + 2 * na]) == Times(old(Val(da[ao..ao + na])), old(Val(da[ao..ao + na])))
    ensures forall k :: 0 <= k < dc.Length && (k < co || co + 2 * na <= k) ==> dc[k] == old(dc[k])
  {
    hide Val, Shl, Pow, RowValue, Rest, Times;
    ghost var x := da[ao..ao + na];
    AllZero(dc[co..co + 2 * na]);
    RestEnds(x);
    ProductBound(x, x);
    ghost var square := Times(Val(x), Val(x));
    var i := 0;
    while i < na
      invariant 0 <= i <= na
      invariant Val(dc[co..co + 2 * na]) == square - Rest(x, i)
      invariant forall k :: 0 <= k < dc.Length && (k < co || co + 2 * na <= k) ==> dc[k] == old(dc[k])
    {
      RestStep(x, i);
      assert da[ao + i] == x[i] && da[ao + i + 1..ao + i + (na - i)] == x[i + 1..];
      SqrRowAt(da, ao + i, na - i, dc, co, 2 * i, 2 * na);
      i := i + 1;
    }
  }

  lemma AllZero(s: seq<Digit>)
    requires forall k :: 0 <= k < |s| ==> s[k] == 0
    ensures Val(s) == 0
  {
    assert s == Zeros(|s|);
    ValZeros(s);
  }

  /** A row at digit o of the n-digit area at co. */
  method SqrRowAt(da: array<Digit>, ia: nat, len: nat, dc: array<Digit>, co: nat, o: nat, ghost n: nat)
    requires 1 <= len && o + 2 * len == n && ia + len <= da.Length && co + n <= dc.Length
    requires da != dc || ia + len <= co || co + n <= ia
    requires Val(dc[co..co + n]) + Shl(RowValue(da[ia], da[ia + 1..ia + len]), o) < Pow(n)
    modifies dc
    ensures Val(dc[co..co + n]) == old(Val(dc[co..co + n])) + Shl(old(RowValue(da[ia], da[ia + 1..ia + len])), o)
    ensures forall k :: 0 <= k < dc.Length && (k < co || co + n <= k) ==> dc[k] == old(dc[k])
  {
    hide Val, Shl, Pow, RowValue;
    ghost var r, m := RowValue(da[ia], da[ia + 1..ia + len]), n - o;
    ghost var w0 := dc[co..co + n];
    SubSlice(dc[..], co, n, o, m);
    TailFits(w0, o, r);
    SqrRowInto(da, ia, len, dc, co + o, m);
    ghost var w1 := dc[co..co + n];
    SubSlice(dc[..], co, n, o, m);
    assert forall k :: 0 <= k < o ==> w0[k] == w1[k];
    assert w0[..o] == w1[..o];
    assert w0[o + m..] == [] && w1[o + m..] == [];
    SegmentAdded(w0, w1, o, m, r);
  }

  /** Whether s_ksqr splits, and how many digits of the destination it touches. */
  predicate SqrSplits(threshold: nat, n: nat) {
    threshold != 0 && n > threshold
  }

  function SqrTouched(threshold: nat, n: nat): (t: nat)
    ensures 2 * n <= t
  {
    if SqrSplits(threshold, n) then 4 * Half(n) else 2 * n
  }

  /** The digits stored so far and the shifted-out bit are twice the low digits of x. */
  ghost predicate Doubled(x: seq<Digit>, out: seq<Digit>, save: nat)
    requires |out| <= |x|
  {
    save <= 1 && Val(out) + Shl(save, |out|) == 2 * Val(x[..|out|])
  }

  lemma DoubledStep(x: seq<Digit>, out: seq<Digit>, save: nat, w: nat)
    requires |out| < |x| && Doubled(x, out, save) && w == 2 * x[|out|] as int + save
    ensures Doubled(x, out + [Lower(w)], Upper(w))
  {
    hide Val, Shl, Lower, Upper;
    var n, d := |out|, x[|out|] as int;
    Column(out, w);
    CarrySmall(w);
    ValStep(x, n);
    ShlSum(w, d + d, save, n);
    ShlSum(d + d, d, d, n);
  }

  lemma DoubledStart(x: seq<Digit>)
    ensures Doubled(x, [], 0)
  {}

  /** Shift top digits left by one bit; the digit above takes the bit shifted out. */
  method Double(t: array<Digit>, o: nat, top: nat)
    requires o + top < t.Length
    modifies t
    ensures Val(t[o..o + (top + 1)]) == 2 * old(Val(t[o..o + top]))
    ensures forall k :: 0 <= k < t.Length && (k < o || o + top < k) ==> t[k] == old(t[k])
  {
    hide Val, Shl, Lower, Upper;
    ghost var x := t[o..o + top];
    DoubledStart(x);
    var save: nat, i := 0, 0;
    while i < top
      invariant 0 <= i <= top
      invariant Doubled(x, t[o..o + i], save)
      invariant forall k :: 0 <= k < t.Length && (k < o || o + i <= k) ==> t[k] == old(t[k])
    {
      assert t[o + i] == x[i];
      var w := 2 * t[o + i] as int + save;
      DoubledStep(x, t[o..o + i], save, w);
      Store(t, o, i, Lower(w));
      save := Upper(w);
      i := i + 1;
    }
    assert x[..top] == x;
    ValAppend(t[o..o + top], save as Digit);
    Store(t, o, top, save as Digit);
  }

  /** The partial products of a split square: t1 = a0^2, t2 = a1^2, t3 = 2 * a0 * a1. */
  method SquareParts(threshold: nat, da: array<Digit>, ao: nat, na: nat, t: array<Digit>, h: nat)
    requires (threshold == 0 || threshold >= 4) && SqrSplits(threshold, na) && h == Half(na)
    requires ao + na <= da.Length && t != da && t.Length == 8 * h
    requires forall k :: 0 <= k < t.Length ==> t[k] == 0
    modifies t
    ensures Val(t[0..2 * h]) == Times(Val(da[ao..ao + h]), Val(da[ao..ao + h]))
    ensures Val(t[2 * h..4 * h]) == Times(Val(da[ao + h..ao + na]), Val(da[ao + h..ao + na]))
    ensures Val(t[4 * h..6 * h + 1]) == 2 * Times(Val(da[ao..ao + h]), Val(da[ao + h..ao + na]))
    decreases na, 0
  {
    hide Val, Shl, Times;
    var r := na - h;
    KSqr(threshold, da, ao, t, 0, h);
    ghost var t1 := t[0..2 * h];
    KSqr(threshold, da, ao + h, t, 2 * h, r);
    ZerosAbove(t[..], 2 * h, 2 * r, 2 * h);
    ghost var t2 := t[2 * h..4 * h];
    assert t[0..2 * h] == t1;
    CrossProduct(threshold, da, ao, na, t, h, r);
    assert t[0..2 * h] == t1 && t[2 * h..4 * h] == t2;
  }

  method CrossProduct(threshold: nat, da: array<Digit>, ao: nat, na: nat, t: array<Digit>, h: nat, r: nat)
    requires (threshold == 0 || threshold >= 4) && 1 <= r <= h && na == h + r
    requires ao + na <= da.Length && t != da && t.Length == 8 * h
    requires forall k :: 4 * h <= k < t.Length ==> t[k] == 0
    modifies t
    ensures Val(t[4 * h..6 * h + 1]) == 2 * Times(Val(da[ao..ao + h]), Val(da[ao + h..ao + na]))
    ensures forall k :: 0 <= k < 4 * h ==> t[k] == old(t[k])
  {
    hide Val, Shl, Times;
    KMul(threshold, da, ao, da, ao + h, t, 4 * h, h, r);
    Double(t, 4 * h, h + r);
    ZerosAbove(t[..], 4 * h, h + r + 1, 2 * h + 1);
    assert t[4 * h..6 * h + 1] == t[4 * h..4 * h + (2 * h + 1)];
  }

  /** s_ksqr: dc gets the square of da in 2 * na digits; later digits keep their value. */
  method KSqr(threshold: nat, da: array<Digit>, ao: nat, dc: array<Digit>, co: nat, na: nat)
    requires threshold == 0 || threshold >= 4
    requires ao + na <= da.Length && co + SqrTouched(threshold, na) <= dc.Length
    requires da != dc || ao + na <= co || co + SqrTouched(threshold, na) <= ao
    requires forall k :: co <= k < co + 2 * na ==> dc[k] == 0
    modifies dc
    ensures Val(dc[co..co + 2 * na]) == Times(old(Val(da[ao..ao + na])), old(Val(da[ao..ao + na])))
    ensures forall k :: 0 <= k < dc.Length && (k < co || co + 2 * na <= k) ==> dc[k] == old(dc[k])
    decreases na, 2
  {
    hide Val, Shl, Pow, Times;
    if SqrSplits(threshold, na) {
      KSqrSplit(threshold, da, ao, dc, co, na);
    } else {
      USqr(da, ao, dc, co, na);
    }
  }

  method KSqrSplit(threshold: nat, da: array<Digit>, ao: nat, dc: array<Digit>, co: nat, na: nat)
    requires (threshold == 0 || threshold >= 4) && SqrSplits(threshold, na)
    requires ao + na <= da.Length && co + 4 * Half(na) <= dc.Length
    requires forall k :: co <= k < co + 2 * na ==> dc[k] == 0
    modifies dc
    ensures Val(dc[co..co + 2 * na]) == Times(old(Val(da[ao..ao + na])), old(Val(da[ao..ao + na])))
    ensures forall k :: 0 <= k < dc.Length && (k < co || co + 2 * na <= k) ==> dc[k] == old(dc[k])
    decreases na, 1
  {
    hide Val, Shl, Pow, Times;
    var h := Half(na);
    var t := new Digit[8 * h](_ => 0);
    SquareParts(threshold, da, ao, na, t, h);
    ghost var x0, x1 := da[ao..ao + h], da[ao + h..ao + na];
    SplitSlice(da[..], ao, na, h);
    SquareTotal(x0, x1, h);
    Assemble(t, h, dc, co, 2 * na);
  }

  lemma SquareTotal(x0: seq<Digit>, x1: seq<Digit>, h: nat)
    requires |x0| == h && |x1| <= h
    ensures Times(Val(x0), Val(x0)) + Shl(2 * Times(Val(x0), Val(x1)), h) + Shl(Times(Val(x1), Val(x1)), 2 * h)
         == Times(Val(x0 + x1), Val(x0 + x1)) < Pow(2 * (h + |x1|))
    ensures Pow(h) + 2 * Times(Val(x0), Val(x1)) <= Pow(2 * h + 1)
  {
    hide Val, Shl, Pow, Times;
    HalfBounds(x0, x1, h);
    MiddleTerm(Val(x0), Val(x1), Val(x0), Val(x1), h);
    SplitTotal(x0, x1, x0, x1, h, 2 * (h + |x1|));
    TimesSign(Val(x0), Val(x1));
  }
}
