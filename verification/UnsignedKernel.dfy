/**
 The in-place digit loops at the bottom of imath.  A C pointer into a digit
 buffer is an array together with an offset; several operands may be slices of
 one buffer.
 */
module UnsignedKernel {
  import opened Arithmetic
  import opened Digits

  /** Slices of n and m digits at two pointers that start at the same digit or share none. */
  ghost predicate Apart(da: array<Digit>, ao: nat, n: nat, dc: array<Digit>, co: nat, m: nat) {
    da != dc || ao == co || ao + n <= co || co + m <= ao
  }

  function Lower(w: nat): (d: Digit) {
    (w % BASE) as Digit
  }

  function Upper(w: nat): (u: nat) {
    w / BASE
  }

  /** Store one digit behind a slice of pos digits. */
  method Store(dc: array<Digit>, co: nat, pos: nat, d: Digit)
    requires co + pos < dc.Length
    modifies dc
    ensures dc[co..co + pos + 1] == old(dc[co..co + pos]) + [d]
    ensures forall k :: 0 <= k < dc.Length && k != co + pos ==> dc[k] == old(dc[k])
  {
    dc[co + pos] := d;
  }

  /** One column of a carry loop: a word splits into the digit stored and the carry kept. */
  lemma Column(out: seq<Digit>, w: nat)
    ensures Val(out + [Lower(w)]) + Shl(Upper(w), |out| + 1) == Val(out) + Shl(w, |out|)
  {
    hide Shl, Val;
    var lo, hi := Lower(w) as int, Upper(w);
    ValAppend(out, Lower(w));
    ShlSum(w, lo, BASE * hi, |out|);
    ShlNext(hi, |out|);
  }

  /** The low n digits of y; a shorter string is its own prefix. */
  function Prefix(y: seq<Digit>, n: nat): (r: seq<Digit>) {
    if n <= |y| then y[..n] else y
  }

  function DigitAt(y: seq<Digit>, n: nat): (d: nat)
    ensures d < BASE
  {
    if n < |y| then y[n] as int else 0
  }

  lemma PrefixStep(y: seq<Digit>, n: nat)
    ensures Val(Prefix(y, n + 1)) == Val(Prefix(y, n)) + Shl(DigitAt(y, n), n)
  {
    hide Val, Shl;
    if n < |y| {
      ValStep(y, n);
    } else {
      assert n == |y| ==> y[..n] == y;
      ShlZero(n);
    }
  }

  /** The digits stored so far and the carry w are the sum of the low digits of x and y. */
  ghost predicate Added(x: seq<Digit>, y: seq<Digit>, out: seq<Digit>, w: nat) {
    w <= 1 && Val(out) + Shl(w, |out|) == Val(Prefix(x, |out|)) + Val(Prefix(y, |out|))
  }

  lemma CarrySmall(sum: nat)
    requires sum < 2 * BASE
    ensures Upper(sum) <= 1
  {}

  lemma AddedStep(x: seq<Digit>, y: seq<Digit>, out: seq<Digit>, w: nat, sum: nat)
    requires Added(x, y, out, w)
    requires sum == w + DigitAt(x, |out|) + DigitAt(y, |out|)
    ensures Added(x, y, out + [Lower(sum)], Upper(sum))
  {
    hide Val, Shl, Prefix, DigitAt, Lower, Upper;
    var n := |out|;
    var c, d := DigitAt(x, n), DigitAt(y, n);
    CarrySmall(sum);
    Column(out, sum);
    ShlSum(sum, w + c, d, n);
    ShlSum(w + c, w, c, n);
    PrefixStep(x, n);
    PrefixStep(y, n);
  }

  lemma Nothing(x: seq<Digit>, y: seq<Digit>)
    ensures Added(x, y, [], 0) && Subtracted(x, y, [], 0)
  {}

  /** s_uadd: dc = da + db over max(na, nb) digits; the carry out is returned. */
  method UAdd(da: array<Digit>, ao: nat, db: array<Digit>, bo: nat, dc: array<Digit>, co: nat, na: nat, nb: nat)
    returns (carry: Digit)
    requires ao + na <= da.Length && bo + nb <= db.Length && co + Max(na, nb) <= dc.Length
    requires Apart(da, ao, na, dc, co, Max(na, nb)) && Apart(db, bo, nb, dc, co, Max(na, nb))
    modifies dc
    ensures carry <= 1
    ensures Val(dc[co..co + Max(na, nb)]) + Shl(carry as int, Max(na, nb))
         == old(Val(da[ao..ao + na])) + old(Val(db[bo..bo + nb]))
    ensures forall k :: 0 <= k < dc.Length && (k < co || co + Max(na, nb) <= k) ==> dc[k] == old(dc[k])
    decreases na < nb
  {
    hide Val, Shl;
    if nb > na {
      carry := UAdd(db, bo, da, ao, dc, co, nb, na);
    } else {
      ghost var x, y := da[ao..ao + na], db[bo..bo + nb];
      var w := AddColumns(da, ao, db, bo, dc, co, na, nb);
      w := PropagateCarry(da, ao, dc, co, nb, na, x, y, w);
      assert x[..na] == x && y[..nb] == y;
      carry := w as Digit;
    }
  }

  /** The digits both operands have. */
  method AddColumns(da: array<Digit>, ao: nat, db: array<Digit>, bo: nat, dc: array<Digit>, co: nat, na: nat, nb: nat)
    returns (w: nat)
    requires nb <= na && ao + na <= da.Length && bo + nb <= db.Length && co + na <= dc.Length
    requires Apart(da, ao, na, dc, co, na) && Apart(db, bo, nb, dc, co, na)
    modifies dc
    ensures Added(old(da[ao..ao + na]), old(db[bo..bo + nb]), dc[co..co + nb], w)
    ensures forall k :: 0 <= k < dc.Length && (k < co || co + nb <= k) ==> dc[k] == old(dc[k])
  {
    ghost var x, y := da[ao..ao + na], db[bo..bo + nb];
    hide Val, Shl, Lower, Upper;
    Nothing(x, y);
    w := 0;
    var pos := 0;
    while pos < nb
      invariant 0 <= pos <= nb
      invariant Added(x, y, dc[co..co + pos], w)
      invariant forall k :: 0 <= k < dc.Length && (k < co || co + pos <= k) ==> dc[k] == old(dc[k])
    {
      assert da[ao + pos] == x[pos] && db[bo + pos] == y[pos];
      var sum := w + da[ao + pos] as int + db[bo + pos] as int;
      AddedStep(x, y, dc[co..co + pos], w, sum);
      Store(dc, co, pos, Lower(sum));
      w := Upper(sum);
      pos := pos + 1;
    }
  }

  /** The digits only the longer operand has. */
  method PropagateCarry(da: array<Digit>, ao: nat, dc: array<Digit>, co: nat, start: nat, na: nat,
                        ghost x: seq<Digit>, ghost y: seq<Digit>, c: nat)
    returns (w: nat)
    requires start == |y| <= na == |x| && ao + na <= da.Length && co + na <= dc.Length
    requires Apart(da, ao, na, dc, co, na)
    requires forall k :: ao + start <= k < ao + na ==> da[k] == x[k - ao]
    requires Added(x, y, dc[co..co + start], c)
    modifies dc
    ensures Added(x, y, dc[co..co + na], w)
    ensures forall k :: 0 <= k < dc.Length && (k < co + start || co + na <= k) ==> dc[k] == old(dc[k])
  {
    hide Val, Shl, Lower, Upper;
    w := c;
    var pos := start;
    while pos < na
      invariant start <= pos <= na
      invariant Added(x, y, dc[co..co + pos], w)
      invariant forall k :: 0 <= k < dc.Length && (k < co + start || co + pos <= k) ==> dc[k] == old(dc[k])
    {
      assert da[ao + pos] == x[pos];
      var sum := w + da[ao + pos] as int;
      AddedStep(x, y, dc[co..co + pos], w, sum);
      Store(dc, co, pos, Lower(sum));
      w := Upper(sum);
      pos := pos + 1;
    }
  }

  /** The digits stored so far less the borrow w are the difference of the low digits of x and y. */
  ghost predicate Subtracted(x: seq<Digit>, y: seq<Digit>, out: seq<Digit>, w: nat) {
    w <= 1 && Val(out) == Val(Prefix(x, |out|)) - Val(Prefix(y, |out|)) + Shl(w, |out|)
  }

  function Borrow(w: nat): (b: nat) {
    if Upper(w) == 0 then 1 else 0
  }

  lemma BorrowSplit(w: nat)
    requires w < 2 * BASE
    ensures Lower(w) as int == w - BASE + BASE * Borrow(w) && Borrow(w) <= 1
  {}

  lemma SubtractedStep(x: seq<Digit>, y: seq<Digit>, out: seq<Digit>, w: nat, diff: nat)
    requires Subtracted(x, y, out, w)
    requires diff == BASE + DigitAt(x, |out|) - w - DigitAt(y, |out|)
    ensures Subtracted(x, y, out + [Lower(diff)], Borrow(diff))
  {
    hide Val, Shl, Prefix, DigitAt, Lower, Upper, Borrow;
    var n := |out|;
    var c, d := DigitAt(x, n), DigitAt(y, n);
    BorrowSplit(diff);
    ValAppend(out, Lower(diff));
    ShlSum(Lower(diff) as int + d + w, c, BASE * Borrow(diff), n);
    ShlSum(Lower(diff) as int + d + w, Lower(diff) as int + d, w, n);
    ShlSum(Lower(diff) as int + d, Lower(diff) as int, d, n);
    ShlNext(Borrow(diff), n);
    PrefixStep(x, n);
    PrefixStep(y, n);
  }

  /** s_usub: dc = da - db over na digits, for da >= db; no borrow is left over. */
  method USub(da: array<Digit>, ao: nat, db: array<Digit>, bo: nat, dc: array<Digit>, co: nat, na: nat, nb: nat)
    requires nb <= na && ao + na <= da.Length && bo + nb <= db.Length && co + na <= dc.Length
    requires Apart(da, ao, na, dc, co, na) && Apart(db, bo, nb, dc, co, na)
    requires Val(da[ao..ao + na]) >= Val(db[bo..bo + nb])
    modifies dc
    ensures Val(dc[co..co + na]) == old(Val(da[ao..ao + na])) - old(Val(db[bo..bo + nb]))
    ensures forall k :: 0 <= k < dc.Length && (k < co || co + na <= k) ==> dc[k] == old(dc[k])
  {
    hide Val, Shl;
    ghost var x, y := da[ao..ao + na], db[bo..bo + nb];
    var w := SubColumns(da, ao, db, bo, dc, co, na, nb);
    w := PropagateBorrow(da, ao, dc, co, nb, na, x, y, w);
    assert x[..na] == x && y[..nb] == y;
    ValBound(dc[co..co + na]);
    assert w == 0 by {
      assert w == 1 ==> Shl(w, na) == Pow(na);
    }
    ShlZero(na);
  }

  /** The digits both operands have. */
  method SubColumns(da: array<Digit>, ao: nat, db: array<Digit>, bo: nat, dc: array<Digit>, co: nat, na: nat, nb: nat)
    returns (w: nat)
    requires nb <= na && ao + na <= da.Length && bo + nb <= db.Length && co + na <= dc.Length
    requires Apart(da, ao, na, dc, co, na) && Apart(db, bo, nb, dc, co, na)
    modifies dc
    ensures Subtracted(old(da[ao..ao + na]), old(db[bo..bo + nb]), dc[co..co + nb], w)
    ensures forall k :: 0 <= k < dc.Length && (k < co || co + nb <= k) ==> dc[k] == old(dc[k])
  {
    ghost var x, y := da[ao..ao + na], db[bo..bo + nb];
    hide Val, Shl, Lower, Upper, Borrow;
    Nothing(x, y);
    w := 0;
    var pos := 0;
    while pos < nb
      invariant 0 <= pos <= nb
      invariant Subtracted(x, y, dc[co..co + pos], w)
      invariant forall k :: 0 <= k < dc.Length && (k < co || co + pos <= k) ==> dc[k] == old(dc[k])
    {
      assert da[ao + pos] == x[pos] && db[bo + pos] == y[pos];
      var diff := BASE + da[ao + pos] as int - w - db[bo + pos] as int;
      SubtractedStep(x, y, dc[co..co + pos], w, diff);
      Store(dc, co, pos, Lower(diff));
      w := Borrow(diff);
      pos := pos + 1;
    }
  }

  /** The digits only the longer operand has. */
  method PropagateBorrow(da: array<Digit>, ao: nat, dc: array<Digit>, co: nat, start: nat, na: nat,
                         ghost x: seq<Digit>, ghost y: seq<Digit>, c: nat)
    returns (w: nat)
    requires start == |y| <= na == |x| && ao + na <= da.Length && co + na <= dc.Length
    requires Apart(da, ao, na, dc, co, na)
    requires forall k :: ao + start <= k < ao + na ==> da[k] == x[k - ao]
    requires Subtracted(x, y, dc[co..co + start], c)
    modifies dc
    ensures Subtracted(x, y, dc[co..co + na], w)
    ensures forall k :: 0 <= k < dc.Length && (k < co + start || co + na <= k) ==> dc[k] == old(dc[k])
  {
    hide Val, Shl, Lower, Upper;
    w := c;
    var pos := start;
    while pos < na
      invariant start <= pos <= na
      invariant Subtracted(x, y, dc[co..co + pos], w)
      invariant forall k :: 0 <= k < dc.Length && (k < co + start || co + pos <= k) ==> dc[k] == old(dc[k])
    {
      assert da[ao + pos] == x[pos];
      var diff := BASE + da[ao + pos] as int - w;
      SubtractedStep(x, y, dc[co..co + pos], w, diff);
      Store(dc, co, pos, Lower(diff));
      w := Borrow(diff);
      pos := pos + 1;
    }
  }

  /** The digits stored so far and the carry w are z plus d times the low digits of y. */
  ghost predicate RowDone(d: Digit, y: seq<Digit>, z: seq<Digit>, out: seq<Digit>, w: nat)
    requires |out| <= |y| == |z|
  {
    w < BASE && Val(out) + Shl(w, |out|) == Times(d as int, Val(y[..|out|])) + Val(z[..|out|])
  }

  lemma RowStart(d: Digit, y: seq<Digit>, z: seq<Digit>)
    requires |y| == |z|
    ensures RowDone(d, y, z, [], 0)
  {}

  lemma RowStep(d: Digit, y: seq<Digit>, z: seq<Digit>, out: seq<Digit>, w: nat, word: nat)
    requires |out| < |y| == |z|
    requires RowDone(d, y, z, out, w)
    requires word == Times(d as int, y[|out|] as int) + w + z[|out|] as int
    ensures RowDone(d, y, z, out + [Lower(word)], Upper(word))
  {
    hide Shl, Val, Times, Lower, Upper;
    var n := |out|;
    var p := Times(d as int, y[n] as int);
    Column(out, word);
    ShlSum(word, p + w, z[n] as int, n);
    ShlSum(p + w, p, w, n);
    ValStep(y, n);
    ValStep(z, n);
    ShlTimes(d as int, y[n] as int, n);
    TimesSum(d as int, Val(y[..n + 1]), Val(y[..n]), Shl(y[n] as int, n));
    DigitProduct(d, y[n]);
    WordCarry(word);
  }

  lemma DigitProduct(d: Digit, e: Digit)
    ensures 0 <= Times(d as int, e as int) <= (BASE - 1) * (BASE - 1)
  {
    MulMono2(d as int, BASE - 1, e as int, BASE - 1);
  }

  lemma WordCarry(w: nat)
    requires w <= (BASE - 1) * (BASE - 1) + 2 * (BASE - 1)
    ensures Upper(w) < BASE
  {}

  /** One row of s_umul: add d times the slice of db at ro, storing the top digit last. */
  method MulRowAt(d: Digit, db: array<Digit>, bo: nat, nb: nat, dc: array<Digit>, ro: nat)
    requires bo + nb <= db.Length && ro + nb < dc.Length
    requires db != dc || bo + nb <= ro || ro + nb < bo
    requires dc[ro + nb] == 0
    modifies dc
    ensures Val(dc[ro..ro + nb + 1]) == Times(d as int, old(Val(db[bo..bo + nb]))) + old(Val(dc[ro..ro + nb]))
    ensures forall k :: 0 <= k < dc.Length && (k < ro || ro + nb < k) ==> dc[k] == old(dc[k])
  {
    hide Val, Shl, Lower, Upper, Times;
    if d == 0 {
      TimesZero(Val(db[bo..bo + nb]));
      assert dc[ro..ro + nb + 1] == dc[ro..ro + nb] + [0];
      ValAppend(dc[ro..ro + nb], 0);
      return;
    }
    ghost var y, z := db[bo..bo + nb], dc[ro..ro + nb];
    RowStart(d, y, z);
    var w: nat, b := 0, 0;
    while b < nb
      invariant 0 <= b <= nb
      invariant RowDone(d, y, z, dc[ro..ro + b], w)
      invariant forall k :: 0 <= k < dc.Length && (k < ro || ro + b <= k) ==> dc[k] == old(dc[k])
    {
      assert db[bo + b] == y[b] && dc[ro + b] == z[b];
      DigitProduct(d, db[bo + b]);
      var word := Times(d as int, db[bo + b] as int) + w + dc[ro + b] as int;
      RowStep(d, y, z, dc[ro..ro + b], w, word);
      Store(dc, ro, b, Lower(word));
      w := Upper(word);
      b := b + 1;
    }
    assert y[..nb] == y && z[..nb] == z;
    ValAppend(dc[ro..ro + nb], w as Digit);
    Store(dc, ro, nb, w as Digit);
  }

  /** Row a of the product, seen from the start of the accumulated digits. */
  method MulRow(d: Digit, db: array<Digit>, bo: nat, nb: nat, dc: array<Digit>, co: nat, a: nat)
    requires bo + nb <= db.Length && co + a + nb < dc.Length
    requires db != dc || bo + nb <= co || co + a + nb < bo
    requires dc[co + a + nb] == 0
    modifies dc
    ensures Val(dc[co..co + a + nb + 1]) ==
      old(Val(dc[co..co + a + nb])) + Shl(Times(d as int, old(Val(db[bo..bo + nb]))), a)
    ensures forall k :: 0 <= k < dc.Length && (k < co || co + a + nb < k) ==> dc[k] == old(dc[k])
  {
    hide Val, Shl, Times;
    ghost var y := db[bo..bo + nb];
    ghost var lo, hi := dc[co..co + a], dc[co + a..co + a + nb];
    assert dc[co..co + a + nb] == lo + hi;
    MulRowAt(d, db, bo, nb, dc, co + a);
    assert dc[co..co + a + nb + 1] == lo + dc[co + a..co + a + nb + 1];
    RowPlaced(lo, hi, dc[co + a..co + a + nb + 1], Times(d as int, Val(y)));
  }

  /** s_umul: the schoolbook product, accumulated row by row into a zeroed area. */
  method UMul(da: array<Digit>, ao: nat, db: array<Digit>, bo: nat, dc: array<Digit>, co: nat, na: nat, nb: nat)
    requires ao + na <= da.Length && bo + nb <= db.Length && co + na + nb <= dc.Length
    requires da != dc || ao + na <= co || co + na + nb <= ao
    requires db != dc || bo + nb <= co || co + na + nb <= bo
    requires forall k :: co <= k < co + na + nb ==> dc[k] == 0
    modifies dc
    ensures Val(dc[co..co + (na + nb)]) == Times(old(Val(da[ao..ao + na])), old(Val(db[bo..bo + nb])))
    ensures forall k :: 0 <= k < dc.Length && (k < co || co + (na + nb) <= k) ==> dc[k] == old(dc[k])
  {
    hide Val, Shl, Times;
    ghost var x, y := da[ao..ao + na], db[bo..bo + nb];
    NoRows(x, y, dc[co..co + nb]);
    var a := 0;
    while a < na
      invariant 0 <= a <= na
      invariant Val(dc[co..co + a + nb]) == Times(Val(x[..a]), Val(y))
      invariant forall k :: 0 <= k < dc.Length && (k < co || co + a + nb <= k) ==> dc[k] == old(dc[k])
    {
      assert da[ao + a] == x[a] && db[bo..bo + nb] == y;
      MulRow(da[ao + a], db, bo, nb, dc, co, a);
      ProductStep(x, y, a);
      a := a + 1;
    }
    assert x[..na] == x;
  }

  lemma NoRows(x: seq<Digit>, y: seq<Digit>, z: seq<Digit>)
    requires forall k :: 0 <= k < |z| ==> z[k] == 0
    ensures Val(z) == Times(Val(x[..0]), Val(y))
  {
    assert z == Zeros(|z|);
    ValZeros(z);
  }

  /** Adding p to the digits above lo adds p at that position. */
  lemma RowPlaced(lo: seq<Digit>, hi: seq<Digit>, hi': seq<Digit>, p: int)
    requires Val(hi') == p + Val(hi)
    ensures Val(lo + hi') == Val(lo + hi) + Shl(p, |lo|)
  {
    hide Val, Shl, Times;
    ValConcat(lo, hi');
    ShlSum(Val(hi'), p, Val(hi), |lo|);
    ValConcat(lo, hi);
  }

  lemma ProductStep(x: seq<Digit>, y: seq<Digit>, a: nat)
    requires a < |x|
    ensures Times(Val(x[..a]), Val(y)) + Shl(Times(x[a] as int, Val(y)), a) == Times(Val(x[..a + 1]), Val(y))
  {
    hide Val, Shl, Times;
    ShlTimes(x[a] as int, Val(y), a);
    ValStep(x, a);
    TimesLeft(Val(x[..a + 1]), Val(x[..a]), Shl(x[a] as int, a), Val(y));
  }
}
