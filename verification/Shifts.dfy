/**
 The quick operations of imath by powers of two: division, remainder,
 multiplication and subtraction, all in place on the digit buffer.
 */
module Shifts {
  import opened Arithmetic
  import opened Digits
  import opened UnsignedKernel
  import opened PowersOfTwo
  import opened MpInt

  const DIGIT_BITS: nat := 32

  /** Splitting a digit into its low and high bits: e and u are complementary powers of two. */
  ghost predicate Complementary(e: nat, u: nat) {
    e >= 1 && u >= 1 && Times(e, u) == BASE
  }

  lemma BitSplit(nbits: nat)
    requires nbits <= DIGIT_BITS
    ensures Complementary(Exp2(nbits), Exp2(DIGIT_BITS - nbits))
  {
    Exp2Add(nbits, DIGIT_BITS - nbits);
    Exp2Digit();
  }

  /** d >> n for e = 2^n. */
  function ShrBits(d: Digit, e: nat): (r: nat)
    requires e >= 1
  {
    d as int / e
  }

  /** d << n for e = 2^n, cut to one digit. */
  function ShlBits(d: Digit, e: nat): (r: nat) {
    (d as int * e) % BASE
  }

  /** Digit d shifted left by the bits of u, cut to one digit, keeps its low e values. */
  lemma CutShift(d: Digit, e: nat, u: nat)
    requires Complementary(e, u)
    ensures (d as int * u) % BASE == Times(u, d as int % e) && (d as int * u) / BASE == d as int / e
    ensures Times(u, d as int % e) + u <= BASE
  {
    var q, r := d as int / e, d as int % e;
    DivIs(d as int, e);
    calc {
      d as int * u;
      (e * q + r) * u;
      { Distrib(u, e * q, r); }
      (e * q) * u + r * u;
      { Assoc(q, e, u); }
      BASE * q + u * r;
    }
    MulMono(r + 1, e, u);
    Distrib(u, r, 1);
    MulMono(0, r, u);
    DivUnique(d as int * u, BASE, q, u * r);
  }

  /** Store one digit in front of a slice. */
  method StoreFront(dc: array<Digit>, i: nat, n: nat, d: Digit)
    requires i < n <= dc.Length
    modifies dc
    ensures dc[i..n] == [d] + old(dc[i + 1..n])
    ensures forall k :: 0 <= k < dc.Length && k != i ==> dc[k] == old(dc[k])
  {
    dc[i] := d;
  }

  /** The top digits out of a right shift: e times them, with the bits shifted out of d, is the top of x. */
  ghost predicate ShiftedRight(x: seq<Digit>, e: nat, out: seq<Digit>, d: Digit)
    requires |out| <= |x| && e >= 1
  {
    Val(x[|x| - |out|..]) == Times(e, Val(out)) + d as int % e
  }

  lemma ShiftedRightStep(x: seq<Digit>, e: nat, u: nat, out: seq<Digit>, d: Digit, s: Digit, c: int)
    requires |out| < |x| && Complementary(e, u) && ShiftedRight(x, e, out, d)
    requires s == x[|x| - |out| - 1] && c == ShrBits(s, e) + ShlBits(d, u)
    ensures 0 <= c < BASE && ShiftedRight(x, e, [c as Digit] + out, s)
  {
    var i := |x| - |out| - 1;
    CutShift(d, e, u);
    CutShift(s, e, u);
    ShiftRightFits(s, e, u);
    ConsVal(x[i], x[i + 1..]);
    assert x[i..] == [x[i]] + x[i + 1..];
    ConsVal(c as Digit, out);
    ShiftRightArith(e, u, s as int, d as int, c, Val(out));
  }

  lemma ConsVal(d: Digit, s: seq<Digit>)
    ensures Val([d] + s) == d as int + BASE * Val(s)
  {
    assert ([d] + s)[1..] == s;
  }

  lemma ShiftRightFits(s: Digit, e: nat, u: nat)
    requires Complementary(e, u)
    ensures 0 <= s as int / e < u
  {
    var q := s as int / e;
    DivIs(s as int, e);
    if q >= u { MulMono(u, q, e); }
  }

  lemma ShiftRightArith(e: nat, u: nat, s: nat, d: nat, c: int, v: int)
    requires Complementary(e, u) && c == s / e + Times(u, d % e)
    ensures s + BASE * (Times(e, v) + d % e) == Times(e, c + BASE * v) + s % e
  {
    DivIs(s, e);
    Distrib(e, s / e, Times(u, d % e));
    Assoc(e, u, d % e);
    Distrib(e, c, BASE * v);
  }

  lemma ShiftedRightStart(x: seq<Digit>, e: nat)
    requires e >= 1
    ensures ShiftedRight(x, e, [], 0)
  {
    assert x[|x|..] == [];
  }

  lemma ShiftedRightAll(x: seq<Digit>, e: nat, out: seq<Digit>, d: Digit)
    requires |out| == |x| && e >= 1 && ShiftedRight(x, e, out, d)
    ensures Val(out) == Val(x) / e
  {
    assert x[0..] == x;
    DivUnique(Val(x), e, Val(out), d as int % e);
  }

  /** The bit part of s_qdiv, from the top digit down; d is the digit last shifted. */
  method ShiftRight(dz: array<Digit>, n: nat, nbits: nat)
    requires n <= dz.Length && 0 < nbits < DIGIT_BITS
    modifies dz
    ensures Val(dz[0..n]) == old(Val(dz[0..n])) / Exp2(nbits)
    ensures forall k :: n <= k < dz.Length ==> dz[k] == old(dz[k])
  {
    hide Val, Exp2, ShrBits, ShlBits;
    var e, u := Exp2(nbits), Exp2(DIGIT_BITS - nbits);
    ghost var x := dz[0..n];
    BitSplit(nbits);
    ShiftedRightStart(x, e);
    var d: Digit, uz := 0, n;
    while uz > 0
      invariant 0 <= uz <= n
      invariant ShiftedRight(x, e, dz[uz..n], d)
      invariant forall k :: 0 <= k < dz.Length && (k < uz || n <= k) ==> dz[k] == old(dz[k])
    {
      var save := dz[uz - 1];
      assert save == x[uz - 1];
      var c := ShrBits(save, e) + ShlBits(d, u);
      ShiftedRightStep(x, e, u, dz[uz..n], d, save, c);
      StoreFront(dz, uz - 1, n, c as Digit);
      d := save;
      uz := uz - 1;
    }
    ShiftedRightAll(x, e, dz[0..n], d);
  }

  /** The digit part of s_qdiv: move the upper digits down. */
  method MoveDown(dz: array<Digit>, ndig: nat, n: nat)
    requires ndig <= n <= dz.Length
    modifies dz
    ensures dz[0..n - ndig] == old(dz[ndig..n])
  {
    var to, mark := 0, ndig;
    while mark < n
      invariant ndig <= mark <= n && to == mark - ndig
      invariant forall k :: 0 <= k < to ==> dz[k] == old(dz[k + ndig])
      invariant forall k :: mark <= k < n ==> dz[k] == old(dz[k])
    {
      dz[to] := dz[mark];
      to, mark := to + 1, mark + 1;
    }
  }

  /** s_qdiv: z = z / 2^p2 in magnitude, rounding toward zero; a zero result is positive. */
  method QDiv(z: Mpz, p2: nat)
    requires z.Valid()
    modifies z`used, z`neg, z.digits
    ensures z.Valid() && z.Mag() == old(z.Mag()) / Exp2(p2)
    ensures z.neg == (old(z.neg) && z.Mag() != 0)
  {
    hide Val, Exp2, Pow;
    var ndig, nbits := p2 / DIGIT_BITS, p2 % DIGIT_BITS;
    ghost var x, e, f := z.digits[..z.used], Exp2(32 * ndig), Exp2(nbits);
    Exp2Add(32 * ndig, nbits);
    assert 32 * ndig + nbits == p2;
    DivDiv(Val(x), e, f);
    Exp2Digits(ndig);
    if ndig >= z.used {
      QuotientZero(x, ndig, p2);
      z.digits[0] := 0;
      z.used := 1;
      z.neg := false;
      assert z.digits[..1] == [0];
      ValOne(0);
      return;
    }
    DropDigits(x, ndig);
    assert x[ndig..] == z.digits[ndig..z.used];
    DropLow(z, ndig);
    if nbits != 0 {
      var uz := z.used;
      assert z.digits[..uz] == z.digits[0..uz];
      ShiftRight(z.digits, uz, nbits);
      assert z.digits[..uz] == z.digits[0..uz];
      z.Clamp();
    } else {
      Exp2Zero(Val(x) / e);
    }
    ZeroIsOneDigit(z);
    if z.used == 1 && z.digits[0] == 0 {
      z.neg := false;
    }
  }

  method DropLow(z: Mpz, ndig: nat)
    requires z.Valid() && ndig < z.used
    modifies z`used, z.digits
    ensures z.used == old(z.used) - ndig && z.digits[..z.used] == old(z.digits[ndig..z.used])
    ensures z.Valid()
  {
    if ndig != 0 {
      var uz := z.used;
      MoveDown(z.digits, ndig, uz);
      z.used := uz - ndig;
      assert z.digits[..z.used] == z.digits[0..uz - ndig];
      assert z.digits[z.used - 1] == z.digits[..z.used][z.used - 1];
    }
  }

  lemma Exp2Zero(v: int)
    ensures v / Exp2(0) == v
  {}

  lemma QuotientZero(x: seq<Digit>, ndig: nat, p2: nat)
    requires |x| <= ndig == p2 / DIGIT_BITS
    ensures Val(x) / Exp2(p2) == 0
  {
    hide Val, Pow, Exp2;
    var nbits := p2 % DIGIT_BITS;
    ValBound(x);
    PowMono(|x|, ndig);
    Exp2Digits(ndig);
    Exp2Add(32 * ndig, nbits);
    assert 32 * ndig + nbits == p2;
    MulMono(1, Exp2(nbits), Exp2(32 * ndig));
    DivUnique(Val(x), Exp2(p2), 0, Val(x));
  }

  /** Cutting a number to p2 bits: whole digits below, the low bits r of one digit on top. */
  lemma CutBits(x: seq<Digit>, nd: nat, f: nat, u: nat, g: int, r: nat)
    requires nd < |x| && Complementary(f, u) && x[nd] as int == Times(f, g) + r && r < f
    ensures 0 < Times(Pow(nd), f) && Val(x[..nd]) + Shl(r, nd) == Val(x) % Times(Pow(nd), f)
  {
    hide Val, Shl, Pow, Times;
    var hi, p := Val(x[nd + 1..]), Pow(nd);
    ValSplit(x, nd);
    assert x[nd..] == [x[nd]] + x[nd + 1..];
    ConsVal(x[nd], x[nd + 1..]);
    TailBits(x[nd] as int, hi, f, u, g, r);
    ValBound(x[..nd]);
    var q := g + Times(u, hi);
    CutBitsArith(Val(x[..nd]), p, f, q, r);
    ShlPow(Val(x[nd..]), nd);
    ShlPow(r, nd);
    DivUnique(Val(x), Times(p, f), q, Val(x[..nd]) + Times(p, r));
  }

  lemma TailBits(t: int, hi: int, f: nat, u: nat, g: int, r: int)
    requires Complementary(f, u) && t == Times(f, g) + r
    ensures t + BASE * hi == Times(f, g + Times(u, hi)) + r
  {
    Distrib(f, g, Times(u, hi));
    Assoc(f, u, hi);
  }

  lemma CutBitsArith(lo: nat, p: nat, f: nat, q: int, r: nat)
    requires lo < p && r < f
    ensures lo + Times(p, Times(f, q) + r) == Times(Times(p, f), q) + (lo + Times(p, r))
    ensures 0 <= lo + Times(p, r) < Times(p, f)
  {
    Distrib(p, Times(f, q), r);
    Assoc(p, f, q);
    MulMono(r + 1, f, p);
    Distrib(p, r, 1);
    MulMono(0, r, p);
  }

  lemma ModBits(x: seq<Digit>, nd: nat, rest: nat, p2: nat, top: Digit)
    requires nd == p2 / DIGIT_BITS < |x| && rest == p2 % DIGIT_BITS && top as int == x[nd] as int % Exp2(rest)
    ensures Val(x[..nd] + [top]) == Val(x) % Exp2(p2)
  {
    hide Val, Shl, Pow, Exp2, Times;
    BitSplit(rest);
    DivIs(x[nd] as int, Exp2(rest));
    CutBits(x, nd, Exp2(rest), Exp2(DIGIT_BITS - rest), x[nd] as int / Exp2(rest), top as int);
    Exp2Digits(nd);
    Exp2Add(32 * nd, rest);
    assert 32 * nd + rest == p2;
    ValAppend(x[..nd], top);
  }

  /** s_qmod: z = z % 2^p2 in magnitude; the sign is kept. */
  method QMod(z: Mpz, p2: nat)
    requires z.Valid()
    modifies z`used, z.digits
    ensures z.Valid() && z.Mag() == old(z.Mag()) % Exp2(p2) && z.used <= old(z.used)
  {
    hide Val, Shl, Pow, Exp2, Times;
    var start, rest := p2 / DIGIT_BITS + 1, p2 % DIGIT_BITS;
    var nd := start - 1;
    ghost var x := z.digits[..z.used];
    if start <= z.used {
      DivIs(z.digits[nd] as int, Exp2(rest));
      var top := (z.digits[nd] as int % Exp2(rest)) as Digit;
      ModBits(x, nd, rest, p2, top);
      z.used := start;
      z.digits[nd] := top;
      assert z.digits[..start] == x[..nd] + [top];
      z.Clamp();
    } else {
      AlreadyReduced(x, nd, p2);
    }
  }

  lemma AlreadyReduced(x: seq<Digit>, nd: nat, p2: nat)
    requires |x| <= nd == p2 / DIGIT_BITS
    ensures Val(x) % Exp2(p2) == Val(x)
  {
    hide Val, Exp2;
    QuotientZero(x, nd, p2);
    DivIs(Val(x), Exp2(p2));
  }

  /** The digits of a left shift so far: with the carry c they are e times the low digits of x. */
  ghost predicate ShiftedLeft(x: seq<Digit>, e: nat, out: seq<Digit>, c: nat)
    requires |out| <= |x|
  {
    Val(out) + Shl(c, |out|) == Times(e, Val(x[..|out|]))
  }

  lemma ShiftedLeftStart(x: seq<Digit>, e: nat)
    ensures ShiftedLeft(x, e, [], 0)
  {}

  lemma ShrZero(u: nat)
    requires u >= 1
    ensures ShrBits(0, u) == 0
  {}

  lemma ShiftedLeftStep(x: seq<Digit>, e: nat, u: nat, out: seq<Digit>, d: Digit, w: int)
    requires |out| < |x| && Complementary(e, u) && ShiftedLeft(x, e, out, ShrBits(d, u))
    requires w == ShlBits(x[|out|], e) + ShrBits(d, u)
    ensures 0 <= w < BASE && ShiftedLeft(x, e, out + [w as Digit], ShrBits(x[|out|], u))
  {
    hide Val, Shl, Times, ShrBits, ShlBits, Lower, Upper;
    var n, s := |out|, x[|out|];
    var word := Times(e, s as int) + ShrBits(d, u);
    ShiftWord(s, d, e, u, w);
    Column(out, word);
    ValStep(x, n);
    TimesSum(e, Val(x[..n + 1]), Val(x[..n]), Shl(s as int, n));
    ShlTimes(e, s as int, n);
    ShlSum(word, Times(e, s as int), ShrBits(d, u), n);
  }

  lemma ComplementSwap(e: nat, u: nat)
    requires Complementary(e, u)
    ensures Complementary(u, e)
  {}

  /** The bits shifted into a digit never meet the bits it keeps. */
  lemma ShiftWord(s: Digit, d: Digit, e: nat, u: nat, w: int)
    requires Complementary(e, u) && w == ShlBits(s, e) + ShrBits(d, u)
    ensures 0 <= w < BASE && 0 <= Times(e, s as int)
    ensures Lower(Times(e, s as int) + ShrBits(d, u)) as int == w
    ensures Upper(Times(e, s as int) + ShrBits(d, u)) == ShrBits(s, u)
  {
    hide Times, ShrBits, ShlBits, Lower, Upper;
    KeptBits(s, e, u);
    ShiftedInBits(d, e, u);
    WordParts(Times(e, s as int), ShlBits(s, e), ShrBits(s, u), ShrBits(d, u));
  }

  lemma WordParts(p: int, lo: nat, hi: nat, c: nat)
    requires p == BASE * hi + lo && lo + c < BASE
    ensures Lower(p + c) as int == lo + c && Upper(p + c) == hi
  {}

  lemma KeptBits(s: Digit, e: nat, u: nat)
    requires Complementary(e, u)
    ensures Times(e, s as int) == BASE * ShrBits(s, u) + ShlBits(s, e) && ShlBits(s, e) + e <= BASE
  {
    ComplementSwap(e, u);
    CutShift(s, u, e);
    DivIs(s as int * e, BASE);
  }

  lemma ShiftedInBits(d: Digit, e: nat, u: nat)
    requires Complementary(e, u)
    ensures ShrBits(d, u) < e
  {
    ComplementSwap(e, u);
    ShiftRightFits(d, u, e);
  }

  /** The bit part of s_qmul, from the low digit up; returns the digit last shifted. */
  method ShiftLeft(dz: array<Digit>, o: nat, n: nat, rest: nat) returns (d: Digit)
    requires o + n <= dz.Length && 0 < rest < DIGIT_BITS
    modifies dz
    ensures Val(dz[o..o + n]) + Shl(ShrBits(d, Exp2(DIGIT_BITS - rest)), n) == Times(Exp2(rest), old(Val(dz[o..o + n])))
    ensures forall k :: 0 <= k < dz.Length && (k < o || o + n <= k) ==> dz[k] == old(dz[k])
    ensures d == if n == 0 then 0 else old(dz[o + n - 1])
  {
    hide Val, Shl, Exp2, Times, ShrBits, ShlBits;
    var e, u := Exp2(rest), Exp2(DIGIT_BITS - rest);
    ghost var x := dz[o..o + n];
    BitSplit(rest);
    ShiftedLeftStart(x, e);
    ShrZero(u);
    d := 0;
    var i := 0;
    while i < n
      invariant 0 <= i <= n
      invariant ShiftedLeft(x, e, dz[o..o + i], ShrBits(d, u))
      invariant d == if i == 0 then 0 else x[i - 1]
      invariant forall k :: 0 <= k < dz.Length && (k < o || o + i <= k) ==> dz[k] == old(dz[k])
    {
      var save := dz[o + i];
      assert save == x[i];
      var w := ShlBits(save, e) + ShrBits(d, u);
      ShiftedLeftStep(x, e, u, dz[o..o + i], d, w);
      Store(dz, o, i, w as Digit);
      d := save;
      i := i + 1;
    }
    assert x[..n] == x;
  }

  /** The digit part of s_qmul: move the digits up by need and clear the low ones. */
  method MoveUp(dz: array<Digit>, need: nat, n: nat)
    requires n + need <= dz.Length
    modifies dz
    ensures forall k :: 0 <= k < need ==> dz[k] == 0
    ensures dz[need..need + n] == old(dz[0..n])
    ensures forall k :: n + need <= k < dz.Length ==> dz[k] == old(dz[k])
  {
    var i := 0;
    while i < n
      invariant 0 <= i <= n
      invariant forall k :: n - i + need <= k < n + need ==> dz[k] == old(dz[k - need])
      invariant forall k :: 0 <= k < n - i ==> dz[k] == old(dz[k])
      invariant forall k :: n + need <= k < dz.Length ==> dz[k] == old(dz[k])
    {
      dz[n - 1 - i + need] := dz[n - 1 - i];
      i := i + 1;
    }
    forall k | 0 <= k < need { dz[k] := 0; }
  }

  lemma ZerosBelow(s: seq<Digit>, need: nat)
    requires need <= |s| && forall k :: 0 <= k < need ==> s[k] == 0
    ensures Val(s) == Shl(Val(s[need..]), need)
  {
    hide Val, Shl;
    ValSplit(s, need);
    assert s[..need] == Zeros(need);
    ValZeros(s[..need]);
  }

  /** A shift by bits and a shift by digits make a multiplication by 2^p2. */
  lemma ShiftTotal(x: int, y: int, top: int, n: nat, need: nat, rest: nat, p2: nat)
    requires p2 == 32 * need + rest && y + Shl(top, n) == Times(Exp2(rest), x)
    ensures Shl(y, need) + Shl(top, n + need) == Times(x, Exp2(p2))
  {
    hide Shl, Exp2, Pow, Times;
    ShlShl(top, n, need);
    ShlSum(Times(Exp2(rest), x), y, Shl(top, n), need);
    Exp2Add(32 * need, rest);
    Exp2Digits(need);
    ShlPow(Times(Exp2(rest), x), need);
    TimesAssoc(Pow(need), Exp2(rest), x);
    TimesSwap(x, Exp2(p2));
  }

  lemma NoBits(v: int, n: nat)
    ensures v + Shl(0, n) == Times(Exp2(0), v)
  {}

  /** s_qmul: z = z * 2^p2 in magnitude; the sign is kept. */
  method QMul(z: Mpz, p2: nat)
    requires z.Valid()
    modifies z, z.digits
    ensures z.Valid() && z.Mag() == Times(old(z.Mag()), Exp2(p2)) && z.neg == old(z.neg)
    ensures z.digits == old(z.digits) || fresh(z.digits)
    ensures z.used <= old(z.used) + p2 / DIGIT_BITS + 1
  {
    hide Val, Shl, Exp2, Times;
    if p2 == 0 {
      NoBits(z.Mag(), 0);
      ShlZero(0);
      TimesSwap(z.Mag(), Exp2(0));
      return;
    }
    var uz, need, rest := z.used, p2 / DIGIT_BITS, p2 % DIGIT_BITS;
    ghost var x := z.digits[..uz];
    var top := ShiftIn(z, need, rest);
    ghost var y := z.digits[need..need + uz];
    z.used := need + uz;
    ZerosBelow(z.digits[..need + uz], need);
    assert z.digits[..need + uz][need..] == y;
    ShiftTotal(Val(x), Val(y), top as int, uz, need, rest, p2);
    z.AppendCarry(top);
    z.Clamp();
  }

  /** Move the digits of z up by need digits and rest bits; the bits that leave the top are returned. */
  method ShiftIn(z: Mpz, need: nat, rest: nat) returns (top: Digit)
    requires z.Valid() && rest < DIGIT_BITS
    modifies z, z.digits
    ensures z.used == old(z.used) && z.neg == old(z.neg) && need + z.used <= z.digits.Length
    ensures z.digits == old(z.digits) || fresh(z.digits)
    ensures forall k :: 0 <= k < need ==> z.digits[k] == 0
    ensures Val(z.digits[need..need + z.used]) + Shl(top as int, z.used) == Times(Exp2(rest), old(z.Mag()))
  {
    hide Val, Shl, Exp2, Times;
    var uz, u := z.used, Exp2(DIGIT_BITS - rest);
    ghost var x := z.digits[..uz];
    var extra := if rest != 0 && ShrBits(z.digits[uz - 1], u) != 0 then 1 else 0;
    z.Pad(uz + need + extra);
    assert z.digits[0..uz] == x;
    MoveUp(z.digits, need, uz);
    if rest != 0 {
      var d := ShiftLeft(z.digits, need, uz, rest);
      ShiftOutFits(d, u);
      top := ShrBits(d, u) as Digit;
    } else {
      top := 0;
      NoBits(Val(x), uz);
    }
  }

  lemma ShiftOutFits(d: Digit, u: nat)
    requires u >= 1
    ensures ShrBits(d, u) < BASE
  {
    DivIs(d as int, u);
    if d as int / u >= BASE { MulMono(1, u, d as int / u); }
  }

  /** The digits stored so far are the borrow's share of BASE^n less the low digits of x. */
  ghost predicate Complemented(x: seq<Digit>, out: seq<Digit>, w: nat)
    requires |out| <= |x|
  {
    w <= 1 && Val(out) == Shl(w, |out|) - Val(x[..|out|])
  }

  lemma ComplementedStep(x: seq<Digit>, out: seq<Digit>, w: nat, diff: nat)
    requires |out| < |x| && Complemented(x, out, w) && diff == BASE - w - x[|out|] as int
    ensures Complemented(x, out + [Lower(diff)], Borrow(diff))
  {
    hide Val, Shl, Lower, Upper, Borrow;
    var n, c := |out|, x[|out|] as int;
    BorrowSplit(diff);
    ValAppend(out, Lower(diff));
    ValStep(x, n);
    ShlSum(BASE * Borrow(diff), Lower(diff) as int + c, w, n);
    ShlSum(Lower(diff) as int + c, Lower(diff) as int, c, n);
    ShlNext(Borrow(diff), n);
  }

  lemma ComplementedStart(x: seq<Digit>)
    ensures Complemented(x, [], 0)
  {}

  /**
   What s_qsub makes of a number below 2^p2.  It subtracts over all digits up to
   that of the bit p2, but does not make the number longer: digits above those
   in use take no part in the result.
   */
  function Complement(v: nat, p2: nat): (r: nat)
    requires v < Exp2(p2)
  {
    var n := DigitCount(v);
    CountBounds(v);
    if n == p2 / DIGIT_BITS + 1 then Exp2(p2) - v else if v == 0 then 0 else Pow(n) - v
  }

  /** It is 2^p2 - v exactly when v reaches the digit of the bit p2, or the one below with none of it left over. */
  lemma ComplementExact(v: nat, p2: nat)
    requires v < Exp2(p2)
    ensures Complement(v, p2) == Exp2(p2) - v <==>
      DigitCount(v) == p2 / DIGIT_BITS + 1 || (v > 0 && p2 == DIGIT_BITS * DigitCount(v))
  {
    hide Exp2, Pow, DigitCount;
    var n := DigitCount(v);
    CountBounds(v);
    Exp2Digits(n);
    if p2 < DIGIT_BITS * n {
      Exp2Above(p2, DIGIT_BITS * n);
    } else if p2 > DIGIT_BITS * n {
      Exp2Above(DIGIT_BITS * n, p2);
    }
  }

  /** Every prefix of a complemented digit string is the complement of the prefix. */
  lemma ComplementedPrefix(x: seq<Digit>, out: seq<Digit>, w: nat, n: nat)
    requires |out| == |x| && Complemented(x, out, w) && n <= |x|
    ensures Val(out[..n]) == if Val(x[..n]) > 0 then Pow(n) - Val(x[..n]) else 0
  {
    hide Val, Shl, Pow;
    assert x[..|x|] == x;
    ValSplit(x, n);
    ValSplit(out, n);
    ValBound(x[..n]);
    ValBound(out[..n]);
    var h := Shl(w, |x| - n) - Val(x[n..]) - Val(out[n..]);
    ShlShl(w, |x| - n, n);
    ShlSum(Shl(w, |x| - n), h, Val(x[n..]) + Val(out[n..]), n);
    ShlSum(Val(x[n..]) + Val(out[n..]), Val(x[n..]), Val(out[n..]), n);
    ShlPow(h, n);
    PrefixSum(Val(x[..n]), Val(out[..n]), Pow(n), h);
  }

  lemma PrefixSum(a: int, b: int, p: int, h: int)
    requires 0 <= a < p && 0 <= b < p && a + b == Times(p, h)
    ensures b == if a > 0 then p - a else 0
  {
    if h >= 2 { TimesMono(2, h, p); TimesSwap(h, p); }
    if h < 0 { TimesMono(h, -1, p); TimesSwap(h, p); }
    TimesUnit(p);
    TimesZero(p);
  }

  /** A number with a digit at the bit p2: that digit gives up its part too. */
  lemma ComplementedTop(x: seq<Digit>, out: seq<Digit>, w: nat, c: Digit, p2: nat, top: Digit)
    requires |out| == |x| == p2 / DIGIT_BITS && Complemented(x, out, w) && Val(x + [c]) < Exp2(p2)
    requires top == Lower(BASE + Exp2(p2 % DIGIT_BITS) - w - c as int)
    ensures Val(out + [top]) == Exp2(p2) - Val(x + [c])
  {
    hide Val, Shl, Pow, Exp2, Lower;
    var n, hi := |x|, Exp2(p2 % DIGIT_BITS);
    assert x[..n] == x;
    Exp2Digits(n);
    Exp2Add(DIGIT_BITS * n, p2 % DIGIT_BITS);
    ShlPow(hi, n);
    ValAppend(x, c);
    ValAppend(out, top);
    ValBound(x);
    HighDigit(hi, c as int, n);
    Exp2Digit();
    Exp2Above(p2 % DIGIT_BITS, DIGIT_BITS);
    LowerAbove(hi - w - c as int);
    ShlSum(hi, hi - w - c as int, w + c as int, n);
    ShlSum(w + c as int, w, c as int, n);
  }

  lemma HighDigit(hi: int, c: int, n: nat)
    requires Shl(c, n) < Shl(hi, n)
    ensures c < hi
  {
    if c >= hi { ShlMono(hi, c, n); }
  }

  lemma LowerAbove(t: int)
    requires 0 <= t < BASE
    ensures Lower(BASE + t) as int == t
  {}

  /** s_qsub: z = 2^p2 - z, as far as the digits of z go. */
  method QSub(z: Mpz, p2: nat)
    requires z.Valid() && z.Mag() < Exp2(p2)
    modifies z, z.digits
    ensures z.Valid() && z.Mag() == Complement(old(z.Mag()), p2) && !z.neg
    ensures z.digits == old(z.digits) || fresh(z.digits)
  {
    hide Val, Shl, Pow, Exp2, Complement, Complemented, DigitCount;
    var hi, tdig := Exp2(p2 % DIGIT_BITS), p2 / DIGIT_BITS;
    ghost var v, n := z.Mag(), z.used;
    z.Pad(tdig + 1);
    ghost var all := z.digits[..];
    var w := ComplementDigits(z.digits, tdig);
    ghost var out := z.digits[0..tdig];
    var top := Lower(BASE + hi - w - z.digits[tdig] as int);
    z.digits[tdig] := top;
    ComplementResult(all, n, v, p2, w, out, z.digits[..]);
    z.neg := false;
    z.Clamp();
  }

  lemma ComplementResult(all: seq<Digit>, n: nat, v: nat, p2: nat, w: nat, out: seq<Digit>, res: seq<Digit>)
    requires p2 / DIGIT_BITS < |all| == |res| && n <= |all| && |out| == p2 / DIGIT_BITS
    requires Canonical(all[..n]) && v == Val(all[..n]) < Exp2(p2)
    requires Complemented(all[0..p2 / DIGIT_BITS], out, w) && res[..|out|] == out
    requires res[|out|] == Lower(BASE + Exp2(p2 % DIGIT_BITS) - w - all[|out|] as int)
    ensures Val(res[..n]) == Complement(v, p2)
  {
    hide Val, Shl, Pow, Exp2, Complemented, DigitCount, Lower;
    var tdig, s := p2 / DIGIT_BITS, all[..n];
    CanonicalCount(s);
    UsedDigits(s, p2);
    assert all[0..tdig] == all[..tdig];
    if n == tdig + 1 {
      assert s == all[..tdig] + [all[tdig]] && res[..n] == out + [res[tdig]];
      ComplementedTop(all[..tdig], out, w, all[tdig], p2, res[tdig]);
    } else {
      assert all[..tdig][..n] == s && out[..n] == res[..n];
      ComplementedPrefix(all[..tdig], out, w, n);
      ValBound(s);
    }
  }

  /** A number below 2^p2 has no digit above the one of the bit p2. */
  lemma UsedDigits(s: seq<Digit>, p2: nat)
    requires Canonical(s) && Val(s) < Exp2(p2)
    ensures |s| <= p2 / DIGIT_BITS + 1
  {
    hide Val, Pow, Exp2;
    if |s| > p2 / DIGIT_BITS + 1 {
      CanonicalBound(s);
      Exp2Digits(|s| - 1);
      Exp2Above(p2, DIGIT_BITS * (|s| - 1));
    }
  }

  method ComplementDigits(dz: array<Digit>, n: nat) returns (w: nat)
    requires n <= dz.Length
    modifies dz
    ensures w <= 1 && Complemented(old(dz[0..n]), dz[0..n], w)
    ensures forall k :: n <= k < dz.Length ==> dz[k] == old(dz[k])
  {
    hide Val, Shl, Lower, Upper, Borrow;
    ghost var x := dz[0..n];
    ComplementedStart(x);
    w := 0;
    var pos := 0;
    while pos < n
      invariant 0 <= pos <= n
      invariant Complemented(x, dz[0..0 + pos], w)
      invariant forall k :: pos <= k < dz.Length ==> dz[k] == old(dz[k])
    {
      assert dz[pos] == x[pos];
      var diff := BASE - w - dz[pos] as int;
      ComplementedStep(x, dz[0..0 + pos], w, diff);
      Store(dz, 0, pos, Lower(diff));
      w := Borrow(diff);
      pos := pos + 1;
    }
  }
}
