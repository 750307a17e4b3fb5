/**
 mp_int_div and mp_int_mod: division with signs, where either result may be
 unwanted and either may be written over an operand.
 */
module IntegerDivision {
  import opened Arithmetic
  import opened Digits
  import opened PowersOfTwo
  import opened MpInt
  import opened Shifts
  import opened TrailingZeros
  import opened DivisionMath
  import opened DivisionLedger
  import opened QuotientList
  import opened Division

  datatype MpResult = Done | Undefined | OutOfRange

  /** The quotient rounded toward zero, and the remainder with the dividend's sign. */
  function Quotient(x: int, y: int): (q: int)
    requires y != 0
  {
    var m := Abs(x) / Abs(y);
    if (x < 0) == (y < 0) then m else 0 - m
  }

  function Remainder(x: int, y: int): (r: int)
    requires y != 0
  {
    var m := Abs(x) % Abs(y);
    if x < 0 then 0 - m else m
  }

  /** The pair is the one C's integer division gives. */
  lemma DivisionLaw(x: int, y: int)
    requires y != 0
    ensures x == Times(Quotient(x, y), y) + Remainder(x, y)
    ensures Abs(Remainder(x, y)) < Abs(y) && (Remainder(x, y) != 0 ==> (Remainder(x, y) < 0) == (x < 0))
  {
    hide Times;
    var q, r := Abs(x) / Abs(y), Abs(x) % Abs(y);
    DivIs(Abs(x), Abs(y));
    TimesSwap(Abs(y), q);
    TimesMinus(q, y);
    TimesMinus(0 - q, y);
  }

  /** The quotient mp_int_div gives for x and y, when b are the digits of the divisor. */
  ghost function SignedQuotient(x: int, y: int, b: seq<Digit>): (q: int)
    requires |b| >= 1 && b[|b| - 1] != 0
  {
    var m := CodeQuotient(Abs(x), b);
    if (x < 0) == (y < 0) then m else 0 - m
  }

  lemma QuietQuotient(x: int, y: int, b: seq<Digit>)
    requires |b| >= 1 && b[|b| - 1] != 0 && y != 0 && Val(b) == Abs(y) && GuardQuiet(Abs(x), b)
    ensures SignedQuotient(x, y, b) == Quotient(x, y)
  {
    hide Val, GuardQuiet;
  }

  /** A dividend no larger than the divisor keeps the guard quiet. */
  lemma QuietSmall(a: nat, b: seq<Digit>)
    requires |b| >= 1 && b[|b| - 1] != 0 && a <= Val(b)
    ensures GuardQuiet(a, b)
  {
    hide Val, Pow, Times, Exp2, NormShift;
    TaskForValid(a, b);
    var t := TaskFor(a, b);
    var e := Exp2(NormShift(Top(b)));
    TimesMono(a, Val(b), e);
    forall j: nat ensures !t.Fires(j) {
      DivShrinks(t.n, Pow(j));
      ModShrinks(t.n / Pow(j), BASE * t.d);
      DivisorBelow(t);
    }
  }

  lemma DivShrinks(a: nat, p: nat)
    requires p >= 1
    ensures 0 <= a / p <= a
  {
    hide Times;
    DivBounds(a, p);
    TimesMono(1, p, a / p);
    TimesUnit(a / p);
  }

  lemma ModShrinks(a: nat, p: nat)
    requires p >= 1
    ensures 0 <= a % p <= a
  {
    hide Times;
    DivIs(a, p);
    DivNat(a, p);
    TimesSign(p, a / p);
  }

  lemma DivisorBelow(t: Task)
    requires t.Valid()
    ensures t.d < Times(t.v, Pow(t.ub))
  {
    hide Pow, Times;
    var p := Pow(t.ub - 1);
    PowNext(t.ub - 1);
    TimesBase(p, t.v);
    TimesBase(t.v, t.v);
    TimesAssoc(t.v, BASE, p);
    TimesSwap(t.v, BASE);
    TimesMono(t.v + 1, Times(t.v, BASE), p);
  }

  /** A power of two keeps the guard quiet, so both branches of mp_int_div meet one contract. */
  lemma QuietPowerOfTwo(a: nat, b: seq<Digit>)
    requires |b| >= 1 && b[|b| - 1] != 0 && PowerOfTwo(Val(b))
    ensures GuardQuiet(a, b)
  {
    hide Val, Pow, Times, Exp2, NormShift;
    TaskForValid(a, b);
    var t := TaskFor(a, b);
    PowerIsTop(t, b);
    forall j: nat ensures !t.Fires(j) {
      DivNat(t.n, Pow(j));
      DivIs(t.n / Pow(j), BASE * t.d);
    }
  }

  /** A scaled power of two has only its top digit. */
  lemma PowerIsTop(t: Task, b: seq<Digit>)
    requires |b| >= 1 && b[|b| - 1] != 0 && PowerOfTwo(Val(b)) && t.Valid()
    requires t.ub == |b| && t.d == Times(Val(b), Exp2(NormShift(Top(b))))
    ensures Times(t.v, Pow(t.ub)) >= BASE * t.d
  {
    hide Val, Pow, Times, NormShift;
    var e: nat :| Val(b) == Exp2(e);
    var k, n := NormShift(Top(b)), t.ub - 1;
    Exp2Add(e, k);
    Exp2Digits(n);
    PowNext(n);
    BigEnough(t);
    if e + k < 32 * n { Exp2Above(e + k, 32 * n); }
    Exp2Add(32 * n, e + k - 32 * n);
    var w := Exp2(e + k - 32 * n);
    TimesSwap(Pow(n), w);
    NormalExact(t, w);
  }

  lemma BigEnough(t: Task)
    requires t.Valid()
    ensures t.d >= Pow(t.ub - 1)
  {
    hide Pow, Times;
    TimesMono(1, t.v, Pow(t.ub - 1));
    TimesUnit(Pow(t.ub - 1));
  }

  lemma NormalExact(t: Task, w: int)
    requires t.Valid() && t.d == Times(w, Pow(t.ub - 1))
    ensures Times(t.v, Pow(t.ub)) >= BASE * t.d
  {
    hide Pow, Times;
    var p := Pow(t.ub - 1);
    TimesCancel(w, t.v + 1, p);
    PowNext(t.ub - 1);
    TimesBase(p, t.v);
    TimesMono(w, t.v, p);
    TimesAssoc(t.v, BASE, p);
    TimesSwap(t.v, BASE);
    TimesAssoc(BASE, t.v, p);
    BaseMono(t.d, Times(t.v, p));
  }

  lemma BaseMono(a: int, b: int)
    requires a <= b
    ensures BASE * a <= Times(BASE, b)
  {}

  /** What a possibly absent number may be written through. */
  ghost function Space(z: Mpz?): (s: set<object>)
    reads z
  {
    if z == null then {} else {z as object, z.digits}
  }

  ghost predicate Usable(z: Mpz?)
    reads Space(z)
  {
    z == null || z.Valid()
  }

  ghost predicate Distinct(z: Mpz?, a: Mpz?)
    reads z, a
  {
    z == null || a == null || z == a || z.digits != a.digits
  }

  /** A number that has not moved to storage someone else had. */
  twostate predicate SameSpace(z: Mpz?)
    reads z
  {
    z == null || z.digits == old(z.digits) || fresh(z.digits)
  }

  twostate predicate Kept(z: Mpz?)
    reads Space(z)
  {
    z != null ==>
      z.digits == old(z.digits) && z.used == old(z.used) && z.neg == old(z.neg) && z.digits[..] == old(z.digits[..])
  }

  /** Equal canonical numbers have equal digits. */
  method CopyExact(a: Mpz, c: Mpz)
    requires a.Valid() && c.Valid() && Apart2(a, c)
    modifies c, c.digits
    ensures c.Valid() && c.Mag() == old(a.Mag()) && c.digits[..c.used] == old(a.digits[..a.used])
    ensures c.digits == old(c.digits) || fresh(c.digits)
  {
    hide Val;
    ghost var x := a.digits[..a.used];
    Copy(a, c);
    ValInjective(x, c.digits[..c.used]);
  }

  /** Copy src to dst, or to a fresh number when dst is absent or must not be touched yet. */
  method Place(src: Mpz, dst: Mpz?, busy: Mpz) returns (out: Mpz)
    requires src.Valid() && Usable(dst) && Distinct(src, dst) && Distinct(busy, dst)
    modifies Space(dst)
    ensures out.Valid() && out.Mag() == old(src.Mag()) && out.digits[..out.used] == old(src.digits[..src.used])
    ensures if dst != null && dst != busy then out == dst else fresh(out) && fresh(out.digits)
    ensures dst == busy ==> unchanged(busy) && unchanged(old(busy.digits))
    ensures SameSpace(dst) && Usable(dst)
  {
    hide Val;
    if dst != null && busy != dst {
      CopyExact(src, dst);
      out := dst;
    } else {
      out := new Mpz(src.used);
      CopyExact(src, out);
    }
  }

  /** Give the magnitude in z a sign; zero is never negative. */
  method SetSign(z: Mpz, neg: bool)
    requires z.Valid()
    modifies z`neg
    ensures z.Valid() && z.Mag() == old(z.Mag()) && z.neg == (neg && z.Mag() != 0)
  {
    z.neg := neg;
    var c := CompareZero(z);
    if c == 0 { z.neg := false; }
  }

  /** The storage rules of mp_int_div: results differ, and may only be an operand as a whole. */
  ghost predicate DivArgs(a: Mpz, b: Mpz, q: Mpz?, r: Mpz?)
    reads a, a.digits, b, b.digits, Space(q), Space(r)
  {
    && a.Valid() && b.Valid() && Usable(q) && Usable(r) && q != r
    && Distinct(a, b) && Distinct(a, q) && Distinct(a, r) && Distinct(b, q) && Distinct(b, r) && Distinct(q, r)
  }

  /** The outcome for operands x and y; b is the divisor's digits, which decide whether q is right. */
  twostate predicate Divided(q: Mpz?, r: Mpz?, x: int, y: int, b: seq<Digit>)
    reads Space(q), Space(r)
  {
    && Usable(q) && Usable(r) && SameSpace(q) && SameSpace(r)
    && y != 0 && |b| >= 1 && b[|b| - 1] != 0
    && (r != null ==> r.Value() == Remainder(x, y))
    && (q != null ==> (q.Value() == Quotient(x, y) <==> GuardQuiet(Abs(x), b)))
    && (q != null ==> q.Value() == SignedQuotient(x, y, b))
  }

  /** |a| < |b|: the remainder is a itself. */
  method DivSmall(a: Mpz, b: Mpz, q: Mpz?, r: Mpz?)
    requires DivArgs(a, b, q, r) && a.Mag() < b.Mag()
    modifies Space(q), Space(r)
    ensures Divided(q, r, old(a.Value()), old(b.Value()), old(b.digits[..b.used]))
  {
    hide Val, GuardQuiet, SignedQuotient;
    ghost var x, y := a.Value(), b.Value();
    TopDigit(b);
    QuietSmall(a.Mag(), b.digits[..b.used]);
    QuietQuotient(x, y, b.digits[..b.used]);
    SmallQuotient(x, y);
    if r != null { Copy(a, r); }
    if q != null { q.SetZero(); }
  }

  lemma SmallQuotient(x: int, y: int)
    requires Abs(x) < Abs(y)
    ensures Quotient(x, y) == 0 && Remainder(x, y) == x
  {
    TimesZero(Abs(y));
    DivUnique(Abs(x), Abs(y), 0, Abs(x));
  }

  /** |a| = |b|: the quotient is 1 or -1. */
  method DivEqual(a: Mpz, b: Mpz, q: Mpz?, r: Mpz?)
    requires DivArgs(a, b, q, r) && a.Mag() == b.Mag() > 0
    modifies Space(q), Space(r)
    ensures Divided(q, r, old(a.Value()), old(b.Value()), old(b.digits[..b.used]))
  {
    hide Val, GuardQuiet, SignedQuotient;
    var sa, sb := a.neg, b.neg;
    TopDigit(b);
    QuietSmall(a.Mag(), b.digits[..b.used]);
    QuietQuotient(a.Value(), b.Value(), b.digits[..b.used]);
    EqualQuotient(a.Value(), b.Value());
    if r != null { r.SetZero(); }
    if q != null {
      q.SetZero();
      q.digits[0] := 1;
      assert q.digits[..1] == [1];
      ValOne(1);
      if sa != sb { q.neg := true; }
    }
  }

  lemma EqualQuotient(x: int, y: int)
    requires Abs(x) == Abs(y) > 0
    ensures Quotient(x, y) == (if (x < 0) == (y < 0) then 1 else -1) && Remainder(x, y) == 0
  {
    TimesUnit(Abs(y));
    DivUnique(Abs(x), Abs(y), 1, 0);
  }

  method ShiftOut(q: Mpz?, lg: nat, neg: bool)
    requires Usable(q)
    modifies Space(q)
    ensures Usable(q) && (q != null ==> q.digits == old(q.digits))
    ensures q != null ==> q.Value() == var m := old(q.Mag()) / Exp2(lg); if neg then 0 - m else m
  {
    hide Val, Exp2;
    if q != null {
      QDiv(q, lg);
      SetSign(q, neg);
    }
  }

  method MaskOff(r: Mpz?, lg: nat, neg: bool)
    requires Usable(r)
    modifies Space(r)
    ensures Usable(r) && (r != null ==> r.digits == old(r.digits))
    ensures r != null ==> r.Value() == var m := old(r.Mag()) % Exp2(lg); if neg then 0 - m else m
  {
    hide Val, Exp2;
    if r != null {
      QMod(r, lg);
      SetSign(r, neg);
    }
  }

  /** mp_int_copy to a result that may be unwanted. */
  method CopyTo(a: Mpz, c: Mpz?)
    requires a.Valid() && Usable(c) && Distinct(a, c)
    modifies Space(c)
    ensures Usable(c) && SameSpace(c) && (c != null ==> c.Mag() == old(a.Mag()) && c.neg == old(a.neg))
    ensures a.Valid() && a.Mag() == old(a.Mag()) && a.neg == old(a.neg)
  {
    hide Val;
    if c != null { Copy(a, c); }
  }

  /** Copy a to both results. */
  method CopyBoth(a: Mpz, q: Mpz?, r: Mpz?)
    requires a.Valid() && Usable(q) && Usable(r) && q != r && Distinct(a, q) && Distinct(a, r) && Distinct(q, r)
    modifies Space(q), Space(r)
    ensures Usable(q) && Usable(r) && SameSpace(q) && SameSpace(r) && Distinct(q, r)
    ensures (q != null ==> q.Mag() == old(a.Mag())) && (r != null ==> r.Mag() == old(a.Mag()))
  {
    hide Val;
    CopyTo(a, q);
    CopyTo(a, r);
  }

  /** Divisor a power of two: shift and mask. */
  method DivShift(a: Mpz, b: Mpz, q: Mpz?, r: Mpz?, lg: nat)
    requires DivArgs(a, b, q, r) && b.Mag() == Exp2(lg) && a.Mag() > 0
    modifies Space(q), Space(r)
    ensures Divided(q, r, old(a.Value()), old(b.Value()), old(b.digits[..b.used]))
  {
    hide Val, GuardQuiet, Exp2, SignedQuotient;
    ghost var x, y := a.Value(), b.Value();
    var sa, sb := a.neg, b.neg;
    TopDigit(b);
    assert PowerOfTwo(Val(b.digits[..b.used]));
    QuietPowerOfTwo(a.Mag(), b.digits[..b.used]);
    QuietQuotient(x, y, b.digits[..b.used]);
    CopyBoth(a, q, r);
    ShiftOut(q, lg, sa != sb);
    MaskOff(r, lg, sa);
  }

  /** Where s_udiv works: on the results themselves where that is safe, on copies elsewhere. */
  method PlaceBoth(a: Mpz, b: Mpz, q: Mpz?, r: Mpz?) returns (qout: Mpz, rout: Mpz)
    requires DivArgs(a, b, q, r) && a != b
    modifies Space(q), Space(r)
    ensures qout.Valid() && rout.Valid() && Separate(qout, rout)
    ensures qout.Mag() == old(a.Mag()) && rout.Mag() == old(b.Mag())
    ensures rout.digits[..rout.used] == old(b.digits[..b.used])
    ensures Usable(q) && Usable(r) && SameSpace(q) && SameSpace(r) && Distinct(q, r)
    ensures qout == q || (fresh(qout) && fresh(qout.digits) && Distinct(qout, q) && Distinct(qout, r) && qout != r)
    ensures rout == r || (fresh(rout) && fresh(rout.digits) && Distinct(rout, q) && Distinct(rout, r) && rout != q)
  {
    hide Val;
    qout := Place(a, q, b);
    rout := Place(b, r, a);
  }

  /** s_udiv on the magnitudes of x and y, then the signs. */
  method DivideSigned(qout: Mpz, rout: Mpz, qneg: bool, rneg: bool, ghost x: int, ghost y: int)
    requires qout.Valid() && rout.Valid() && Separate(qout, rout) && 0 < rout.Mag() < qout.Mag()
    requires qout.Mag() == Abs(x) && rout.Mag() == Abs(y) && rneg == (x < 0) && qneg == ((x < 0) != (y < 0))
    modifies qout, qout.digits, rout, rout.digits
    ensures qout.Valid() && rout.Valid() && Separate(qout, rout)
    ensures (qout.digits == old(qout.digits) || fresh(qout.digits))
    ensures (rout.digits == old(rout.digits) || fresh(rout.digits))
    ensures rout.Value() == Remainder(x, y) && old(rout.digits[rout.used - 1]) != 0
    ensures qout.Value() == Quotient(x, y) <==> GuardQuiet(Abs(x), old(rout.digits[..rout.used]))
    ensures qout.Value() == SignedQuotient(x, y, old(rout.digits[..rout.used]))
  {
    hide Val, GuardQuiet, ListVal, ListedDigits;
    UDiv(qout, rout);
    DivNat(Abs(x), Abs(y));
    SetSign(rout, rneg);
    SetSign(qout, qneg);
  }

  method CopyOut(qout: Mpz, rout: Mpz, q: Mpz?, r: Mpz?)
    requires qout.Valid() && rout.Valid() && Usable(q) && Usable(r) && q != r && qout != r && rout != q && qout != rout
    requires Distinct(qout, q) && Distinct(qout, r) && Distinct(rout, q) && Distinct(rout, r) && Distinct(q, r)
    modifies Space(q), Space(r)
    ensures Usable(q) && Usable(r) && SameSpace(q) && SameSpace(r)
    ensures (q != null ==> q.Value() == old(qout.Value())) && (r != null ==> r.Value() == old(rout.Value()))
  {
    hide Val;
    CopyTo(qout, q);
    CopyTo(rout, r);
  }

  /** The general case: s_udiv. */
  method DivLong(a: Mpz, b: Mpz, q: Mpz?, r: Mpz?)
    requires DivArgs(a, b, q, r) && 0 < b.Mag() < a.Mag()
    modifies Space(q), Space(r)
    ensures Divided(q, r, old(a.Value()), old(b.Value()), old(b.digits[..b.used]))
  {
    hide Val, GuardQuiet, Quotient, Remainder, SignedQuotient;
    ghost var x, y := a.Value(), b.Value();
    var sa, sb := a.neg, b.neg;
    var qout, rout := PlaceBoth(a, b, q, r);
    DivideSigned(qout, rout, sa != sb, sa, x, y);
    CopyOut(qout, rout, q, r);
  }

  /**
   mp_int_div: the remainder is always the one of division rounded toward zero;
   the quotient is right exactly when the guard of s_udiv stays quiet.
   */
  method Div(a: Mpz, b: Mpz, q: Mpz?, r: Mpz?) returns (res: MpResult)
    requires DivArgs(a, b, q, r)
    modifies Space(q), Space(r)
    ensures res == if old(b.Value()) == 0 then Undefined else Done
    ensures res == Undefined ==> Kept(q) && Kept(r)
    ensures res == Done ==> Divided(q, r, old(a.Value()), old(b.Value()), old(b.digits[..b.used]))
  {
    hide Val, DivArgs, PowerOfTwo, GuardQuiet, Quotient, Remainder, SignedQuotient;
    DivArgsValid(a, b, q, r);
    var c := CompareZero(b);
    if c == 0 { return Undefined; }
    var cmp := CompareMag(a, b);
    if cmp < 0 {
      DivSmall(a, b, q, r);
    } else if cmp == 0 {
      DivEqual(a, b, q, r);
    } else {
      var lg := IsP2(b);
      if lg < 0 {
        DivLong(a, b, q, r);
      } else {
        DivShift(a, b, q, r, lg);
      }
    }
    res := Done;
  }

  lemma DivArgsValid(a: Mpz, b: Mpz, q: Mpz?, r: Mpz?)
    requires DivArgs(a, b, q, r)
    ensures a.Valid() && b.Valid()
  {}

  /** mp_int_div(a, m, NULL, r). */
  method DivRemainder(a: Mpz, m: Mpz, r: Mpz) returns (res: MpResult)
    requires a.Valid() && m.Valid() && r.Valid() && Apart2(a, r) && Separate(m, r) && Apart2(a, m)
    modifies r, r.digits
    ensures r.Valid() && (r.digits == old(r.digits) || fresh(r.digits))
    ensures res == if old(m.Value()) == 0 then Undefined else Done
    ensures res == Undefined ==> Kept(r)
    ensures res == Done ==> r.Value() == Remainder(old(a.Value()), old(m.Value()))
  {
    hide Val, Remainder, Quotient, GuardQuiet, SignedQuotient;
    res := Div(a, m, null, r);
  }

  /** mp_int_mod: for a positive modulus the remainder in [0, m), written anywhere. */
  method Mod(a: Mpz, m: Mpz, c: Mpz) returns (res: MpResult)
    requires a.Valid() && m.Valid() && c.Valid() && Apart2(a, c) && Apart2(m, c) && Apart2(a, m)
    modifies c, c.digits
    ensures c.Valid() && (c.digits == old(c.digits) || fresh(c.digits))
    ensures res == if old(m.Value()) == 0 then Undefined else Done
    ensures res == Undefined ==> Kept(c)
    ensures res == Done && old(m.Value()) > 0 ==> c.Value() == old(a.Value()) % old(m.Value())
    ensures res == Done ==>
      var r := Remainder(old(a.Value()), old(m.Value()));
      c.Value() == if r < 0 then r + old(m.Value()) else r
  {
    hide Val, Remainder;
    ghost var x, y := a.Value(), m.Value();
    if y > 0 { RemainderMod(x, y); }
    var out := c;
    if m == c { out := new Mpz(DEFAULT_PRECISION); }
    res := DivRemainder(a, m, out);
    if res == Done { Raise(out, m, c); }
  }

  /** Bring a negative remainder up by the modulus. */
  method Raise(out: Mpz, m: Mpz, c: Mpz)
    requires out.Valid() && m.Valid() && c.Valid() && Apart2(out, c) && Apart2(m, c)
    modifies c, c.digits
    ensures c.Valid() && (c.digits == old(c.digits) || fresh(c.digits))
    ensures c.Value() == old(out.Value()) + if old(out.Value()) < 0 then old(m.Value()) else 0
  {
    hide Val;
    var s := CompareZero(out);
    if s < 0 {
      Add(out, m, c);
    } else {
      Copy(out, c);
    }
  }

  lemma RemainderMod(x: int, m: int)
    requires m > 0
    ensures x % m == var r := Remainder(x, m); if r < 0 then r + m else r
  {
    hide Times, Quotient, Remainder;
    DivisionLaw(x, m);
    var q, r := Quotient(x, m), Remainder(x, m);
    TimesSwap(q, m);
    TimesDiff(m, q, 1);
    TimesUnit(m);
    RemainderRange(x, m);
    if r < 0 { DivUnique(x, m, q - 1, r + m); } else { DivUnique(x, m, q, r); }
  }

  lemma RemainderRange(x: int, m: int)
    requires m > 0
    ensures 0 - m < Remainder(x, m) < m
  {}
}
