/**
 The mpz structure of imath: a sign, a digit buffer and the number of digits in
 use.  Methods are the s_ helpers and mp_int_ operations that change it in place.
 */
module MpInt {
  import opened Arithmetic
  import opened Digits
  import opened UnsignedKernel
  import opened Karatsuba
  import opened Squaring

  /** Digits a new number has room for at least. */
  const DEFAULT_PRECISION: nat := 64

  function RoundPrec(p: nat): (r: nat)
    ensures p <= r <= p + 1
  {
    2 * ((p + 1) / 2)
  }

  class Mpz {
    var digits: array<Digit>
    var used: nat
    var neg: bool

    /** At least one digit, and no leading zero unless the number is zero. */
    ghost predicate Valid()
      reads this, digits
    {
      1 <= used <= digits.Length && (used > 1 ==> digits[used - 1] != 0)
    }

    ghost function Mag(): (m: nat)
      requires used <= digits.Length
      reads this, digits
    {
      Val(digits[..used])
    }

    ghost function Value(): (v: int)
      requires used <= digits.Length
      reads this, digits
    {
      var m: int := Mag();
      if neg then -m else m
    }

    /** mp_int_init_size. */
    constructor (prec: nat)
      ensures Valid() && fresh(digits) && Value() == 0 && !neg && used == 1
      ensures digits.Length >= prec
    {
      digits := new Digit[Max(RoundPrec(prec), DEFAULT_PRECISION)](_ => 0);
      used := 1;
      neg := false;
      new;
      assert digits[..1] == [0];
      ValOne(0);
    }

    /** s_pad: make room for min digits, keeping the contents. */
    method Pad(min: nat)
      requires 1 <= used <= digits.Length
      modifies this`digits
      ensures min <= digits.Length && old(digits.Length) <= digits.Length
      ensures if min <= old(digits.Length) then digits == old(digits) else fresh(digits)
      ensures forall k :: 0 <= k < old(digits.Length) ==> digits[k] == old(digits[k])
      ensures Mag() == old(Mag())
    {
      hide Val;
      if digits.Length < min {
        var tmp := new Digit[RoundPrec(min)];
        ghost var low := digits[..used];
        forall k | 0 <= k < digits.Length { tmp[k] := digits[k]; }
        assert tmp[..used] == low;
        digits := tmp;
      }
    }

    /** CLAMP: drop leading zeros. */
    method Clamp()
      requires 1 <= used <= digits.Length
      modifies this`used
      ensures Valid() && used <= old(used) && Mag() == old(Mag())
      ensures forall k :: used <= k < old(used) ==> digits[k] == 0
    {
      hide Val;
      while used > 1 && digits[used - 1] == 0
        invariant 1 <= used <= old(used)
        invariant Mag() == old(Mag())
        invariant forall k :: used <= k < old(used) ==> digits[k] == 0
      {
        assert digits[..used] == digits[..used - 1] + [0];
        ValPadZeros(digits[..used - 1], 1);
        assert Zeros(1) == [0];
        used := used - 1;
      }
    }

    /** Store a carry as a new top digit, if there is one. */
    method AppendCarry(carry: Digit)
      requires 1 <= used <= digits.Length
      modifies this, digits
      ensures used == old(used) + (if carry == 0 then 0 else 1) && used <= digits.Length && neg == old(neg)
      ensures Mag() == old(Mag()) + Shl(carry as int, old(used))
      ensures carry != 0 ==> digits[used - 1] == carry
      ensures carry == 0 ==> digits == old(digits) && digits[..used] == old(digits[..used])
      ensures digits == old(digits) || fresh(digits)
    {
      hide Val, Shl;
      if carry != 0 {
        var top := used;
        ghost var low := digits[..top];
        Pad(top + 1);
        digits[top] := carry;
        used := top + 1;
        assert digits[..top + 1] == low + [carry];
        ValAppend(low, carry);
      } else {
        ShlZero(used);
      }
    }

    /** mp_int_zero. */
    method SetZero()
      requires 1 <= digits.Length
      modifies this, digits
      ensures Valid() && Value() == 0 && digits == old(digits) && used == 1 && !neg
    {
      digits[0] := 0;
      used := 1;
      neg := false;
      assert digits[..1] == [0];
      ValOne(0);
    }
  }

  /** Two numbers that share no storage. */
  ghost predicate Separate(a: Mpz, b: Mpz)
    reads a, b
  {
    a != b && a.digits != b.digits
  }

  function Sign(v: int): (s: int) {
    if v > 0 then 1 else if v < 0 then -1 else 0
  }

  /** No leading zero except in a single digit. */
  ghost predicate Canonical(s: seq<Digit>) {
    |s| >= 1 && (|s| > 1 ==> s[|s| - 1] != 0)
  }

  lemma CanonicalBound(s: seq<Digit>)
    requires Canonical(s) && |s| > 1
    ensures Pow(|s| - 1) <= Val(s)
  {
    hide Val, Shl;
    var n := |s| - 1;
    assert s == s[..n] + [s[n]];
    ValAppend(s[..n], s[n]);
    ShlMono(1, s[n] as int, n);
    ShlZero(n);
  }

  lemma TopIsPositive(s: seq<Digit>)
    requires |s| >= 1 && s[|s| - 1] != 0
    ensures Val(s) >= 1
  {
    hide Val, Pow;
    if |s| > 1 {
      CanonicalBound(s);
    } else {
      assert s == [s[0]];
      ValOne(s[0]);
    }
  }

  /** How many digits a number takes: its length as a canonical digit string. */
  function DigitCount(v: nat): (n: nat)
    ensures n >= 1
  {
    if v < BASE then 1 else 1 + DigitCount(v / BASE)
  }

  lemma {:induction false} CanonicalCount(s: seq<Digit>)
    requires Canonical(s)
    ensures Val(s) >= 0 && |s| == DigitCount(Val(s))
  {
    ValBound(s);
    if |s| == 1 {
      assert s == [s[0]];
      ValOne(s[0]);
    } else {
      CanonicalCount(s[1..]);
      TailNonzero(s);
    }
  }

  lemma TailNonzero(s: seq<Digit>)
    requires Canonical(s) && |s| > 1
    ensures Val(s[1..]) >= 1
  {
    TopIsPositive(s[1..]);
  }

  lemma {:induction false} CountBounds(v: nat)
    ensures v < Pow(DigitCount(v)) && (v > 0 ==> Pow(DigitCount(v) - 1) <= v)
  {
    assert Pow(0) == 1 && Pow(1) == BASE;
    if v >= BASE {
      var n := DigitCount(v / BASE);
      CountBounds(v / BASE);
      PowNext(n);
      PowNext(n - 1);
    }
  }

  /** The digit count is where the number falls between powers of the base. */
  lemma CountIs(v: nat, n: nat)
    requires n >= 1 && v < Pow(n) && (n > 1 ==> Pow(n - 1) <= v)
    ensures DigitCount(v) == n
  {
    hide Pow;
    var c := DigitCount(v);
    CountBounds(v);
    if c < n {
      PowMono(c, n - 1);
    } else if c > n {
      if v == 0 { ZeroCount(); } else { PowMono(n, c - 1); }
    }
  }

  lemma ZeroCount()
    ensures DigitCount(0) == 1
  {}

  /** A longer canonical number is larger. */
  lemma LongerIsLarger(s: seq<Digit>, t: seq<Digit>)
    requires Canonical(s) && |s| > |t| >= 1
    ensures Val(s) > Val(t)
  {
    hide Val, Shl, Pow;
    CanonicalBound(s);
    ValBound(t);
    PowMono(|t|, |s| - 1);
  }

  /** The first difference from the top decides. */
  lemma TopDecides(s: seq<Digit>, t: seq<Digit>, k: nat)
    requires k < |s| == |t| && s[k + 1..] == t[k + 1..] && s[k] < t[k]
    ensures Val(s) < Val(t)
  {
    hide Val, Shl, Pow;
    ValSplit(s, k + 1);
    ValSplit(t, k + 1);
    ValStep(s, k);
    ValStep(t, k);
    ValBound(s[..k]);
    ShlMono(s[k] as int + 1, t[k] as int, k);
    ShlSum(s[k] as int + 1, s[k] as int, 1, k);
    ShlZero(k);
  }

  /** s_cdig: compare two runs of n digits from the most significant one. */
  method CmpDigits(da: array<Digit>, ao: nat, db: array<Digit>, bo: nat, n: nat) returns (c: int)
    requires ao + n <= da.Length && bo + n <= db.Length
    ensures c == Sign(Val(da[ao..ao + n]) - Val(db[bo..bo + n]))
  {
    hide Val;
    ghost var x, y := da[ao..ao + n], db[bo..bo + n];
    var len := n;
    while len != 0
      invariant 0 <= len <= n
      invariant x[len..] == y[len..]
    {
      assert da[ao + len - 1] == x[len - 1] && db[bo + len - 1] == y[len - 1];
      if da[ao + len - 1] > db[bo + len - 1] {
        TopDecides(y, x, len - 1);
        return 1;
      } else if da[ao + len - 1] < db[bo + len - 1] {
        TopDecides(x, y, len - 1);
        return -1;
      }
      assert x[len - 1..] == [x[len - 1]] + x[len..] && y[len - 1..] == [y[len - 1]] + y[len..];
      len := len - 1;
    }
    assert x == y;
    c := 0;
  }

  /** s_ucmp: compare magnitudes, first by length. */
  method UCmp(da: array<Digit>, ao: nat, ua: nat, db: array<Digit>, bo: nat, ub: nat) returns (c: int)
    requires ao + ua <= da.Length && bo + ub <= db.Length
    requires Canonical(da[ao..ao + ua]) && Canonical(db[bo..bo + ub])
    ensures c == Sign(Val(da[ao..ao + ua]) - Val(db[bo..bo + ub]))
  {
    hide Val;
    if ua > ub {
      LongerIsLarger(da[ao..ao + ua], db[bo..bo + ub]);
      c := 1;
    } else if ub > ua {
      LongerIsLarger(db[bo..bo + ub], da[ao..ao + ua]);
      c := -1;
    } else {
      c := CmpDigits(da, ao, db, bo, ua);
    }
  }

  method CompareMag(a: Mpz, b: Mpz) returns (c: int)
    requires a.Valid() && b.Valid()
    ensures c == Sign(a.Mag() - b.Mag())
  {
    hide Val;
    assert a.digits[0..a.used] == a.digits[..a.used] && b.digits[0..b.used] == b.digits[..b.used];
    c := UCmp(a.digits, 0, a.used, b.digits, 0, b.used);
  }

  /** mp_int_compare: the sign field first, then the magnitudes. */
  method Compare(a: Mpz, b: Mpz) returns (c: int)
    requires a.Valid() && b.Valid()
    ensures a.neg == b.neg ==> c == Sign(a.Value() - b.Value())
    ensures a.neg != b.neg ==> c == if a.neg then -1 else 1
  {
    if a.neg == b.neg {
      var cmp := CompareMag(a, b);
      c := if a.neg then -cmp else cmp;
    } else {
      c := if a.neg then -1 else 1;
    }
  }

  /** CMPZ. */
  method CompareZero(z: Mpz) returns (c: int)
    requires z.Valid()
    ensures c == Sign(z.Value())
  {
    ZeroIsOneDigit(z);
    if z.used == 1 && z.digits[0] == 0 {
      c := 0;
    } else {
      c := if z.neg then -1 else 1;
    }
  }

  /** mp_int_set_value(c, 1). */
  method SetOne(c: Mpz)
    requires c.Valid()
    modifies c, c.digits
    ensures c.Valid() && c.Mag() == 1 && !c.neg && c.used == 1 && c.digits == old(c.digits)
  {
    c.digits[0] := 1;
    c.used := 1;
    c.neg := false;
    assert c.digits[..1] == [1];
    ValOne(1);
  }

  lemma ZeroIsOneDigit(z: Mpz)
    requires z.Valid()
    ensures z.Mag() == 0 <==> z.used == 1 && z.digits[0] == 0
  {
    if z.used == 1 {
      assert z.digits[..1] == [z.digits[0]];
      ValOne(z.digits[0]);
    } else {
      CanonicalBound(z.digits[..z.used]);
    }
  }

  /** Distinct numbers share no storage. */
  ghost predicate Apart2(a: Mpz, c: Mpz)
    reads a, c
  {
    a == c || a.digits != c.digits
  }

  /** mp_int_copy. */
  method Copy(a: Mpz, c: Mpz)
    requires a.Valid() && 1 <= c.used <= c.digits.Length && Apart2(a, c)
    modifies c, c.digits
    ensures c.Valid() && c.Value() == old(a.Value()) && c.Mag() == old(a.Mag()) && c.used == old(a.used)
    ensures c.digits == old(c.digits) || fresh(c.digits)
    ensures c.neg == old(a.neg) && old(c.digits.Length) <= c.digits.Length
  {
    hide Val;
    if a != c {
      ghost var x := a.digits[..a.used];
      c.Pad(a.used);
      forall k | 0 <= k < a.used { c.digits[k] := a.digits[k]; }
      c.used := a.used;
      c.neg := a.neg;
      assert c.digits[..a.used] == x;
    }
  }

  /** The digits of |a| + |b| into c, and the carry left over. */
  method AddDigits(a: Mpz, b: Mpz, c: Mpz) returns (carry: Digit)
    requires a.Valid() && b.Valid() && c.Valid() && Apart2(a, c) && Apart2(b, c)
    modifies c, c.digits
    ensures c.used == Max(old(a.used), old(b.used)) <= c.digits.Length
    ensures c.Mag() + Shl(carry as int, c.used) == old(a.Mag()) + old(b.Mag())
    ensures c.digits == old(c.digits) || fresh(c.digits)
  {
    hide Val, Shl;
    var ua, ub := a.used, b.used;
    ghost var x, y := a.digits[..ua], b.digits[..ub];
    c.Pad(Max(ua, ub));
    assert a.digits[0..ua] == x && b.digits[0..ub] == y;
    carry := UAdd(a.digits, 0, b.digits, 0, c.digits, 0, ua, ub);
    c.used := Max(ua, ub);
    assert c.digits[..c.used] == c.digits[0..Max(ua, ub)];
  }

  /** Add magnitudes into c; the sign is the caller's. */
  method AddMagnitudes(a: Mpz, b: Mpz, c: Mpz, sign: bool)
    requires a.Valid() && b.Valid() && c.Valid() && Apart2(a, c) && Apart2(b, c)
    modifies c, c.digits
    ensures c.Valid() && c.Mag() == old(a.Mag()) + old(b.Mag()) && c.neg == sign
    ensures c.digits == old(c.digits) || fresh(c.digits)
  {
    hide Val, Shl;
    ghost var x, y := a.digits[..a.used], b.digits[..b.used];
    var carry := AddDigits(a, b, c);
    c.AppendCarry(carry);
    c.neg := sign;
    SumCanonical(x, y, carry, c.digits[..c.used]);
  }

  /** A sum has no leading zero: its top digit is a carry, or the number is as large as the longer operand. */
  lemma SumCanonical(x: seq<Digit>, y: seq<Digit>, carry: Digit, z: seq<Digit>)
    requires Canonical(x) && Canonical(y) && Val(z) == Val(x) + Val(y)
    requires if carry != 0 then |z| >= 1 && z[|z| - 1] == carry else |z| == Max(|x|, |y|)
    ensures Canonical(z)
  {
    hide Val, Shl, Pow;
    var n := |z| - 1;
    if n >= 1 && z[n] == 0 {
      SmallWithoutTop(z);
      if |x| == |z| { CanonicalBound(x); } else { CanonicalBound(y); }
    }
  }

  lemma SmallWithoutTop(z: seq<Digit>)
    requires |z| >= 1 && z[|z| - 1] == 0
    ensures Val(z) < Pow(|z| - 1)
  {
    hide Val, Shl, Pow;
    var n := |z| - 1;
    assert z == z[..n] + [0];
    ValAppend(z[..n], 0);
    ShlZero(n);
    ValBound(z[..n]);
  }

  /** The digits between the number and position n are zero. */
  ghost predicate ClearAbove(c: Mpz, n: nat)
    reads c, c.digits
  {
    n <= c.digits.Length && forall k :: c.used <= k < n ==> c.digits[k] == 0
  }

  /** Subtract the smaller magnitude from the larger into c. */
  method SubMagnitudes(x: Mpz, y: Mpz, c: Mpz, sign: bool)
    requires x.Valid() && y.Valid() && c.Valid() && Apart2(x, c) && Apart2(y, c)
    requires y.Mag() <= x.Mag()
    modifies c, c.digits
    ensures c.Valid() && c.Mag() == old(x.Mag()) - old(y.Mag()) && c.neg == sign
    ensures c.digits == old(c.digits) || fresh(c.digits)
    ensures c.used <= old(x.used)
    ensures c == x ==> c.digits == old(c.digits) && ClearAbove(c, old(x.used))
    ensures c == x ==> forall k :: old(x.used) <= k < c.digits.Length ==> c.digits[k] == old(c.digits[k])
  {
    hide Val, Shl;
    var ux, uy := x.used, y.used;
    if uy > ux { LongerIsLarger(y.digits[..uy], x.digits[..ux]); }
    ghost var sx, sy := x.digits[..ux], y.digits[..uy];
    c.Pad(ux);
    assert x.digits[0..ux] == sx && y.digits[0..uy] == sy;
    USub(x.digits, 0, y.digits, 0, c.digits, 0, ux, uy);
    c.used := ux;
    assert c.digits[..ux] == c.digits[0..ux];
    c.Clamp();
    c.neg := sign;
  }

  /** mp_int_add: c = a + b; c may be a or b. */
  method Add(a: Mpz, b: Mpz, c: Mpz)
    requires a.Valid() && b.Valid() && c.Valid() && Apart2(a, c) && Apart2(b, c)
    modifies c, c.digits
    ensures c.Valid() && c.Value() == old(a.Value()) + old(b.Value())
    ensures c.digits == old(c.digits) || fresh(c.digits)
  {
    if a.neg == b.neg {
      AddMagnitudes(a, b, c, a.neg);
    } else {
      var cmp := CompareMag(a, b);
      if cmp >= 0 {
        SubMagnitudes(a, b, c, a.neg);
      } else {
        SubMagnitudes(b, a, c, b.neg);
      }
    }
  }

  /** mp_int_sub: c = a - b; c may be a or b. */
  method Sub(a: Mpz, b: Mpz, c: Mpz)
    requires a.Valid() && b.Valid() && c.Valid() && Apart2(a, c) && Apart2(b, c)
    modifies c, c.digits
    ensures c.Valid() && c.Value() == old(a.Value()) - old(b.Value())
    ensures c.neg == if old(a.neg) == old(b.neg) then c.Value() < 0 else old(a.neg)
    ensures c.digits == old(c.digits) || fresh(c.digits)
    ensures a == c && old(a.neg) == old(b.neg) && old(b.Mag()) <= old(a.Mag()) ==>
      && c.digits == old(c.digits) && ClearAbove(c, old(a.used))
      && forall k :: old(a.used) <= k < c.digits.Length ==> c.digits[k] == old(c.digits[k])
  {
    if a.neg != b.neg {
      AddMagnitudes(a, b, c, a.neg);
    } else {
      var cmp := CompareMag(a, b);
      var osign := cmp < 0;
      if a.neg && cmp != 0 {
        osign := !osign;
      }
      if cmp >= 0 {
        SubMagnitudes(a, b, c, osign);
      } else {
        SubMagnitudes(b, a, c, osign);
      }
    }
  }

  /** The digits mp_int_mul sets aside for a product of o digits in a new buffer. */
  function Reserved(o: nat): (n: nat) {
    Max(RoundPrec(o), DEFAULT_PRECISION)
  }

  /**
   They cover what s_kmul touches exactly when it does not split, the default room is
   enough, or the longer operand has an even length and the other is at most one shorter.
   */
  lemma ProductCovered(threshold: nat, na: nat, nb: nat)
    ensures Touched(threshold, na, nb) <= Reserved(na + nb) <==>
      var l, s := Max(na, nb), Min(na, nb);
      !Splits(threshold, l, s) || 4 * Half(l) <= DEFAULT_PRECISION || (l % 2 == 0 && l <= s + 1)
  {
    var l := Max(na, nb);
    assert Half(l) == if l % 2 == 0 then l / 2 else l / 2 + 1;
  }

  /** For squares: when s_ksqr does not split, the default room is enough, or the length is even. */
  lemma SquareCovered(threshold: nat, n: nat)
    ensures SqrTouched(threshold, n) <= Reserved(2 * n) <==>
      !SqrSplits(threshold, n) || 4 * Half(n) <= DEFAULT_PRECISION || n % 2 == 0
  {
    assert Half(n) == if n % 2 == 0 then n / 2 else n / 2 + 1;
  }

  /** Two operands of 33 digits with the default threshold: 68 digits touched, 66 set aside. */
  lemma OddLengthUncovered()
    ensures Touched(32, 33, 33) == 68 && SqrTouched(32, 33) == 68 && Reserved(66) == 66
  {}

  /** The UMUL macro: z = x * y in magnitude; z keeps its buffer unless s_kmul would go past it. */
  method UMulTo(threshold: nat, x: Mpz, y: Mpz, z: Mpz)
    requires threshold == 0 || threshold >= 4
    requires x.Valid() && y.Valid() && z.Valid() && Separate(x, z) && Separate(y, z)
    modifies z, z.digits
    ensures z.Valid() && z.Mag() == Times(x.Mag(), y.Mag()) && z.neg == old(z.neg)
    ensures if Touched(threshold, x.used, y.used) <= old(z.digits.Length) then z.digits == old(z.digits)
            else fresh(z.digits)
  {
    hide Val, Shl, Times;
    var ua, ub := x.used, y.used;
    var o := ua + ub;
    z.Pad(Touched(threshold, ua, ub));
    ZeroDigits(z.digits, 0, o);
    assert x.digits[0..ua] == x.digits[..ua] && y.digits[0..ub] == y.digits[..ub];
    KMul(threshold, x.digits, 0, y.digits, 0, z.digits, 0, ua, ub);
    z.used := o;
    assert z.digits[..o] == z.digits[0..0 + (ua + ub)];
    z.Clamp();
  }

  /** The magnitudes multiplied, in fresh storage when c is an operand. */
  method MulMagnitudes(threshold: nat, a: Mpz, b: Mpz, c: Mpz)
    requires threshold == 0 || threshold >= 4
    requires a.Valid() && b.Valid() && c.Valid() && Apart2(a, c) && Apart2(b, c)
    modifies c, c.digits
    ensures c.Valid() && c.Mag() == Times(old(a.Mag()), old(b.Mag()))
    ensures c.digits == old(c.digits) || fresh(c.digits)
  {
    hide Val, Times;
    if c == a || c == b {
      var out := new Mpz(a.used + b.used);
      UMulTo(threshold, a, b, out);
      c.digits, c.used := out.digits, out.used;
    } else {
      UMulTo(threshold, a, b, c);
    }
  }

  /** mp_int_mul: the product of signed numbers, also over an operand. */
  method Mul(threshold: nat, a: Mpz, b: Mpz, c: Mpz)
    requires threshold == 0 || threshold >= 4
    requires a.Valid() && b.Valid() && c.Valid() && Apart2(a, c) && Apart2(b, c)
    modifies c, c.digits
    ensures c.Valid() && c.Value() == Times(old(a.Value()), old(b.Value()))
    ensures c.digits == old(c.digits) || fresh(c.digits)
  {
    hide Val, Times;
    SignedProduct(a.neg, a.Mag(), b.neg, b.Mag());
    var x := CompareZero(a);
    var y := CompareZero(b);
    var osign := a.neg != b.neg;
    if x == 0 || y == 0 {
      c.SetZero();
    } else {
      MulMagnitudes(threshold, a, b, c);
      c.neg := osign;
    }
  }

  lemma SignedProduct(aneg: bool, a: int, bneg: bool, b: int)
    ensures Times(if aneg then 0 - a else a, if bneg then 0 - b else b) ==
      if aneg == bneg then Times(a, b) else 0 - Times(a, b)
    ensures a == 0 || b == 0 ==> Times(a, b) == 0
  {}

  /** The USQR macro: z = x * x in magnitude; z keeps its buffer unless s_ksqr would go past it. */
  method USqrTo(threshold: nat, x: Mpz, z: Mpz)
    requires threshold == 0 || threshold >= 4
    requires x.Valid() && z.Valid() && Separate(x, z)
    modifies z, z.digits
    ensures z.Valid() && z.Mag() == Times(x.Mag(), x.Mag()) && z.neg == old(z.neg)
    ensures if SqrTouched(threshold, x.used) <= old(z.digits.Length) then z.digits == old(z.digits)
            else fresh(z.digits)
  {
    hide Val, Shl, Times;
    var ua := x.used;
    var o := ua + ua;
    z.Pad(SqrTouched(threshold, ua));
    ZeroDigits(z.digits, 0, o);
    assert x.digits[0..ua] == x.digits[..ua];
    KSqr(threshold, x.digits, 0, z.digits, 0, ua);
    z.used := o;
    assert z.digits[..o] == z.digits[0..0 + 2 * ua];
    z.Clamp();
  }
}
