/**
 A row of working numbers that share no storage, as in the temp arrays of
 mp_int_gcd and mp_int_egcd.  Each operation changes one of them; the caller
 keeps the values they stand for.
 */
module MpBank {
  import opened Arithmetic
  import opened Digits
  import opened PowersOfTwo
  import opened MpInt
  import opened Shifts
  import opened TrailingZeros

  ghost function Cells(ts: seq<Mpz>): (s: set<object>)
    reads ts
  {
    (set i | 0 <= i < |ts| :: ts[i] as object) + (set i | 0 <= i < |ts| :: ts[i].digits)
  }

  /** The numbers are valid, separate, and stand for vs. */
  ghost predicate Holds(ts: seq<Mpz>, vs: seq<int>)
    reads Cells(ts)
  {
    && |ts| == |vs|
    && (forall i :: 0 <= i < |ts| ==> ts[i].Valid() && ts[i].Value() == vs[i])
    && (forall i, j :: 0 <= i < j < |ts| ==> Separate(ts[i], ts[j]))
  }

  /** The cells are those of before, or new. */
  twostate predicate Grown(ts: seq<Mpz>)
    reads ts
  {
    forall o :: o in Cells(ts) && o !in old(Cells(ts)) ==> fresh(o)
  }

  lemma HoldsAt(ts: seq<Mpz>, vs: seq<int>, i: nat)
    requires Holds(ts, vs) && i < |ts|
    ensures |vs| == |ts| && ts[i].Valid() && ts[i].Value() == vs[i]
  {}

  method AddAt(ts: seq<Mpz>, i: nat, j: nat, k: nat, ghost vs: seq<int>)
    requires Holds(ts, vs) && i < |ts| && j < |ts| && k < |ts|
    modifies Cells(ts)
    ensures Holds(ts, vs[k := vs[i] + vs[j]]) && Grown(ts)
  {
    hide Val;
    Add(ts[i], ts[j], ts[k]);
  }

  method SubAt(ts: seq<Mpz>, i: nat, j: nat, k: nat, ghost vs: seq<int>)
    requires Holds(ts, vs) && i < |ts| && j < |ts| && k < |ts|
    modifies Cells(ts)
    ensures Holds(ts, vs[k := vs[i] - vs[j]]) && Grown(ts)
  {
    hide Val;
    Sub(ts[i], ts[j], ts[k]);
  }

  /** mp_int_neg. */
  method Neg(a: Mpz, c: Mpz)
    requires a.Valid() && c.Valid() && Apart2(a, c)
    modifies c, c.digits
    ensures c.Valid() && c.Value() == 0 - old(a.Value())
    ensures c.digits == old(c.digits) || fresh(c.digits)
  {
    hide Val;
    Copy(a, c);
    var s := CompareZero(c);
    if s != 0 { c.neg := !a.neg; }
  }

  /** mp_int_abs. */
  method AbsTo(a: Mpz, c: Mpz)
    requires a.Valid() && c.Valid() && Apart2(a, c)
    modifies c, c.digits
    ensures c.Valid() && !c.neg && c.Value() == Abs(old(a.Value())) == c.Mag()
    ensures c.digits == old(c.digits) || fresh(c.digits)
  {
    hide Val;
    Copy(a, c);
    c.neg := false;
  }

  method NegAt(ts: seq<Mpz>, i: nat, k: nat, ghost vs: seq<int>)
    requires Holds(ts, vs) && i < |ts| && k < |ts|
    modifies Cells(ts)
    ensures Holds(ts, vs[k := 0 - vs[i]]) && Grown(ts)
  {
    hide Val;
    Neg(ts[i], ts[k]);
  }

  method CopyAt(ts: seq<Mpz>, i: nat, k: nat, ghost vs: seq<int>)
    requires Holds(ts, vs) && i < |ts| && k < |ts|
    modifies Cells(ts)
    ensures Holds(ts, vs[k := vs[i]]) && Grown(ts)
  {
    hide Val;
    Copy(ts[i], ts[k]);
  }

  /** What s_qdiv does to a signed number: the magnitude is shifted. */
  function ShiftDown(v: int, p: nat): (w: int) {
    var m: int := Abs(v) / Exp2(p);
    if v < 0 then 0 - m else m
  }

  method ShiftAt(ts: seq<Mpz>, k: nat, p: nat, ghost vs: seq<int>)
    requires Holds(ts, vs) && k < |ts|
    modifies Cells(ts)
    ensures Holds(ts, vs[k := ShiftDown(vs[k], p)]) && Grown(ts)
  {
    hide Val, Exp2;
    DivNat(ts[k].Mag(), Exp2(p));
    QDiv(ts[k], p);
  }

  /** mp_int_is_odd. */
  method IsOdd(z: Mpz) returns (odd: bool)
    requires z.Valid()
    ensures odd <==> z.Value() % 2 == 1
  {
    odd := z.digits[0] % 2 == 1;
    assert z.Mag() == z.digits[0] as int + BASE * Val(z.digits[..z.used][1..]);
  }

  method SignAt(ts: seq<Mpz>, i: nat, ghost vs: seq<int>) returns (s: int)
    requires Holds(ts, vs) && i < |ts|
    ensures Holds(ts, vs) && Grown(ts)
    ensures |vs| == |ts| && s == Sign(vs[i])
  {
    hide Val;
    s := CompareZero(ts[i]);
  }

  method TwosAt(ts: seq<Mpz>, i: nat, ghost vs: seq<int>) returns (k: nat)
    requires Holds(ts, vs) && i < |ts| && |vs| == |ts| && vs[i] != 0
    ensures Holds(ts, vs) && Grown(ts)
    ensures TwoFactors(Abs(vs[i]), k)
  {
    hide Val, TwoFactors;
    k := Dp2k(ts[i]);
  }

  method OddAt(ts: seq<Mpz>, i: nat, ghost vs: seq<int>) returns (odd: bool)
    requires Holds(ts, vs) && i < |ts|
    ensures Holds(ts, vs) && Grown(ts)
    ensures |vs| == |ts| && odd == (vs[i] % 2 == 1)
  {
    hide Val;
    odd := IsOdd(ts[i]);
  }

  method CompareAt(ts: seq<Mpz>, i: nat, j: nat, ghost vs: seq<int>) returns (c: int)
    requires Holds(ts, vs) && i < |ts| && j < |ts| && |vs| == |ts| && vs[i] > 0 && vs[j] > 0
    ensures Holds(ts, vs) && Grown(ts)
    ensures c == Sign(vs[i] - vs[j])
  {
    hide Val;
    c := Compare(ts[i], ts[j]);
  }

  /** One more number in the row. */
  twostate predicate Appended(ts: seq<Mpz>, new ts': seq<Mpz>)
    reads ts'
  {
    && |ts'| == |ts| + 1
    && forall o :: o in Cells(ts') ==> o in old(Cells(ts)) || fresh(o)
  }

  /** mp_int_init. */
  method AppendZero(ts: seq<Mpz>, ghost vs: seq<int>) returns (ts': seq<Mpz>)
    requires Holds(ts, vs)
    ensures Appended(ts, ts') && Holds(ts', vs + [0])
  {
    hide Val;
    var z := new Mpz(DEFAULT_PRECISION);
    ts' := ts + [z];
  }

  /** mp_int_init_copy, and the sign dropped. */
  method AppendAbs(ts: seq<Mpz>, a: Mpz, ghost vs: seq<int>) returns (ts': seq<Mpz>)
    requires Holds(ts, vs) && a.Valid()
    ensures Appended(ts, ts') && Holds(ts', vs + [Abs(old(a.Value()))])
  {
    hide Val;
    var z := new Mpz(a.used);
    AbsTo(a, z);
    ts' := ts + [z];
  }

  lemma HoldsNothing()
    ensures Holds([], []) && Cells([]) == {}
  {}

  /** mp_int_init, and its digit set to one. */
  method AppendOne(ts: seq<Mpz>, ghost vs: seq<int>) returns (ts': seq<Mpz>)
    requires Holds(ts, vs)
    ensures Appended(ts, ts') && Holds(ts', vs + [1])
  {
    hide Val;
    var z := new Mpz(DEFAULT_PRECISION);
    z.digits[0] := 1;
    assert z.digits[..1] == [1];
    ValOne(1);
    ts' := ts + [z];
  }

  method ScaleAt(ts: seq<Mpz>, k: nat, p: nat, ghost vs: seq<int>)
    requires Holds(ts, vs) && k < |ts| && |vs| == |ts| && vs[k] >= 0
    modifies Cells(ts)
    ensures Holds(ts, vs[k := Times(vs[k], Exp2(p))]) && Grown(ts)
  {
    hide Val, Exp2, Times;
    TimesZero(Exp2(p));
    QMul(ts[k], p);
  }
}
