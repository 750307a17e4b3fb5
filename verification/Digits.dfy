/**
 Little-endian digit strings in base 2^32 and the natural numbers they denote.
 This is the meaning of every `mp_digit` array of imath.

 Positional weight is expressed by Shl, repeated multiplication by the constant
 BASE, so that carry arguments stay linear.
 */
module Digits {
  import opened Arithmetic

  const BASE: int := 0x1_0000_0000

  newtype Digit = d: int | 0 <= d < BASE

  /** v shifted left by n digits: v * BASE^n. */
  function Shl(v: int, n: nat): (r: int)
    ensures 0 <= v ==> v <= r
    ensures v == 0 ==> r == 0
  {
    if n == 0 then v else BASE * Shl(v, n - 1)
  }

  /** BASE to the power n. */
  function Pow(n: nat): (p: int)
    ensures p >= 1
  {
    Shl(1, n)
  }

  /** The number a digit string denotes, least significant digit first. */
  function Val(s: seq<Digit>): (v: int)
    ensures v >= 0
  {
    if |s| == 0 then 0 else s[0] as int + BASE * Val(s[1..])
  }

  function Zeros(n: nat): (s: seq<Digit>)
    ensures |s| == n && forall i :: 0 <= i < n ==> s[i] == 0
  {
    seq(n, _ => 0)
  }

  lemma {:induction false} ShlSum(w: int, u: int, v: int, n: nat)
    requires w == u + v
    ensures Shl(w, n) == Shl(u, n) + Shl(v, n)
  {
    if n > 0 { ShlSum(w, u, v, n - 1); }
  }

  lemma {:induction false} ShlShl(v: int, m: nat, n: nat)
    ensures Shl(Shl(v, m), n) == Shl(v, m + n)
  {
    if n > 0 { ShlShl(v, m, n - 1); }
  }

  lemma {:induction false} ShlMono(u: int, v: int, n: nat)
    ensures u <= v <==> Shl(u, n) <= Shl(v, n)
    ensures u < v <==> Shl(u, n) < Shl(v, n)
  {
    if n > 0 { ShlMono(u, v, n - 1); }
  }

  lemma {:induction false} ShlMul(u: int, v: int, n: nat)
    ensures Shl(u, n) * v == Shl(u * v, n)
  {
    if n > 0 {
      ShlMul(u, v, n - 1);
      Assoc(BASE, Shl(u, n - 1), v);
    }
  }

  lemma ShlNext(v: int, n: nat)
    ensures Shl(v, n + 1) == Shl(BASE * v, n) == BASE * Shl(v, n)
  {
    ShlShl(v, 1, n);
    assert Shl(v, 1) == BASE * v;
  }

  lemma ShlZero(n: nat)
    ensures Shl(0, n) == 0 && Shl(1, n) == Pow(n)
  {}

  lemma ShlIsMul(v: int, n: nat)
    ensures Shl(v, n) == v * Pow(n)
  {
    ShlMul(1, v, n);
  }

  lemma PowAdd(m: nat, n: nat)
    ensures Pow(m + n) == Times(Pow(m), Pow(n))
  {
    ShlShl(1, m, n);
    ShlIsMul(Shl(1, m), n);
  }

  lemma PowNext(n: nat)
    ensures Pow(n + 1) == BASE * Pow(n)
  {}

  lemma ShlPow(v: int, n: nat)
    ensures Shl(v, n) == Times(Pow(n), v)
  {
    ShlIsMul(v, n);
  }

  lemma PowMono(m: nat, n: nat)
    requires m <= n
    ensures Pow(m) <= Pow(n)
  {
    ShlShl(1, m, n - m);
  }

  lemma ShlTimes(u: int, v: int, n: nat)
    ensures Times(Shl(u, n), v) == Shl(Times(u, v), n) == Times(u, Shl(v, n))
  {
    ShlMul(u, v, n);
    ShlMul(v, u, n);
  }

  lemma {:induction false} ValConcat(s: seq<Digit>, t: seq<Digit>)
    ensures Val(s + t) == Val(s) + Shl(Val(t), |s|)
  {
    if s == [] {
      assert s + t == t;
    } else {
      assert (s + t)[1..] == s[1..] + t;
      ValConcat(s[1..], t);
    }
  }

  lemma ValOne(d: Digit)
    ensures Val([d]) == d as int
  {
    assert [d][1..] == [];
  }

  lemma ValHead(x: seq<Digit>, i: nat)
    requires i < |x|
    ensures Val(x[i..]) == x[i] as int + BASE * Val(x[i + 1..])
  {
    assert x[i..][1..] == x[i + 1..];
  }

  lemma NoDigits(x: seq<Digit>)
    requires x == []
    ensures Val(x) == 0
  {}

  lemma ValAppend(s: seq<Digit>, d: Digit)
    ensures Val(s + [d]) == Val(s) + Shl(d as int, |s|)
  {
    ValConcat(s, [d]);
  }

  lemma ValStep(s: seq<Digit>, k: nat)
    requires k < |s|
    ensures Val(s[..k + 1]) == Val(s[..k]) + Shl(s[k] as int, k)
  {
    assert s[..k + 1] == s[..k] + [s[k]];
    ValAppend(s[..k], s[k]);
  }

  lemma ValSplit(s: seq<Digit>, k: nat)
    requires k <= |s|
    ensures Val(s) == Val(s[..k]) + Shl(Val(s[k..]), k)
  {
    assert s == s[..k] + s[k..];
    ValConcat(s[..k], s[k..]);
  }

  lemma {:induction false} ValBound(s: seq<Digit>)
    ensures Val(s) < Pow(|s|)
  {
    if s != [] { ValBound(s[1..]); }
  }

  lemma {:induction false} ValZeros(s: seq<Digit>)
    ensures Val(s) == 0 <==> s == Zeros(|s|)
  {
    if s != [] {
      ValZeros(s[1..]);
      assert s == [s[0]] + s[1..];
      assert Zeros(|s|) == [0] + Zeros(|s| - 1);
    }
  }

  /** Leading zeros do not count. */
  lemma ValPadZeros(s: seq<Digit>, n: nat)
    ensures Val(s + Zeros(n)) == Val(s)
  {
    ValConcat(s, Zeros(n));
    ValZeros(Zeros(n));
  }

  /** Digit strings of one length denote different numbers. */
  lemma {:induction false} ValInjective(s: seq<Digit>, t: seq<Digit>)
    requires |s| == |t| && Val(s) == Val(t)
    ensures s == t
  {
    if s != [] {
      ValInjective(s[1..], t[1..]);
      assert s == [s[0]] + s[1..] && t == [t[0]] + t[1..];
    }
  }

  /** Slices of a slice. */
  lemma SubSlice<T>(s: seq<T>, i: nat, n: nat, o: nat, m: nat)
    requires i + n <= |s| && o + m <= n
    ensures s[i..i + n][o..o + m] == s[i + o..i + o + m]
  {
    var l, r := s[i..i + n][o..o + m], s[i + o..i + o + m];
    assert forall k :: 0 <= k < m ==> l[k] == r[k];
    assert l == r;
  }

  lemma SplitSlice<T>(s: seq<T>, i: nat, n: nat, m: nat)
    requires i + n <= |s| && m <= n
    ensures s[i..i + n][..m] == s[i..i + m] && s[i..i + n][m..] == s[i + m..i + n]
    ensures s[i..i + n] == s[i..i + m] + s[i + m..i + n]
  {
    var l, r := s[i..i + n][..m], s[i..i + m];
    assert forall k :: 0 <= k < m ==> l[k] == r[k];
    assert l == r;
    var l', r' := s[i..i + n][m..], s[i + m..i + n];
    assert forall k :: 0 <= k < n - m ==> l'[k] == r'[k];
    assert l' == r';
  }
}
