/** Powers of two, division by them, and their relation to digit positions. */
module PowersOfTwo {
  import opened Arithmetic
  import opened Digits

  function Exp2(k: nat): (e: nat)
    ensures e >= 1
  {
    if k == 0 then 1 else 2 * Exp2(k - 1)
  }

  lemma {:induction false} Exp2Add(a: nat, b: nat)
    ensures Exp2(a + b) == Times(Exp2(a), Exp2(b))
  {
    if a > 0 {
      Exp2Add(a - 1, b);
      Assoc(2, Exp2(a - 1), Exp2(b));
    }
  }

  lemma Exp2Digit()
    ensures Exp2(32) == BASE
  {
    assert Exp2(2) == 4;
    Exp2Add(2, 2);
    Exp2Add(4, 4);
    Exp2Add(8, 8);
    Exp2Add(16, 16);
  }

  lemma {:induction false} Exp2Digits(n: nat)
    ensures Exp2(32 * n) == Pow(n)
  {
    if n > 0 {
      Exp2Digits(n - 1);
      Exp2Add(32, 32 * (n - 1));
      Exp2Digit();
      ShlNext(1, n - 1);
    }
  }

  /** Dropping n digits divides by BASE^n; keeping them is the remainder. */
  lemma DropDigits(s: seq<Digit>, n: nat)
    requires n <= |s|
    ensures Val(s[n..]) == Val(s) / Pow(n) && Val(s[..n]) == Val(s) % Pow(n)
  {
    hide Val, Shl, Pow, Times;
    ValSplit(s, n);
    ValBound(s[..n]);
    ShlPow(Val(s[n..]), n);
    DivUnique(Val(s), Pow(n), Val(s[n..]), Val(s[..n]));
  }

  lemma {:induction false} Exp2Above(a: nat, b: nat)
    requires a < b
    ensures Exp2(a) < Exp2(b)
  {
    if a + 1 < b { Exp2Above(a, b - 1); }
  }

  lemma {:induction false} Exp2Mono(a: nat, b: nat)
    requires a <= b
    ensures Exp2(a) <= Exp2(b)
  {
    if a < b { Exp2Mono(a, b - 1); }
  }
}
