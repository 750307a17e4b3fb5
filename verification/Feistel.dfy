/** Blowfish on one block: the sixteen rounds forward and back, for arbitrary tables. */
module Feistel {
  import opened Octets
  import opened Words

  /** The subkeys and the four substitution tables. */
  datatype Key = Key(p: seq<Word>, s0: seq<Word>, s1: seq<Word>, s2: seq<Word>, s3: seq<Word>) {
    predicate Valid() {
      |p| == 18 && |s0| == |s1| == |s2| == |s3| == 256
    }
  }

  function Index(w: Word, shift: nat): (i: nat)
    requires shift <= 24
    ensures i < 256
  {
    ((w >> shift) & 0xFF) as bv8 as nat
  }

  function F(k: Key, x: Word): (y: Word)
    requires k.Valid()
  {
    Plus(Xor(Plus(k.s0[Index(x, 24)], k.s1[Index(x, 16)]), k.s2[Index(x, 8)]), k.s3[Index(x, 0)])
  }

  datatype Pair = Pair(l: Word, r: Word)

  function XorPair(a: Pair, b: Pair): (c: Pair) {
    Pair(Xor(a.l, b.l), Xor(a.r, b.r))
  }

  /** ROUND(n). */
  function Round(k: Key, x: Pair, n: nat): (y: Pair)
    requires k.Valid() && n < 18
  {
    var l := Xor(x.l, k.p[n]);
    Pair(Xor(F(k, l), x.r), l)
  }

  /** Rounds 0 to n - 1. */
  function Forward(k: Key, x: Pair, n: nat): (y: Pair)
    requires k.Valid() && n <= 16
  {
    if n == 0 then x else Round(k, Forward(k, x, n - 1), n - 1)
  }

  /** Rounds 17 down to 18 - n. */
  function Backward(k: Key, x: Pair, n: nat): (y: Pair)
    requires k.Valid() && n <= 16
  {
    if n == 0 then x else Round(k, Backward(k, x, n - 1), 18 - n)
  }

  function Encrypt(k: Key, x: Pair): (y: Pair)
    requires k.Valid()
  {
    var z := Forward(k, x, 16);
    Pair(Xor(z.r, k.p[17]), Xor(z.l, k.p[16]))
  }

  function Decrypt(k: Key, x: Pair): (y: Pair)
    requires k.Valid()
  {
    var z := Backward(k, x, 16);
    Pair(Xor(z.r, k.p[0]), Xor(z.l, k.p[1]))
  }

  /** After n rounds back, the halves are those of 16 - n rounds forward, swapped and whitened. */
  lemma {:induction false} BackwardMeets(k: Key, x: Pair, n: nat)
    requires k.Valid() && n <= 16
    ensures var z := Forward(k, x, 16 - n);
      Backward(k, Encrypt(k, x), n) == Pair(Xor(z.r, k.p[17 - n]), Xor(z.l, k.p[16 - n]))
  {
    hide F, Xor;
    if n > 0 {
      BackwardMeets(k, x, n - 1);
      var w := Forward(k, x, 16 - n);
      var z := Forward(k, x, 17 - n);
      var l := Xor(w.l, k.p[16 - n]);
      XorTwice(z.r, k.p[18 - n]);
      XorTwice(w.r, F(k, l));
      XorAssoc(F(k, l), Xor(F(k, l), w.r), k.p[17 - n]);
    }
  }

  /** Decryption undoes encryption, whatever the tables. */
  lemma DecryptEncrypt(k: Key, x: Pair)
    requires k.Valid()
    ensures Decrypt(k, Encrypt(k, x)) == x
  {
    hide F, Xor, Encrypt;
    BackwardMeets(k, x, 16);
    XorTwice(x.l, k.p[0]);
    XorTwice(x.r, k.p[1]);
  }

  /** blowfish_encrypt. */
  method EncryptBlock(k: Key, x: Pair) returns (y: Pair)
    requires k.Valid()
    ensures y == Encrypt(k, x)
  {
    hide F, Xor;
    var xl, xr, n := x.l, x.r, 0;
    while n < 16
      invariant 0 <= n <= 16 && Pair(xl, xr) == Forward(k, x, n)
    {
      xl := Xor(xl, k.p[n]);
      var t := xl;
      xl := Xor(F(k, xl), xr);
      xr := t;
      n := n + 1;
    }
    xl := Xor(xl, k.p[16]);
    xr := Xor(xr, k.p[17]);
    y := Pair(xr, xl);
  }

  /** blowfish_decrypt. */
  method DecryptBlock(k: Key, x: Pair) returns (y: Pair)
    requires k.Valid()
    ensures y == Decrypt(k, x)
  {
    hide F, Xor;
    var xl, xr, n := x.l, x.r, 17;
    while n > 1
      invariant 1 <= n <= 17 && Pair(xl, xr) == Backward(k, x, 17 - n)
    {
      xl := Xor(xl, k.p[n]);
      var t := xl;
      xl := Xor(F(k, xl), xr);
      xr := t;
      n := n - 1;
    }
    xl := Xor(xl, k.p[1]);
    xr := Xor(xr, k.p[0]);
    y := Pair(xr, xl);
  }
}
