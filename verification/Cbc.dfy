/** Cipher block chaining on byte strings: the ciphertext, the plaintext and the chaining value as functions. */
module Cbc {
  import opened Octets
  import opened Feistel
  import opened Words

  /** GET_32BIT_MSB_FIRST. */
  function Get32(b: seq<Octet>): (w: Word)
    requires |b| == 4
  {
    ((b[0] as Word) << 24) | ((b[1] as Word) << 16) | ((b[2] as Word) << 8) | (b[3] as Word)
  }

  /** PUT_32BIT_MSB_FIRST. */
  function Put32(w: Word): (b: seq<Octet>)
    ensures |b| == 4
  {
    [((w >> 24) & 0xFF) as Octet, ((w >> 16) & 0xFF) as Octet, ((w >> 8) & 0xFF) as Octet, (w & 0xFF) as Octet]
  }

  lemma GetPut(w: Word)
    ensures Get32(Put32(w)) == w
  {}

  lemma PutGet(b: seq<Octet>)
    requires |b| == 4
    ensures Put32(Get32(b)) == b
  {
    PutGetBytes(b[0], b[1], b[2], b[3]);
    assert b == [b[0], b[1], b[2], b[3]];
  }

  lemma PutGetBytes(b0: Octet, b1: Octet, b2: Octet, b3: Octet)
    ensures Put32(Get32([b0, b1, b2, b3])) == [b0, b1, b2, b3]
  {}

  function Load(b: seq<Octet>): (x: Pair)
    requires |b| == 8
  {
    Pair(Get32(b[..4]), Get32(b[4..]))
  }

  function Store(x: Pair): (b: seq<Octet>)
    ensures |b| == 8
  {
    Put32(x.l) + Put32(x.r)
  }

  lemma LoadStore(x: Pair)
    ensures Load(Store(x)) == x
  {
    hide Get32, Put32;
    GetPut(x.l);
    GetPut(x.r);
    assert Store(x)[..4] == Put32(x.l) && Store(x)[4..] == Put32(x.r);
  }

  lemma StoreLoad(b: seq<Octet>)
    requires |b| == 8
    ensures Store(Load(b)) == b
  {
    hide Get32, Put32;
    PutGet(b[..4]);
    PutGet(b[4..]);
    assert b == b[..4] + b[4..];
  }

  /** The chaining value after the blocks of d have been encrypted, and the ciphertext. */
  function ChainOf(k: Key, iv: Pair, d: seq<Octet>): (v: Pair)
    requires k.Valid() && |d| % 8 == 0
  {
    if d == [] then iv
    else Encrypt(k, XorPair(ChainOf(k, iv, d[..|d| - 8]), Load(d[|d| - 8..])))
  }

  function CipherOf(k: Key, iv: Pair, d: seq<Octet>): (c: seq<Octet>)
    requires k.Valid() && |d| % 8 == 0
    ensures |c| == |d|
  {
    if d == [] then [] else CipherOf(k, iv, d[..|d| - 8]) + Store(ChainOf(k, iv, d))
  }

  /** The chaining value after ciphertext c, and the plaintext. */
  function LastOf(iv: Pair, c: seq<Octet>): (v: Pair)
    requires |c| % 8 == 0
  {
    if c == [] then iv else Load(c[|c| - 8..])
  }

  function PlainOf(k: Key, iv: Pair, c: seq<Octet>): (d: seq<Octet>)
    requires k.Valid() && |c| % 8 == 0
    ensures |d| == |c|
  {
    if c == [] then []
    else PlainOf(k, iv, c[..|c| - 8]) + Store(XorPair(LastOf(iv, c[..|c| - 8]), Decrypt(k, Load(c[|c| - 8..]))))
  }

  /** Two calls in a row are one call. */
  lemma {:induction false} CipherConcat(k: Key, iv: Pair, a: seq<Octet>, b: seq<Octet>)
    requires k.Valid() && |a| % 8 == 0 && |b| % 8 == 0
    ensures (|a| + |b|) % 8 == 0
    ensures ChainOf(k, iv, a + b) == ChainOf(k, ChainOf(k, iv, a), b)
    ensures CipherOf(k, iv, a + b) == CipherOf(k, iv, a) + CipherOf(k, ChainOf(k, iv, a), b)
    decreases |b|
  {
    hide Encrypt, Load, Store, XorPair;
    if b == [] {
      assert a + b == a;
    } else {
      var n := |b| - 8;
      assert (a + b)[..|a| + n] == a + b[..n] && (a + b)[|a| + n..] == b[n..];
      CipherConcat(k, iv, a, b[..n]);
    }
  }

  /** Decryption returns the plaintext and ends on the same chaining value. */
  lemma {:induction false} PlainOfCipher(k: Key, iv: Pair, d: seq<Octet>)
    requires k.Valid() && |d| % 8 == 0
    ensures PlainOf(k, iv, CipherOf(k, iv, d)) == d && LastOf(iv, CipherOf(k, iv, d)) == ChainOf(k, iv, d)
    decreases |d|
  {
    hide Encrypt, Decrypt, Load, Store, Xor;
    if d != [] {
      var n := |d| - 8;
      var c, v, b := CipherOf(k, iv, d), ChainOf(k, iv, d[..n]), Load(d[n..]);
      PlainOfCipher(k, iv, d[..n]);
      assert c[..n] == CipherOf(k, iv, d[..n]) && c[n..] == Store(ChainOf(k, iv, d));
      LoadStore(ChainOf(k, iv, d));
      DecryptEncrypt(k, XorPair(v, b));
      XorTwice(b.l, v.l);
      XorTwice(b.r, v.r);
      StoreLoad(d[n..]);
      assert d == d[..n] + d[n..];
    }
  }
}
