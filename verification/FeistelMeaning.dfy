/**
 What a Blowfish block computes, apart from how it is written: the share of each
 table in the round function, the share of each subkey, and a block worked out.
 */
module FeistelMeaning {
  import opened Octets
  import opened Words
  import opened Feistel
  import opened Cbc

  /** Byte j of a word, high byte first, as the entry it selects in a table. */
  function Entry(table: seq<Word>, x: Word, j: nat): (w: Word)
    requires |table| == 256 && j < 4
  {
    table[Put32(x)[j] as int]
  }

  lemma Entries(k: Key, x: Word)
    requires k.Valid()
    ensures F(k, x) == Plus(Xor(Plus(Entry(k.s0, x, 0), Entry(k.s1, x, 1)), Entry(k.s2, x, 2)), Entry(k.s3, x, 3))
  {
    hide Plus, Xor;
    Selects(x);
  }

  lemma Selects(x: Word)
    ensures Index(x, 24) == Put32(x)[0] as int && Index(x, 16) == Put32(x)[1] as int
    ensures Index(x, 8) == Put32(x)[2] as int && Index(x, 0) == Put32(x)[3] as int
  {
    assert x >> 0 == x;
  }

  /**
   The round function: the entries of the first two tables added modulo 2^32 give u,
   u and the entry of the third added bit by bit give y, and the entry of the fourth
   is added to y modulo 2^32.
   */
  lemma FIs(k: Key, x: Word, u: Word, y: Word)
    requires k.Valid()
    requires Num(u) == (Num(Entry(k.s0, x, 0)) + Num(Entry(k.s1, x, 1))) % MODULUS
    requires forall i: Place | i < 32 :: Bit(y, i) == (Bit(u, i) != Bit(Entry(k.s2, x, 2), i))
    ensures Num(F(k, x)) == (Num(y) + Num(Entry(k.s3, x, 3))) % MODULUS
  {
    hide Num, Bit, F, Plus, Xor, Entry;
    var a, b, c, d := Entry(k.s0, x, 0), Entry(k.s1, x, 1), Entry(k.s2, x, 2), Entry(k.s3, x, 3);
    Entries(k, x);
    NumPlus(a, b);
    NumDecides(u, Plus(a, b));
    forall i: Place | i < 32 ensures Bit(y, i) == Bit(Xor(u, c), i) {
      XorBit(u, c, i);
    }
    BitsDecide(y, Xor(u, c));
    NumPlus(y, d);
  }

  /** Replacing the fourth-table entry of the lowest byte changes the result by the difference. */
  lemma LastTable(k: Key, x: Word, v: Word)
    requires k.Valid()
    ensures var j := Put32(x)[3] as int; var k' := k.(s3 := k.s3[j := v]);
      k'.Valid() && F(k', x) == Plus(Minus(F(k, x), Entry(k.s3, x, 3)), v)
  {
    hide F, Plus, Minus, Xor;
    var j := Put32(x)[3] as int;
    var k' := k.(s3 := k.s3[j := v]);
    Entries(k, x);
    Entries(k', x);
    MinusPlus(Xor(Plus(Entry(k.s0, x, 0), Entry(k.s1, x, 1)), Entry(k.s2, x, 2)), Entry(k.s3, x, 3));
  }

  /** Only the four selected entries matter. */
  lemma OtherEntries(k: Key, k': Key, x: Word)
    requires k.Valid() && k'.Valid()
    requires Entry(k.s0, x, 0) == Entry(k'.s0, x, 0) && Entry(k.s1, x, 1) == Entry(k'.s1, x, 1)
    requires Entry(k.s2, x, 2) == Entry(k'.s2, x, 2) && Entry(k.s3, x, 3) == Entry(k'.s3, x, 3)
    ensures F(k, x) == F(k', x)
  {
    hide F, Plus, Xor, Entry;
    Entries(k, x);
    Entries(k', x);
  }

  /** With a zero third table the result is the sum of three entries modulo 2^32. */
  lemma ThreeSummed(k: Key, x: Word)
    requires k.Valid() && Entry(k.s2, x, 2) == 0
    ensures Num(F(k, x)) ==
      (Num(Entry(k.s0, x, 0)) + Num(Entry(k.s1, x, 1)) + Num(Entry(k.s3, x, 3))) % MODULUS
  {
    hide Num, F, Plus, Xor, Entry;
    var a, b, d := Entry(k.s0, x, 0), Entry(k.s1, x, 1), Entry(k.s3, x, 3);
    Entries(k, x);
    XorNone(Plus(a, b));
    NumPlus(a, b);
    NumPlus(Plus(a, b), d);
    ModTwice(Num(a) + Num(b), Num(d));
  }

  /** With zero second and fourth tables it is the bitwise sum of the other two. */
  lemma TwoMixed(k: Key, x: Word, i: Place)
    requires k.Valid() && Entry(k.s1, x, 1) == 0 && Entry(k.s3, x, 3) == 0 && i < 32
    ensures Bit(F(k, x), i) == (Bit(Entry(k.s0, x, 0), i) != Bit(Entry(k.s2, x, 2), i))
  {
    hide F, Plus, Xor, Entry, Bit;
    var a, c := Entry(k.s0, x, 0), Entry(k.s2, x, 2);
    Entries(k, x);
    PlusNone(a);
    PlusNone(Xor(a, c));
    XorBit(a, c, i);
  }

  /** All subkeys of one parity up to index n, added bit by bit. */
  function Every(p: seq<Word>, first: nat, n: nat): (w: Word)
    requires first + 2 * n <= |p| + 1
  {
    if n == 0 then 0 else Xor(Every(p, first, n - 1), p[first + 2 * (n - 1)])
  }

  ghost predicate ZeroTables(k: Key) {
    k.Valid() && forall j :: 0 <= j < 256 ==> k.s0[j] == k.s1[j] == k.s2[j] == k.s3[j] == 0
  }

  lemma ZeroF(k: Key, x: Word)
    requires ZeroTables(k)
    ensures F(k, x) == 0
  {
    hide Plus, Xor;
    Entries(k, x);
    PlusNone(0);
    XorNone(0);
  }

  /** With all tables zero the rounds only add subkeys: after 2n rounds the even ones left, the odd ones right. */
  lemma {:induction false} ForwardZero(k: Key, x: Pair, n: nat)
    requires ZeroTables(k) && n <= 8
    ensures Forward(k, x, 2 * n) == Pair(Xor(x.l, Every(k.p, 0, n)), Xor(x.r, Every(k.p, 1, n)))
  {
    hide F, Xor, Forward, Round, ZeroTables;
    ZeroIsValid(k);
    if n == 0 {
      ForwardNone(k, x);
      XorNone(x.l);
      XorNone(x.r);
    } else {
      var z := Forward(k, x, 2 * n - 2);
      ForwardZero(k, x, n - 1);
      ForwardNext(k, x, 2 * n - 2);
      ForwardNext(k, x, 2 * n - 1);
      RoundZero(k, z, 2 * n - 2);
      RoundZero(k, Pair(z.r, Xor(z.l, k.p[2 * n - 2])), 2 * n - 1);
      XorAssoc(x.l, Every(k.p, 0, n - 1), k.p[2 * n - 2]);
      XorAssoc(x.r, Every(k.p, 1, n - 1), k.p[2 * n - 1]);
    }
  }

  lemma ZeroIsValid(k: Key)
    requires ZeroTables(k)
    ensures k.Valid()
  {}

  lemma ForwardNone(k: Key, x: Pair)
    requires k.Valid()
    ensures Forward(k, x, 0) == x
  {}

  lemma ForwardNext(k: Key, x: Pair, n: nat)
    requires k.Valid() && n < 16
    ensures Forward(k, x, n + 1) == Round(k, Forward(k, x, n), n)
  {
    hide Round;
  }

  lemma RoundZero(k: Key, x: Pair, n: nat)
    requires ZeroTables(k) && n < 18
    ensures Round(k, x, n) == Pair(x.r, Xor(x.l, k.p[n]))
  {
    hide F, Xor;
    ZeroF(k, Xor(x.l, k.p[n]));
    ZeroLeft(x.r);
  }

  lemma ZeroLeft(a: Word)
    ensures Xor(0, a) == a
  {}

  /** Every subkey takes part, the even ones on one half and the odd ones on the other. */
  lemma EncryptZero(k: Key, x: Pair)
    requires ZeroTables(k)
    ensures Encrypt(k, x) == Pair(Xor(x.r, Every(k.p, 1, 9)), Xor(x.l, Every(k.p, 0, 9)))
  {
    hide F, Xor, Forward;
    ForwardZero(k, x, 8);
    XorAssoc(x.r, Every(k.p, 1, 8), k.p[17]);
    XorAssoc(x.l, Every(k.p, 0, 8), k.p[16]);
  }

  /** Rounds on the two values a round function can give that maps 0 to 1 and 1 to 0. */
  lemma {:induction false} Cycle(k: Key, n: nat)
    requires k.Valid() && (forall j :: 0 <= j < 18 ==> k.p[j] == 0) && F(k, 0) == 1 && F(k, 1) == 0 && n <= 16
    ensures Forward(k, Pair(0, 0), n) ==
      if n % 3 == 0 then Pair(0, 0) else if n % 3 == 1 then Pair(1, 0) else Pair(0, 1)
  {
    hide F;
    if n > 0 { Cycle(k, n - 1); }
  }

  /** A block worked out: only the fourth table is not zero, with 1 at entry 0 and 0 at entry 1. */
  lemma OneBlock(k: Key)
    requires k.Valid() && (forall j :: 0 <= j < 18 ==> k.p[j] == 0)
    requires forall j :: 0 <= j < 256 ==> k.s0[j] == k.s1[j] == k.s2[j] == 0
    requires k.s3[0] == 1 && k.s3[1] == 0
    ensures Encrypt(k, Pair(0, 0)) == Pair(0, 1)
  {
    hide F, Forward;
    FirstValues(k);
    Cycle(k, 16);
  }

  lemma FirstValues(k: Key)
    requires k.Valid() && (forall j :: 0 <= j < 256 ==> k.s0[j] == k.s1[j] == k.s2[j] == 0)
    ensures F(k, 0) == k.s3[0] && F(k, 1) == k.s3[1]
  {
    hide Plus, Xor;
    Entries(k, 0);
    Entries(k, 1);
    LowEntries();
    PlusNone(0);
    XorNone(0);
    PlusNone(k.s3[0]);
    PlusNone(k.s3[1]);
  }

  lemma LowEntries()
    ensures Put32(0)[3] as int == 0 && Put32(1)[3] as int == 1
  {}

  /** Four bytes are loaded as the number they stand for, high byte first. */
  lemma LoadedNumber(b0: Octet, b1: Octet, b2: Octet, b3: Octet)
    ensures Num(Get32([b0, b1, b2, b3])) ==
      0x100_0000 * b0 as int + 0x1_0000 * b1 as int + 0x100 * b2 as int + b3 as int
  {
    hide Num, Get32, LowOctet, Down8;
    LoadedBytes(b0, b1, b2, b3);
    NumBytes(Get32([b0, b1, b2, b3]));
  }

  lemma LoadedBytes(b0: Octet, b1: Octet, b2: Octet, b3: Octet)
    ensures var w := Get32([b0, b1, b2, b3]); var w1 := Down8(w); var w2 := Down8(w1); var w3 := Down8(w2);
      LowOctet(w) == b3 && LowOctet(w1) == b2 && LowOctet(w2) == b1 && LowOctet(w3) == b0
  {}

  /** Block j of the ciphertext: the block of data added bit by bit to the ciphertext before it, encrypted. */
  lemma {:induction false} BlockLaw(k: Key, iv: Pair, d: seq<Octet>, j: nat)
    requires k.Valid() && |d| % 8 == 0 && 8 * j + 8 <= |d|
    ensures var c := CipherOf(k, iv, d);
      var before := if j == 0 then iv else Load(c[8 * j - 8..8 * j]);
      c[8 * j..8 * j + 8] == Store(Encrypt(k, XorPair(before, Load(d[8 * j..8 * j + 8]))))
    decreases |d|
  {
    hide Encrypt, Load, Store, XorPair;
    var n, c := |d| - 8, CipherOf(k, iv, d);
    var c' := CipherOf(k, iv, d[..n]);
    assert c == c' + Store(ChainOf(k, iv, d));
    if 8 * j < n {
      BlockLaw(k, iv, d[..n], j);
      assert c[8 * j..8 * j + 8] == c'[8 * j..8 * j + 8] && d[..n][8 * j..8 * j + 8] == d[8 * j..8 * j + 8];
      if j > 0 { assert c[8 * j - 8..8 * j] == c'[8 * j - 8..8 * j]; }
    } else {
      assert c[n..n + 8] == Store(ChainOf(k, iv, d)) && d[n..n + 8] == d[n..];
      if j > 0 {
        assert c[n - 8..n] == c'[n - 8..];
        LastBlock(k, iv, d[..n]);
      } else {
        assert n == 0 && d[..n] == [] && ChainOf(k, iv, d[..n]) == iv;
      }
    }
  }

  lemma LastBlock(k: Key, iv: Pair, d: seq<Octet>)
    requires k.Valid() && |d| % 8 == 0 && d != []
    ensures Load(CipherOf(k, iv, d)[|d| - 8..]) == ChainOf(k, iv, d)
  {
    hide Encrypt, Load, Store, XorPair;
    var c := CipherOf(k, iv, d);
    assert c[|d| - 8..] == Store(ChainOf(k, iv, d));
    LoadStore(ChainOf(k, iv, d));
  }
}
