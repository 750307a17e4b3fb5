/**
 What the operations on 32-bit words mean: the single bits of a word, the number
 they stand for, and addition modulo 2^32.
 */
module Words {
  import opened Arithmetic
  import opened Octets
  import opened PowersOfTwo

  const MODULUS: int := 0x1_0000_0000

  /** The number of a bit, from 0 for the lowest to 31 for the highest. */
  type Place = bv6

  predicate Bit(x: Word, i: Place)
    requires i < 32
  {
    (x >> i) & 1 == 1
  }

  predicate Odd(x: Word) {
    x & 1 == 1
  }

  function Down(x: Word): (r: Word) {
    x >> 1
  }

  /** The number the lowest n bits of a word stand for. */
  function Low(x: Word, n: nat): (v: nat)
    decreases n
  {
    if n == 0 then 0 else (if Odd(x) then 1 else 0) + 2 * Low(Down(x), n - 1)
  }

  /** The number a word stands for. */
  function Num(x: Word): (v: nat) {
    Low(x, 32)
  }

  function Plus(x: Word, y: Word): (r: Word) {
    x + y
  }

  function Minus(x: Word, y: Word): (r: Word) {
    x - y
  }

  function Xor(x: Word, y: Word): (r: Word) {
    x ^ y
  }

  lemma XorBit(x: Word, y: Word, i: Place)
    requires i < 32
    ensures Bit(Xor(x, y), i) == (Bit(x, i) != Bit(y, i))
  {
    hide Xor, Bit;
    XorIs(x, y);
    BitOfXor(x, y, i);
  }

  lemma BitOfXor(x: Word, y: Word, i: Place)
    requires i < 32
    ensures Bit(x ^ y, i) == (Bit(x, i) != Bit(y, i))
  {}

  lemma XorOrder(a: Word, b: Word)
    ensures Xor(a, b) == Xor(b, a)
  {}

  lemma XorNone(a: Word)
    ensures Xor(a, 0) == a && Xor(a, a) == 0
  {}

  lemma XorAssoc(a: Word, b: Word, c: Word)
    ensures Xor(Xor(a, b), c) == Xor(a, Xor(b, c))
  {
    hide Xor;
    XorIs(a, b);
    XorIs(b, c);
    XorLeft(a, b, c);
    XorRight(a, b, c);
  }

  lemma XorIs(a: Word, b: Word)
    ensures Xor(a, b) == a ^ b
  {}

  lemma XorLeft(a: Word, b: Word, c: Word)
    ensures Xor(a ^ b, c) == a ^ b ^ c
  {}

  lemma XorRight(a: Word, b: Word, c: Word)
    ensures Xor(a, b ^ c) == a ^ b ^ c
  {}

  lemma XorTwice(a: Word, b: Word)
    ensures Xor(Xor(a, b), b) == a && Xor(Xor(b, a), b) == a && Xor(b, Xor(b, a)) == a
    ensures Xor(b, Xor(a, b)) == a && Xor(a, b) == Xor(b, a)
  {
    hide Xor;
    XorOrder(a, b);
    XorOrder(b, Xor(a, b));
    XorAssoc(a, b, b);
    XorNone(a);
    XorNone(b);
  }

  lemma PlusOrder(a: Word, b: Word)
    ensures Plus(a, b) == Plus(b, a)
  {}

  lemma PlusAssoc(a: Word, b: Word, c: Word)
    ensures Plus(Plus(a, b), c) == Plus(a, Plus(b, c))
  {
    hide Plus;
    PlusIs(a, b);
    PlusIs(b, c);
    PlusLeft(a, b, c);
    PlusRight(a, b, c);
  }

  lemma PlusIs(a: Word, b: Word)
    ensures Plus(a, b) == a + b
  {}

  lemma PlusLeft(a: Word, b: Word, c: Word)
    ensures Plus(a + b, c) == a + b + c
  {}

  lemma PlusRight(a: Word, b: Word, c: Word)
    ensures Plus(a, b + c) == a + b + c
  {}

  lemma PlusNone(a: Word)
    ensures Plus(a, 0) == a && Plus(0, a) == a
  {}

  lemma PlusSwap(p: Word, q: Word, r: Word, s: Word)
    ensures Plus(Plus(p, q), Plus(r, s)) == Plus(Plus(p, r), Plus(q, s))
  {
    hide Plus;
    PlusAssoc(p, q, Plus(r, s));
    PlusAssoc(q, r, s);
    PlusOrder(q, r);
    PlusAssoc(r, q, s);
    PlusAssoc(p, r, Plus(q, s));
  }

  /** Subtraction undoes addition, so a summand is decided by the sum and the other. */
  lemma MinusPlus(a: Word, b: Word)
    ensures Minus(Plus(a, b), b) == a && Minus(Plus(a, b), a) == b
  {
    hide Plus, Minus;
    PlusIs(a, b);
    MinusSum(a, b);
  }

  lemma MinusSum(a: Word, b: Word)
    ensures Minus(a + b, b) == a && Minus(a + b, a) == b
  {}

  /** A carry bit as a word. */
  function One(c: bool): (w: Word) {
    if c then 1 else 0
  }

  /** A sum with a carry coming in, and the carry out of its lowest bit. */
  function Sum(x: Word, y: Word, c: bool): (r: Word) {
    Plus(Plus(x, y), One(c))
  }

  predicate Carry(x: bool, y: bool, c: bool) {
    if x == y then x else c
  }

  function Cut(x: Word): (r: Word) {
    x & 0x7FFF_FFFF
  }

  lemma Parts(x: Word)
    ensures x == Sum(Down(x), Down(x), Odd(x))
  {}

  lemma Doubled(v: Word, b: bool)
    ensures Down(Sum(v, v, b)) == Cut(v) && Odd(Sum(v, v, b)) == b
  {}

  lemma OneBits(x: bool, y: bool, c: bool)
    ensures var d := Carry(x, y, c);
      Plus(Plus(One(x), One(y)), One(c)) == Plus(Plus(One(d), One(d)), One((x != y) != c))
  {}

  lemma HalvesTogether(h: Word, g: Word, a: bool, b: bool, c: bool)
    ensures var v := Sum(h, g, Carry(a, b, c));
      Sum(Sum(h, h, a), Sum(g, g, b), c) == Sum(v, v, (a != b) != c)
  {
    hide One, Carry, Plus;
    var d, s, u := Carry(a, b, c), (a != b) != c, Plus(h, g);
    OneBits(a, b, c);
    PlusSwap(Plus(h, h), One(a), Plus(g, g), One(b));
    PlusSwap(h, h, g, g);
    PlusAssoc(Plus(u, u), Plus(One(a), One(b)), One(c));
    PlusSwap(u, One(d), u, One(d));
    PlusAssoc(Plus(u, u), Plus(One(d), One(d)), One(s));
  }

  /** Adding bit by bit: the lowest bit of a sum, and the sum of the rest with the carry. */
  lemma SumDown(x: Word, y: Word, c: bool)
    ensures Down(Sum(x, y, c)) == Cut(Sum(Down(x), Down(y), Carry(Odd(x), Odd(y), c)))
    ensures Odd(Sum(x, y, c)) == ((Odd(x) != Odd(y)) != c)
  {
    hide Down, Cut, One, Odd, Sum, Carry;
    Parts(x);
    Parts(y);
    HalvesTogether(Down(x), Down(y), Odd(x), Odd(y), c);
    Doubled(Sum(Down(x), Down(y), Carry(Odd(x), Odd(y), c)), (Odd(x) != Odd(y)) != c);
  }

  /** The lowest n bits of a mask are set. */
  predicate Opens(mask: Word, n: nat)
    decreases n
  {
    n == 0 || (Odd(mask) && Opens(Down(mask), n - 1))
  }

  function And(x: Word, y: Word): (r: Word) {
    x & y
  }

  lemma AndDown(x: Word, mask: Word)
    ensures Down(And(x, mask)) == And(Down(x), Down(mask)) && Odd(And(x, mask)) == (Odd(x) && Odd(mask))
  {
    assert (x & mask) >> 1 == (x >> 1) & (mask >> 1);
    assert (x & mask) & 1 == (x & 1) & (mask & 1);
    OneOrNone(x);
    OneOrNone(mask);
  }

  lemma OneOrNone(x: Word)
    ensures x & 1 == 0 || x & 1 == 1
  {}

  lemma {:induction false} LowMasked(x: Word, mask: Word, n: nat)
    requires Opens(mask, n)
    ensures Low(And(x, mask), n) == Low(x, n)
    decreases n
  {
    hide And, Down, Odd;
    if n > 0 {
      AndDown(x, mask);
      LowMasked(Down(x), Down(mask), n - 1);
    }
  }

  lemma {:induction false} OpensFewer(mask: Word, n: nat, m: nat)
    requires m <= n && Opens(mask, n)
    ensures Opens(mask, m)
    decreases m
  {
    hide Down, Odd;
    if m > 0 { OpensFewer(Down(mask), n - 1, m - 1); }
  }

  /** All the bits below the highest. */
  lemma CutOpens()
    ensures Opens(0x7FFF_FFFF, 31)
  {
    assert Opens(0x1F, 5) by { assert Opens(7, 3) by { assert Opens(1, 1); } }
    assert Opens(0x3FF, 10) by { assert Opens(0x7F, 7) && Opens(0x1FF, 9); }
    assert Opens(0x7FFF, 15) by { assert Opens(0xFFF, 12) && Opens(0x3FFF, 14); }
    assert Opens(0xF_FFFF, 20) by { assert Opens(0x1_FFFF, 17) && Opens(0x7_FFFF, 19); }
    assert Opens(0x1FF_FFFF, 25) by { assert Opens(0x3F_FFFF, 22) && Opens(0xFF_FFFF, 24); }
    assert Opens(0x7FFF_FFFF, 31) by { assert Opens(0x7FF_FFFF, 27) && Opens(0x1FFF_FFFF, 29); }
  }

  lemma LowCut(x: Word, n: nat)
    requires n <= 31
    ensures Low(Cut(x), n) == Low(x, n)
  {
    hide Opens, Low;
    CutOpens();
    OpensFewer(0x7FFF_FFFF, 31, n);
    LowMasked(x, 0x7FFF_FFFF, n);
  }

  lemma DoubleMod(a: int, q: int, s: int)
    requires q >= 1 && 0 <= s < 2
    ensures (2 * a + s) % (2 * q) == 2 * (a % q) + s
  {
    var k, r := a / q, a % q;
    DivIs(a, q);
    TwiceTimes(q, k);
    DivUnique(2 * a + s, 2 * q, k, 2 * r + s);
  }

  lemma TwiceTimes(q: int, k: int)
    ensures Times(2 * q, k) == 2 * Times(q, k)
  {}

  lemma {:induction false} LowSum(x: Word, y: Word, c: bool, n: nat)
    requires n <= 32
    ensures Low(Sum(x, y, c), n) == (Low(x, n) + Low(y, n) + Count1(c)) % Exp2(n)
    decreases n
  {
    hide Down, Odd, Sum, Cut, Exp2;
    if n == 0 {
      OnlyRemainder(Count1(c));
    } else {
      var d := Carry(Odd(x), Odd(y), c);
      var v := Sum(Down(x), Down(y), d);
      SumDown(x, y, c);
      LowCut(v, n - 1);
      LowSum(Down(x), Down(y), d, n - 1);
      DoubleMod(Low(Down(x), n - 1) + Low(Down(y), n - 1) + Count1(d), Exp2(n - 1), Count1((Odd(x) != Odd(y)) != c));
      Exp2Next(n);
    }
  }

  lemma OnlyRemainder(a: int)
    ensures Exp2(0) == 1 && a % 1 == 0
  {}

  lemma Exp2Next(n: nat)
    requires n >= 1
    ensures Exp2(n) == 2 * Exp2(n - 1)
  {}

  lemma {:induction false} LowBound(x: Word, n: nat)
    ensures Low(x, n) < Exp2(n)
    decreases n
  {
    hide Down, Odd;
    if n > 0 { LowBound(Down(x), n - 1); }
  }

  lemma NumBound(x: Word)
    ensures Num(x) < MODULUS
  {
    hide Low, Exp2;
    LowBound(x, 32);
    Exp2Digit();
  }

  /** Addition of words is addition modulo 2^32. */
  lemma NumPlus(x: Word, y: Word)
    ensures Num(Plus(x, y)) == (Num(x) + Num(y)) % MODULUS
  {
    hide Low, Exp2, Plus;
    LowSum(x, y, false, 32);
    PlusNone(Plus(x, y));
    Exp2Digit();
  }

  /** The sum modulo 2^32. */
  function SumMod(x: int, y: int): (s: int) {
    (x + y) % MODULUS
  }

  lemma ModTwice(x: int, y: int)
    ensures (x % MODULUS + y) % MODULUS == (x + y) % MODULUS
  {}

  lemma NumSum(x: Word, y: Word)
    ensures Num(Plus(x, y)) == SumMod(Num(x), Num(y))
  {
    hide Num, Plus;
    NumPlus(x, y);
  }

  /** The bits from place n on. */
  function Above(x: Word, n: nat): (r: Word)
    decreases n
  {
    if n == 0 then x else Above(Down(x), n - 1)
  }

  lemma {:induction false} LowDecides(x: Word, y: Word, n: nat)
    requires Low(x, n) == Low(y, n) && Above(x, n) == Above(y, n)
    ensures x == y
    decreases n
  {
    hide Down, Odd, Sum;
    if n > 0 {
      LowDecides(Down(x), Down(y), n - 1);
      Parts(x);
      Parts(y);
    }
  }

  lemma {:induction false} AboveSum(x: Word, m: nat, n: nat)
    ensures Above(x, m + n) == Above(Above(x, m), n)
    decreases m
  {
    hide Down;
    if m > 0 { AboveSum(Down(x), m - 1, n); }
  }

  /** Eight bits down. */
  function Down8(x: Word): (r: Word) {
    x >> 8
  }

  lemma AboveByte(x: Word)
    ensures Above(x, 8) == Down8(x)
  {
    hide Down, Down8;
    assert Above(x, 2) == Down(Down(x));
    assert Above(x, 4) == Above(Down(Down(x)), 2);
    assert Above(x, 6) == Above(Down(Down(x)), 4);
    assert Above(x, 8) == Above(Down(Down(x)), 6);
    assert Above(Down(Down(x)), 4) == Above(Down(Down(Down(Down(x)))), 2);
    assert Above(Down(Down(x)), 6) == Above(Down(Down(Down(Down(x)))), 4);
    DownEight(x);
  }

  lemma DownEight(x: Word)
    ensures Down(Down(Down(Down(Down(Down(Down(Down(x)))))))) == Down8(x)
  {}

  lemma NothingAbove(x: Word)
    ensures Above(x, 32) == 0
  {
    hide Above, Down8;
    AboveSum(x, 8, 24);
    AboveByte(x);
    AboveSum(Down8(x), 8, 16);
    AboveByte(Down8(x));
    AboveSum(Down8(Down8(x)), 8, 8);
    AboveByte(Down8(Down8(x)));
    AboveByte(Down8(Down8(Down8(x))));
    FourBytesDown(x);
  }

  lemma FourBytesDown(x: Word)
    ensures Down8(Down8(Down8(Down8(x)))) == 0
  {}

  /** Different words stand for different numbers. */
  lemma NumDecides(x: Word, y: Word)
    requires Num(x) == Num(y)
    ensures x == y
  {
    hide Low, Above;
    NothingAbove(x);
    NothingAbove(y);
    LowDecides(x, y, 32);
  }

  /** Words with the same bits are the same. */
  lemma BitsDecide(x: Word, y: Word)
    requires forall i: Place | i < 32 :: Bit(x, i) == Bit(y, i)
    ensures x == y
  {
    hide Bit;
    FirstByte(x, y);
    SecondByte(x, y);
    ThirdByte(x, y);
    FourthByte(x, y);
    BytesDecide(x, y);
  }

  lemma FirstByte(x: Word, y: Word)
    requires Bit(x, 0) == Bit(y, 0) && Bit(x, 1) == Bit(y, 1)
    requires Bit(x, 2) == Bit(y, 2) && Bit(x, 3) == Bit(y, 3)
    requires Bit(x, 4) == Bit(y, 4) && Bit(x, 5) == Bit(y, 5)
    requires Bit(x, 6) == Bit(y, 6) && Bit(x, 7) == Bit(y, 7)
    ensures x & 0xFF == y & 0xFF
  {}

  lemma SecondByte(x: Word, y: Word)
    requires Bit(x, 8) == Bit(y, 8) && Bit(x, 9) == Bit(y, 9)
    requires Bit(x, 10) == Bit(y, 10) && Bit(x, 11) == Bit(y, 11)
    requires Bit(x, 12) == Bit(y, 12) && Bit(x, 13) == Bit(y, 13)
    requires Bit(x, 14) == Bit(y, 14) && Bit(x, 15) == Bit(y, 15)
    ensures x & 0xFF00 == y & 0xFF00
  {}

  lemma ThirdByte(x: Word, y: Word)
    requires Bit(x, 16) == Bit(y, 16) && Bit(x, 17) == Bit(y, 17)
    requires Bit(x, 18) == Bit(y, 18) && Bit(x, 19) == Bit(y, 19)
    requires Bit(x, 20) == Bit(y, 20) && Bit(x, 21) == Bit(y, 21)
    requires Bit(x, 22) == Bit(y, 22) && Bit(x, 23) == Bit(y, 23)
    ensures x & 0xFF_0000 == y & 0xFF_0000
  {}

  lemma FourthByte(x: Word, y: Word)
    requires Bit(x, 24) == Bit(y, 24) && Bit(x, 25) == Bit(y, 25)
    requires Bit(x, 26) == Bit(y, 26) && Bit(x, 27) == Bit(y, 27)
    requires Bit(x, 28) == Bit(y, 28) && Bit(x, 29) == Bit(y, 29)
    requires Bit(x, 30) == Bit(y, 30) && Bit(x, 31) == Bit(y, 31)
    ensures x & 0xFF00_0000 == y & 0xFF00_0000
  {}

  lemma BytesDecide(x: Word, y: Word)
    requires x & 0xFF == y & 0xFF && x & 0xFF00 == y & 0xFF00
    requires x & 0xFF_0000 == y & 0xFF_0000 && x & 0xFF00_0000 == y & 0xFF00_0000
    ensures x == y
  {}

  lemma Exp2Byte()
    ensures Exp2(8) == 256
  {
    assert Exp2(4) == 16;
  }

  /** The lowest bits and the bits above them. */
  lemma {:induction false} LowSplit(x: Word, m: nat, n: nat)
    ensures Low(x, m + n) == Low(x, m) + Exp2(m) * Low(Above(x, m), n)
    decreases m
  {
    hide Down, Odd;
    if m > 0 {
      LowSplit(Down(x), m - 1, n);
      Regrouped(Exp2(m - 1), Low(Above(x, m), n));
    }
  }

  lemma Regrouped(p: int, v: int)
    ensures 2 * (p * v) == (2 * p) * v
  {}

  /** Eight bits one by one. */
  lemma LowEight(x: Word)
    ensures var x1 := Down(x); var x2 := Down(x1); var x3 := Down(x2); var x4 := Down(x3);
      var x5 := Down(x4); var x6 := Down(x5); var x7 := Down(x6);
      Low(x, 8) == Binary(Odd(x), Odd(x1), Odd(x2), Odd(x3), Odd(x4), Odd(x5), Odd(x6), Odd(x7))
  {
    hide Down, Odd, Low, Nibble;
    var x4 := Down(Down(Down(Down(x))));
    LowFour(x, 4);
    LowFour(x4, 0);
    LowNone(Down(Down(Down(Down(x4)))));
  }

  lemma LowFour(x: Word, n: nat)
    ensures var x1 := Down(x); var x2 := Down(x1); var x3 := Down(x2);
      Low(x, n + 4) == Nibble(Odd(x), Odd(x1), Odd(x2), Odd(x3)) + 16 * Low(Down(x3), n)
  {
    hide Down, Odd, Low, Count1;
    var x2 := Down(Down(x));
    LowStep(x, n + 3);
    LowStep(Down(x), n + 2);
    LowStep(x2, n + 1);
    LowStep(Down(x2), n);
  }

  lemma LowStep(x: Word, n: nat)
    ensures Low(x, n + 1) == Count1(Odd(x)) + 2 * Low(Down(x), n)
  {}

  lemma LowByte(b: Octet)
    ensures Low(b as Word, 8) == Value(b)
  {
    hide Low, Odd, Down, Binary, Has, Value;
    LowEight(b as Word);
    ByteBits(b);
    OctetBinary(b);
  }

  lemma ByteBits(b: Octet)
    ensures var x := b as Word; var x1 := Down(x); var x2 := Down(x1); var x3 := Down(x2); var x4 := Down(x3);
      var x5 := Down(x4); var x6 := Down(x5); var x7 := Down(x6);
      && Odd(x) == Has(b, 1) && Odd(x1) == Has(b, 2) && Odd(x2) == Has(b, 4) && Odd(x3) == Has(b, 8)
      && Odd(x4) == Has(b, 16) && Odd(x5) == Has(b, 32) && Odd(x6) == Has(b, 64) && Odd(x7) == Has(b, 128)
  {}

  /** The lowest byte of a word. */
  function LowOctet(x: Word): (b: Octet) {
    (x & 0xFF) as Octet
  }

  /** A word is its four bytes. */
  lemma NumBytes(w: Word)
    ensures var w1 := Down8(w); var w2 := Down8(w1); var w3 := Down8(w2);
      Num(w) == 0x100_0000 * LowOctet(w3) as int + 0x1_0000 * LowOctet(w2) as int + 0x100 * LowOctet(w1) as int +
        LowOctet(w) as int
  {
    hide Low, Above, Down8, LowOctet;
    var w1 := Down8(w);
    var w2 := Down8(w1);
    LowOfByte(w, 24);
    LowOfByte(w1, 16);
    LowOfByte(w2, 8);
    LowOfByte(Down8(w2), 0);
    LowNone(Down8(Down8(w2)));
  }

  lemma LowNone(x: Word)
    ensures Low(x, 0) == 0
  {}

  lemma LowOfByte(x: Word, n: nat)
    ensures Low(x, 8 + n) == LowOctet(x) as int + 256 * Low(Down8(x), n)
  {
    hide Low, Above, Down8, LowOctet, And, Opens;
    LowSplit(x, 8, n);
    AboveByte(x);
    Exp2Byte();
    ByteOpens();
    LowMasked(x, 0xFF, 8);
    OctetIs(x);
    LowByte(LowOctet(x));
  }

  lemma ByteOpens()
    ensures Opens(0xFF, 8)
  {
    assert Opens(0xF, 4) && Opens(0x3F, 6);
  }

  lemma OctetIs(x: Word)
    ensures And(x, 0xFF) == LowOctet(x) as Word
  {}
}
