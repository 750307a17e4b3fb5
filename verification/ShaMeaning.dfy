/**
 What the pieces of SHA-256 compute, apart from how they are written: the word
 functions bit by bit (section 4.1.2 of FIPS 180-2), the rounds and the schedule as
 sums modulo 2^32 (section 6.2.2), the padding as numbers (section 5.1.1), and that
 no step loses anything.
 */
module ShaMeaning {
  import opened Octets
  import opened Words
  import opened ShaSpec

  /** The place b bits further up, around the end. */
  function Around(i: Place, b: Place): (p: Place)
    requires i < 32 && b < 32
    ensures p < 32
  {
    (i + b) % 32
  }

  /** Bit i of a rotated word is bit (i + b) % 32 of the word. */
  lemma RotateBit(b: Place, x: Word, i: Place)
    requires 0 < b < 32 && i < 32
    ensures Bit(Rotate(b, x), i) == Bit(x, Around(i, b))
  {
    hide Bit, Rotate, Around;
    RotateIs(b, x);
    if i + b < 32 {
      RotateStays(b, x, i);
    } else {
      RotateWraps(b, x, i);
    }
    AroundIs(i, b);
  }

  lemma RotateIs(b: Place, x: Word)
    requires 0 < b < 32
    ensures Rotate(b, x) == (x >> b) | (x << (32 - b))
  {}

  lemma AroundIs(i: Place, b: Place)
    requires i < 32 && b < 32
    ensures Around(i, b) == if i + b < 32 then i + b else i + b - 32
  {}

  lemma RotateStays(b: Place, x: Word, i: Place)
    requires 0 < b < 32 && i < 32 && i + b < 32
    ensures Bit((x >> b) | (x << (32 - b)), i) == Bit(x, i + b)
  {}

  lemma RotateWraps(b: Place, x: Word, i: Place)
    requires 0 < b < 32 && i < 32 && i + b >= 32
    ensures Bit((x >> b) | (x << (32 - b)), i) == Bit(x, i + b - 32)
  {}

  lemma ShiftBit(b: Place, x: Word, i: Place)
    requires 0 < b < 32 && i < 32
    ensures Bit(Shift(b, x), i) <==> i + b < 32 && Bit(x, i + b)
  {
    hide Bit, Shift;
    ShiftIs(b, x);
    BitOfShift(b, x, i);
  }

  lemma ShiftIs(b: Place, x: Word)
    requires 0 < b < 32
    ensures Shift(b, x) == x >> b
  {}

  lemma BitOfShift(b: Place, x: Word, i: Place)
    requires 0 < b < 32 && i < 32
    ensures Bit(x >> b, i) <==> i + b < 32 && Bit(x, i + b)
  {}

  /** Ch picks a bit of y or of z by the bit of x. */
  lemma ChBit(x: Word, y: Word, z: Word, i: Place)
    requires i < 32
    ensures Bit(Ch(x, y, z), i) == if Bit(x, i) then Bit(y, i) else Bit(z, i)
  {
    hide Bit, Ch;
    ChIs(x, y, z);
    BitOfChoice(x, y, z, i);
  }

  lemma ChIs(x: Word, y: Word, z: Word)
    ensures Ch(x, y, z) == (x & y) ^ (!x & z)
  {}

  lemma BitOfChoice(x: Word, y: Word, z: Word, i: Place)
    requires i < 32
    ensures Bit((x & y) ^ (!x & z), i) == if Bit(x, i) then Bit(y, i) else Bit(z, i)
  {}

  /** Maj is what two of the three bits say. */
  lemma MajBit(x: Word, y: Word, z: Word, i: Place)
    requires i < 32
    ensures Bit(Maj(x, y, z), i) <==>
      (Bit(x, i) && Bit(y, i)) || (Bit(x, i) && Bit(z, i)) || (Bit(y, i) && Bit(z, i))
  {
    hide Bit, Maj;
    MajIs(x, y, z);
    BitOfMajority(x, y, z, i);
  }

  lemma MajIs(x: Word, y: Word, z: Word)
    ensures Maj(x, y, z) == (x & y) ^ (x & z) ^ (y & z)
  {}

  lemma BitOfMajority(x: Word, y: Word, z: Word, i: Place)
    requires i < 32
    ensures Bit((x & y) ^ (x & z) ^ (y & z), i) <==>
      (Bit(x, i) && Bit(y, i)) || (Bit(x, i) && Bit(z, i)) || (Bit(y, i) && Bit(z, i))
  {}

  predicate Parity(p: bool, q: bool, r: bool) {
    (p != q) != r
  }

  lemma XorParity(x: Word, y: Word, z: Word, i: Place)
    requires i < 32
    ensures Bit(Xor(Xor(x, y), z), i) == Parity(Bit(x, i), Bit(y, i), Bit(z, i))
  {
    hide Xor, Bit;
    XorBit(x, y, i);
    XorBit(Xor(x, y), z, i);
  }

  lemma BigSigma0Bit(x: Word, i: Place)
    requires i < 32
    ensures Bit(BigSigma0(x), i) == Parity(Bit(x, Around(i, 2)), Bit(x, Around(i, 13)), Bit(x, Around(i, 22)))
  {
    hide Bit, Xor, Rotate, Around;
    XorParity(Rotate(2, x), Rotate(13, x), Rotate(22, x), i);
    RotateBit(2, x, i);
    RotateBit(13, x, i);
    RotateBit(22, x, i);
  }

  lemma BigSigma1Bit(x: Word, i: Place)
    requires i < 32
    ensures Bit(BigSigma1(x), i) == Parity(Bit(x, Around(i, 6)), Bit(x, Around(i, 11)), Bit(x, Around(i, 25)))
  {
    hide Bit, Xor, Rotate, Around;
    XorParity(Rotate(6, x), Rotate(11, x), Rotate(25, x), i);
    RotateBit(6, x, i);
    RotateBit(11, x, i);
    RotateBit(25, x, i);
  }

  lemma SmallSigma0Bit(x: Word, i: Place)
    requires i < 32
    ensures Bit(SmallSigma0(x), i) ==
      Parity(Bit(x, Around(i, 7)), Bit(x, Around(i, 18)), i + 3 < 32 && Bit(x, i + 3))
  {
    hide Bit, Xor, Rotate, Around, Shift;
    XorParity(Rotate(7, x), Rotate(18, x), Shift(3, x), i);
    RotateBit(7, x, i);
    RotateBit(18, x, i);
    ShiftBit(3, x, i);
  }

  lemma SmallSigma1Bit(x: Word, i: Place)
    requires i < 32
    ensures Bit(SmallSigma1(x), i) ==
      Parity(Bit(x, Around(i, 17)), Bit(x, Around(i, 19)), i + 10 < 32 && Bit(x, i + 10))
  {
    hide Bit, Xor, Rotate, Around, Shift;
    XorParity(Rotate(17, x), Rotate(19, x), Shift(10, x), i);
    RotateBit(17, x, i);
    RotateBit(19, x, i);
    ShiftBit(10, x, i);
  }

  /** A word that stands for x modulo 2^32. */
  ghost predicate Stands(w: Word, x: int) {
    Num(w) == x % MODULUS
  }

  lemma StandsItself(w: Word)
    ensures Stands(w, Num(w))
  {
    hide Num;
    NumBound(w);
  }

  lemma StandsSum(u: Word, x: int, v: Word, y: int)
    requires Stands(u, x) && Stands(v, y)
    ensures Stands(Plus(u, v), x + y)
  {
    hide Num, Plus;
    NumPlus(u, v);
  }

  /** One round: two new values, both sums modulo 2^32, and six old ones moved on. */
  lemma RoundSums(r: Regs, k: Word, w: Word)
    ensures var r' := Round(r, k, w);
      var t1 := Num(r.h) + Num(BigSigma1(r.e)) + Num(Ch(r.e, r.f, r.g)) + Num(k) + Num(w);
      var t2 := Num(BigSigma0(r.a)) + Num(Maj(r.a, r.b, r.c));
      && Num(r'.a) == (t1 + t2) % MODULUS && Num(r'.e) == (Num(r.d) + t1) % MODULUS
      && r'.b == r.a && r'.c == r.b && r'.d == r.c && r'.f == r.e && r'.g == r.f && r'.h == r.g
  {
    hide Num, Plus, BigSigma0, BigSigma1, Ch, Maj;
    var s, c, m := BigSigma1(r.e), Ch(r.e, r.f, r.g), Maj(r.a, r.b, r.c);
    var u1 := Plus(r.h, s);
    var u2 := Plus(u1, c);
    var u3 := Plus(u2, k);
    var t1, t2 := Plus(u3, w), Plus(BigSigma0(r.a), m);
    var n1 := Num(r.h) + Num(s) + Num(c) + Num(k) + Num(w);
    StandsItself(r.h);
    StandsItself(s);
    StandsItself(c);
    StandsItself(k);
    StandsItself(w);
    StandsItself(m);
    StandsItself(BigSigma0(r.a));
    StandsItself(r.d);
    StandsSum(r.h, Num(r.h), s, Num(s));
    StandsSum(u1, Num(r.h) + Num(s), c, Num(c));
    StandsSum(u2, Num(r.h) + Num(s) + Num(c), k, Num(k));
    StandsSum(u3, Num(r.h) + Num(s) + Num(c) + Num(k), w, Num(w));
    StandsSum(BigSigma0(r.a), Num(BigSigma0(r.a)), m, Num(m));
    StandsSum(t1, n1, t2, Num(BigSigma0(r.a)) + Num(m));
    StandsSum(r.d, Num(r.d), t1, n1);
  }

  /** The registers before a round, from those after it. */
  function Unround(r: Regs, k: Word, w: Word): (r': Regs) {
    var t1 := Minus(r.a, Plus(BigSigma0(r.b), Maj(r.b, r.c, r.d)));
    var h := Minus(Minus(Minus(Minus(t1, w), k), Ch(r.f, r.g, r.h)), BigSigma1(r.f));
    Regs(r.b, r.c, r.d, Minus(r.e, t1), r.f, r.g, r.h, h)
  }

  /** No round loses anything of the registers. */
  lemma RoundUndone(r: Regs, k: Word, w: Word)
    ensures Unround(Round(r, k, w), k, w) == r
  {
    hide Plus, Minus, BigSigma0, BigSigma1, Ch, Maj;
    var s, c := BigSigma1(r.e), Ch(r.e, r.f, r.g);
    var u1 := Plus(r.h, s);
    var u2 := Plus(u1, c);
    var u3 := Plus(u2, k);
    var t1, t2 := Plus(u3, w), Plus(BigSigma0(r.a), Maj(r.a, r.b, r.c));
    MinusPlus(t1, t2);
    MinusPlus(u3, w);
    MinusPlus(u2, k);
    MinusPlus(u1, c);
    MinusPlus(r.h, s);
    MinusPlus(r.d, t1);
  }

  /** Nor anything of the schedule word. */
  lemma WordMatters(r: Regs, k: Word, w: Word, w': Word)
    requires Round(r, k, w) == Round(r, k, w')
    ensures w == w'
  {
    hide Plus, BigSigma0, BigSigma1, Ch, Maj;
    var u := Plus(Plus(Plus(r.h, BigSigma1(r.e)), Ch(r.e, r.f, r.g)), k);
    MinusPlus(r.d, Plus(u, w));
    MinusPlus(r.d, Plus(u, w'));
    MinusPlus(u, w);
    MinusPlus(u, w');
  }

  /** With one block, different registers stay different through all rounds. */
  lemma {:induction false} RoundsDecide(k: seq<Word>, block: seq<Octet>, r: Regs, r': Regs, n: nat)
    requires |k| == 64 && |block| == 64 && n <= 64 && Rounds(k, block, r, n) == Rounds(k, block, r', n)
    ensures r == r'
  {
    hide Round, Unround, Schedule;
    if n > 0 {
      RoundUndone(Rounds(k, block, r, n - 1), k[n - 1], Schedule(block, n - 1));
      RoundUndone(Rounds(k, block, r', n - 1), k[n - 1], Schedule(block, n - 1));
      RoundsDecide(k, block, r, r', n - 1);
    }
  }

  /** Two blocks that first differ in schedule word t give different registers after that round. */
  lemma BlockMatters(k: seq<Word>, block: seq<Octet>, block': seq<Octet>, r: Regs, t: nat)
    requires |k| == 64 && |block| == |block'| == 64 && t < 64
    requires forall i :: 0 <= i < t ==> Schedule(block, i) == Schedule(block', i)
    requires Schedule(block, t) != Schedule(block', t)
    ensures Rounds(k, block, r, t + 1) != Rounds(k, block', r, t + 1)
  {
    hide Round, Schedule;
    SameWords(k, block, block', r, t);
    if Rounds(k, block, r, t + 1) == Rounds(k, block', r, t + 1) {
      WordMatters(Rounds(k, block, r, t), k[t], Schedule(block, t), Schedule(block', t));
    }
  }

  lemma {:induction false} SameWords(k: seq<Word>, block: seq<Octet>, block': seq<Octet>, r: Regs, n: nat)
    requires |k| == 64 && |block| == |block'| == 64 && n <= 64
    requires forall i :: 0 <= i < n ==> Schedule(block, i) == Schedule(block', i)
    ensures Rounds(k, block, r, n) == Rounds(k, block', r, n)
  {
    hide Round, Schedule;
    if n > 0 { SameWords(k, block, block', r, n - 1); }
  }

  /** A later word of the schedule is a sum modulo 2^32. */
  lemma ExpandSum(w16: Word, w15: Word, w7: Word, w2: Word)
    ensures Num(Expand(w16, w15, w7, w2)) ==
      (Num(SmallSigma1(w2)) + Num(w7) + Num(SmallSigma0(w15)) + Num(w16)) % MODULUS
  {
    hide Num, Plus, SmallSigma0, SmallSigma1;
    var s, s' := SmallSigma1(w2), SmallSigma0(w15);
    StandsItself(s);
    StandsItself(s');
    StandsItself(w7);
    StandsItself(w16);
    StandsSum(s, Num(s), w7, Num(w7));
    StandsSum(Plus(s, w7), Num(s) + Num(w7), s', Num(s'));
    StandsSum(w16, Num(w16), Plus(Plus(s, w7), s'), Num(s) + Num(w7) + Num(s'));
  }

  lemma BigEndianBytes(b0: Octet, b1: Octet, b2: Octet, b3: Octet)
    ensures var w := BigEndian(b0, b1, b2, b3); var w1 := Down8(w); var w2 := Down8(w1); var w3 := Down8(w2);
      LowOctet(w) == b3 && LowOctet(w1) == b2 && LowOctet(w2) == b1 && LowOctet(w3) == b0
  {}

  /** The first sixteen words of the schedule: four bytes each, high byte first. */
  lemma ScheduleNumber(block: seq<Octet>, t: nat)
    requires |block| == 64 && t < 16
    ensures Num(Schedule(block, t)) == 0x100_0000 * block[4 * t] as int + 0x1_0000 * block[4 * t + 1] as int +
      0x100 * block[4 * t + 2] as int + block[4 * t + 3] as int
  {
    hide Num, BigEndian, LowOctet, Down8;
    var w := Schedule(block, t);
    BigEndianBytes(block[4 * t], block[4 * t + 1], block[4 * t + 2], block[4 * t + 3]);
    NumBytes(w);
  }

  /** After the rounds the old state is added, word by word modulo 2^32. */
  lemma CompressSums(k: seq<Word>, s: seq<Word>, block: seq<Octet>)
    requires |k| == 64 && |s| == 8 && |block| == 64
    ensures var r, t := Rounds(k, block, ToRegs(s), 64), Compress(k, s, block);
      && Num(t[0]) == SumMod(Num(s[0]), Num(r.a)) && Num(t[1]) == SumMod(Num(s[1]), Num(r.b))
      && Num(t[2]) == SumMod(Num(s[2]), Num(r.c)) && Num(t[3]) == SumMod(Num(s[3]), Num(r.d))
      && Num(t[4]) == SumMod(Num(s[4]), Num(r.e)) && Num(t[5]) == SumMod(Num(s[5]), Num(r.f))
      && Num(t[6]) == SumMod(Num(s[6]), Num(r.g)) && Num(t[7]) == SumMod(Num(s[7]), Num(r.h))
  {
    hide Num, Plus, Rounds, AddRegs, SumMod;
    var r := Rounds(k, block, ToRegs(s), 64);
    AddedWords(s, r);
    NumSum(s[0], r.a);
    NumSum(s[1], r.b);
    NumSum(s[2], r.c);
    NumSum(s[3], r.d);
    NumSum(s[4], r.e);
    NumSum(s[5], r.f);
    NumSum(s[6], r.g);
    NumSum(s[7], r.h);
  }

  lemma AddedWords(s: seq<Word>, r: Regs)
    requires |s| == 8
    ensures var t := AddRegs(s, r);
      && t[0] == Plus(s[0], r.a) && t[1] == Plus(s[1], r.b) && t[2] == Plus(s[2], r.c) && t[3] == Plus(s[3], r.d)
      && t[4] == Plus(s[4], r.e) && t[5] == Plus(s[5], r.f) && t[6] == Plus(s[6], r.g) && t[7] == Plus(s[7], r.h)
  {
    hide Plus;
  }

  /** The number that bytes stand for, high byte first. */
  function BytesNumber(b: seq<Octet>): (v: nat) {
    if b == [] then 0 else 256 * BytesNumber(b[..|b| - 1]) + b[|b| - 1] as int
  }

  lemma ByteOfNumber(v: nat)
    ensures ByteOf(v) as int == v % 256
  {
    OctetNumber(v % 256);
  }

  /** Every quotient is the one before it divided by 256. */
  lemma Quotients(v: nat)
    requires v < 0x1_0000_0000_0000_0000
    ensures v / 0x100_0000_0000_0000 / 256 == 0 && v / 0x1_0000_0000_0000 / 256 == v / 0x100_0000_0000_0000
    ensures v / 0x100_0000_0000 / 256 == v / 0x1_0000_0000_0000 && v / 0x1_0000_0000 / 256 == v / 0x100_0000_0000
    ensures v / 0x100_0000 / 256 == v / 0x1_0000_0000 && v / 0x1_0000 / 256 == v / 0x100_0000
    ensures v / 0x100 / 256 == v / 0x1_0000
  {}

  /** The count is the number its eight bytes stand for. */
  lemma CountNumber(v: nat)
    requires v < 0x1_0000_0000_0000_0000
    ensures BytesNumber(Count(v)) == v
  {
    hide ByteOf, BytesNumber;
    Quotients(v);
    NumberNone();
    var v1, v2, v3, v4 := v / 0x100_0000_0000_0000, v / 0x1_0000_0000_0000, v / 0x100_0000_0000, v / 0x1_0000_0000;
    var v5, v6, v7 := v / 0x100_0000, v / 0x1_0000, v / 0x100;
    var b1 := NumberNext([], v1, 0);
    var b2 := NumberNext(b1, v2, v1);
    var b3 := NumberNext(b2, v3, v2);
    var b4 := NumberNext(b3, v4, v3);
    var b5 := NumberNext(b4, v5, v4);
    var b6 := NumberNext(b5, v6, v5);
    var b7 := NumberNext(b6, v7, v6);
    var b8 := NumberNext(b7, v, v7);
    assert b8 == Count(v);
  }

  lemma NumberNone()
    ensures BytesNumber([]) == 0
  {}

  lemma NumberNext(b: seq<Octet>, v: nat, u: nat) returns (b': seq<Octet>)
    requires BytesNumber(b) == u && u == v / 256
    ensures b' == b + [ByteOf(v)] && BytesNumber(b') == v
  {
    hide ByteOf;
    ByteOfNumber(v);
    b' := b + [ByteOf(v)];
    assert b'[..|b|] == b;
  }

  /** The padding: a one bit, zeros, and in the last eight bytes the number of bits in the message. */
  lemma PaddedIs(m: seq<Octet>)
    requires |m| < 0x2000_0000_0000_0000
    ensures var p := Padded(m);
      && |p| >= |m| + 9 && p[..|m|] == m && p[|m|] == 0x80
      && (forall i :: |m| < i < |p| - 8 ==> p[i] == 0)
      && BytesNumber(p[|p| - 8..]) == 8 * |m|
  {
    hide Count;
    var p, c := Padded(m), Count(8 * |m|);
    FillerFits(|m|);
    assert p[|p| - 8..] == c;
    CountNumber(8 * |m|);
  }
}
