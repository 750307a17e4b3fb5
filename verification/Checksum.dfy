/**
 What the checksum of crc24 is: the remainder of the message, taken as a polynomial
 over two elements, on division by the generator (section 6.1 of RFC 4880).
 */
module Checksum {
  import opened PacketLength
  import opened Armor
  import opened Words

  const INIT: bv32 := 0xB7_04CE
  const GENERATOR: bv32 := 0x186_4CFB

  /** A coefficient at degree 0, and one at degree 23. */
  function Low(bit: bool): (c: bv32) {
    if bit then 1 else 0
  }

  function High(bit: bool): (c: bv32) {
    if bit then 0x80_0000 else 0
  }

  /** One step of long division: bring down the next coefficient, and take off the generator at degree 24. */
  function BringDown(r: bv32, bit: bool): (r': bv32) {
    var c := Xor(r << 1, Low(bit));
    if c & 0x100_0000 != 0 then Xor(c, GENERATOR) else c
  }

  /** The remainder when the coefficients, highest first, follow those already reduced to r. */
  function Divide(r: bv32, bits: seq<bool>): (r': bv32) {
    if bits == [] then r else BringDown(Divide(r, bits[..|bits| - 1]), bits[|bits| - 1])
  }

  function Nulls(n: nat): (bits: seq<bool>)
    ensures |bits| == n
  {
    seq(n, _ => false)
  }

  /** A byte with its high bit shifted out. */
  function Next(b: bv32): (r: bv32) {
    (b << 1) & 0xFF
  }

  predicate HighBit(b: bv32) {
    b & 0x80 != 0
  }

  /** A byte at the top of the register. */
  function Lift(b: bv32): (r: bv32) {
    b << 16
  }

  predicate IsByte(b: bv32) {
    b & 0xFF == b
  }

  /** The bits of a byte, high bit first. */
  function ByteBits(b: bv32, n: nat): (bits: seq<bool>)
    ensures |bits| == n
    decreases n
  {
    if n == 0 then [] else [HighBit(b)] + ByteBits(Next(b), n - 1)
  }

  function MessageBits(s: seq<Byte>): (bits: seq<bool>)
    ensures |bits| == 8 * |s|
  {
    if s == [] then [] else MessageBits(s[..|s| - 1]) + ByteBits(s[|s| - 1] as int as bv8 as bv32, 8)
  }

  /** The register of crc24 when message bits are joined to it at the top, one by one. */
  function Direct(r: bv32, bits: seq<bool>): (r': bv32) {
    if bits == [] then r else CrcBit(Xor(Direct(r, bits[..|bits| - 1]), High(bits[|bits| - 1])))
  }

  lemma XorLaws(a: bv32, b: bv32, p: bv32)
    ensures Xor(Xor(a, p), Xor(b, p)) == Xor(a, b) && Xor(Xor(a, p), b) == Xor(Xor(a, b), p)
    ensures Xor(a, Xor(b, p)) == Xor(Xor(a, b), p)
  {
    hide Xor;
    XorAssoc(a, b, p);
    XorAssoc(a, p, b);
    XorOrder(p, b);
    XorAssoc(Xor(a, p), b, p);
    XorAssoc(Xor(a, b), p, p);
    XorNone(p);
    XorNone(Xor(a, b));
  }

  /** One shift of the register without and with the generator taken off. */
  predicate Spills(a: bv32) {
    (a << 1) & 0x100_0000 != 0
  }

  function Up(a: bv32): (c: bv32) {
    a << 1
  }

  lemma BitIs(a: bv32)
    ensures CrcBit(a) == if Spills(a) then Xor(Up(a), GENERATOR) else Up(a)
  {}

  lemma UpXor(a: bv32, b: bv32)
    ensures Up(Xor(a, b)) == Xor(Up(a), Up(b))
  {
    assert (a ^ b) << 1 == (a << 1) ^ (b << 1);
  }

  lemma SpillsXor(a: bv32, b: bv32)
    ensures Spills(Xor(a, b)) == (Spills(a) != Spills(b))
  {
    assert ((a ^ b) << 1) & 0x100_0000 == ((a << 1) & 0x100_0000) ^ ((b << 1) & 0x100_0000);
    OneBit(a);
    OneBit(b);
  }

  lemma OneBit(a: bv32)
    ensures (a << 1) & 0x100_0000 == 0 || (a << 1) & 0x100_0000 == 0x100_0000
  {}

  /** Shifting and reducing is linear. */
  lemma BitLinear(a: bv32, b: bv32)
    ensures CrcBit(Xor(a, b)) == Xor(CrcBit(a), CrcBit(b))
  {
    hide CrcBit, Xor, Up, Spills;
    BitIs(a);
    BitIs(b);
    BitIs(Xor(a, b));
    UpXor(a, b);
    SpillsXor(a, b);
    XorLaws(Up(a), Up(b), GENERATOR);
  }

  lemma BringDownIs(r: bv32, bit: bool)
    ensures BringDown(r, bit) == Xor(CrcBit(r), Low(bit))
  {
    hide CrcBit, Xor, Up, Spills, Low;
    BitIs(r);
    LowStays(r, bit);
    XorLaws(Up(r), Low(bit), GENERATOR);
  }

  lemma LowStays(r: bv32, bit: bool)
    ensures Xor(r << 1, Low(bit)) & 0x100_0000 != 0 <==> Spills(r)
    ensures Xor(r << 1, Low(bit)) == Xor(Up(r), Low(bit))
  {
    assert ((r << 1) ^ 1) & 0x100_0000 == (r << 1) & 0x100_0000;
  }

  lemma {:induction false} BitsLinear(a: bv32, b: bv32, n: nat)
    ensures CrcBits(Xor(a, b), n) == Xor(CrcBits(a, n), CrcBits(b, n))
  {
    hide CrcBit, Xor;
    if n > 0 {
      BitsLinear(a, b, n - 1);
      BitLinear(CrcBits(a, n - 1), CrcBits(b, n - 1));
    }
  }

  lemma {:induction false} BitsInside(r: bv32, n: nat)
    ensures CrcBits(CrcBit(r), n) == CrcBit(CrcBits(r, n))
  {
    hide CrcBit;
    if n > 0 { BitsInside(r, n - 1); }
  }

  lemma {:induction false} DivideNulls(r: bv32, bits: seq<bool>, n: nat)
    ensures Divide(r, bits + Nulls(n)) == CrcBits(Divide(r, bits), n)
  {
    hide CrcBit, BringDown, Xor;
    if n == 0 {
      assert bits + Nulls(0) == bits;
    } else {
      var all := bits + Nulls(n);
      assert all[..|all| - 1] == bits + Nulls(n - 1);
      DivideNulls(r, bits, n - 1);
      BringDownIs(CrcBits(Divide(r, bits), n - 1), false);
      XorNone(CrcBit(CrcBits(Divide(r, bits), n - 1)));
    }
  }

  /** x to the 24th: a one shifted up to the top of the register and out of it. */
  lemma TwentyFour()
    ensures CrcBits(1, 24) == CrcBit(0x80_0000)
  {
    assert CrcBits(1, 4) == 0x10 by { assert CrcBits(1, 2) == 4; }
    assert CrcBits(1, 8) == 0x100 by { assert CrcBits(1, 6) == 0x40; }
    assert CrcBits(1, 12) == 0x1000 by { assert CrcBits(1, 10) == 0x400; }
    assert CrcBits(1, 16) == 0x1_0000 by { assert CrcBits(1, 14) == 0x4000; }
    assert CrcBits(1, 20) == 0x10_0000 by { assert CrcBits(1, 18) == 0x4_0000; }
    assert CrcBits(1, 23) == 0x80_0000 by { assert CrcBits(1, 22) == 0x40_0000; }
  }

  lemma LowIsHigh(bit: bool)
    ensures CrcBits(Low(bit), 24) == CrcBit(High(bit))
  {
    hide CrcBits;
    if bit { TwentyFour(); } else { ZeroStays(24); }
  }

  lemma {:induction false} ZeroStays(n: nat)
    ensures CrcBits(0, n) == 0 && CrcBit(0) == 0
  {
    if n > 0 { ZeroStays(n - 1); }
  }

  /** Joining bits at the top saves dividing the 24 zeros after the message. */
  lemma {:induction false} DirectIsRemainder(r: bv32, bits: seq<bool>)
    ensures Direct(r, bits) == Xor(CrcBits(r, |bits|), CrcBits(Divide(0, bits), 24))
  {
    hide CrcBit, CrcBits, BringDown, Xor;
    if bits == [] {
      NoBits(r);
    } else {
      var n := |bits| - 1;
      var front, bit := bits[..n], bits[n];
      DirectIsRemainder(r, front);
      JoinedBit(CrcBits(r, n), Divide(0, front), bit);
      OneMore(r, n);
    }
  }

  lemma NoBits(r: bv32)
    ensures r == Xor(CrcBits(r, 0), CrcBits(0, 24))
  {
    hide CrcBit, Xor;
    ZeroStays(24);
    XorNone(r);
  }

  lemma OneMore(r: bv32, n: nat)
    ensures CrcBits(r, n + 1) == CrcBit(CrcBits(r, n))
  {}

  lemma JoinedBit(i: bv32, a: bv32, bit: bool)
    ensures CrcBit(Xor(Xor(i, CrcBits(a, 24)), High(bit))) == Xor(CrcBit(i), CrcBits(BringDown(a, bit), 24))
  {
    hide CrcBit, CrcBits, BringDown, Xor, High, Low;
    var c := CrcBits(a, 24);
    BitLinear(Xor(i, c), High(bit));
    BitLinear(i, c);
    BringDownIs(a, bit);
    BitsLinear(CrcBit(a), Low(bit), 24);
    BitsInside(a, 24);
    LowIsHigh(bit);
    XorLaws(CrcBit(i), CrcBit(c), CrcBit(High(bit)));
  }

  /** What is left of a byte when its bits have been shifted out at the top. */
  function ShiftedOut(b: bv32, n: nat): (r: bv32)
    decreases n
  {
    if n == 0 then b else ShiftedOut(Next(b), n - 1)
  }

  lemma AllOut(b: bv32)
    requires IsByte(b)
    ensures ShiftedOut(b, 8) == 0
  {
    hide Next;
    var b2 := Next(Next(b));
    var b4 := Next(Next(b2));
    var b6 := Next(Next(b4));
    assert ShiftedOut(b2, 6) == ShiftedOut(b4, 4);
    assert ShiftedOut(b4, 4) == ShiftedOut(b6, 2);
    EightShifts(b);
  }

  lemma EightShifts(b: bv32)
    ensures Next(Next(Next(Next(Next(Next(Next(Next(b)))))))) == 0
  {}

  lemma ByteParts(b: bv32)
    requires IsByte(b)
    ensures Lift(b) == Xor(High(HighBit(b)), Lift(b & 0x7F))
    ensures CrcBit(Lift(b & 0x7F)) == Lift(Next(b)) && IsByte(Next(b))
  {}

  lemma ByteStep(d: bv32, b: bv32)
    requires IsByte(b)
    ensures CrcBit(Xor(d, Lift(b))) == Xor(CrcBit(Xor(d, High(HighBit(b)))), Lift(Next(b))) && IsByte(Next(b))
  {
    hide CrcBit, Xor, High, HighBit, Next, Lift, IsByte;
    ByteParts(b);
    XorLaws(d, High(HighBit(b)), Lift(b & 0x7F));
    BitLinear(Xor(d, High(HighBit(b))), Lift(b & 0x7F));
  }

  /** Eight steps on a whole byte are eight steps on its bits. */
  lemma {:induction false} ByteIsBits(d: bv32, b: bv32, n: nat)
    requires IsByte(b) && ShiftedOut(b, n) == 0
    ensures CrcBits(Xor(d, Lift(b)), n) == Direct(d, ByteBits(b, n))
    decreases n
  {
    hide CrcBit, Xor, High, HighBit, Next, Lift, IsByte;
    if n == 0 {
      NothingLifted(d);
    } else {
      var d' := CrcBit(Xor(d, High(HighBit(b))));
      BitsInside(Xor(d, Lift(b)), n - 1);
      ByteStep(d, b);
      ByteIsBits(d', Next(b), n - 1);
      DirectFirst(d, HighBit(b), ByteBits(Next(b), n - 1));
    }
  }

  lemma NothingLifted(d: bv32)
    ensures Xor(d, Lift(0)) == d
  {}

  lemma {:induction false} DirectConcat(r: bv32, a: seq<bool>, b: seq<bool>)
    ensures Direct(r, a + b) == Direct(Direct(r, a), b)
  {
    hide CrcBit, Xor, High;
    if b == [] {
      assert a + b == a;
    } else {
      assert (a + b)[..|a + b| - 1] == a + b[..|b| - 1];
      DirectConcat(r, a, b[..|b| - 1]);
    }
  }

  lemma DirectFirst(r: bv32, bit: bool, rest: seq<bool>)
    ensures Direct(r, [bit] + rest) == Direct(CrcBit(Xor(r, High(bit))), rest)
  {
    hide CrcBit, Xor, High;
    DirectConcat(r, [bit], rest);
    assert [bit][..0] == [];
  }

  lemma ByteWord(crc: bv32, b: Byte)
    ensures var w := b as int as bv8 as bv32;
      IsByte(w) && CrcByte(crc, b) == CrcBits(Xor(crc, Lift(w)), 8)
  {
    hide CrcBits;
  }

  lemma {:induction false} CrcIsDirect(s: seq<Byte>)
    ensures Crc(s) == Direct(INIT, MessageBits(s))
  {
    hide CrcByte, Xor, Lift, IsByte, ByteBits, High;
    if s != [] {
      var n := |s| - 1;
      var b := s[n] as int as bv8 as bv32;
      CrcIsDirect(s[..n]);
      ByteWord(Crc(s[..n]), s[n]);
      AllOut(b);
      ByteIsBits(Crc(s[..n]), b, 8);
      DirectConcat(INIT, MessageBits(s[..n]), ByteBits(b, 8));
    }
  }

  /**
   The checksum register: the remainder of the initial value followed by as many
   zeros as the message has bits, plus that of the message followed by 24 zeros.
   */
  lemma CrcIsRemainder(s: seq<Byte>)
    ensures Crc(s) == Xor(Divide(INIT, Nulls(8 * |s|)), Divide(0, MessageBits(s) + Nulls(24)))
  {
    hide CrcBit, CrcBits, BringDown, Crc, MessageBits, Xor;
    CrcIsDirect(s);
    DirectIsRemainder(INIT, MessageBits(s));
    DivideNulls(INIT, [], 8 * |s|);
    assert [] + Nulls(8 * |s|) == Nulls(8 * |s|);
    DivideNulls(0, MessageBits(s), 24);
  }

  predicate Fits(r: bv32) {
    r & 0xFF_FFFF == r
  }

  /** It has 24 bits, so the mask at the end of crc24 changes nothing. */
  lemma {:induction false} CrcFits(s: seq<Byte>)
    ensures Fits(Crc(s))
  {
    hide CrcByte, Xor, Fits, Lift;
    if s == [] {
      InitFits();
    } else {
      var n := |s| - 1;
      CrcFits(s[..n]);
      ByteWord(Crc(s[..n]), s[n]);
      ByteFits(Crc(s[..n]), s[n] as int as bv8 as bv32);
      BitsFit(Xor(Crc(s[..n]), Lift(s[n] as int as bv8 as bv32)), 8);
    }
  }

  lemma InitFits()
    ensures Fits(INIT)
  {}

  lemma ByteFits(r: bv32, b: bv32)
    requires Fits(r) && IsByte(b)
    ensures Fits(Xor(r, Lift(b)))
  {}

  lemma {:induction false} BitsFit(r: bv32, n: nat)
    requires Fits(r)
    ensures Fits(CrcBits(r, n))
  {
    hide CrcBit, Fits;
    if n > 0 {
      BitsFit(r, n - 1);
      BitFits(CrcBits(r, n - 1));
    }
  }

  lemma BitFits(r: bv32)
    requires Fits(r)
    ensures Fits(CrcBit(r))
  {}
}
