/**
 SHA-256 as FIPS 180-2 gives it: the 64-word message schedule, the rounds, and
 the fold of the compression function over the padded message.
 */
module ShaSpec {
  import opened Octets
  import opened Sequences
  import opened Words

  function Rotate(b: Place, x: Word): (r: Word)
    requires 0 < b < 32
  {
    (x >> b) | (x << (32 - b))
  }

  function Shift(b: Place, x: Word): (r: Word)
    requires 0 < b < 32
  {
    x >> b
  }

  function Ch(x: Word, y: Word, z: Word): (r: Word) { (x & y) ^ (!x & z) }
  function Maj(x: Word, y: Word, z: Word): (r: Word) { (x & y) ^ (x & z) ^ (y & z) }
  function BigSigma0(x: Word): (r: Word) { Xor(Xor(Rotate(2, x), Rotate(13, x)), Rotate(22, x)) }
  function BigSigma1(x: Word): (r: Word) { Xor(Xor(Rotate(6, x), Rotate(11, x)), Rotate(25, x)) }
  function SmallSigma0(x: Word): (r: Word) { Xor(Xor(Rotate(7, x), Rotate(18, x)), Shift(3, x)) }
  function SmallSigma1(x: Word): (r: Word) { Xor(Xor(Rotate(17, x), Rotate(19, x)), Shift(10, x)) }

  /** The working variables a to h. */
  datatype Regs = Regs(a: Word, b: Word, c: Word, d: Word, e: Word, f: Word, g: Word, h: Word)

  /** One round with constant k and schedule word w. */
  function Round(r: Regs, k: Word, w: Word): (r': Regs) {
    var t1 := Plus(Plus(Plus(Plus(r.h, BigSigma1(r.e)), Ch(r.e, r.f, r.g)), k), w);
    var t2 := Plus(BigSigma0(r.a), Maj(r.a, r.b, r.c));
    Regs(Plus(t1, t2), r.a, r.b, r.c, Plus(r.d, t1), r.e, r.f, r.g)
  }

  /** Four bytes as a word, high byte first. */
  function BigEndian(b0: Octet, b1: Octet, b2: Octet, b3: Octet): (w: Word) {
    (b3 as Word) | ((b2 as Word) << 8) | ((b1 as Word) << 16) | ((b0 as Word) << 24)
  }

  /** The next word of the schedule from the one 16 back and three in between. */
  function Expand(w16: Word, w15: Word, w7: Word, w2: Word): (w: Word) {
    Plus(w16, Plus(Plus(SmallSigma1(w2), w7), SmallSigma0(w15)))
  }

  /** Word t of the message schedule of a block. */
  function Schedule(block: seq<Octet>, t: nat): (w: Word)
    requires |block| == 64
  {
    if t < 16 then BigEndian(block[4 * t], block[4 * t + 1], block[4 * t + 2], block[4 * t + 3])
    else Expand(Schedule(block, t - 16), Schedule(block, t - 15), Schedule(block, t - 7), Schedule(block, t - 2))
  }

  /** The round constants and the initial hash value: any will do. */
  datatype Hash = Hash(k: seq<Word>, init: seq<Word>) {
    predicate Valid() {
      |k| == 64 && |init| == 8
    }
  }

  function Rounds(k: seq<Word>, block: seq<Octet>, r: Regs, n: nat): (r': Regs)
    requires |k| == 64 && |block| == 64 && n <= 64
  {
    if n == 0 then r else Round(Rounds(k, block, r, n - 1), k[n - 1], Schedule(block, n - 1))
  }

  function ToRegs(s: seq<Word>): (r: Regs)
    requires |s| == 8
  {
    Regs(s[0], s[1], s[2], s[3], s[4], s[5], s[6], s[7])
  }

  function AddRegs(s: seq<Word>, r: Regs): (t: seq<Word>)
    requires |s| == 8
    ensures |t| == 8
  {
    [Plus(s[0], r.a), Plus(s[1], r.b), Plus(s[2], r.c), Plus(s[3], r.d),
     Plus(s[4], r.e), Plus(s[5], r.f), Plus(s[6], r.g), Plus(s[7], r.h)]
  }

  /** The compression function. */
  function Compress(k: seq<Word>, s: seq<Word>, block: seq<Octet>): (t: seq<Word>)
    requires |k| == 64 && |s| == 8 && |block| == 64
    ensures |t| == 8
  {
    AddRegs(s, Rounds(k, block, ToRegs(s), 64))
  }

  /** All blocks of a message of whole blocks. */
  function Absorb(h: Hash, m: seq<Octet>): (s: seq<Word>)
    requires h.Valid() && |m| % 64 == 0
    ensures |s| == 8
  {
    if m == [] then h.init else Compress(h.k, Absorb(h, m[..|m| - 64]), m[|m| - 64..])
  }

  function ByteOf(v: nat): (b: Octet) {
    (v % 256) as Octet
  }

  /** A 64-bit count, high byte first. */
  function Count(v: nat): (b: seq<Octet>)
    ensures |b| == 8
  {
    [ByteOf(v / 0x100_0000_0000_0000), ByteOf(v / 0x1_0000_0000_0000),
     ByteOf(v / 0x100_0000_0000), ByteOf(v / 0x1_0000_0000),
     ByteOf(v / 0x100_0000), ByteOf(v / 0x1_0000), ByteOf(v / 0x100), ByteOf(v)]
  }

  /** Zero bytes after the 0x80 that bring the length to 56 modulo 64. */
  function Filler(n: nat): (z: nat) {
    (55 - n) % 64
  }

  /** The padded message. */
  function Padded(m: seq<Octet>): (p: seq<Octet>) {
    m + [0x80] + Repeat(0, Filler(|m|)) + Count(8 * |m|)
  }

  /** The padding is the least that leaves room for the count in a whole number of blocks. */
  lemma PaddedWhole(m: seq<Octet>)
    ensures |Padded(m)| % 64 == 0 && |m| + 9 <= |Padded(m)| < |m| + 9 + 64
  {
    FillerFits(|m|);
  }

  lemma FillerFits(n: nat)
    ensures 0 <= Filler(n) < 64 && (n + 9 + Filler(n)) % 64 == 0
  {
    var q := (55 - n) / 64;
    assert 55 - n == 64 * q + Filler(n);
    assert n + 9 + Filler(n) == 64 * (1 - q);
  }
}
