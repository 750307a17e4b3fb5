/** Bytes and words of the ciphers and hashes, as bit patterns. */
module Octets {
  type Octet = bv8
  type Word = bv32

  /** A bit of a byte, picked out by a mask, and a byte from its bits, low one first. */
  predicate Has(b: Octet, mask: Octet) {
    b & mask != 0
  }

  function FromBits(b0: bool, b1: bool, b2: bool, b3: bool, b4: bool, b5: bool, b6: bool, b7: bool): (b: Octet) {
    (if b0 then 1 else 0) | (if b1 then 2 else 0) | (if b2 then 4 else 0) | (if b3 then 8 else 0) |
    (if b4 then 16 else 0) | (if b5 then 32 else 0) | (if b6 then 64 else 0) | (if b7 then 128 else 0)
  }

  lemma HasBits(b0: bool, b1: bool, b2: bool, b3: bool, b4: bool, b5: bool, b6: bool, b7: bool)
    ensures var b := FromBits(b0, b1, b2, b3, b4, b5, b6, b7);
      && Has(b, 1) == b0 && Has(b, 2) == b1 && Has(b, 4) == b2 && Has(b, 8) == b3
      && Has(b, 16) == b4 && Has(b, 32) == b5 && Has(b, 64) == b6 && Has(b, 128) == b7
  {}

  /** The number a byte stands for. */
  function Value(b: Octet): (n: int) {
    b as int
  }

  function Count1(b: bool): (n: nat) {
    if b then 1 else 0
  }

  /** The number with four binary digits, low one first, and with eight. */
  function Nibble(b0: bool, b1: bool, b2: bool, b3: bool): (n: nat) {
    Count1(b0) + 2 * Count1(b1) + 4 * Count1(b2) + 8 * Count1(b3)
  }

  function Binary(b0: bool, b1: bool, b2: bool, b3: bool, b4: bool, b5: bool, b6: bool, b7: bool): (n: nat) {
    Nibble(b0, b1, b2, b3) + 16 * Nibble(b4, b5, b6, b7)
  }

  /** A byte is the number of its bits. */
  lemma OctetBinary(b: Octet)
    ensures Value(b) ==
      Binary(Has(b, 1), Has(b, 2), Has(b, 4), Has(b, 8), Has(b, 16), Has(b, 32), Has(b, 64), Has(b, 128))
  {
    hide Nibble, Has;
    OctetHalves(b);
    LowNibble(b);
    HighNibble(b);
  }

  lemma OctetHalves(b: Octet)
    ensures b as int == (b & 15) as int + 16 * ((b >> 4) as int)
  {}

  lemma LowNibble(b: Octet)
    ensures (b & 15) as int == Nibble(Has(b, 1), Has(b, 2), Has(b, 4), Has(b, 8))
  {}

  lemma HighNibble(b: Octet)
    ensures (b >> 4) as int == Nibble(Has(b, 16), Has(b, 32), Has(b, 64), Has(b, 128))
  {}

  lemma OctetBack(b: Octet)
    ensures b as int as Octet == b
  {}

  lemma SmallDigits(n: nat)
    requires n < 16
    ensures n == Nibble(n % 2 == 1, n / 2 % 2 == 1, n / 4 % 2 == 1, n / 8 % 2 == 1)
  {}

  /** The byte with the binary digits of a number. */
  lemma OctetOf(n: nat) returns (b: Octet)
    requires n < 256
    ensures Value(b) == n
  {
    hide Has, FromBits, Nibble, Value;
    var l, h := n % 16, n / 16;
    var b0, b1, b2, b3 := l % 2 == 1, l / 2 % 2 == 1, l / 4 % 2 == 1, l / 8 % 2 == 1;
    var b4, b5, b6, b7 := h % 2 == 1, h / 2 % 2 == 1, h / 4 % 2 == 1, h / 8 % 2 == 1;
    SmallDigits(l);
    SmallDigits(h);
    b := FromBits(b0, b1, b2, b3, b4, b5, b6, b7);
    HasBits(b0, b1, b2, b3, b4, b5, b6, b7);
    OctetBinary(b);
  }

  /** A number below 256 is the number of its byte. */
  lemma OctetNumber(n: int)
    requires 0 <= n < 256
    ensures n as Octet as int == n
  {
    var b := OctetOf(n);
    OctetBack(b);
  }
}
