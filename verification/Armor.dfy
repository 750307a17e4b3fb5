/** ASCII armor (section 6 of RFC 4880): pgp_armor_encode, pgp_armor_decode and the size estimate. */
module Armor {
  import opened PacketLength
  import opened Base64

  const DASH: Byte := 45
  const RETURN: Byte := 13

  const DASHES: seq<Byte> := [45, 45, 45, 45, 45]
  const BEGIN: seq<Byte> := [66, 69, 71, 73, 78]
  const END: seq<Byte> := [69, 78, 68]
  /** " PGP MESSAGE". */
  const TITLE: seq<Byte> := [32, 80, 71, 80, 32, 77, 69, 83, 83, 65, 71, 69]
  const START_SEP: seq<Byte> := DASHES + BEGIN
  const END_SEP: seq<Byte> := DASHES + END
  const HEADER: seq<Byte> := START_SEP + TITLE + DASHES + [NEWLINE, NEWLINE]
  const FOOTER: seq<Byte> := [NEWLINE] + END_SEP + TITLE + DASHES + [NEWLINE]

  /** One bit of the checksum. */
  function CrcBit(crc: bv32): (r: bv32) {
    var c := crc << 1;
    if c & 0x100_0000 != 0 then c ^ 0x186_4CFB else c
  }

  function CrcBits(crc: bv32, n: nat): (r: bv32) {
    if n == 0 then crc else CrcBit(CrcBits(crc, n - 1))
  }

  function CrcByte(crc: bv32, b: Byte): (r: bv32) {
    CrcBits(crc ^ ((b as int as bv8 as bv32) << 16), 8)
  }

  function Crc(s: seq<Byte>): (r: bv32) {
    if s == [] then 0xB7_04CE else CrcByte(Crc(s[..|s| - 1]), s[|s| - 1])
  }

  /** The 24-bit checksum of s. */
  function Checksum(s: seq<Byte>): (c: int)
    ensures 0 <= c < 0x100_0000
  {
    (Crc(s) & 0xFF_FFFF) as bv24 as int
  }

  /** The eight shifts for one byte. */
  method Crc24Byte(crc: bv32, b: Byte) returns (r: bv32)
    ensures r == CrcByte(crc, b)
  {
    hide CrcBit;
    r := crc ^ ((b as int as bv8 as bv32) << 16);
    ghost var start := r;
    var i := 0;
    while i < 8
      invariant 0 <= i <= 8 && r == CrcBits(start, i)
    {
      r := CrcBit(r);
      i := i + 1;
    }
  }

  /** crc24. */
  method Crc24(data: seq<Byte>) returns (c: int)
    ensures c == Checksum(data)
  {
    hide CrcByte;
    var crc: bv32 := 0xB7_04CE;
    var k := 0;
    while k < |data|
      invariant 0 <= k <= |data| && crc == Crc(data[..k])
    {
      assert data[..k + 1][..k] == data[..k];
      crc := Crc24Byte(crc, data[k]);
      k := k + 1;
    }
    assert data[..k] == data;
    c := (crc & 0xFF_FFFF) as bv24 as int;
  }

  /** The line break before the checksum, unless the text before it ends in one. */
  function Gap(t: seq<Byte>): (g: seq<Byte>) {
    if t != [] && t[|t| - 1] == NEWLINE then [] else [NEWLINE]
  }

  /** An armored message. */
  function Armored(x: seq<Byte>): (t: seq<Byte>) {
    var b := HEADER + Encode(x);
    b + Gap(b) + [PAD] + Four(Checksum(x)) + FOOTER
  }

  /** pgp_armor_encode. */
  method ArmorEncode(src: seq<Byte>) returns (dst: seq<Byte>)
    ensures dst == Armored(src)
  {
    hide Encode, Checksum, Four;
    var crc := Crc24(src);
    dst := HEADER;
    var b := B64Encode(src);
    dst := dst + b;
    if dst[|dst| - 1] != NEWLINE {
      dst := dst + [NEWLINE];
    }
    var sum := ChecksumLetters(crc);
    dst := dst + [PAD] + sum + FOOTER;
  }

  /** The checksum as four characters, filled in from the last. */
  method ChecksumLetters(crc: int) returns (t: seq<Byte>)
    requires 0 <= crc < 0x100_0000
    ensures t == Four(crc)
  {
    hide Letter;
    var c := crc;
    t := [Letter(c % 64)];
    c := c / 64;
    t := [Letter(c % 64)] + t;
    c := c / 64;
    t := [Letter(c % 64)] + t;
    c := c / 64;
    t := [Letter(c % 64)] + t;
  }

  const UNSIGNED: int := 0x1_0000_0000

  /** b64_enc_len, in 32-bit unsigned arithmetic. */
  function EncLen(n: int): (e: int)
    requires 0 <= n < UNSIGNED
  {
    ((n + 2) * 4 % UNSIGNED / 3 + n / 57) % UNSIGNED
  }

  /** pgp_armor_enc_len. */
  function ArmorEncLen(n: int): (e: int)
    requires 0 <= n < UNSIGNED
  {
    (EncLen(n) + |HEADER| + |FOOTER| + 16) % UNSIGNED
  }

  lemma ArmoredLength(x: seq<Byte>)
    ensures |Encode(x)| + 61 <= |Armored(x)| <= |Encode(x)| + 62
  {
    hide Encode, Checksum, Four;
    assert |HEADER| == 29 && |FOOTER| == 27;
  }

  /** The estimate covers the text exactly as long as its arithmetic does not wrap: below 2^30 - 2 bytes. */
  lemma SizeBound(x: seq<Byte>)
    requires |x| < UNSIGNED
    ensures |Armored(x)| <= ArmorEncLen(|x|) <==> |x| < 0x4000_0000 - 2
  {
    hide Armored, Encode, ArmorEncLen;
    ArmoredLength(x);
    EncodeLength(x);
    if |x| < 0x4000_0000 - 2 { Unwrapped(|x|); } else { Wrapped(|x|); }
  }

  lemma Unwrapped(n: int)
    requires 0 <= n < 0x4000_0000 - 2
    ensures ArmorEncLen(n) >= 4 * ((n + 2) / 3) + n / 57 + 62
  {
    assert (n + 2) * 4 % UNSIGNED == (n + 2) * 4;
    assert 4 * ((n + 2) / 3) <= (n + 2) * 4 / 3;
    assert EncLen(n) == (n + 2) * 4 / 3 + n / 57;
  }

  lemma Wrapped(n: int)
    requires 0x4000_0000 - 2 <= n < UNSIGNED
    ensures ArmorEncLen(n) < 4 * ((n + 2) / 3) + n / 57 + 61
  {
    var w := (n + 2) * 4 % UNSIGNED;
    assert w <= (n + 2) * 4 - UNSIGNED;
    assert w / 3 <= ((n + 2) * 4 - UNSIGNED) / 3;
    assert ArmorEncLen(n) <= w / 3 + n / 57 + 72;
  }

  const BEGIN_LINE: string := "-----BEGIN PGP MESSAGE-----\n\n"
  const END_LINE: string := "\n-----END PGP MESSAGE-----\n"

  /** The bytes before the text are that line. */
  lemma HeaderText(i: nat)
    requires i < |HEADER|
    ensures |BEGIN_LINE| == |HEADER| && HEADER[i] as int == BEGIN_LINE[i] as int
  {}

  /** The bytes after the checksum are that one. */
  lemma FooterText(i: nat)
    requires i < |FOOTER|
    ensures |END_LINE| == |FOOTER| && FOOTER[i] as int == END_LINE[i] as int
  {}
}
