/** New-format packet lengths of section 4.2.2 of RFC 4880. */
module PacketLength {
  import opened PowersOfTwo

  newtype Byte = x: int | 0 <= x < 256

  const MAX_CHUNK: int := 16 * 1024 * 1024

  /** The kinds of packet: a length announces the first two; the third runs to the end of the source. */
  datatype Kind = Normal | Stream | Context

  /** render_newlen, for the lengths a C int holds. */
  function Render(len: nat): (h: seq<Byte>)
    requires len < 0x8000_0000
    ensures 1 <= |h| <= 5
  {
    if len <= 191 then [len as Byte]
    else if len <= 8383 then [((len - 192) / 256 + 192) as Byte, ((len - 192) % 256) as Byte]
    else [255, (len / 0x100_0000) as Byte, (len / 0x1_0000 % 256) as Byte,
      (len / 256 % 256) as Byte, (len % 256) as Byte]
  }

  /** What a length header at the start of s means. */
  datatype Parsed = Header(kind: Kind, len: nat, used: nat) | Short | Weird

  /** The four-byte length, big end first. */
  function Long(s: seq<Byte>): (v: int)
    requires |s| >= 5
  {
    0x100_0000 * s[1] as int + 0x1_0000 * s[2] as int + 0x100 * s[3] as int + s[4] as int
  }

  function Parse(s: seq<Byte>): (r: Parsed)
    ensures r.Header? ==>
      && 1 <= r.used <= |s| && r.len <= MAX_CHUNK
      && r.kind != Context && (r.kind == Stream ==> r.len >= 1)
  {
    if s == [] then Short
    else
      var b := s[0] as int;
      if b <= 191 then Header(Normal, b, 1)
      else if b <= 223 then
        if |s| < 2 then Short else Header(Normal, (b - 192) * 256 + 192 + s[1] as int, 2)
      else if b == 255 then
        if |s| < 5 then Short
        else if Long(s) > MAX_CHUNK then Weird else Header(Normal, Long(s), 5)
      else
        if Exp2(b % 32) > MAX_CHUNK then Weird else Header(Stream, Exp2(b % 32), 1)
  }

  /** A rendered length is read back, whatever follows. */
  lemma ParseRender(len: nat, rest: seq<Byte>)
    requires len <= MAX_CHUNK
    ensures Parse(Render(len) + rest) == Header(Normal, len, |Render(len)|)
  {
    var s := Render(len) + rest;
    if len > 8383 {
      assert Long(s) == len by { FourBytes(len); }
    }
  }

  lemma FourBytes(len: nat)
    requires len < 0x8000_0000
    ensures len ==
      0x100_0000 * (len / 0x100_0000) + 0x1_0000 * (len / 0x1_0000 % 256) + 0x100 * (len / 256 % 256) + len % 256
  {}

  /** How long a header is, by the length it announces. */
  lemma RenderSize(len: nat)
    requires len < 0x8000_0000
    ensures |Render(len)| == 1 <==> len <= 191
    ensures |Render(len)| == 2 <==> 192 <= len <= 8383
    ensures |Render(len)| == 5 <==> 8384 <= len
  {}

  /** One octet below 192 is the length itself. */
  lemma OneOctet(s: seq<Byte>)
    requires s != [] && s[0] < 192
    ensures Parse(s) == Header(Normal, s[0] as int, 1)
  {}

  /** Two octets from 192 on cover exactly the lengths that one octet does not, in order and without gaps. */
  lemma TwoOctets(s: seq<Byte>)
    requires |s| >= 2 && 192 <= s[0] <= 223
    ensures var r := Parse(s);
      r.Header? && r.kind == Normal && r.used == 2 && 192 <= r.len <= 8383
    ensures s[0] == 192 && s[1] == 0 ==> Parse(s).len == 192
    ensures s[0] == 223 && s[1] == 255 ==> Parse(s).len == 8383
  {}

  /** The next header of two octets announces the next length. */
  lemma TwoOctetsNext(a: Byte, b: Byte, rest: seq<Byte>)
    requires 192 <= a <= 223 && (a < 223 || b < 255)
    ensures var next := if b < 255 then [a, b + 1] else [a + 1, 0];
      && Parse(next + rest).Header? && Parse([a, b] + rest).Header?
      && Parse(next + rest).len == Parse([a, b] + rest).len + 1
  {}

  /** A header with nothing after it. */
  predicate Announces(h: seq<Byte>, len: nat) {
    Parse(h) == Header(Normal, len, |h|)
  }

  /** No length has two different headers of one or two octets. */
  lemma ShortHeadersDiffer(h: seq<Byte>, h': seq<Byte>, len: nat)
    requires |h| <= 2 && |h'| <= 2 && Announces(h, len) && Announces(h', len)
    ensures h == h'
  {
    assert h == if |h| == 1 then [h[0]] else [h[0], h[1]];
    assert h' == if |h'| == 1 then [h'[0]] else [h'[0], h'[1]];
  }

  /** Five octets: 255 and the length in four, high octet first, up to the limit. */
  lemma FiveOctets(s: seq<Byte>)
    requires |s| >= 5 && s[0] == 255
    ensures var v := ((s[1] as int * 256 + s[2] as int) * 256 + s[3] as int) * 256 + s[4] as int;
      Parse(s) == if v > MAX_CHUNK then Weird else Header(Normal, v, 5)
  {}

  /** One octet from 224 to 254 announces a part of the body, of a power of two octets. */
  lemma PartialOctet(s: seq<Byte>)
    requires s != [] && 224 <= s[0] < 255
    ensures var k := s[0] as int - 224;
      Parse(s) == if Exp2(k) > MAX_CHUNK then Weird else Header(Stream, Exp2(k), 1)
  {
    hide Exp2;
    assert s[0] as int % 32 == s[0] as int - 224;
  }

  /** The examples of section 4.2.3 of RFC 4880, and the first length that needs two octets to say 200. */
  lemma HeaderExamples()
    ensures Render(100) == [0x64] && Render(1723) == [0xC5, 0xFB] && Render(100000) == [0xFF, 0x00, 0x01, 0x86, 0xA0]
    ensures Render(200) == [0xC0, 0x08]
  {}
}
