/** The base64 of the armor code: b64_encode with its line breaks, and b64_decode. */
module Base64 {
  import opened PacketLength

  const NEWLINE: Byte := 10
  const PAD: Byte := 61

  /** _base64[v]. */
  function Letter(v: int): (c: Byte)
    requires 0 <= v < 64
  {
    (if v < 26 then 65 + v else if v < 52 then 71 + v else if v < 62 then v - 4 else if v == 62 then 43 else 47) as Byte
  }

  /** What a character means to the decoder. */
  datatype Meaning = Six(v: int) | Padding | Space | Junk

  function Read(c: Byte): (m: Meaning)
    ensures m.Six? ==> 0 <= m.v < 64
  {
    if 65 <= c <= 90 then Six(c as int - 65)
    else if 97 <= c <= 122 then Six(c as int - 97 + 26)
    else if 48 <= c <= 57 then Six(c as int - 48 + 52)
    else if c == 43 then Six(62)
    else if c == 47 then Six(63)
    else if c == PAD then Padding
    else if c == 32 || c == 9 || c == NEWLINE || c == 13 then Space
    else Junk
  }

  lemma ReadLetter(v: int)
    requires 0 <= v < 64
    ensures Read(Letter(v)) == Six(v) && Letter(v) != 45 && Letter(v) != PAD && Letter(v) >= 43
  {}

  /** Four characters from 24 bits. */
  function Four(buf: int): (g: seq<Byte>)
    requires 0 <= buf < 0x100_0000
    ensures |g| == 4
  {
    [Letter(buf / 0x4_0000 % 64), Letter(buf / 0x1000 % 64), Letter(buf / 64 % 64), Letter(buf % 64)]
  }

  function Pack(a: Byte, b: Byte, c: Byte): (buf: int)
    ensures 0 <= buf < 0x100_0000
  {
    a as int * 0x1_0000 + b as int * 0x100 + c as int
  }

  /** The characters of the first g groups of three bytes, with a line break after every 19th. */
  function Text(s: seq<Byte>, g: nat): (t: seq<Byte>)
    requires 3 * g <= |s|
  {
    if g == 0 then []
    else Text(s, g - 1) + Four(Pack(s[3 * g - 3], s[3 * g - 2], s[3 * g - 1])) + if g % 19 == 0 then [NEWLINE] else []
  }

  /** The one or two bytes left over, padded to a group. */
  function Tail(s: seq<Byte>): (t: seq<Byte>)
    requires |s| < 3
  {
    if s == [] then []
    else if |s| == 1 then Four(Pack(s[0], 0, 0))[..2] + [PAD, PAD]
    else Four(Pack(s[0], s[1], 0))[..3] + [PAD]
  }

  function Encode(s: seq<Byte>): (t: seq<Byte>) {
    var g := |s| / 3;
    Text(s, g) + Tail(s[3 * g..])
  }

  lemma {:induction false} TextLength(s: seq<Byte>, g: nat)
    requires 3 * g <= |s|
    ensures |Text(s, g)| == 4 * g + g / 19
  {
    hide Four, Pack;
    if g > 0 { TextLength(s, g - 1); }
  }

  /** Four characters for every three bytes begun, and a line break for every 57. */
  lemma EncodeLength(s: seq<Byte>)
    ensures |Encode(s)| == 4 * ((|s| + 2) / 3) + |s| / 57
  {
    hide Text, Four, Pack;
    TextLength(s, |s| / 3);
    LinesOf(|s|);
  }

  lemma LinesOf(n: nat)
    ensures n / 3 / 19 == n / 57
  {
    var q := n / 57;
    var r := n - 57 * q;
    assert n / 3 == 19 * q + r / 3 && 0 <= r / 3 < 19;
  }

  /** Pending bytes in the high places of the buffer. */
  function Held(s: seq<Byte>): (buf: int)
    requires |s| < 3
    ensures 0 <= buf < 0x100_0000
  {
    if s == [] then 0 else if |s| == 1 then Pack(s[0], 0, 0) else Pack(s[0], s[1], 0)
  }

  /** Inside the loop of b64_encode: the first g groups are out, the bytes up to i are in buf. */
  ghost predicate Encoding(src: seq<Byte>, i: nat, g: nat, pos: int, buf: int, out: seq<Byte>, lend: int) {
    && 3 * g <= i <= |src| && i - 3 * g < 3 && pos == 2 - (i - 3 * g)
    && out == Text(src, g) && lend == 77 * (g / 19) + 76 && buf == Held(src[3 * g..i])
  }

  /** b64_encode. */
  method B64Encode(src: seq<Byte>) returns (out: seq<Byte>)
    ensures out == Encode(src)
  {
    hide Text, Four, Pack, Held;
    out := [];
    TextNone(src);
    var lend, pos, buf, i := 76, 2, 0, 0;
    ghost var g := 0;
    while i < |src|
      invariant 0 <= i <= |src| && 0 <= g && Encoding(src, i, g, pos, buf, out, lend)
    {
      buf := buf + src[i] as int * (if pos == 2 then 0x1_0000 else if pos == 1 then 0x100 else 1);
      pos := pos - 1;
      HeldNext(src[3 * g..i], src[i]);
      assert src[3 * g..i + 1] == src[3 * g..i] + [src[i]];
      i := i + 1;
      if pos < 0 {
        GroupDone(src, g, out, lend);
        out := out + Four(buf);
        pos, buf := 2, 0;
        g := g + 1;
        HeldNone(src[3 * g..i]);
      } else {
        ShortLine(src, g);
      }
      if |out| >= lend {
        out := out + [NEWLINE];
        lend := |out| + 76;
      }
    }
    assert g == |src| / 3 && src[3 * g..i] == src[3 * g..];
    Padded(src[3 * g..]);
    if pos != 2 {
      out := out + (Four(buf)[..2] + [if pos == 0 then Four(buf)[2] else PAD] + [PAD]);
    }
  }

  lemma TextNone(s: seq<Byte>)
    ensures Text(s, 0) == [] && Held(s[0..0]) == 0
  {}

  lemma HeldNone(s: seq<Byte>)
    requires s == []
    ensures Held(s) == 0
  {}

  lemma HeldNext(s: seq<Byte>, b: Byte)
    requires |s| < 3
    ensures |s| < 2 ==> Held(s + [b]) == Held(s) + b as int * (if s == [] then 0x1_0000 else 0x100)
    ensures |s| == 2 ==> Pack(s[0], s[1], b) == Held(s) + b as int
  {}

  lemma Padded(s: seq<Byte>)
    requires |s| < 3
    ensures Tail(s) == if s == [] then [] else Four(Held(s))[..2] + [if |s| == 2 then Four(Held(s))[2] else PAD] + [PAD]
  {
    hide Four, Pack;
  }

  /** A completed group, and whether its line is full. */
  lemma GroupDone(src: seq<Byte>, g: nat, out: seq<Byte>, lend: int)
    requires 3 * g + 3 <= |src| && out == Text(src, g) && lend == 77 * (g / 19) + 76
    ensures var t := out + Four(Pack(src[3 * g], src[3 * g + 1], src[3 * g + 2]));
      if |t| >= lend then Text(src, g + 1) == t + [NEWLINE] && |t| + 1 + 76 == 77 * ((g + 1) / 19) + 76
      else Text(src, g + 1) == t && lend == 77 * ((g + 1) / 19) + 76
  {
    hide Four, Pack;
    TextLength(src, g);
    FullLine(g);
  }

  lemma FullLine(g: nat)
    ensures 4 * g + g / 19 + 4 >= 77 * (g / 19) + 76 <==> (g + 1) % 19 == 0
    ensures (g + 1) % 19 == 0 ==> 4 * g + g / 19 + 4 + 1 + 76 == 77 * ((g + 1) / 19) + 76
    ensures (g + 1) % 19 != 0 ==> g / 19 == (g + 1) / 19
  {
    var q := g / 19;
    var r := g - 19 * q;
    assert g + 1 == if r == 18 then 19 * (q + 1) else 19 * q + (r + 1);
  }

  /** Between groups the line is never full. */
  lemma ShortLine(s: seq<Byte>, g: nat)
    requires 3 * g <= |s|
    ensures |Text(s, g)| < 77 * (g / 19) + 76
  {
    TextLength(s, g);
  }

  /** The decoder's state: characters gathered, padding seen, bytes out. */
  datatype Decoder = Decoder(buf: int, pos: int, end: int, out: seq<Byte>) | Corrupt

  /** Six more bits; after four of them up to three bytes come out. */
  function Gather(d: Decoder, v: int, end: int): (d': Decoder)
    requires d.Decoder? && 0 <= v < 64 && 0 <= d.pos < 4 && 0 <= d.buf
  {
    var buf := d.buf * 64 + v;
    if d.pos + 1 < 4 then Decoder(buf, d.pos + 1, end, d.out)
    else
      var a, b, c := (buf / 0x1_0000 % 256) as Byte, (buf / 0x100 % 256) as Byte, (buf % 256) as Byte;
      Decoder(0, 0, end, d.out + [a] + (if end == 0 || end > 1 then [b] else []) +
        (if end == 0 || end > 2 then [c] else []))
  }

  /** One character. */
  function Accept(d: Decoder, ch: Byte): (d': Decoder)
    requires d.Decoder? ==> 0 <= d.pos < 4 && 0 <= d.buf
    ensures d'.Decoder? ==> 0 <= d'.pos < 4 && 0 <= d'.buf
  {
    if d.Corrupt? then Corrupt
    else
      match Read(ch)
      case Six(v) => Gather(d, v, d.end)
      case Padding =>
        if d.end != 0 then Gather(d, 0, d.end)
        else if d.pos == 2 then Gather(d, 0, 1)
        else if d.pos == 3 then Gather(d, 0, 2)
        else Corrupt
      case Space => d
      case Junk => Corrupt
  }

  function AcceptAll(d: Decoder, s: seq<Byte>): (d': Decoder)
    requires d.Decoder? ==> 0 <= d.pos < 4 && 0 <= d.buf
    ensures d'.Decoder? ==> 0 <= d'.pos < 4 && 0 <= d'.buf
  {
    if s == [] then d else Accept(AcceptAll(d, s[..|s| - 1]), s[|s| - 1])
  }

  const FRESH: Decoder := Decoder(0, 0, 0, [])

  datatype Bytes = Ok(b: seq<Byte>) | Bad

  /** The bytes a text stands for; a half-finished group is an error. */
  function Decode(s: seq<Byte>): (r: Bytes) {
    var d := AcceptAll(FRESH, s);
    if d.Decoder? && d.pos == 0 then Ok(d.out) else Bad
  }

  /** b64_decode. */
  method B64Decode(src: seq<Byte>) returns (r: Bytes)
    ensures r == Decode(src)
  {
    hide Accept;
    var d, i := FRESH, 0;
    while i < |src| && d.Decoder?
      invariant 0 <= i <= |src| && d == AcceptAll(FRESH, src[..i])
    {
      assert src[..i + 1][..i] == src[..i];
      d := Accept(d, src[i]);
      i := i + 1;
    }
    if d.Corrupt? {
      StaysCorrupt(FRESH, src, i);
      return Bad;
    }
    assert src[..i] == src;
    r := if d.pos != 0 then Bad else Ok(d.out);
  }

  lemma {:induction false} StaysCorrupt(d: Decoder, s: seq<Byte>, i: nat)
    requires (d.Decoder? ==> 0 <= d.pos < 4 && 0 <= d.buf) && i <= |s| && AcceptAll(d, s[..i]).Corrupt?
    ensures AcceptAll(d, s).Corrupt?
    decreases |s|
  {
    if i == |s| {
      assert s[..i] == s;
    } else {
      assert s[..|s| - 1][..i] == s[..i];
      StaysCorrupt(d, s[..|s| - 1], i);
    }
  }

  lemma {:induction false} AcceptConcat(d: Decoder, a: seq<Byte>, b: seq<Byte>)
    requires d.Decoder? ==> 0 <= d.pos < 4 && 0 <= d.buf
    ensures AcceptAll(d, a + b) == AcceptAll(AcceptAll(d, a), b)
  {
    hide Accept;
    if b == [] {
      assert a + b == a;
    } else {
      assert (a + b)[..|a| + |b| - 1] == a + b[..|b| - 1];
      AcceptConcat(d, a, b[..|b| - 1]);
    }
  }

  /** Four characters between groups, one after the other. */
  lemma AcceptFour(d: Decoder, g: seq<Byte>)
    requires (d.Decoder? ==> 0 <= d.pos < 4 && 0 <= d.buf) && |g| == 4
    ensures AcceptAll(d, g) == Accept(Accept(Accept(Accept(d, g[0]), g[1]), g[2]), g[3])
  {
    hide Accept;
    assert g[..3][..2] == g[..2] && g[..2][..1] == g[..1] && g[..1][..0] == [];
    assert AcceptAll(d, g[..1]) == Accept(d, g[0]);
    assert AcceptAll(d, g[..2]) == Accept(Accept(d, g[0]), g[1]);
    assert AcceptAll(d, g[..3]) == Accept(Accept(Accept(d, g[0]), g[1]), g[2]);
  }

  lemma SixBits(buf: int)
    requires 0 <= buf < 0x100_0000
    ensures ((buf / 0x4_0000 % 64 * 64 + buf / 0x1000 % 64) * 64 + buf / 64 % 64) * 64 + buf % 64 == buf
  {
    var a := buf / 64;
    var b := a / 64;
    assert b == buf / 0x1000 && b / 64 == buf / 0x4_0000;
    assert buf == 64 * a + buf % 64 && a == 64 * b + a % 64 && b == 64 * (b / 64) + b % 64;
  }

  lemma Unpack(a: Byte, b: Byte, c: Byte)
    ensures var buf := Pack(a, b, c);
      buf / 0x1_0000 % 256 == a as int && buf / 0x100 % 256 == b as int && buf % 256 == c as int
  {}

  /** A whole group between groups. */
  lemma FourDecodes(out: seq<Byte>, buf: int)
    requires 0 <= buf < 0x100_0000
    ensures AcceptAll(Decoder(0, 0, 0, out), Four(buf)) ==
      Decoder(0, 0, 0, out + [(buf / 0x1_0000 % 256) as Byte] + [(buf / 0x100 % 256) as Byte] + [(buf % 256) as Byte])
  {
    hide AcceptAll, Letter, Read;
    var d := Decoder(0, 0, 0, out);
    AcceptFour(d, Four(buf));
    var v1, v2, v3, v4 := buf / 0x4_0000 % 64, buf / 0x1000 % 64, buf / 64 % 64, buf % 64;
    ReadLetter(v1);
    ReadLetter(v2);
    ReadLetter(v3);
    ReadLetter(v4);
    SixBits(buf);
    assert Accept(d, Letter(v1)) == Decoder(v1, 1, 0, out);
    assert Accept(Decoder(v1, 1, 0, out), Letter(v2)) == Decoder(v1 * 64 + v2, 2, 0, out);
    assert Accept(Decoder(v1 * 64 + v2, 2, 0, out), Letter(v3)) == Decoder((v1 * 64 + v2) * 64 + v3, 3, 0, out);
  }

  lemma GroupDecodes(out: seq<Byte>, a: Byte, b: Byte, c: Byte)
    ensures AcceptAll(Decoder(0, 0, 0, out), Four(Pack(a, b, c))) == Decoder(0, 0, 0, out + [a, b, c])
  {
    hide AcceptAll, Four, Pack;
    Unpack(a, b, c);
    FourDecodes(out, Pack(a, b, c));
    assert out + [a] + [b] + [c] == out + [a, b, c];
  }

  /** The last group, with its padding. */
  lemma TailDecodes(out: seq<Byte>, s: seq<Byte>)
    requires 1 <= |s| < 3
    ensures var d := AcceptAll(Decoder(0, 0, 0, out), Tail(s)); d.Decoder? && d.pos == 0 && d.out == out + s
  {
    hide AcceptAll, Letter, Read;
    var d := Decoder(0, 0, 0, out);
    var buf := Pack(s[0], if |s| == 2 then s[1] else 0, 0);
    var v1, v2, v3 := buf / 0x4_0000 % 64, buf / 0x1000 % 64, buf / 64 % 64;
    AcceptFour(d, Tail(s));
    ReadLetter(v1);
    ReadLetter(v2);
    ReadLetter(v3);
    PadMeans();
    SixBits(buf);
    Unpack(s[0], if |s| == 2 then s[1] else 0, 0);
    TailBits(s[0], if |s| == 2 then s[1] else 0);
    assert Accept(d, Letter(v1)) == Decoder(v1, 1, 0, out);
    assert Accept(Decoder(v1, 1, 0, out), Letter(v2)) == Decoder(v1 * 64 + v2, 2, 0, out);
    if |s| == 2 {
      assert Accept(Decoder(v1 * 64 + v2, 2, 0, out), Letter(v3)) == Decoder((v1 * 64 + v2) * 64 + v3, 3, 0, out);
      assert s == [s[0], s[1]];
    } else {
      assert Accept(Decoder(v1 * 64 + v2, 2, 0, out), PAD) == Decoder((v1 * 64 + v2) * 64, 3, 1, out);
      assert s == [s[0]];
    }
  }

  lemma PadMeans()
    ensures Read(PAD) == Padding && Read(NEWLINE) == Space
  {}

  /** The bits the padding stands for are zero. */
  lemma TailBits(a: Byte, b: Byte)
    ensures Pack(a, b, 0) % 64 == 0 && (b == 0 ==> Pack(a, b, 0) / 64 % 64 == 0)
  {}

  lemma {:induction false} TextDecodes(s: seq<Byte>, g: nat)
    requires 3 * g <= |s|
    ensures AcceptAll(FRESH, Text(s, g)) == Decoder(0, 0, 0, s[..3 * g])
  {
    hide AcceptAll, Four, Pack;
    if g == 0 {
      AcceptNone(FRESH);
    } else {
      var a, b, c := s[3 * g - 3], s[3 * g - 2], s[3 * g - 1];
      var t := Text(s, g - 1);
      TextDecodes(s, g - 1);
      AcceptConcat(FRESH, t, Four(Pack(a, b, c)));
      GroupDecodes(s[..3 * g - 3], a, b, c);
      assert s[..3 * g] == s[..3 * g - 3] + [a, b, c];
      var u := t + Four(Pack(a, b, c));
      AcceptNewline(FRESH, u);
      assert u + [] == u;
    }
  }

  lemma AcceptNone(d: Decoder)
    requires d.Decoder? ==> 0 <= d.pos < 4 && 0 <= d.buf
    ensures AcceptAll(d, []) == d
  {}

  /** A line break changes nothing. */
  lemma AcceptNewline(d: Decoder, s: seq<Byte>)
    requires d.Decoder? ==> 0 <= d.pos < 4 && 0 <= d.buf
    ensures AcceptAll(d, s + [NEWLINE]) == AcceptAll(d, s)
  {
    hide Gather, Read;
    PadMeans();
    assert (s + [NEWLINE])[..|s|] == s;
  }

  /** Decoding undoes encoding, for every length. */
  lemma DecodeEncode(s: seq<Byte>)
    ensures Decode(Encode(s)) == Ok(s)
  {
    hide AcceptAll, Text, Tail;
    var g := |s| / 3;
    TextDecodes(s, g);
    AcceptConcat(FRESH, Text(s, g), Tail(s[3 * g..]));
    assert s == s[..3 * g] + s[3 * g..];
    if |s[3 * g..]| > 0 {
      TailDecodes(s[..3 * g], s[3 * g..]);
    } else {
      TailNone();
      AcceptNone(Decoder(0, 0, 0, s[..3 * g]));
    }
  }

  lemma TailNone()
    ensures Tail([]) == []
  {}

  /** The characters that occur: never a dash. */
  ghost predicate Clean(t: seq<Byte>) {
    forall i :: 0 <= i < |t| ==> t[i] != 45
  }

  lemma FourClean(buf: int)
    requires 0 <= buf < 0x100_0000
    ensures Clean(Four(buf)) && forall i :: 0 <= i < 4 ==> Four(buf)[i] != PAD
  {
    hide Letter;
    ReadLetter(buf / 0x4_0000 % 64);
    ReadLetter(buf / 0x1000 % 64);
    ReadLetter(buf / 64 % 64);
    ReadLetter(buf % 64);
  }

  lemma {:induction false} TextClean(s: seq<Byte>, g: nat)
    requires 3 * g <= |s|
    ensures Clean(Text(s, g))
  {
    hide Four, Pack;
    if g > 0 {
      TextClean(s, g - 1);
      FourClean(Pack(s[3 * g - 3], s[3 * g - 2], s[3 * g - 1]));
    }
  }

  lemma EncodeClean(s: seq<Byte>)
    ensures Clean(Encode(s))
  {
    hide Text, Four, Pack;
    var g := |s| / 3;
    var t := s[3 * g..];
    TextClean(s, g);
    if |t| == 1 { FourClean(Pack(t[0], 0, 0)); }
    if |t| == 2 { FourClean(Pack(t[0], t[1], 0)); }
  }

  const UPPER: string := "ABCDEFGHIJKLMNOPQRSTUVWXYZ"
  const LOWER: string := "abcdefghijklmnopqrstuvwxyz"
  const OTHER: string := "0123456789+/"
  const ALPHABET: string := UPPER + LOWER + OTHER

  /** The letters are those of the alphabet, in its order. */
  lemma LetterIs(v: int)
    requires 0 <= v < 64
    ensures |ALPHABET| == 64 && Letter(v) as int == ALPHABET[v] as int
  {
    hide Letter;
    if v < 26 {
      UpperIs(v);
    } else if v < 52 {
      LowerIs(v - 26);
    } else {
      OtherIs(v - 52);
    }
  }

  lemma UpperIs(i: nat)
    requires i < 26
    ensures Letter(i) as int == UPPER[i] as int
  {}

  lemma LowerIs(i: nat)
    requires i < 26
    ensures Letter(26 + i) as int == LOWER[i] as int
  {}

  lemma OtherIs(i: nat)
    requires i < 12
    ensures Letter(52 + i) as int == OTHER[i] as int
  {}

  /** Four letters stand for four numbers below 64, and those for the 24 bits. */
  lemma FourNumbers(buf: int)
    requires 0 <= buf < 0x100_0000
    ensures var g := Four(buf);
      && Read(g[0]).Six? && Read(g[1]).Six? && Read(g[2]).Six? && Read(g[3]).Six?
      && buf == 0x4_0000 * Read(g[0]).v + 0x1000 * Read(g[1]).v + 64 * Read(g[2]).v + Read(g[3]).v
  {
    hide Letter, Read;
    ReadLetter(buf / 0x4_0000 % 64);
    ReadLetter(buf / 0x1000 % 64);
    ReadLetter(buf / 64 % 64);
    ReadLetter(buf % 64);
    SixBits(buf);
  }

  /** Blanks, tabs and line ends anywhere in a text change nothing. */
  lemma SpacesIgnored(a: seq<Byte>, sp: Byte, b: seq<Byte>)
    requires sp == 32 || sp == 9 || sp == NEWLINE || sp == 13
    ensures Decode(a + [sp] + b) == Decode(a + b)
  {
    hide AcceptAll;
    AcceptConcat(FRESH, a + [sp], b);
    AcceptConcat(FRESH, a, b);
    AcceptSpace(a, sp);
  }

  lemma AcceptSpace(a: seq<Byte>, sp: Byte)
    requires Read(sp) == Space
    ensures AcceptAll(FRESH, a + [sp]) == AcceptAll(FRESH, a)
  {
    hide Gather, Read;
    assert (a + [sp])[..|a|] == a;
  }

  /** Lines are 76 characters long. */
  lemma {:induction false} LineBreaks(s: seq<Byte>, j: nat)
    requires 57 * j + 57 <= |s|
    ensures 77 * j + 76 < |Encode(s)| && Encode(s)[77 * j + 76] == NEWLINE
  {
    hide Tail;
    BreakInText(s, |s| / 3, j);
  }

  lemma {:induction false} BreakInText(s: seq<Byte>, g: nat, j: nat)
    requires 3 * g <= |s| && 19 * j + 19 <= g
    ensures 77 * j + 76 < |Text(s, g)| && Text(s, g)[77 * j + 76] == NEWLINE
  {
    hide Four, Pack;
    TextLength(s, g);
    if g == 19 * j + 19 {
      TextLength(s, g - 1);
      assert g % 19 == 0;
    } else {
      TextLength(s, g - 1);
      BreakInText(s, g - 1, j);
    }
  }

  /** The bytes of "Man", and what is left of it with one or two bytes missing. */
  lemma Examples()
    ensures Encode([77, 97, 110]) == [84, 87, 70, 117]
    ensures Encode([77, 97]) == [84, 87, 69, 61]
    ensures Encode([77]) == [84, 81, 61, 61]
  {
    ThreeBytesOut();
    TwoBytesOut();
    OneByteOut();
  }

  lemma ThreeBytesOut()
    ensures Encode([77, 97, 110]) == [84, 87, 70, 117]
  {
    var s: seq<Byte> := [77, 97, 110];
    assert s[3..] == [] && Text(s, 0) == [];
  }

  lemma TwoBytesOut()
    ensures Encode([77, 97]) == [84, 87, 69, 61]
  {
    var s: seq<Byte> := [77, 97];
    assert s[0..] == s && Text(s, 0) == [];
  }

  lemma OneByteOut()
    ensures Encode([77]) == [84, 81, 61, 61]
  {
    var s: seq<Byte> := [77];
    assert s[0..] == s && Text(s, 0) == [];
  }
}
