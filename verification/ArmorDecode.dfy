/** Reading armor: find_str, find_header and pgp_armor_decode, and the round trip. */
module ArmorDecode {
  import opened PacketLength
  import opened Base64
  import opened Armor

  datatype Found = At(i: nat) | Missing

  predicate OccursAt(s: seq<Byte>, t: seq<Byte>, p: nat) {
    p + |t| <= |s| && s[p..p + |t|] == t
  }

  /** The first place from p on where t occurs. */
  function First(s: seq<Byte>, t: seq<Byte>, p: nat): (f: Found)
    ensures f.At? ==> p <= f.i && OccursAt(s, t, f.i)
    decreases |s| - p
  {
    if p + |t| > |s| then Missing else if OccursAt(s, t, p) then At(p) else First(s, t, p + 1)
  }

  /** Places whose first character does not match can be passed over. */
  lemma {:induction false} FirstSkips(s: seq<Byte>, t: seq<Byte>, p: nat, q: nat)
    requires p <= q <= |s| && |t| > 0 && forall i :: p <= i < q ==> s[i] != t[0]
    ensures First(s, t, p) == First(s, t, q)
    decreases q - p
  {
    if p < q {
      FirstSkips(s, t, p + 1, q);
      assert p + |t| <= |s| ==> s[p..p + |t|][0] == s[p];
    }
  }

  /** memchr. */
  method FindByte(s: seq<Byte>, c: Byte, from: nat, end: nat) returns (f: Found)
    requires from <= end <= |s|
    ensures if f.At? then from <= f.i < end && s[f.i] == c && c !in s[from..f.i] else c !in s[from..end]
  {
    var p := from;
    while p < end
      invariant from <= p <= end && c !in s[from..p]
    {
      if s[p] == c { return At(p); }
      p := p + 1;
    }
    f := Missing;
  }

  lemma FirstOne(s: seq<Byte>, t: seq<Byte>, p: nat)
    ensures First(s, t, p) == if p + |t| > |s| then Missing
      else if s[p..p + |t|] == t then At(p) else First(s, t, p + 1)
  {}

  /** find_str: the first occurrence of t from p on. */
  method FindStr(s: seq<Byte>, from: nat, t: seq<Byte>) returns (f: Found)
    requires from <= |s| && |t| > 0
    ensures f == First(s, t, from)
  {
    hide First;
    FirstOne(s, t, from);
    FirstOne(s, t, |s|);
    if |s| - from < |t| { return Missing; }
    var p := from;
    while p < |s|
      invariant from <= p <= |s| && First(s, t, from) == First(s, t, p)
    {
      var c := FindByte(s, t[0], p, |s|);
      if c.Missing? {
        Passed(s, t[0], p, |s|);
        FirstSkips(s, t, p, |s|);
        return Missing;
      }
      Passed(s, t[0], p, c.i);
      FirstSkips(s, t, p, c.i);
      p := c.i;
      FirstOne(s, t, p);
      if p + |t| > |s| { return Missing; }
      if s[p..p + |t|] == t { return At(p); }
      p := p + 1;
    }
    f := Missing;
  }

  lemma Passed(s: seq<Byte>, c: Byte, p: nat, q: nat)
    requires p <= q <= |s| && c !in s[p..q]
    ensures forall i :: p <= i < q ==> s[i] != c
  {
    forall i | p <= i < q ensures s[i] != c {
      assert s[i] == s[p..q][i - p];
    }
  }

  /** The first occurrence that starts a line. */
  function FirstLine(s: seq<Byte>, sep: seq<Byte>, p: nat): (f: Found)
    requires |sep| > 0
    ensures f.At? ==> f.i + |sep| <= |s| && s[f.i] == sep[0]
    decreases |s| - p
  {
    match First(s, sep, p)
    case Missing => Missing
    case At(q) =>
      assert s[q] == s[q..q + |sep|][0];
      if q == 0 || s[q - 1] == NEWLINE then At(q) else FirstLine(s, sep, q + |sep|)
  }

  /** Where the text after the separator ends: at a dash, before any control character. */
  function TextEnd(s: seq<Byte>, p: nat): (f: Found)
    requires p <= |s|
    ensures f.At? ==> p <= f.i <= |s|
    decreases |s| - p
  {
    if p == |s| || s[p] == DASH then At(p) else if s[p] < 32 then Missing else TextEnd(s, p + 1)
  }

  /** Past the closing dashes and the end of the line. */
  function LineEnd(s: seq<Byte>, p: nat): (f: Found)
    requires p <= |s|
    ensures f.At? ==> p <= f.i <= |s|
  {
    if !OccursAt(s, DASHES, p) then Missing
    else
      var e := p + 5;
      if e == |s| then At(e)
      else if s[e] == NEWLINE then At(e + 1)
      else if s[e] != RETURN then Missing
      else if e + 1 < |s| && s[e + 1] == NEWLINE then At(e + 2)
      else At(e + 1)
  }

  datatype Line = Line(start: nat, next: nat) | NoLine

  /** A header line: where it starts and where the next line starts. */
  function HeaderLine(s: seq<Byte>, sep: seq<Byte>): (l: Line)
    requires |sep| > 0
    ensures l.Line? ==> l.start + |sep| <= l.next <= |s| && s[l.start] == sep[0]
  {
    match FirstLine(s, sep, 0)
    case Missing => NoLine
    case At(q) =>
      match TextEnd(s, q + |sep|)
      case Missing => NoLine
      case At(e) =>
        match LineEnd(s, e)
        case Missing => NoLine
        case At(n) => Line(q, n)
  }

  /** The search of find_header. */
  method FindLine(s: seq<Byte>, sep: seq<Byte>) returns (f: Found)
    requires |sep| > 0
    ensures f == FirstLine(s, sep, 0)
  {
    hide First;
    var p := 0;
    while true
      invariant 0 <= p <= |s| && FirstLine(s, sep, 0) == FirstLine(s, sep, p)
      decreases |s| - p
    {
      f := FindStr(s, p, sep);
      if f.Missing? || f.i == 0 || s[f.i - 1] == NEWLINE { return; }
      p := f.i + |sep|;
    }
  }

  /** The header text. */
  method SkipText(s: seq<Byte>, from: nat) returns (f: Found)
    requires from <= |s|
    ensures f == TextEnd(s, from)
  {
    var p := from;
    while p < |s| && s[p] != DASH
      invariant from <= p <= |s| && TextEnd(s, from) == TextEnd(s, p)
    {
      if s[p] < 32 { return Missing; }
      p := p + 1;
    }
    f := At(p);
  }

  /** The closing dashes and the end of the line. */
  method SkipLineEnd(s: seq<Byte>, from: nat, sep: seq<Byte>) returns (f: Found)
    requires from <= |s| && |sep| >= 5 && sep[..5] == DASHES
    ensures f == LineEnd(s, from)
  {
    var p := from;
    if |s| - p < 5 || s[p..p + 5] != sep[..5] { return Missing; }
    p := p + 5;
    if p < |s| {
      if s[p] != NEWLINE && s[p] != RETURN { return Missing; }
      if s[p] == RETURN { p := p + 1; }
      if p < |s| && s[p] == NEWLINE { p := p + 1; }
    }
    f := At(p);
  }

  /** find_header. */
  method FindHeader(s: seq<Byte>, sep: seq<Byte>) returns (l: Line)
    requires |sep| >= 5 && sep[..5] == DASHES
    ensures l == HeaderLine(s, sep)
  {
    hide FirstLine, TextEnd, LineEnd;
    var q := FindLine(s, sep);
    if q.Missing? { return NoLine; }
    var e := SkipText(s, q.i + |sep|);
    if e.Missing? { return NoLine; }
    var n := SkipLineEnd(s, e.i, sep);
    if n.Missing? { return NoLine; }
    l := Line(q.i, n.i);
  }

  /** Comment lines end at an empty line, or where the armor ends. */
  function Comments(s: seq<Byte>, p: nat, end: nat): (f: Found)
    requires p <= end < |s|
    ensures f.At? ==> p <= f.i <= end && (f.i < end ==> s[f.i] == NEWLINE || s[f.i] == RETURN)
    decreases end - p
  {
    if p < end && s[p] != NEWLINE && s[p] != RETURN then
      match First(s[..end], [NEWLINE], p)
      case Missing => Missing
      case At(k) => Comments(s, k + 1, end)
    else At(p)
  }

  method SkipComments(s: seq<Byte>, from: nat, end: nat) returns (f: Found)
    requires from <= end < |s|
    ensures f == Comments(s, from, end)
  {
    hide First;
    var p := from;
    while p < end && s[p] != NEWLINE && s[p] != RETURN
      invariant from <= p <= end && Comments(s, from, end) == Comments(s, p, end)
      decreases end - p
    {
      var c := FindStr(s[..end], p, [NEWLINE]);
      if c.Missing? { return Missing; }
      p := c.i + 1;
    }
    f := At(p);
  }

  /** The last '=' from hi down to lo. */
  function LastPad(s: seq<Byte>, lo: nat, hi: int): (f: Found)
    requires lo <= hi + 1 <= |s|
    ensures f.At? ==> lo <= f.i <= hi && s[f.i] == PAD
    decreases hi + 1 - lo
  {
    if hi < lo then Missing else if s[hi] == PAD then At(hi) else LastPad(s, lo, hi - 1)
  }

  method FindPad(s: seq<Byte>, lo: nat, hi: nat) returns (f: Found)
    requires lo <= hi < |s|
    ensures f == LastPad(s, lo, hi)
  {
    var p: int := hi;
    while p >= lo
      invariant lo - 1 <= p <= hi && LastPad(s, lo, hi) == LastPad(s, lo, p)
    {
      if s[p] == PAD { return At(p); }
      p := p - 1;
    }
    f := Missing;
  }

  /** The data and checksum between offsets b and q, where q is the checksum's '='. */
  function Checked(s: seq<Byte>, b: nat, q: nat): (r: Bytes)
    requires b < q && q + 5 <= |s|
  {
    match Decode(s[q + 1..q + 5])
    case Bad => Bad
    case Ok(c) =>
      if |c| != 3 then Bad
      else
        match Decode(s[b..q - 1])
        case Bad => Bad
        case Ok(d) => if Checksum(d) == Pack(c[0], c[1], c[2]) then Ok(d) else Bad
  }

  datatype Place = Place(b: nat, q: nat) | Nowhere

  /** Where the data starts and where the checksum's '=' is, between the header and the footer at end. */
  function Locate(s: seq<Byte>, p: nat, end: nat): (r: Place)
    requires p <= end && end + 8 <= |s| && s[end] == DASH
    ensures r.Place? ==> r.b < r.q && r.q + 5 <= |s|
  {
    match Comments(s, p, end)
    case Missing => Nowhere
    case At(b) =>
      match LastPad(s, b, end)
      case Missing => Nowhere
      case At(q) => Place(b, q)
  }

  /** What an armored text stands for. */
  function Dearmored(s: seq<Byte>): (r: Bytes) {
    match HeaderLine(s, START_SEP)
    case NoLine => Bad
    case Line(_, p) =>
      match HeaderLine(s[p..], END_SEP)
      case NoLine => Bad
      case Line(e, _) =>
        assert s[p + e] == s[p..][e] == DASH;
        match Locate(s, p, p + e)
        case Nowhere => Bad
        case Place(b, q) => Checked(s, b, q)
  }

  /** pgp_armor_decode. */
  method Dearmor(src: seq<Byte>) returns (r: Bytes)
    ensures r == Dearmored(src)
  {
    hide HeaderLine, Comments, LastPad, Decode, Checksum;
    var h := FindHeader(src, START_SEP);
    if h.NoLine? { return Bad; }
    var p := h.next;
    var f := FindHeader(src[p..], END_SEP);
    if f.NoLine? { return Bad; }
    var armorEnd := p + f.start;
    assert src[armorEnd] == src[p..][f.start] == DASH;
    var b := SkipComments(src, p, armorEnd);
    if b.Missing? { return Bad; }
    var q := FindPad(src, b.i, armorEnd);
    if q.Missing? { return Bad; }
    var c := B64Decode(src[q.i + 1..q.i + 5]);
    if c.Bad? || |c.b| != 3 { return Bad; }
    r := B64Decode(src[b.i..q.i - 1]);
    if r.Ok? {
      var crc := Crc24(r.b);
      if crc != Pack(c.b[0], c.b[1], c.b[2]) { r := Bad; }
    }
  }

  lemma TextEndAt(s: seq<Byte>, p: nat, e: nat)
    requires p <= e < |s| && s[e] == DASH && forall i :: p <= i < e ==> s[i] != DASH && s[i] >= 32
    ensures TextEnd(s, p) == At(e)
    decreases e - p
  {
    if p < e { TextEndAt(s, p + 1, e); }
  }

  /** A header line that is the first thing of its kind. */
  lemma HeaderAt(s: seq<Byte>, sep: seq<Byte>, k: nat, e: nat)
    requires |sep| > 0 && sep[0] == DASH && OccursAt(s, sep, k) && (k == 0 || s[k - 1] == NEWLINE)
    requires forall i :: 0 <= i < k ==> s[i] != DASH
    requires k + |sep| <= e && e + 5 < |s| && OccursAt(s, DASHES, e) && s[e + 5] == NEWLINE
    requires s[e] == DASH && forall i :: k + |sep| <= i < e ==> s[i] != DASH && s[i] >= 32
    ensures HeaderLine(s, sep) == Line(k, e + 6)
  {
    FirstSkips(s, sep, 0, k);
    TextEndAt(s, k + |sep|, e);
  }

  lemma HeaderParts()
    ensures |HEADER| == 29 && |START_SEP| == 10 && HEADER[27] == NEWLINE && HEADER[28] == NEWLINE
    ensures HEADER[..10] == START_SEP && HEADER[22..27] == DASHES && HEADER[22] == DASH && START_SEP[0] == DASH
    ensures forall i :: 10 <= i < 22 ==> HEADER[i] != DASH && HEADER[i] >= 32
  {
    assert forall i :: 10 <= i < 22 ==> HEADER[i] == TITLE[i - 10];
  }

  /** The header of an armored text, whatever follows it. */
  lemma BeginLine(rest: seq<Byte>)
    ensures HeaderLine(HEADER + rest, START_SEP) == Line(0, 28)
  {
    hide HeaderLine;
    var s := HEADER + rest;
    HeaderParts();
    assert s[0..10] == HEADER[..10] && s[22..27] == HEADER[22..27];
    HeaderAt(s, START_SEP, 0, 22);
  }

  lemma FooterParts()
    ensures |FOOTER| == 27 && |END_SEP| == 8 && FOOTER[0] == NEWLINE && FOOTER[26] == NEWLINE
    ensures FOOTER[1..9] == END_SEP && FOOTER[21..26] == DASHES && FOOTER[21] == DASH && END_SEP[0] == DASH
    ensures forall i :: 9 <= i < 21 ==> FOOTER[i] != DASH && FOOTER[i] >= 32
  {
    assert forall i :: 9 <= i < 21 ==> FOOTER[i] == TITLE[i - 9];
  }

  /** The footer of an armored text, when no dash comes before it. */
  lemma EndLine(front: seq<Byte>)
    requires Clean(front)
    ensures HeaderLine(front + FOOTER, END_SEP) == Line(|front| + 1, |front| + 27)
  {
    hide HeaderLine;
    var s, k := front + FOOTER, |front| + 1;
    FooterParts();
    assert s[k..k + 8] == FOOTER[1..9];
    assert s[k + 20..k + 25] == FOOTER[21..26];
    assert forall i :: k + 8 <= i < k + 20 ==> s[i] == FOOTER[i - |front|];
    HeaderAt(s, END_SEP, k, k + 20);
  }

  /** Between header and checksum: the empty line, the text, and a line break at the end. */
  function Body(x: seq<Byte>): (w: seq<Byte>) {
    var t := Encode(x);
    [NEWLINE] + t + Gap([NEWLINE] + t)
  }

  /** The armored text in the parts the decoder finds. */
  lemma ArmoredParts(x: seq<Byte>)
    ensures Armored(x) == HEADER[..28] + Body(x) + [PAD] + Four(Checksum(x)) + FOOTER
    ensures Clean(Body(x)) && |Body(x)| >= 1 && Body(x)[|Body(x)| - 1] == NEWLINE && Body(x)[0] == NEWLINE
  {
    hide Encode, Checksum, Four;
    EncodeClean(x);
    var t := Encode(x);
    assert |HEADER| == 29 && HEADER[28] == NEWLINE;
    assert HEADER + t == HEADER[..28] + ([NEWLINE] + t);
    assert Gap(HEADER + t) == Gap([NEWLINE] + t);
    var b, g := [NEWLINE] + t, Gap([NEWLINE] + t);
    assert HEADER[..28] + b + g == HEADER[..28] + (b + g);
  }

  /** The region handed to the base64 decoder is the body without its last line break. */
  lemma BodyDecodes(x: seq<Byte>)
    ensures |Body(x)| >= 1 && Decode(Body(x)[..|Body(x)| - 1]) == Ok(x)
  {
    hide Encode, AcceptAll;
    var t, g := Encode(x), Gap([NEWLINE] + Encode(x));
    var w := Body(x);
    var n := |w| - 1;
    DecodeEncode(x);
    AcceptNewline(FRESH, []);
    AcceptNone(FRESH);
    AcceptConcat(FRESH, [NEWLINE], t);
    assert [] + [NEWLINE] == [NEWLINE];
    if g != [] {
      assert w[..n] == [NEWLINE] + t;
    } else {
      assert w == [NEWLINE] + t && w == w[..n] + [NEWLINE];
      AcceptNewline(FRESH, w[..n]);
    }
  }

  lemma ChecksumDecodes(c: int)
    requires 0 <= c < 0x100_0000
    ensures var r := Decode(Four(c)); r.Ok? && |r.b| == 3 && Pack(r.b[0], r.b[1], r.b[2]) == c
  {
    hide AcceptAll, Four;
    FourDecodes([], c);
    ThreeBytes(c);
  }

  lemma ThreeBytes(c: int)
    requires 0 <= c < 0x100_0000
    ensures c / 0x1_0000 % 256 * 0x1_0000 + c / 0x100 % 256 * 0x100 + c % 256 == c
  {}

  lemma {:induction false} LastPadAt(s: seq<Byte>, lo: nat, hi: nat, q: nat)
    requires lo <= q <= hi < |s| && s[q] == PAD && forall i :: q < i <= hi ==> s[i] != PAD
    ensures LastPad(s, lo, hi) == At(q)
    decreases hi
  {
    if q < hi { LastPadAt(s, lo, hi - 1, q); }
  }

  /** The decoder on a text whose parts are where they should be. */
  lemma DearmoredParts(s: seq<Byte>, b: nat, e: nat, q: nat)
    requires HeaderLine(s, START_SEP) == Line(0, b) && b < |s| && s[b] == NEWLINE
    requires HeaderLine(s[b..], END_SEP).Line? && HeaderLine(s[b..], END_SEP).start == e
    requires b < q < b + e < |s| && q + 5 <= |s| && LastPad(s, b, b + e) == At(q)
    ensures Dearmored(s) == Checked(s, b, q)
  {
    hide HeaderLine, LastPad, Checked;
  }

  /** Where the parts of an armored text are. */
  lemma Layout(x: seq<Byte>)
    ensures var s, w, c := Armored(x), Body(x), Four(Checksum(x));
      var q := 28 + |w|;
      && |s| == q + 32 && s[..29] == HEADER && s[28..] == w + [PAD] + c + FOOTER
      && s[28] == NEWLINE && s[q] == PAD && s[q + 1..q + 5] == c && s[28..q - 1] == w[..|w| - 1]
      && s[q + 5..] == FOOTER
  {
    hide Encode, Checksum, Four, Body, Armored;
    ArmoredParts(x);
    var s, w, c := Armored(x), Body(x), Four(Checksum(x));
    assert |HEADER| == 29 && |FOOTER| == 27 && HEADER[28] == NEWLINE;
    assert s == HEADER[..28] + (w + [PAD] + c + FOOTER);
  }

  /** Every byte string comes back, the empty one and whole lines included. */
  lemma RoundTrip(x: seq<Byte>)
    ensures Dearmored(Armored(x)) == Ok(x)
  {
    hide Encode, Checksum, Four, Body, Decode, HeaderLine, LastPad, Armored, Dearmored;
    Layout(x);
    ArmoredParts(x);
    var s, w, c := Armored(x), Body(x), Four(Checksum(x));
    var q := 28 + |w|;
    var front := w + [PAD] + c;
    FourClean(Checksum(x));
    assert s == HEADER + s[29..];
    BeginLine(s[29..]);
    EndLine(front);
    PadPlace(s, c, q);
    LastPadAt(s, 28, q + 6, q);
    DearmoredParts(s, 28, |front| + 1, q);
    BodyDecodes(x);
    ChecksumDecodes(Checksum(x));
  }

  lemma PadPlace(s: seq<Byte>, c: seq<Byte>, q: nat)
    requires |s| == q + 32 && |c| == 4 && s[q + 1..q + 5] == c && s[q + 5..] == FOOTER &&
      forall i :: 0 <= i < 4 ==> c[i] != PAD
    ensures forall i :: q < i <= q + 6 ==> s[i] != PAD
  {
    FooterParts();
    assert s[q + 1] == c[0] && s[q + 2] == c[1] && s[q + 3] == c[2] && s[q + 4] == c[3];
    assert s[q + 5] == FOOTER[0] && s[q + 6] == FOOTER[1] == FOOTER[1..9][0];
  }
}
