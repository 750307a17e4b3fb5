/**
 The cipher feedback mode as a law on the ciphertext (section 13.9 of RFC 4880):
 every block is the data added bit by bit to the cipher of the ciphertext before it.
 */
module CfbMeaning {
  import opened Arithmetic
  import opened Octets
  import opened CfbSpec
  import opened CfbCode

  /** The number of a bit in a byte. */
  type OctetPlace = bv4

  predicate OctetBit(b: Octet, i: OctetPlace)
    requires i < 8
  {
    (b >> i) & 1 == 1
  }

  /** Mixing is addition bit by bit. */
  lemma MixBit(k: Octet, b: Octet, i: OctetPlace)
    requires i < 8
    ensures OctetBit(Mix(k, b), i) == (OctetBit(k, i) != OctetBit(b, i))
  {
    hide Mix, OctetBit;
    MixIs(k, b);
    BitOfMix(k, b, i);
  }

  lemma MixIs(k: Octet, b: Octet)
    ensures Mix(k, b) == k ^ b
  {}

  lemma BitOfMix(k: Octet, b: Octet, i: OctetPlace)
    requires i < 8
    ensures OctetBit(k ^ b, i) == (OctetBit(k, i) != OctetBit(b, i))
  {}

  lemma MixNone(b: Octet)
    ensures Mix(0, b) == b && Mix(b, b) == 0
  {}

  /** Where block b starts: all blocks have one size, but in resync mode the second has two bytes. */
  function BlockStart(m: Mode, b: nat): (n: nat) {
    if m.resync && b >= 2 then (b - 1) * m.size + 2 else b * m.size
  }

  function BlockLen(m: Mode, b: nat): (n: nat) {
    if m.resync && b == 1 then 2 else m.size
  }

  lemma NextBlock(m: Mode, b: nat)
    requires m.size >= 4
    ensures BlockStart(m, b + 1) == BlockStart(m, b) + BlockLen(m, b)
    ensures b >= 1 ==> BlockStart(m, b) >= m.size
    ensures b == 1 ==> BlockStart(m, b) == m.size
    ensures b == 0 ==> BlockStart(m, b) == 0
  {
    if b >= 1 { AtLeastOne(b, m.size); }
    if b >= 2 { AtLeastOne(b - 1, m.size); }
  }

  lemma AtLeastOne(b: nat, size: nat)
    requires b >= 1
    ensures b * size >= size && b * size + size == (b + 1) * size && b * size - size == (b - 1) * size
  {}

  /** What is put through the cipher for block b: the bytes of ciphertext just before it, at first the iv. */
  ghost function Feedback(m: Mode, iv: seq<Octet>, c: seq<Octet>, b: nat): (f: seq<Octet>)
    requires m.size >= 4 && BlockStart(m, b) <= |c|
  {
    NextBlock(m, b);
    if b == 0 then iv else c[BlockStart(m, b) - m.size..BlockStart(m, b)]
  }

  /** The ciphertext of a run, whichever way it goes. */
  ghost function Cipher(m: Mode, s: Cfb, dec: bool, d: seq<Octet>): (c: seq<Octet>)
    requires m.Valid() && s.Fits(m)
    ensures |c| == |d|
  {
    if dec then d else RunOut(m, s, dec, d)
  }

  ghost predicate Fresh(m: Mode, s: Cfb) {
    m.Valid() && s.Fits(m) && s.pos == 0 && s.blockNo == 0
  }

  /** The state of a run where block b begins. */
  ghost predicate AtBlock(m: Mode, s: Cfb, iv: seq<Octet>, c: seq<Octet>, b: nat)
    requires m.size >= 4 && BlockStart(m, b) <= |c|
  {
    && s.Fits(m) && s.pos == 0 && s.blockNo == (if b < 5 then b else 5) && s.fr == Feedback(m, iv, c, b)
    && (b == 1 ==> m.size <= |c| && s.enc == c[..m.size])
  }

  /** The ciphertext of bytes mixed in, whichever way it goes. */
  ghost function Kept(s: Cfb, dec: bool, d: seq<Octet>): (c: seq<Octet>)
    requires s.pos + |d| <= |s.fre|
    ensures |c| == |d|
  {
    if dec then d else PutsOut(s, d)
  }

  ghost function KeptByte(s: Cfb, dec: bool, n: nat, b: Octet): (c: Octet)
    requires s.pos + n < |s.fre|
  {
    if dec then b else Mix(s.fre[s.pos + n], b)
  }

  /** It overwrites as many bytes of the block as there are. */
  lemma {:induction false} PutsEnc(s: Cfb, dec: bool, d: seq<Octet>)
    requires s.pos + |d| <= |s.fre| == |s.enc|
    ensures Puts(s, dec, d).enc == s.enc[..s.pos] + Kept(s, dec, d) + s.enc[s.pos + |d|..]
  {
    hide Kept, KeptByte, Puts;
    if d == [] {
      PutsBefore(s, dec);
    } else {
      var n := |d| - 1;
      PutsEnc(s, dec, d[..n]);
      PutsStep(s, dec, d);
      KeptMore(s, dec, d);
      Replaced(s.enc, s.pos, Kept(s, dec, d[..n]), Puts(s, dec, d[..n]).enc, KeptByte(s, dec, n, d[n]));
    }
  }

  lemma PutsBefore(s: Cfb, dec: bool)
    requires s.pos <= |s.fre| == |s.enc|
    ensures Puts(s, dec, []) == s && s.enc == s.enc[..s.pos] + Kept(s, dec, []) + s.enc[s.pos..]
  {}

  lemma PutsStep(s: Cfb, dec: bool, d: seq<Octet>)
    requires s.pos + |d| <= |s.fre| == |s.enc| && d != []
    ensures var n := |d| - 1; var u := Puts(s, dec, d[..n]);
      s.pos + n < |u.enc| && Puts(s, dec, d).enc == u.enc[s.pos + n := KeptByte(s, dec, n, d[n])]
  {
    hide Mix, Put, Puts;
    var n := |d| - 1;
    PutsUnfold(s, dec, d);
    PutEnc(Puts(s, dec, d[..n]), dec, d[n]);
  }

  lemma KeptMore(s: Cfb, dec: bool, d: seq<Octet>)
    requires s.pos + |d| <= |s.fre| && d != []
    ensures var n := |d| - 1; Kept(s, dec, d) == Kept(s, dec, d[..n]) + [KeptByte(s, dec, n, d[n])]
  {
    hide Mix;
  }

  lemma Replaced<T>(enc: seq<T>, k: nat, mid: seq<T>, enc': seq<T>, v: T)
    requires k + |mid| < |enc| && enc' == enc[..k] + mid + enc[k + |mid|..]
    ensures enc'[k + |mid| := v] == enc[..k] + (mid + [v]) + enc[k + |mid| + 1..]
  {}

  lemma Joined2<T>(c: seq<T>, i: nat, j: nat, k: nat)
    requires i <= j <= k <= |c|
    ensures c[i..j] + c[j..k] == c[i..k]
  {}

  /** The beginning of a run is the run of the beginning. */
  lemma CipherPrefix(m: Mode, s: Cfb, dec: bool, d: seq<Octet>, n: nat)
    requires m.Valid() && s.Fits(m) && n <= |d|
    ensures RunOut(m, s, dec, d)[..n] == RunOut(m, s, dec, d[..n])
    ensures RunOut(m, s, dec, d)[n..] == RunOut(m, Run(m, s, dec, d[..n]), dec, d[n..])
  {
    hide RunOut, Run;
    assert d == d[..n] + d[n..];
    RunConcat(m, s, dec, d[..n], d[n..]);
  }

  /** Part of a block, from its beginning on: the bytes come out mixed with the cipher of the feedback. */
  lemma PartOut(m: Mode, s: Cfb, dec: bool, d: seq<Octet>, b: nat, iv: seq<Octet>, c: seq<Octet>)
    requires m.Valid() && BlockStart(m, b) <= |c| && AtBlock(m, s, iv, c, b) && 1 <= |d| <= BlockLen(m, b)
    ensures |m.cipher(s.fr)| == m.size && Refresh(m, s).fre == m.cipher(s.fr) && Refresh(m, s).pos == 0
    ensures |Refresh(m, s).enc| == |Refresh(m, s).fre| == m.size && |d| <= m.size
    ensures Run(m, s, dec, d) == Wrap(m, Puts(Refresh(m, s), dec, d))
    ensures RunOut(m, s, dec, d) == PutsOut(Refresh(m, s), d)
  {
    hide Mix, Run, RunOut, Wrap, Puts, PutsOut;
    RunStretch(m, s, dec, d);
  }

  /** A whole block leads to the beginning of the next. */
  lemma WholeBlock(m: Mode, s: Cfb, dec: bool, d: seq<Octet>, b: nat, iv: seq<Octet>, c: seq<Octet>)
    requires m.Valid() && BlockStart(m, b + 1) <= |c| && BlockStart(m, b) <= |c| && AtBlock(m, s, iv, c, b)
    requires |d| == BlockLen(m, b)
    requires BlockStart(m, b) <= BlockStart(m, b + 1)
    requires c[BlockStart(m, b)..BlockStart(m, b + 1)] == if dec then d else RunOut(m, s, dec, d)
    ensures AtBlock(m, Run(m, s, dec, d), iv, c, b + 1)
  {
    hide Mix, RunOut, Run, Puts, PutsOut, BlockStart, Wrap, Refresh, AtBlock, Feedback;
    NextBlock(m, b);
    NextBlock(m, b + 1);
    PartOut(m, s, dec, d, b, iv, c);
    AtBlockFeeds(m, s, iv, c, b);
    var lo, hi := BlockStart(m, b), BlockStart(m, b + 1);
    var t := Refresh(m, s);
    RefreshFields(m, s);
    PutsEnc(t, dec, d);
    var u := Puts(t, dec, d);
    WrapFields(m, u, b);
    NextEnc(t.enc, d, c[lo..hi], u.enc);
    NextFeedback(m, iv, c, b, s.enc, u.enc);
    BlockBegins(m, Run(m, s, dec, d), iv, c, b + 1);
  }

  /** The feedback after block b, from the bytes kept of it and the block before. */
  lemma NextFeedback(m: Mode, iv: seq<Octet>, c: seq<Octet>, b: nat, enc: seq<Octet>, enc': seq<Octet>)
    requires m.size >= 4 && |enc| == m.size
    requires BlockStart(m, b) <= BlockStart(m, b + 1) <= |c|
    requires enc' == c[BlockStart(m, b)..BlockStart(m, b + 1)] + enc[BlockLen(m, b)..]
    requires b == 1 ==> enc == c[..m.size]
    ensures Feedback(m, iv, c, b + 1) == if m.resync && b == 1 then enc'[2..] + enc'[..2] else enc'
  {
    hide BlockStart;
    NextBlock(m, b);
    NextBlock(m, b + 1);
    if m.resync && b == 1 {
      Joined2(c, 2, m.size, m.size + 2);
      assert enc'[2..] == enc[2..] == c[2..m.size] && enc'[..2] == c[m.size..m.size + 2];
    } else {
      assert enc[m.size..] == [];
    }
  }

  lemma BlockBegins(m: Mode, s: Cfb, iv: seq<Octet>, c: seq<Octet>, b: nat)
    requires m.size >= 4 && BlockStart(m, b) <= |c|
    requires s.Fits(m) && s.pos == 0 && s.blockNo == (if b < 5 then b else 5) && s.fr == Feedback(m, iv, c, b)
    requires b == 1 ==> m.size <= |c| && s.enc == c[..m.size]
    ensures AtBlock(m, s, iv, c, b)
  {}

  lemma RefreshFields(m: Mode, s: Cfb)
    requires s.pos == 0
    ensures var t := Refresh(m, s);
      t.enc == s.enc && t.pos == 0 && t.blockNo == if s.blockNo < 5 then s.blockNo + 1 else s.blockNo
  {}

  lemma WrapFields(m: Mode, u: Cfb, b: nat)
    requires |u.enc| >= 2 && u.pos == BlockLen(m, b) && u.blockNo == if b < 5 then b + 1 else 5
    ensures var t := Wrap(m, u);
      && t.pos == 0 && t.enc == u.enc && t.blockNo == u.blockNo && t.fre == u.fre
      && t.fr == if m.resync && b == 1 then u.enc[2..] + u.enc[..2] else u.enc
  {}

  lemma NextEnc(enc: seq<Octet>, d: seq<Octet>, cb: seq<Octet>, enc': seq<Octet>)
    requires |d| == |cb| <= |enc| && enc' == enc[..0] + cb + enc[0 + |d|..]
    ensures enc' == cb + enc[|d|..] && enc'[|d|..] == enc[|d|..] && enc'[..|d|] == cb
    ensures |d| == |enc| ==> enc' == cb
  {}

  lemma {:induction false} BlockReached(m: Mode, s: Cfb, dec: bool, d: seq<Octet>, b: nat)
    requires Fresh(m, s) && BlockStart(m, b) <= |d|
    ensures AtBlock(m, Run(m, s, dec, d[..BlockStart(m, b)]), s.fr, Cipher(m, s, dec, d), b)
  {
    hide Run, RunOut, BlockStart;
    NextBlock(m, b);
    if b == 0 {
      assert d[..0] == [];
      RunOfNothing(m, s, dec);
    } else {
      NextBlock(m, b - 1);
      var lo, hi := BlockStart(m, b - 1), BlockStart(m, b);
      BlockReached(m, s, dec, d, b - 1);
      var t, part := Run(m, s, dec, d[..lo]), d[lo..hi];
      assert d[..hi] == d[..lo] + part && d[..hi][..lo] == d[..lo] && d[..hi][lo..] == part;
      RunConcat(m, s, dec, d[..lo], part);
      CipherPrefix(m, s, dec, d, hi);
      CipherPrefix(m, s, dec, d[..hi], lo);
      assert RunOut(m, s, dec, d)[lo..hi] == RunOut(m, s, dec, d)[..hi][lo..];
      WholeBlock(m, t, dec, part, b - 1, s.fr, Cipher(m, s, dec, d));
    }
  }

  /** The law: byte p of block b comes out mixed with byte p of the cipher of the ciphertext before the block. */
  lemma CipherLaw(m: Mode, s: Cfb, dec: bool, d: seq<Octet>, b: nat, p: nat)
    requires Fresh(m, s) && p < BlockLen(m, b) && BlockStart(m, b) + p < |d|
    ensures var f := Feedback(m, s.fr, Cipher(m, s, dec, d), b);
      && |f| == m.size && |m.cipher(f)| == m.size && p < m.size
      && RunOut(m, s, dec, d)[BlockStart(m, b) + p] == Mix(m.cipher(f)[p], d[BlockStart(m, b) + p])
  {
    hide Run, RunOut, BlockStart, Mix, AtBlock, Feedback, Refresh, PutsOut, Puts, Wrap;
    NextBlock(m, b);
    BlockReached(m, s, dec, d, b);
    var c, lo := Cipher(m, s, dec, d), BlockStart(m, b);
    var hi := if lo + BlockLen(m, b) < |d| then lo + BlockLen(m, b) else |d|;
    var t, part := Run(m, s, dec, d[..lo]), d[lo..hi];
    CipherPrefix(m, s, dec, d, hi);
    CipherPrefix(m, s, dec, d[..hi], lo);
    assert d[..hi][..lo] == d[..lo] && d[..hi][lo..] == part;
    PartAt(m, t, dec, part, b, s.fr, c, p);
    OutAt(RunOut(m, s, dec, d), lo, hi, p);
  }

  lemma PartAt(m: Mode, s: Cfb, dec: bool, d: seq<Octet>, b: nat, iv: seq<Octet>, c: seq<Octet>, p: nat)
    requires m.Valid() && BlockStart(m, b) <= |c| && AtBlock(m, s, iv, c, b) && p < |d| <= BlockLen(m, b)
    ensures s.Fits(m)
    ensures var f := Feedback(m, iv, c, b);
      |f| == m.size && |m.cipher(f)| == m.size && p < m.size && RunOut(m, s, dec, d)[p] == Mix(m.cipher(f)[p], d[p])
  {
    hide Run, RunOut, BlockStart, Mix, AtBlock, Feedback, Refresh, PutsOut, Puts, Wrap;
    AtBlockFeeds(m, s, iv, c, b);
    PartOut(m, s, dec, d, b, iv, c);
    PutsOutAt(Refresh(m, s), d, p);
  }

  lemma AtBlockFeeds(m: Mode, s: Cfb, iv: seq<Octet>, c: seq<Octet>, b: nat)
    requires m.size >= 4 && BlockStart(m, b) <= |c| && AtBlock(m, s, iv, c, b)
    ensures s.fr == Feedback(m, iv, c, b) && |s.fr| == m.size
    ensures s.Fits(m) && s.pos == 0 && s.blockNo == if b < 5 then b else 5
    ensures b == 1 ==> m.size <= |c| && s.enc == c[..m.size]
  {}

  lemma PutsOutAt(s: Cfb, d: seq<Octet>, p: nat)
    requires s.pos == 0 && p < |d| <= |s.fre|
    ensures PutsOut(s, d)[p] == Mix(s.fre[p], d[p])
  {
    hide Mix;
  }

  lemma OutAt<T>(o: seq<T>, lo: nat, hi: nat, p: nat)
    requires lo + p < hi <= |o|
    ensures o[..hi][lo..][p] == o[lo + p]
  {}

  /** Without resync: byte i is mixed with byte i % size of the cipher of the block of ciphertext before. */
  lemma PlainLaw(m: Mode, iv: seq<Octet>, d: seq<Octet>, i: nat)
    requires m.Valid() && !m.resync && |iv| == m.size && i < |d|
    ensures Fresh(m, Start(m, iv))
    ensures var c := RunOut(m, Start(m, iv), false, d); var j := i / m.size * m.size;
      && 0 <= j <= i < j + m.size
      && (i < m.size ==> |m.cipher(iv)| == m.size && c[i] == Mix(m.cipher(iv)[i], d[i]))
      && (m.size <= i ==>
          m.size <= j && |m.cipher(c[j - m.size..j])| == m.size && c[i] == Mix(m.cipher(c[j - m.size..j])[i - j], d[i]))
  {
    hide RunOut, Mix;
    StartFresh(m, iv);
    Quotient(i, m.size);
    CipherLaw(m, Start(m, iv), false, d, i / m.size, i % m.size);
  }

  /**
   With resync: the same for the first block; the next two bytes are mixed with the cipher
   of the first block of ciphertext; from there on blocks are counted anew, and the first
   of them has the ciphertext bytes 2 to size + 1 before it.
   */
  lemma ResyncLaw(m: Mode, iv: seq<Octet>, d: seq<Octet>, i: nat)
    requires m.Valid() && m.resync && |iv| == m.size && i < |d|
    ensures Fresh(m, Start(m, iv))
    ensures var c := RunOut(m, Start(m, iv), false, d);
      && (i < m.size ==> |m.cipher(iv)| == m.size && c[i] == Mix(m.cipher(iv)[i], d[i]))
      && (m.size <= i < m.size + 2 ==>
          |m.cipher(c[..m.size])| == m.size && c[i] == Mix(m.cipher(c[..m.size])[i - m.size], d[i]))
      && (m.size + 2 <= i ==>
          var o := i - m.size - 2; var j := o / m.size * m.size;
          && 0 <= j && j + m.size + 2 <= i
          && |m.cipher(c[j + 2..j + m.size + 2])| == m.size && 0 <= o % m.size < m.size
          && c[i] == Mix(m.cipher(c[j + 2..j + m.size + 2])[o % m.size], d[i]))
  {
    hide RunOut, Mix;
    StartFresh(m, iv);
    if i < m.size {
      CipherLaw(m, Start(m, iv), false, d, 0, i);
    } else if i < m.size + 2 {
      CipherLaw(m, Start(m, iv), false, d, 1, i - m.size);
    } else {
      ResyncRest(m, iv, d, i);
    }
  }

  lemma ResyncRest(m: Mode, iv: seq<Octet>, d: seq<Octet>, i: nat)
    requires m.Valid() && m.resync && |iv| == m.size && m.size + 2 <= i < |d|
    ensures Fresh(m, Start(m, iv))
    ensures var c := RunOut(m, Start(m, iv), false, d);
      var o := i - m.size - 2; var j := o / m.size * m.size;
      && 0 <= j && j + m.size + 2 <= i
      && |m.cipher(c[j + 2..j + m.size + 2])| == m.size && 0 <= o % m.size < m.size
      && c[i] == Mix(m.cipher(c[j + 2..j + m.size + 2])[o % m.size], d[i])
  {
    hide RunOut, Mix, BlockStart;
    StartFresh(m, iv);
    var o := i - m.size - 2;
    var b := o / m.size + 2;
    Quotient(o, m.size);
    LaterStart(m, b);
    CipherLaw(m, Start(m, iv), false, d, b, o % m.size);
  }

  lemma LaterStart(m: Mode, b: nat)
    requires m.resync && b >= 2 && m.size >= 4
    ensures BlockStart(m, b) == (b - 2) * m.size + m.size + 2
  {
    AtLeastOne(b - 1, m.size);
  }

  lemma StartFresh(m: Mode, iv: seq<Octet>)
    requires m.Valid() && |iv| == m.size
    ensures Fresh(m, Start(m, iv)) && Start(m, iv).fr == iv
  {}

  lemma QuotientParts(i: nat, size: nat, q: int, r: int)
    requires i == Times(size, q) + r && 0 <= r < size
    ensures i == q * size + r && (i < size <==> q == 0) && (i >= size ==> q * size >= size)
  {
    TimesSwap(size, q);
    if q >= 1 {
      AtLeastOne(q, size);
    } else if q <= -1 {
      TimesMono(q, -1, size);
    }
  }

  lemma Quotient(i: nat, size: nat)
    requires size >= 1
    ensures i == i / size * size + i % size && 0 <= i % size < size && (i < size <==> i / size == 0)
    ensures i >= size ==> i / size * size >= size
  {
    DivIs(i, size);
    QuotientParts(i, size, i / size, i % size);
  }
}
