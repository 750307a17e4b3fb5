/**
 OpenPGP's CFB mode one byte at a time (section 13.9 of RFC 4880), as the
 reference for the block-at-a-time code, and its inversion.
 */
module CfbSpec {
  import opened Octets

  /** A byte mixed with a byte of the key stream. */
  function Mix(k: Octet, b: Octet): (o: Octet) {
    k ^ b
  }

  lemma MixTwice(k: Octet, b: Octet)
    ensures Mix(k, Mix(k, b)) == b
  {}

  /** The block function, the block size, and whether the second block is cut to two bytes. */
  datatype Mode = Mode(cipher: seq<Octet> -> seq<Octet>, size: nat, resync: bool) {
    ghost predicate Valid() {
      size >= 4 && forall x :: |x| == size ==> |cipher(x)| == size
    }
  }

  datatype Cfb = Cfb(fr: seq<Octet>, fre: seq<Octet>, enc: seq<Octet>, pos: nat, blockNo: nat) {
    ghost predicate Fits(m: Mode) {
      |fr| == |fre| == |enc| == m.size && pos < Limit(m, blockNo)
    }
  }

  /** Bytes in the current block. */
  function Limit(m: Mode, blockNo: nat): (n: nat) {
    if m.resync && blockNo == 2 then 2 else m.size
  }

  /** A new block starts with a new key stream; blocks are counted up to five. */
  function Refresh(m: Mode, s: Cfb): (t: Cfb) {
    if s.pos == 0 then s.(fre := m.cipher(s.fr), blockNo := if s.blockNo < 5 then s.blockNo + 1 else s.blockNo) else s
  }

  /** One byte mixed in: the cipher byte is kept. */
  function Put(s: Cfb, dec: bool, b: Octet): (t: Cfb)
    requires s.pos < |s.fre| && s.pos < |s.enc|
  {
    s.(enc := s.enc[s.pos := if dec then b else Mix(s.fre[s.pos], b)], pos := s.pos + 1)
  }

  /** A finished block becomes the next feedback; the two-byte block is rotated in. */
  function Wrap(m: Mode, s: Cfb): (t: Cfb)
    requires |s.enc| >= 2
  {
    if s.pos != Limit(m, s.blockNo) then s
    else if m.resync && s.blockNo == 2 then s.(fr := s.enc[2..] + s.enc[..2], pos := 0)
    else s.(fr := s.enc, pos := 0)
  }

  ghost function Step(m: Mode, s: Cfb, dec: bool, b: Octet): (t: Cfb)
    requires m.Valid() && s.Fits(m)
    ensures t.Fits(m)
  {
    Wrap(m, Put(Refresh(m, s), dec, b))
  }

  ghost function Out(m: Mode, s: Cfb, b: Octet): (o: Octet)
    requires m.Valid() && s.Fits(m)
  {
    Mix(Refresh(m, s).fre[s.pos], b)
  }

  /** The state after the bytes d, and the bytes they turn into. */
  ghost function Run(m: Mode, s: Cfb, dec: bool, d: seq<Octet>): (t: Cfb)
    requires m.Valid() && s.Fits(m)
    ensures t.Fits(m)
  {
    if d == [] then s else Step(m, Run(m, s, dec, d[..|d| - 1]), dec, d[|d| - 1])
  }

  ghost function RunOut(m: Mode, s: Cfb, dec: bool, d: seq<Octet>): (o: seq<Octet>)
    requires m.Valid() && s.Fits(m)
    ensures |o| == |d|
  {
    if d == [] then []
    else RunOut(m, s, dec, d[..|d| - 1]) + [Out(m, Run(m, s, dec, d[..|d| - 1]), d[|d| - 1])]
  }

  /** Splitting the input does not matter. */
  lemma {:induction false} RunConcat(m: Mode, s: Cfb, dec: bool, a: seq<Octet>, b: seq<Octet>)
    requires m.Valid() && s.Fits(m)
    ensures Run(m, s, dec, a + b) == Run(m, Run(m, s, dec, a), dec, b)
    ensures RunOut(m, s, dec, a + b) == RunOut(m, s, dec, a) + RunOut(m, Run(m, s, dec, a), dec, b)
  {
    hide Step, Out, Mix;
    if b == [] {
      assert a + b == a;
    } else {
      var n := |b| - 1;
      assert (a + b)[..|a| + n] == a + b[..n] && (a + b)[|a| + n] == b[n];
      RunConcat(m, s, dec, a, b[..n]);
    }
  }

  lemma StepInverts(m: Mode, s: Cfb, b: Octet)
    requires m.Valid() && s.Fits(m)
    ensures Step(m, s, true, Out(m, s, b)) == Step(m, s, false, b) && Out(m, s, Out(m, s, b)) == b
  {
    hide Mix, Refresh, Wrap;
    RefreshKeeps(m, s);
    MixTwice(Refresh(m, s).fre[s.pos], b);
  }

  lemma RefreshKeeps(m: Mode, s: Cfb)
    requires m.Valid() && s.Fits(m)
    ensures var t := Refresh(m, s); t.pos == s.pos && t.fr == s.fr && t.enc == s.enc && |t.fre| == m.size
  {}

  /** Decrypting the ciphertext from the same state gives the plaintext and the same final state. */
  lemma {:induction false} DecryptInverts(m: Mode, s: Cfb, d: seq<Octet>)
    requires m.Valid() && s.Fits(m)
    ensures Run(m, s, true, RunOut(m, s, false, d)) == Run(m, s, false, d)
    ensures RunOut(m, s, true, RunOut(m, s, false, d)) == d
  {
    hide Step, Out, Mix;
    if d != [] {
      var n := |d| - 1;
      var c := RunOut(m, s, false, d);
      assert c[..n] == RunOut(m, s, false, d[..n]);
      DecryptInverts(m, s, d[..n]);
      StepInverts(m, Run(m, s, false, d[..n]), d[n]);
    }
  }

  /** Several bytes mixed in within one block. */
  ghost function Puts(s: Cfb, dec: bool, d: seq<Octet>): (t: Cfb)
    requires s.pos + |d| <= |s.fre| == |s.enc|
    ensures t.pos == s.pos + |d| && t.fr == s.fr && t.fre == s.fre && t.blockNo == s.blockNo && |t.enc| == |s.enc|
  {
    if d == [] then s else Put(Puts(s, dec, d[..|d| - 1]), dec, d[|d| - 1])
  }

  ghost function PutsOut(s: Cfb, d: seq<Octet>): (o: seq<Octet>)
    requires s.pos + |d| <= |s.fre|
    ensures |o| == |d|
  {
    seq(|d|, i requires 0 <= i < |d| => Mix(s.fre[s.pos + i], d[i]))
  }

  lemma PutsUnfold(s: Cfb, dec: bool, d: seq<Octet>)
    requires s.pos + |d| <= |s.fre| == |s.enc| && d != []
    ensures Puts(s, dec, d) == Put(Puts(s, dec, d[..|d| - 1]), dec, d[|d| - 1])
  {
    hide Put;
  }

  lemma PutEnc(u: Cfb, dec: bool, b: Octet)
    requires u.pos < |u.fre| && u.pos < |u.enc|
    ensures Put(u, dec, b).enc == u.enc[u.pos := if dec then b else Mix(u.fre[u.pos], b)]
  {
    hide Mix;
  }

  lemma PutsOutMore(s: Cfb, d: seq<Octet>)
    requires s.pos + |d| <= |s.fre| && d != []
    ensures var n := |d| - 1; PutsOut(s, d) == PutsOut(s, d[..n]) + [Mix(s.fre[s.pos + n], d[n])]
  {
    hide Mix;
  }

  lemma PutsNothing(s: Cfb, dec: bool)
    requires s.pos <= |s.fre| == |s.enc|
    ensures Puts(s, dec, []) == s && PutsOut(s, []) == []
  {}

  lemma RunUnfold(m: Mode, s: Cfb, dec: bool, d: seq<Octet>)
    requires m.Valid() && s.Fits(m) && d != []
    ensures var u, b := Run(m, s, dec, d[..|d| - 1]), d[|d| - 1];
      && Run(m, s, dec, d) == Step(m, u, dec, b)
      && RunOut(m, s, dec, d) == RunOut(m, s, dec, d[..|d| - 1]) + [Out(m, u, b)]
  {
    hide Step, Out;
  }

  lemma RunOfNothing(m: Mode, s: Cfb, dec: bool)
    requires m.Valid() && s.Fits(m)
    ensures Run(m, s, dec, []) == s && RunOut(m, s, dec, []) == []
  {}

  /** Within one block the byte-wise run is one refresh, the bytes, and one wrap at the end. */
  lemma {:induction false} RunStretch(m: Mode, s: Cfb, dec: bool, d: seq<Octet>)
    requires m.Valid() && s.Fits(m) && d != [] && s.pos + |d| <= Limit(m, Refresh(m, s).blockNo)
    ensures Refresh(m, s).pos + |d| <= |Refresh(m, s).fre| == |Refresh(m, s).enc|
    ensures Run(m, s, dec, d) == Wrap(m, Puts(Refresh(m, s), dec, d))
    ensures RunOut(m, s, dec, d) == PutsOut(Refresh(m, s), d)
  {
    hide Mix, Refresh, Puts, PutsOut, Run, RunOut, Put, Wrap;
    var n, t := |d| - 1, Refresh(m, s);
    RefreshKeeps(m, s);
    RefreshLimit(m, s);
    PutsUnfold(t, dec, d);
    PutsOutMore(t, d);
    RunUnfold(m, s, dec, d);
    if n == 0 {
      assert d[..0] == [];
      PutsNothing(t, dec);
      RunOfNothing(m, s, dec);
    } else {
      RunStretch(m, s, dec, d[..n]);
      var u := Puts(t, dec, d[..n]);
      WrapLater(m, u);
      RefreshLater(m, u);
    }
  }

  lemma WrapLater(m: Mode, s: Cfb)
    requires |s.enc| >= 2 && s.pos < Limit(m, s.blockNo)
    ensures Wrap(m, s) == s
  {}

  lemma RefreshLater(m: Mode, s: Cfb)
    requires s.pos > 0
    ensures Refresh(m, s) == s
  {}

  lemma RefreshLimit(m: Mode, s: Cfb)
    requires m.Valid() && s.Fits(m)
    ensures Limit(m, Refresh(m, s).blockNo) <= m.size
  {}
}
