/** pgp-cfb.c: the block-at-a-time CFB code, against the byte-wise reference. */
module CfbCode {
  import opened Octets
  import opened Sequences
  import opened CfbSpec

  class PgpCfb {
    const mode: Mode
    const fr: array<Octet>
    const fre: array<Octet>
    const encbuf: array<Octet>
    var pos: nat
    var blockNo: nat

    ghost predicate Shape()
      reads this
    {
      mode.Valid() && fr.Length == fre.Length == encbuf.Length == mode.size
        && fr != fre && fr != encbuf && fre != encbuf
    }

    ghost function State(): (s: Cfb)
      reads this, fr, fre, encbuf
    {
      Cfb(fr[..], fre[..], encbuf[..], pos, blockNo)
    }

    ghost predicate Valid()
      reads this, fr, fre, encbuf
    {
      Shape() && State().Fits(mode)
    }

    /** pgp_cfb_create, with an initial feedback block or zeros. */
    constructor (mode: Mode, iv: seq<Octet>)
      requires mode.Valid() && (iv == [] || |iv| == mode.size)
      ensures Valid() && this.mode == mode && pos == 0 && blockNo == 0 && fresh(fr) && fresh(fre) && fresh(encbuf)
      ensures State() == Start(mode, iv)
    {
      this.mode := mode;
      fr := new Octet[mode.size](i => if 0 <= i < |iv| then iv[i] else 0);
      fre := new Octet[mode.size](_ => 0);
      encbuf := new Octet[mode.size](_ => 0);
      pos, blockNo := 0, 0;
      new;
      assert State() == Start(mode, iv);
    }

    /** One byte: the cipher byte is kept in encbuf, the result goes to dst. */
    method MixByte(b: Octet, at: nat, dst: array<Octet>, to: nat, dec: bool)
      requires Shape() && at < mode.size && to < dst.Length && dst !in {fr, fre, encbuf}
      modifies encbuf, dst
      ensures encbuf[..] == old(encbuf[..])[at := if dec then b else Mix(fre[at], b)]
      ensures dst[to] == Mix(fre[at], b) && forall k :: 0 <= k < dst.Length && k != to ==> dst[k] == old(dst[k])
    {
      hide Mix, Mode.Valid;
      var o := Mix(fre[at], b);
      encbuf[at] := if dec then b else o;
      dst[to] := o;
    }

    /** The mixing loop: len bytes from offset off on, within one block. */
    method MixBytes(data: seq<Octet>, off: nat, len: nat, dst: array<Octet>, dec: bool)
      requires Shape() && pos + len <= mode.size && off + len <= |data| <= dst.Length && dst !in {fr, fre, encbuf}
      modifies this`pos, encbuf, dst
      ensures Shape() && State() == Puts(old(State()), dec, data[off..off + len])
      ensures dst[..off] == old(dst[..off]) && dst[off..off + len] == PutsOut(old(State()), data[off..off + len])
    {
      hide Mix, Puts, Put, Mode.Valid;
      ghost var s, part := State(), data[off..off + len];
      ghost var cur := s;
      PutsNone(s, dec, part);
      var i := 0;
      while i < len
        invariant i <= len && pos == s.pos && dst[..off] == old(dst[..off]) && fre[..] == s.fre
        invariant cur == Puts(s, dec, part[..i]) && encbuf[..] == cur.enc
        invariant forall k :: 0 <= k < i ==> dst[off + k] == Mix(s.fre[s.pos + k], part[k])
      {
        PutsNext(s, dec, part, i);
        PutEnc(cur, dec, part[i]);
        cur := Put(cur, dec, part[i]);
        MixByte(data[off + i], pos + i, dst, off + i, dec);
        i := i + 1;
      }
      assert part[..i] == part;
      pos := pos + len;
    }

    /** Where the two-byte block is not finished by the bytes at hand the count comes back as zero. */
    ghost predicate Stuck(s: Cfb, len: nat) {
      mode.resync && s.blockNo == 2 && s.pos + len < 2
    }

    /** mix_encrypt_normal, mix_encrypt_resync and their decrypting twins. */
    method MixData(data: seq<Octet>, off: nat, len: nat, dst: array<Octet>, dec: bool) returns (n: nat)
      requires Shape() && pos + len <= mode.size && off + len <= |data| <= dst.Length && dst !in {fr, fre, encbuf}
      requires pos < Limit(mode, blockNo)
      modifies this`pos, fr, encbuf, dst
      ensures Shape() && dst[..off] == old(dst[..off])
      ensures var s := old(State()); var k := Taken(mode, s, len);
        && (if Stuck(s, len) then n == 0 && State() == Puts(s, dec, data[off..off + k])
            else n == k && State() == Rotated(mode, Puts(s, dec, data[off..off + k])))
        && dst[off..off + k] == PutsOut(s, data[off..off + k])
    {
      hide Puts, PutsOut, Mode.Valid;
      if mode.resync && blockNo == 2 {
        n := 2 - pos;
        if len < n { n := len; }
        MixBytes(data, off, n, dst, dec);
        if pos == 2 {
          Rotate();
          return;
        }
        n := 0;
      } else {
        MixBytes(data, off, len, dst, dec);
        n := len;
      }
    }

    /** The two-byte block rotated into the feedback. */
    method Rotate()
      requires Shape()
      modifies this`pos, fr
      ensures State() == old(State()).(fr := old(encbuf[2..] + encbuf[..2]), pos := 0)
    {
      hide Mode.Valid;
      ghost var e := encbuf[..];
      var m := mode.size - 2;
      SizeAtLeast(mode);
      forall k | 0 <= k < m { fr[k] := encbuf[k + 2]; }
      fr[m], fr[m + 1] := encbuf[0], encbuf[1];
      assert fr[..] == e[2..] + e[..2];
      pos := 0;
    }

    /** A whole block copied into the feedback. */
    method WrapFull()
      requires Shape() && pos <= mode.size
      modifies this`pos, fr
      ensures State() == if old(pos) == mode.size then old(State()).(fr := old(encbuf[..]), pos := 0) else old(State())
    {
      hide Mode.Valid;
      if pos == mode.size {
        forall k | 0 <= k < mode.size { fr[k] := encbuf[k]; }
        pos := 0;
      }
    }

    /** Mix what fits in the current block and close it if it is full. */
    method Turn(data: seq<Octet>, off: nat, dst: array<Octet>, dec: bool) returns (n: nat)
      requires Valid() && off < |data| <= dst.Length && dst !in {fr, fre, encbuf}
      modifies this`pos, fr, encbuf, dst
      ensures Shape() && dst[..off] == old(dst[..off])
      ensures var s := old(State()); var k := Taken(mode, s, |data| - off);
        && k >= 1 && (if Stuck(s, |data| - off) then n == 0 && State() == Puts(s, dec, data[off..off + k])
            else n == k && State() == Wrap(mode, Puts(s, dec, data[off..off + k])))
        && dst[off..off + k] == PutsOut(s, data[off..off + k])
    {
      hide Puts, PutsOut, Mode.Valid;
      SizeAtLeast(mode);
      var len := mode.size - pos;
      if |data| - off < len { len := |data| - off; }
      n := MixData(data, off, len, dst, dec);
      WrapFull();
    }

    /** px_cipher_encrypt of the feedback, and the block count. */
    method NewBlock()
      requires Shape()
      modifies this`blockNo, fre
      ensures State() == old(State()).(fre := mode.cipher(old(fr[..])),
        blockNo := if old(blockNo) < 5 then old(blockNo) + 1 else old(blockNo))
    {
      var f := mode.cipher(fr[..]);
      forall k | 0 <= k < mode.size { fre[k] := f[k]; }
      if blockNo < 5 { blockNo := blockNo + 1; }
    }

    /** Finish the block left open by the last call. */
    method OpenBlock(data: seq<Octet>, dst: array<Octet>, dec: bool) returns (off: nat)
      requires Valid() && |data| <= dst.Length && dst !in {fr, fre, encbuf}
      modifies this`pos, fr, encbuf, dst
      ensures Valid() && off <= |data| && At(mode, old(State()), dec, data, off, State(), dst[..off])
      ensures (pos == 0 || off == |data|)
      ensures off > 0 ==> !AtCut(mode, State())
    {
      hide Puts, PutsOut, Run, RunOut, Mode.Valid, Wrap;
      off := 0;
      ghost var s0 := State();
      RunNone(mode, s0, dec, data);
      while off < |data| && pos > 0
        invariant Valid() && off <= |data| && At(mode, s0, dec, data, off, State(), dst[..off])
        invariant off > 0 ==> (pos == 0 || off == |data|) && !AtCut(mode, State())
      {
        ghost var s, out := State(), dst[..off];
        RefreshLater(mode, s);
        ghost var k := Taken(mode, s, |data| - off);
        var n := Turn(data, off, dst, dec);
        Progress(mode, s0, dec, data, off, s, out, k);
        AfterTurn(mode, s, dec, data[off..off + k], |data| - off);
        RunFits(mode, s0, dec, data[..off + k]);
        assert dst[..off + k] == out + dst[off..off + k];
        off := off + n;
      }
    }

    /**
     One turn of the main loop.  A stuck turn gives nothing; the one after it mixes
     the same byte in again, at the second place of a third block.
     */
    method NextBlock(data: seq<Octet>, off: nat, dst: array<Octet>, dec: bool, ghost s0: Cfb) returns (n: nat)
      requires Shape() && off < |data| <= dst.Length && dst !in {fr, fre, encbuf} && s0.Fits(mode)
      requires if pos == 0 then At(mode, s0, dec, data, off, State(), dst[..off])
        else off + 1 == |data| && pos == 1 && blockNo == 2
      modifies this`pos, this`blockNo, fr, fre, encbuf, dst
      ensures Shape() && off + n <= |data|
      ensures old(pos) == 0 && n > 0 ==>
        Valid() && At(mode, s0, dec, data, off + n, State(), dst[..off + n])
          && (pos == 0 || off + n == |data|) && !AtCut(mode, State())
      ensures old(pos) == 0 && n == 0 ==>
        off + 1 == |data| && pos == 1 && blockNo == 2 && mode.resync && AtCut(mode, Run(mode, s0, dec, data))
      ensures old(pos) != 0 ==> n == 1 && pos == 2 && blockNo == 3
    {
      hide Puts, PutsOut, Run, RunOut, Mode.Valid, Wrap, At, AtCut;
      ghost var s, out := State(), dst[..off];
      SizeAtLeast(mode);
      NewBlock();
      ghost var t := State();
      ghost var k := Taken(mode, t, |data| - off);
      n := Turn(data, off, dst, dec);
      assert dst[..off + k] == out + dst[off..off + k];
      if s.pos == 0 {
        AfterBlock(mode, s0, dec, data, off, s, out, k);
      } else {
        SecondPlace(mode, t, dec, data[off..off + k]);
      }
    }

    /**
     cfb_process: agrees with the byte-wise reference, output and state, exactly
     when the data does not end one byte into the two-byte block.
     */
    method Process(data: seq<Octet>, dst: array<Octet>, dec: bool)
      requires Valid() && |data| <= dst.Length && dst !in {fr, fre, encbuf}
      modifies this`pos, this`blockNo, fr, fre, encbuf, dst
      ensures Shape() && var s0 := old(State()); var ref := Run(mode, s0, dec, data);
        if data != [] && AtCut(mode, ref) then State() != ref
        else Valid() && State() == ref && dst[..|data|] == RunOut(mode, s0, dec, data)
    {
      hide Puts, PutsOut, Run, RunOut, Mode.Valid, Wrap;
      ghost var s0 := State();
      var off := OpenBlock(data, dst, dec);
      ghost var stuck, lost := false, false;
      while off < |data|
        invariant Shape() && off <= |data|
        invariant !stuck ==> Valid() && At(mode, s0, dec, data, off, State(), dst[..off]) && (pos == 0 || off == |data|)
        invariant !stuck ==> !lost && (off > 0 ==> !AtCut(mode, State()))
        invariant stuck ==> data != [] && mode.resync && AtCut(mode, Run(mode, s0, dec, data))
        invariant stuck && !lost ==> off + 1 == |data| && pos == 1 && blockNo == 2
        invariant lost ==> off == |data| && pos == 2 && blockNo == 3
        decreases |data| - off, !stuck
      {
        var n := NextBlock(data, off, dst, dec, s0);
        stuck, lost := stuck || n == 0, stuck;
        off := off + n;
      }
      assert data[..|data|] == data;
    }
  }

  lemma PutsNone(s: Cfb, dec: bool, d: seq<Octet>)
    requires s.pos <= |s.fre| == |s.enc|
    ensures Puts(s, dec, d[..0]) == s
  {}

  lemma PutsNext(s: Cfb, dec: bool, d: seq<Octet>, i: nat)
    requires s.pos + |d| <= |s.fre| == |s.enc| && i < |d|
    ensures Puts(s, dec, d[..i + 1]) == Put(Puts(s, dec, d[..i]), dec, d[i])
  {
    assert d[..i + 1][..i] == d[..i];
  }

  ghost function Start(mode: Mode, iv: seq<Octet>): (s: Cfb)
    requires mode.Valid() && (iv == [] || |iv| == mode.size)
    ensures s.Fits(mode)
  {
    var z := seq(mode.size, _ => 0 as Octet);
    Cfb(if iv == [] then z else iv, z, z, 0, 0)
  }

  lemma SizeAtLeast(m: Mode)
    requires m.Valid()
    ensures m.size >= 4
  {}

  /** Bytes the current block takes of len. */
  function Taken(m: Mode, s: Cfb, len: nat): (k: nat)
    requires s.pos <= Limit(m, s.blockNo)
    ensures k <= len
  {
    if Limit(m, s.blockNo) - s.pos < len then Limit(m, s.blockNo) - s.pos else len
  }

  /** The part of Wrap that the resync code does itself. */
  function Rotated(m: Mode, s: Cfb): (t: Cfb)
    requires |s.enc| >= 2
  {
    if m.resync && s.blockNo == 2 && s.pos == 2 then s.(fr := s.enc[2..] + s.enc[..2], pos := 0) else s
  }

  /** Byte-wise progress after off bytes of data, with the bytes put out so far. */
  ghost predicate At(m: Mode, s0: Cfb, dec: bool, data: seq<Octet>, off: nat, s: Cfb, out: seq<Octet>)
    requires m.Valid() && s0.Fits(m)
  {
    off <= |data| && s == Run(m, s0, dec, data[..off]) && out == RunOut(m, s0, dec, data[..off])
  }

  /** One stretch within a block is that much byte-wise progress. */
  lemma Progress(m: Mode, s0: Cfb, dec: bool, data: seq<Octet>, off: nat, s: Cfb, out: seq<Octet>, k: nat)
    requires m.Valid() && s0.Fits(m) && At(m, s0, dec, data, off, s, out) && k >= 1 && off + k <= |data|
    requires s.pos + k <= Limit(m, Refresh(m, s).blockNo)
    ensures Refresh(m, s).pos + k <= |Refresh(m, s).fre| == |Refresh(m, s).enc| && |Refresh(m, s).enc| >= 2
    ensures var d := data[off..off + k];
      At(m, s0, dec, data, off + k, Wrap(m, Puts(Refresh(m, s), dec, d)), out + PutsOut(Refresh(m, s), d))
  {
    hide Run, RunOut, Puts, PutsOut, Refresh, Wrap;
    var d := data[off..off + k];
    SizeAtLeast(m);
    RefreshKeeps(m, s);
    assert data[..off + k] == data[..off] + d;
    RunConcat(m, s0, dec, data[..off], d);
    RunStretch(m, s, dec, d);
  }

  /** One byte into the two-byte block. */
  predicate AtCut(m: Mode, s: Cfb) {
    m.resync && s.blockNo == 2 && s.pos == 1
  }

  lemma RunNone(m: Mode, s: Cfb, dec: bool, data: seq<Octet>)
    requires m.Valid() && s.Fits(m)
    ensures Run(m, s, dec, data[..0]) == s && RunOut(m, s, dec, data[..0]) == []
  {}

  lemma RunFits(m: Mode, s: Cfb, dec: bool, d: seq<Octet>)
    requires m.Valid() && s.Fits(m)
    ensures Run(m, s, dec, d).Fits(m)
  {}

  /** A turn that is not stuck closes the block or uses up the data, and never ends on the cut. */
  lemma AfterTurn(m: Mode, s: Cfb, dec: bool, d: seq<Octet>, len: nat)
    requires m.Valid() && s.Fits(m) && |d| == Taken(m, s, len) && len >= 1
    requires !(m.resync && s.blockNo == 2 && s.pos + len < 2)
    requires s.pos + |d| <= |s.fre|
    ensures var t := Wrap(m, Puts(s, dec, d)); (t.pos == 0 || |d| == len) && !AtCut(m, t)
  {}

  lemma StuckCut(m: Mode, s: Cfb, dec: bool, d: seq<Octet>)
    requires m.Valid() && m.resync && s.blockNo == 2 && s.pos == 0 && |d| == 1 && |s.fre| == |s.enc| == m.size
    ensures AtCut(m, Wrap(m, Puts(s, dec, d))) && AtCut(m, Puts(s, dec, d))
  {}

  lemma SecondPlace(m: Mode, s: Cfb, dec: bool, d: seq<Octet>)
    requires m.Valid() && s.blockNo == 3 && s.pos == 1 && |d| == 1 && |s.fre| == |s.enc| == m.size
    ensures var t := Wrap(m, Puts(s, dec, d)); t.pos == 2 && t.blockNo == 3
  {}

  /** The effect of a turn from a block boundary, stuck or not. */
  lemma AfterBlock(m: Mode, s0: Cfb, dec: bool, data: seq<Octet>, off: nat, s: Cfb, out: seq<Octet>, k: nat)
    requires m.Valid() && s0.Fits(m) && off < |data| && At(m, s0, dec, data, off, s, out) && s.pos == 0
    requires k == Taken(m, Refresh(m, s), |data| - off)
    ensures Refresh(m, s).Fits(m) && k >= 1 && |Refresh(m, s).enc| >= 2
    ensures Refresh(m, s).pos + k <= |Refresh(m, s).fre| == |Refresh(m, s).enc|
    ensures m.resync && Refresh(m, s).blockNo == 2 && |data| - off < 2 ==>
      off + 1 == |data| && AtCut(m, Puts(Refresh(m, s), dec, data[off..off + k])) && AtCut(m, Run(m, s0, dec, data))
    ensures !(m.resync && Refresh(m, s).blockNo == 2 && |data| - off < 2) ==>
      var w := Wrap(m, Puts(Refresh(m, s), dec, data[off..off + k]));
      w.Fits(m) && At(m, s0, dec, data, off + k, w, out + PutsOut(Refresh(m, s), data[off..off + k]))
        && (w.pos == 0 || off + k == |data|) && !AtCut(m, w)
  {
    hide Puts, PutsOut, Run, RunOut, Mode.Valid, Wrap;
    SizeAtLeast(m);
    RunFits(m, s0, dec, data[..off]);
    RefreshKeeps(m, s);
    var t := Refresh(m, s);
    Progress(m, s0, dec, data, off, s, out, k);
    if m.resync && t.blockNo == 2 && |data| - off < 2 {
      StuckCut(m, t, dec, data[off..off + k]);
      assert data[..off + 1] == data;
    } else {
      AfterTurn(m, t, dec, data[off..off + k], |data| - off);
      RunFits(m, s0, dec, data[..off + k]);
    }
  }

  /** In a fresh stream the two-byte block is half done after block size + 1 bytes, and only then. */
  lemma {:induction false} CutOffset(m: Mode, s: Cfb, dec: bool, d: seq<Octet>)
    requires m.Valid() && s.Fits(m) && m.resync && s.blockNo == 0 && s.pos == 0
    ensures var t := Run(m, s, dec, d);
      if |d| == 0 then t.blockNo == 0 && t.pos == 0
      else if |d| < m.size then t.blockNo == 1 && t.pos == |d|
      else if |d| == m.size then t.blockNo == 1 && t.pos == 0
      else if |d| == m.size + 1 then t.blockNo == 2 && t.pos == 1
      else t.blockNo >= 2 && (t.blockNo == 2 ==> |d| == m.size + 2 && t.pos == 0)
  {
    hide Mix;
    if d != [] { CutOffset(m, s, dec, d[..|d| - 1]); }
  }

  /** No call ends one byte into the two-byte block. */
  ghost predicate CleanSplit(m: Mode, chunks: seq<seq<Octet>>) {
    m.resync ==> forall i :: 0 <= i < |chunks| && chunks[i] != [] ==> |Joined(chunks[..i + 1])| != m.size + 1
  }

  /** A fresh stream in any number of calls: the output depends only on the bytes. */
  method Transform(mode: Mode, iv: seq<Octet>, chunks: seq<seq<Octet>>, dec: bool) returns (out: seq<Octet>)
    requires mode.Valid() && (iv == [] || |iv| == mode.size) && CleanSplit(mode, chunks)
    ensures out == RunOut(mode, Start(mode, iv), dec, Joined(chunks))
  {
    hide Run, RunOut, Mode.Valid, Start;
    var ctx := new PgpCfb(mode, iv);
    ghost var s0 := ctx.State();
    out := [];
    RunNone(mode, s0, dec, []);
    var i := 0;
    while i < |chunks|
      invariant i <= |chunks| && ctx.Valid() && fresh(ctx) && fresh(ctx.fr)
      invariant fresh(ctx.fre) && fresh(ctx.encbuf) && ctx.mode == mode
      invariant ctx.State() == Run(mode, s0, dec, Joined(chunks[..i]))
      invariant out == RunOut(mode, s0, dec, Joined(chunks[..i]))
    {
      ghost var before := Joined(chunks[..i]);
      assert chunks[..i + 1][..i] == chunks[..i];
      RunConcat(mode, s0, dec, before, chunks[i]);
      if mode.resync { CutOffset(mode, s0, dec, before + chunks[i]); }
      var dst := new Octet[|chunks[i]|];
      ctx.Process(chunks[i], dst, dec);
      assert dst[..|chunks[i]|] == dst[..];
      out := out + dst[..];
      i := i + 1;
    }
    assert chunks[..i] == chunks;
  }

  /** Encrypt in one split, decrypt in another: the plaintext comes back. */
  method RoundTrip(mode: Mode, iv: seq<Octet>, chunks: seq<seq<Octet>>, chunks': seq<seq<Octet>>)
    returns (back: seq<Octet>)
    requires mode.Valid() && (iv == [] || |iv| == mode.size) && CleanSplit(mode, chunks) && CleanSplit(mode, chunks')
    requires Joined(chunks') == RunOut(mode, Start(mode, iv), false, Joined(chunks))
    ensures back == Joined(chunks)
  {
    hide Run, RunOut, Mode.Valid, Start;
    StartFits(mode, iv);
    var c := Transform(mode, iv, chunks, false);
    back := Transform(mode, iv, chunks', true);
    DecryptInverts(mode, Start(mode, iv), Joined(chunks));
  }

  lemma StartFits(mode: Mode, iv: seq<Octet>)
    requires mode.Valid() && (iv == [] || |iv| == mode.size)
    ensures Start(mode, iv).Fits(mode)
  {}
}
