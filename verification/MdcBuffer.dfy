/**
 The combined reader and hasher of an integrity-protected packet: mdcbuf_read and
 its helpers.  The last 22 bytes of the data are its modification detection code
 (sections 5.13 and 5.14 of RFC 4880), so 22 bytes are always held back.
 */
module MdcBuffer {
  import opened PacketLength
  import opened PacketReader
  import opened Sequences
  import opened Arithmetic

  const BUFLEN: nat := 8192
  const MDC_LEN: nat := 22

  /** A running hash: what has been fed to it. */
  class Digest {
    var input: seq<Byte>

    /** px_md_update. */
    method Update(d: seq<Byte>)
      modifies this
      ensures input == old(input) + d
    {
      input := input + d;
    }
  }

  /** mdcbuf_finish: the held-back bytes are a header and the hash of all before them. */
  ghost predicate Intact(hash: seq<Byte> -> seq<Byte>, input: seq<Byte>, mdc: seq<Byte>) {
    |mdc| == MDC_LEN && mdc[0] == 0xD3 && mdc[1] == 0x14 && hash(input + mdc[..2]) == mdc[2..]
  }

  /** How much of the data comes before the part held back. */
  function Before(all: seq<Byte>): (n: nat)
    ensures n <= |all| && |all| - n == Min(MDC_LEN, |all|)
  {
    if |all| < MDC_LEN then 0 else |all| - MDC_LEN
  }

  function Zeroes(n: nat): (s: seq<Byte>)
    ensures |s| == n
  {
    seq(n, _ => 0)
  }

  /** The 22 bytes the check looks at: the last ones, and zeros in place of those that never came. */
  function LastBytes(all: seq<Byte>): (s: seq<Byte>)
    ensures |s| == MDC_LEN
  {
    all[Before(all)..] + Zeroes(MDC_LEN - Min(MDC_LEN, |all|))
  }

  /** What the check at the end of the data says, as a property of that data alone. */
  ghost predicate Accepted(hash: seq<Byte> -> seq<Byte>, hashed: seq<Byte>, all: seq<Byte>) {
    Intact(hash, hashed + all[..Before(all)], LastBytes(all))
  }

  /** With 22 bytes or more: they end in the header and the hash of everything up to and with that header. */
  lemma AcceptedWhole(hash: seq<Byte> -> seq<Byte>, hashed: seq<Byte>, all: seq<Byte>)
    requires |all| >= MDC_LEN
    ensures Accepted(hash, hashed, all) <==>
      var n := |all| - MDC_LEN;
      all[n] == 0xD3 && all[n + 1] == 0x14 && hash(hashed + all[..n + 2]) == all[n + 2..]
  {
    var n := |all| - MDC_LEN;
    assert LastBytes(all) == all[n..];
    assert all[n..][2..] == all[n + 2..];
    assert hashed + all[..n] + all[n..][..2] == hashed + all[..n + 2];
  }

  /** With fewer: the missing bytes of the hash count as zeros. */
  lemma AcceptedShort(hash: seq<Byte> -> seq<Byte>, hashed: seq<Byte>, all: seq<Byte>)
    requires |all| < MDC_LEN
    ensures Accepted(hash, hashed, all) <==>
      |all| >= 2 && all[0] == 0xD3 && all[1] == 0x14 && hash(hashed + all[..2]) == all[2..] + Zeroes(MDC_LEN - |all|)
  {
    var s := LastBytes(all);
    assert hashed + all[..0] == hashed;
    if |all| >= 2 {
      assert s[..2] == all[..2] && s[2..] == all[2..] + Zeroes(MDC_LEN - |all|);
    } else {
      assert s[1] == 0;
    }
  }

  /** So data cut off after the header is accepted when its hash is all zeros. */
  lemma CutOffAccepted(hash: seq<Byte> -> seq<Byte>, hashed: seq<Byte>)
    ensures Accepted(hash, hashed, [0xD3, 0x14]) <==> hash(hashed + [0xD3, 0x14]) == Zeroes(20)
  {
    var all: seq<Byte> := [0xD3, 0x14];
    AcceptedShort(hash, hashed, all);
    assert all[..2] == all && all[2..] + Zeroes(20) == Zeroes(20);
  }

  class MdcBuf {
    const src: Source
    const digest: Digest
    const hash: seq<Byte> -> seq<Byte>
    const buf: array<Byte>
    const mdc: array<Byte>
    var eof: bool
    var pos: nat
    var avail: nat
    var mdcAvail: nat
    /** Bytes taken from the source, bytes given out, and what was hashed before. */
    ghost var consumed: seq<Byte>
    ghost var delivered: seq<Byte>
    ghost const hashedBefore: seq<Byte>

    ghost predicate Shape()
      reads this, src
    {
      && buf.Length == BUFLEN && mdc.Length == MDC_LEN && buf != mdc && src.Valid()
      && pos + avail <= BUFLEN && mdcAvail <= MDC_LEN
    }

    /** Loaded and not yet given out. */
    ghost function Loaded(): (s: seq<Byte>)
      requires pos + avail <= buf.Length
      reads this, buf
    {
      buf[pos..pos + avail]
    }

    /** Given out, loaded and held back make up what was consumed; the first two are what was hashed. */
    ghost predicate Valid()
      reads this, src, digest, buf, mdc
    {
      && Shape() && mdcAvail == Min(MDC_LEN, |consumed|)
      && consumed == delivered + Loaded() + mdc[..mdcAvail] && ZeroTail()
      && (!eof ==> Hashing())
    }

    /** Nothing has been put after the held-back bytes. */
    ghost predicate ZeroTail()
      reads this`mdcAvail, mdc
    {
      forall k :: mdcAvail <= k < mdc.Length ==> mdc[k] == 0
    }

    /** Exactly the bytes given out or loaded have been hashed. */
    ghost predicate Hashing()
      requires pos + avail <= buf.Length
      reads this, digest, buf
    {
      digest.input == hashedBefore + delivered + Loaded()
    }

    /** mdcbuf_init. */
    constructor (src: Source, digest: Digest, hash: seq<Byte> -> seq<Byte>)
      requires src.Valid()
      ensures Valid() && !eof && avail == 0 && consumed == [] && delivered == [] && hashedBefore == digest.input
      ensures this.src == src && this.digest == digest && this.hash == hash && fresh(buf) && fresh(mdc)
    {
      this.src, this.digest, this.hash := src, digest, hash;
      buf := new Byte[BUFLEN](_ => 0);
      mdc := new Byte[MDC_LEN](_ => 0);
      eof, pos, avail, mdcAvail := false, 0, 0, 0;
      consumed, delivered, hashedBefore := [], [], digest.input;
    }

    /** mdcbuf_load_data: to the buffer and to the hash. */
    method LoadData(d: seq<Byte>)
      requires Shape() && pos + avail + |d| <= BUFLEN && Hashing()
      modifies this`avail, buf, digest
      ensures Shape() && avail == old(avail) + |d| && Loaded() == old(Loaded()) + d && Hashing()
    {
      Regrouped(hashedBefore + delivered, Loaded(), d);
      ghost var loaded := Loaded();
      forall k | 0 <= k < |d| { buf[pos + avail + k] := d[k]; }
      digest.Update(d);
      assert buf[pos..pos + avail] == loaded && buf[pos + avail..pos + avail + |d|] == d;
      avail := avail + |d|;
      assert Loaded() == loaded + d;
    }

    /** mdcbuf_load_mdc: to the held-back bytes. */
    method LoadMdc(d: seq<Byte>)
      requires Shape() && mdcAvail + |d| <= MDC_LEN
      modifies this`mdcAvail, mdc
      ensures Shape() && mdcAvail == old(mdcAvail) + |d| && mdc[..mdcAvail] == old(mdc[..mdcAvail]) + d
      ensures old(ZeroTail()) ==> ZeroTail()
    {
      forall k | 0 <= k < |d| { mdc[mdcAvail + k] := d[k]; }
      mdcAvail := mdcAvail + |d|;
    }

    /** mdcbuf_finish. */
    method Finish() returns (ok: bool)
      requires Valid() && !eof
      modifies this`eof, digest
      ensures Valid() && eof
      ensures ok <==> Accepted(hash, hashedBefore, consumed)
    {
      Checked();
      eof := true;
      if mdc[0] != 0xD3 || mdc[1] != 0x14 { return false; }
      digest.Update(mdc[..2]);
      ok := hash(digest.input) == mdc[2..];
    }

    /** A long read: everything held back is released, and the last 22 bytes take its place. */
    method TakeLong(data: seq<Byte>)
      requires Shape() && pos == 0 && !eof && |data| >= MDC_LEN && avail + mdcAvail + |data| <= BUFLEN + MDC_LEN
      requires Hashing()
      modifies this`avail, this`mdcAvail, buf, mdc, digest
      ensures Shape() && mdcAvail == MDC_LEN && avail == old(avail + mdcAvail) + |data| - MDC_LEN
      ensures Loaded() + mdc[..mdcAvail] == old(Loaded() + mdc[..mdcAvail]) + data
      ensures Hashing()
    {
      var cut := |data| - MDC_LEN;
      ghost var all := Loaded() + mdc[..mdcAvail];
      LoadData(mdc[..mdcAvail]);
      mdcAvail := 0;
      LoadData(data[..cut]);
      LoadMdc(data[cut..]);
      SplitEnd(all, data, cut);
    }

    /** A short read: only as much is released as makes room for the new bytes. */
    method TakeShort(data: seq<Byte>)
      requires Shape() && pos == 0 && !eof && |data| < MDC_LEN && avail + mdcAvail + |data| <= BUFLEN + MDC_LEN
      requires Hashing() && ZeroTail()
      modifies this`avail, this`mdcAvail, buf, mdc, digest
      ensures Shape() && mdcAvail == Min(MDC_LEN, old(mdcAvail) + |data|) && ZeroTail()
      ensures avail == old(avail + mdcAvail) + |data| - mdcAvail
      ensures Loaded() + mdc[..mdcAvail] == old(Loaded() + mdc[..mdcAvail]) + data
      ensures Hashing()
    {
      var canmove := mdcAvail + |data| - MDC_LEN;
      if canmove > 0 {
        ghost var loaded, held := Loaded(), mdc[..mdcAvail];
        assert mdc[..canmove] == held[..canmove];
        SplitEnd(loaded, held, canmove);
        LoadData(mdc[..canmove]);
        Slide(canmove);
      }
      ghost var before, kept := Loaded(), mdc[..mdcAvail];
      Regrouped(before, kept, data);
      LoadMdc(data);
    }

    /** memmove of the held-back bytes to the front. */
    method Slide(n: nat)
      requires Shape() && n <= mdcAvail
      modifies this`mdcAvail, mdc
      ensures Shape() && mdcAvail == old(mdcAvail) - n && mdc[..mdcAvail] == old(mdc[..mdcAvail])[n..]
    {
      mdcAvail := mdcAvail - n;
      forall k | 0 <= k < mdcAvail { mdc[k] := mdc[k + n]; }
    }

    /** Put the loaded bytes at the start of the buffer. */
    method MoveToStart()
      requires Valid()
      modifies this`pos, buf
      ensures Valid() && pos == 0 && Loaded() == old(Loaded())
    {
      if avail > 0 && pos != 0 {
        forall k | 0 <= k < avail { buf[k] := buf[pos + k]; }
      }
      pos := 0;
    }

    /** Add what was read to the buffer and the held-back bytes. */
    method Take(data: seq<Byte>)
      requires Valid() && pos == 0 && !eof && avail + mdcAvail + |data| <= BUFLEN + MDC_LEN
      modifies this`avail, this`mdcAvail, this`consumed, buf, mdc, digest
      ensures Valid() && consumed == old(consumed) + data
    {
      ghost var loaded, held := Loaded(), mdc[..mdcAvail];
      if |data| >= MDC_LEN {
        TakeLong(data);
      } else {
        TakeShort(data);
      }
      MoreConsumed(delivered, loaded, held, data, Loaded(), mdc[..mdcAvail]);
      consumed := consumed + data;
    }

    /** mdcbuf_refill: one read of the source, of at least one byte; at its end the check. */
    method Refill() returns (ok: bool)
      requires Valid() && !eof && avail < BUFLEN
      modifies this`eof, this`pos, this`avail, this`mdcAvail, this`consumed, buf, mdc, digest, src
      ensures Valid()
      ensures consumed + src.Rest() == old(consumed) + old(src.Rest())
      ensures eof <==> old(src.Rest()) == []
      ensures if eof then Kept(old(consumed), old(avail)) else |consumed| > |old(consumed)|
      ensures ok <==> eof ==> Accepted(hash, hashedBefore, consumed)
    {
      hide Hashing, ZeroTail, Accepted;
      MoveToStart();
      ghost var seen, rest := consumed, src.Rest();
      var need := BUFLEN + MDC_LEN - avail - mdcAvail;
      assert need >= 1;
      var data := src.Read(need);
      if data == [] {
        ok := Finish();
      } else {
        Take(data);
        Regrouped(seen, data, src.Rest());
        ok := true;
      }
    }

    ghost predicate Kept(was: seq<Byte>, loaded: nat)
      reads this
    {
      consumed == was && avail == loaded
    }

    /**
     mdcbuf_read: the next loaded bytes, after one refill when there are too few.
     With nothing loaded, nothing comes out of a real request exactly at the end of
     the data, or while no more than the held-back bytes have been seen.
     */
    method Read(len: nat) returns (ok: bool, d: seq<Byte>)
      requires Valid() && avail < BUFLEN
      modifies this`eof, this`pos, this`avail, this`mdcAvail, this`consumed, this`delivered, buf, mdc, digest, src
      ensures Valid() && avail < BUFLEN
      ensures consumed + src.Rest() == old(consumed) + old(src.Rest())
      ensures delivered == old(delivered) + d && |d| <= len
      ensures ok ==> (d == [] <==> len == 0 || (old(avail) == 0 && (eof || |consumed| <= MDC_LEN)))
      ensures old(eof) ==> ok && eof
      ensures !old(eof) ==> (eof <==> len > old(avail) && old(src.Rest()) == [])
      ensures if !old(eof) && len > old(avail) && !eof then |consumed| > |old(consumed)| else consumed == old(consumed)
      ensures !old(eof) ==> (ok <==> eof ==> Accepted(hash, hashedBefore, consumed))
    {
      ok, d := true, [];
      if !eof && len > avail {
        ok := Refill();
        if !ok { return; }
      }
      var n := if len > avail then avail else len;
      Deal(n);
      d := buf[pos - n..pos];
    }

    /** At every moment exactly the last 22 bytes consumed, or all if fewer, are held back. */
    lemma HeldBack()
      requires Valid()
      ensures delivered + Loaded() == consumed[..Before(consumed)] && mdc[..mdcAvail] == consumed[Before(consumed)..]
    {
      var given := delivered + Loaded();
      assert consumed[..|given|] == given && consumed[|given|..] == mdc[..mdcAvail];
    }

    /** The two things compared at the end, in terms of the bytes consumed. */
    lemma Checked()
      requires Valid() && !eof
      ensures mdc[..] == LastBytes(consumed) && digest.input == hashedBefore + consumed[..Before(consumed)]
    {
      HeldBack();
      Regrouped(hashedBefore, delivered, Loaded());
      assert mdc[mdcAvail..] == Zeroes(MDC_LEN - mdcAvail);
      assert mdc[..] == mdc[..mdcAvail] + mdc[mdcAvail..];
    }

    /** Give out the first n loaded bytes. */
    method Deal(n: nat)
      requires Valid() && n <= avail
      modifies this`pos, this`avail, this`delivered
      ensures Valid() && pos == old(pos) + n && avail == old(avail) - n
      ensures delivered == old(delivered) + buf[pos - n..pos]
      ensures hashedBefore + delivered + Loaded() == old(hashedBefore + delivered + Loaded())
    {
      ghost var given, loaded := delivered, Loaded();
      SplitEnd(given, loaded, n);
      delivered := delivered + loaded[..n];
      pos, avail := pos + n, avail - n;
      assert Loaded() == loaded[n..] && buf[pos - n..pos] == loaded[..n];
      Regrouped(hashedBefore, given, loaded);
      Regrouped(hashedBefore, delivered, Loaded());
    }
  }

  lemma MoreConsumed<T>(given: seq<T>, loaded: seq<T>, held: seq<T>, data: seq<T>, loaded': seq<T>, held': seq<T>)
    requires loaded' + held' == loaded + held + data
    ensures given + loaded' + held' == given + loaded + held + data
  {
    Regrouped(given, loaded', held');
    Regrouped(given, loaded, held);
    Regrouped(given, loaded + held, data);
  }

  /** The first read of a new buffer gives nothing, and is not the end, when 1 to 22 bytes of data follow. */
  method EmptyFirstRead(src: Source, digest: Digest, hash: seq<Byte> -> seq<Byte>) returns (m: MdcBuf, d: seq<Byte>)
    requires src.Valid() && 1 <= |src.Rest()| <= MDC_LEN
    modifies src, digest
    ensures d == [] && !m.eof && m.consumed != []
  {
    m := new MdcBuf(src, digest, hash);
    var ok;
    ok, d := m.Read(1);
  }

  /** Two bytes of data, read to the end without an error: the twenty bytes of the hash never came. */
  method CutOffRead(src: Source, digest: Digest, hash: seq<Byte> -> seq<Byte>) returns (ok: bool)
    requires src.Valid() && src.Rest() == [0xD3, 0x14] && hash(digest.input + [0xD3, 0x14]) == Zeroes(20)
    modifies src, digest
    ensures ok && src.Valid() && src.Rest() == []
  {
    hide Accepted, MdcBuf.Hashing, MdcBuf.ZeroTail;
    ghost var hashed, all := digest.input, src.Rest();
    CutOffAccepted(hash, hashed);
    var m := new MdcBuf(src, digest, hash);
    ok := true;
    var d;
    while ok && !m.eof
      invariant m.Valid() && m.avail < BUFLEN && m.src == src && m.hash == hash && m.hashedBefore == hashed
      invariant m.consumed + src.Rest() == all && m.digest == digest && fresh(m) && fresh(m.buf) && fresh(m.mdc)
      invariant ok && (m.eof ==> src.Rest() == [])
      decreases |src.Rest()|, !m.eof
    {
      ok, d := m.Read(m.avail + 1);
      assert m.eof ==> |src.Rest()| == 0 && m.consumed == all;
    }
  }
}
