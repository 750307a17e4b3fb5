/**
 The writing half of the packet stream: pushf_write and pushf_flush driving
 pkt_stream_process and pkt_stream_flush, in blocks of 2^14 bytes.
 */
module PacketWriter {
  import opened PacketLength
  import opened PowersOfTwo

  const BLOCK: nat := 16384
  const STREAM_BYTE: Byte := 0xEE

  /** Whole blocks, each behind its partial-length byte. */
  function FullChunks(p: seq<Byte>): (f: seq<Byte>)
    requires |p| % BLOCK == 0
  {
    if p == [] then [] else [STREAM_BYTE] + p[..BLOCK] + FullChunks(p[BLOCK..])
  }

  /** The framed form of a payload: full chunks, then one terminal chunk with what is left. */
  function Frame(p: seq<Byte>): (f: seq<Byte>) {
    if |p| < BLOCK then Render(|p|) + p else [STREAM_BYTE] + p[..BLOCK] + Frame(p[BLOCK..])
  }

  lemma FrameLast(p: seq<Byte>)
    requires |p| < BLOCK
    ensures Frame(p) == Render(|p|) + p
  {}

  lemma FrameFull(p: seq<Byte>)
    requires |p| >= BLOCK
    ensures Frame(p) == [STREAM_BYTE] + p[..BLOCK] + Frame(p[BLOCK..])
  {}

  lemma FullOne(p: seq<Byte>, rest: seq<Byte>)
    requires |p| == BLOCK && |rest| % BLOCK == 0
    ensures FullChunks(p + rest) == [STREAM_BYTE] + p + FullChunks(rest)
  {
    assert (p + rest)[..BLOCK] == p && (p + rest)[BLOCK..] == rest;
  }

  lemma {:induction false} FullAppend(p: seq<Byte>, c: seq<Byte>)
    requires |p| % BLOCK == 0 && |c| == BLOCK
    ensures FullChunks(p + c) == FullChunks(p) + [STREAM_BYTE] + c
    decreases |p|
  {
    hide FullChunks;
    FullNone();
    if p == [] {
      assert p + c == c + [];
      FullOne(c, []);
    } else {
      var h, t := p[..BLOCK], p[BLOCK..];
      assert p == h + t && p + c == h + (t + c);
      FullOne(h, t);
      FullOne(h, t + c);
      FullAppend(t, c);
    }
  }

  lemma FullNone()
    ensures FullChunks([]) == []
  {}

  lemma {:induction false} FrameSplit(p: seq<Byte>, r: seq<Byte>)
    requires |p| % BLOCK == 0 && |r| < BLOCK
    ensures Frame(p + r) == FullChunks(p) + Render(|r|) + r
  {
    if p == [] {
      assert p + r == r;
    } else {
      assert (p + r)[..BLOCK] == p[..BLOCK] && (p + r)[BLOCK..] == p[BLOCK..] + r;
      FrameSplit(p[BLOCK..], r);
    }
  }

  /** Where the output goes: an MBuf that is only appended to. */
  class Sink {
    var data: seq<Byte>

    constructor ()
      ensures data == []
    {
      data := [];
    }

    /** mbuf_append. */
    method Append(d: seq<Byte>)
      modifies this
      ensures data == old(data) + d
    {
      data := data + d;
    }
  }

  class Writer {
    const next: Sink
    const buf: array<Byte>
    var pos: nat
    var finalDone: bool
    /** Everything handed to Write so far, and what the sink held at the start. */
    ghost var written: seq<Byte>
    ghost const before: seq<Byte>

    /** Whole blocks have gone out; the rest waits in the buffer. */
    ghost predicate Valid()
      reads this, next, buf
    {
      && buf.Length == BLOCK && pos <= BLOCK && !finalDone && pos <= |written|
      && var sent := |written| - pos;
         sent % BLOCK == 0 && written[sent..] == buf[..pos] && next.data == before + FullChunks(written[..sent])
    }

    /** pushf_create with pkt_stream_init. */
    constructor (sink: Sink)
      ensures Valid() && written == [] && next == sink && before == sink.data && fresh(buf)
    {
      next := sink;
      buf := new Byte[BLOCK](_ => 0);
      pos, finalDone := 0, false;
      written, before := [], sink.data;
      new;
      assert written[..0] == [] && buf[..0] == [];
    }

    /** pkt_stream_process: the chunk that is not a whole block is the last; a chunk after it is a bug. */
    method Process(d: seq<Byte>) returns (bug: bool)
      requires |d| <= BLOCK
      modifies this`finalDone, next
      ensures bug == old(finalDone)
      ensures !bug ==> finalDone == (|d| != BLOCK)
      ensures !bug ==> next.data == old(next.data) + (if |d| == BLOCK then [STREAM_BYTE] else Render(|d|)) + d
      ensures bug ==> finalDone && next.data == old(next.data)
    {
      if finalDone { return true; }
      var hdr := [STREAM_BYTE];
      if |d| != BLOCK {
        hdr := Render(|d|);
        finalDone := true;
      }
      next.Append(hdr);
      next.Append(d);
      bug := false;
    }

    /** Send the whole buffer. */
    method SendBuffer()
      requires Valid() && pos == BLOCK
      modifies this`pos, this`finalDone, next
      ensures Valid() && pos == 0 && written == old(written)
    {
      hide FullChunks;
      ghost var sent := |written| - pos;
      assert buf[..BLOCK] == buf[..];
      FullAppend(written[..sent], buf[..]);
      assert written == written[..sent] + buf[..];
      var bug := Process(buf[..]);
      assert !bug;
      pos := 0;
      assert written[..|written|] == written;
    }

    /** Send a block straight from the caller's data. */
    method SendBlock(d: seq<Byte>)
      requires Valid() && pos == 0 && |d| == BLOCK
      modifies this`finalDone, this`written, next
      ensures Valid() && written == old(written) + d
    {
      hide FullChunks;
      assert written[..|written|] == written;
      FullAppend(written, d);
      var bug := Process(d);
      assert !bug;
      written := written + d;
      assert written[..|written|] == written;
    }

    /** memcpy to the end of the buffer. */
    method Store(d: seq<Byte>)
      requires Valid() && pos + |d| <= BLOCK
      modifies this`pos, this`written, buf
      ensures Valid() && pos == old(pos) + |d| && written == old(written) + d
    {
      hide FullChunks;
      ghost var sent := |written| - pos;
      ghost var old1, oldw := buf[..pos], written;
      forall k | 0 <= k < |d| { buf[pos + k] := d[k]; }
      assert buf[..pos + |d|] == old1 + d;
      pos := pos + |d|;
      written := written + d;
      assert written[..sent] == oldw[..sent] && written[sent..] == oldw[sent..] + d;
    }

    /** pushf_write: takes all of the data, sends what fills a block. */
    method Write(data: seq<Byte>)
      requires Valid()
      modifies this`pos, this`finalDone, this`written, buf, next
      ensures Valid() && written == old(written) + data
    {
      hide FullChunks, Valid;
      SmallPos();
      var need := BLOCK - pos;
      var off := 0;
      if need > 0 {
        if |data| < need {
          Store(data);
          return;
        }
        Store(data[..need]);
        off := need;
      }
      SendBuffer();
      while off < |data|
        invariant Valid() && off <= |data| && written == old(written) + data[..off]
        invariant off < |data| ==> pos == 0
      {
        if |data| - off > BLOCK {
          SendBlock(data[off..off + BLOCK]);
          assert data[..off + BLOCK] == data[..off] + data[off..off + BLOCK];
          off := off + BLOCK;
        } else {
          Store(data[off..]);
          assert data == data[..off] + data[off..];
          off := |data|;
        }
      }
      assert data[..off] == data;
    }

    lemma SmallPos()
      requires Valid()
      ensures pos <= BLOCK
    {}

    /** pushf_flush with pkt_stream_flush: the terminal chunk, exactly once. */
    method Flush()
      requires Valid()
      modifies this`finalDone, next
      ensures next.data == before + Frame(written) && finalDone
    {
      hide FullChunks, Frame, Render;
      ghost var sent := |written| - pos;
      FlushMath(written, buf[..pos], sent);
      var bug := Process(buf[..pos]);
      assert !bug;
      if !finalDone {
        next.Append(Render(0));
        finalDone := true;
      }
    }
  }

  /** What the flush has to add to the blocks already out. */
  lemma FlushMath(w: seq<Byte>, r: seq<Byte>, sent: nat)
    requires sent <= |w| && sent % BLOCK == 0 && w[sent..] == r && |r| <= BLOCK
    ensures |r| < BLOCK ==> Frame(w) == FullChunks(w[..sent]) + Render(|r|) + r
    ensures |r| == BLOCK ==> Frame(w) == FullChunks(w[..sent]) + [STREAM_BYTE] + r + Render(0)
  {
    hide FullChunks, Frame, Render;
    assert w == w[..sent] + r;
    if |r| < BLOCK {
      FrameSplit(w[..sent], r);
    } else {
      FlushFull(w[..sent], r);
    }
  }

  lemma FlushFull(p: seq<Byte>, r: seq<Byte>)
    requires |p| % BLOCK == 0 && |r| == BLOCK
    ensures Frame(p + r) == FullChunks(p) + [STREAM_BYTE] + r + Render(0)
  {
    hide FullChunks, Frame, Render;
    FullAppend(p, r);
    OneMoreBlock(|p|);
    FrameSplit(p + r, []);
    assert p + r + [] == p + r;
  }

  lemma OneMoreBlock(n: nat)
    requires n % BLOCK == 0
    ensures (n + BLOCK) % BLOCK == 0
  {}

  /** The byte before a whole block announces a part of exactly that size. */
  lemma BlockAnnounced(rest: seq<Byte>)
    ensures Parse([STREAM_BYTE] + rest) == Header(Stream, BLOCK, 1)
  {
    hide Exp2;
    PartialOctet([STREAM_BYTE] + rest);
    FourteenBits();
  }

  lemma FourteenBits()
    ensures Exp2(14) == BLOCK
  {
    assert Exp2(4) == 16;
    assert Exp2(8) == 256;
    assert Exp2(12) == 4096;
  }

  /** A payload of 200 bytes goes out behind the header C0 08. */
  lemma FrameExample(p: seq<Byte>)
    requires |p| == 200
    ensures Frame(p) == [0xC0, 0x08] + p
  {
    HeaderExamples();
  }
}
