/** SHA256_Update and SHA256_Last: input in any pieces is hashed as one padded message. */
module ShaStream {
  import opened Octets
  import opened Sequences
  import opened ShaSpec
  import opened ShaTransform

  /** Messages whose length in bits a 64-bit count can hold. */
  const MAX_BYTES: nat := 0x2000_0000_0000_0000

  lemma AbsorbBlock(h: Hash, m: seq<Octet>, block: seq<Octet>)
    requires h.Valid() && |m| % 64 == 0 && |block| == 64
    ensures Absorb(h, m + block) == Compress(h.k, Absorb(h, m), block)
  {
    hide Compress;
    assert (m + block)[..|m|] == m && (m + block)[|m|..] == block;
  }

  /** All but the last u bytes are absorbed; those are in the buffer. */
  ghost predicate Holding(c: Context, u: nat)
    reads c, c.state, c.buffer
  {
    && c.Shape() && u <= 64 && u <= |c.msg| < MAX_BYTES && (|c.msg| - u) % 64 == 0 && c.bitcount == 8 * |c.msg|
    && c.state[..] == Absorb(c.hash, c.msg[..|c.msg| - u]) && c.buffer[..u] == c.msg[|c.msg| - u..]
  }

  /** Between calls: fewer than 64 bytes are pending, as the bit count says. */
  ghost predicate Valid(c: Context)
    reads c, c.state, c.buffer
  {
    Holding(c, |c.msg| % 64)
  }

  /** memcpy to the buffer after the u bytes in it. */
  method Append(c: Context, u: nat, data: array<Octet>, off: nat, n: nat)
    requires Holding(c, u) && u + n <= 64 && off + n <= data.Length && data != c.buffer && |c.msg| + n < MAX_BYTES
    modifies c`bitcount, c`msg, c.buffer
    ensures Holding(c, u + n) && c.msg == old(c.msg) + data[off..off + n]
  {
    hide Absorb;
    ghost var m, d := c.msg, data[off..off + n];
    FillBuffer(c, u, data, off, n);
    c.bitcount := c.bitcount + 8 * n;
    c.msg := c.msg + d;
    Grown(m, d, u);
  }

  method FillBuffer(c: Context, u: nat, data: array<Octet>, off: nat, n: nat)
    requires c.Shape() && u + n <= 64 && off + n <= data.Length && data != c.buffer
    modifies c.buffer
    ensures c.buffer[..u + n] == old(c.buffer[..u]) + data[off..off + n]
  {
    forall k | 0 <= k < n { c.buffer[u + k] := data[off + k]; }
  }

  lemma Grown(m: seq<Octet>, d: seq<Octet>, u: nat)
    requires u <= |m|
    ensures var w := m + d; w[..|w| - (u + |d|)] == m[..|m| - u] && w[|w| - (u + |d|)..] == m[|m| - u..] + d
  {}

  /** Process the full buffer. */
  method ProcessBuffer(c: Context)
    requires Holding(c, 64)
    modifies c.state, c.buffer
    ensures Holding(c, 0)
  {
    hide Absorb, Compress;
    ghost var m := c.msg;
    var n := |m| - 64;
    assert c.buffer[0..64] == c.buffer[..64] == m[n..] && m == m[..n] + m[n..] && m[..|m|] == m;
    AbsorbBlock(c.hash, m[..n], m[n..]);
    c.Transform(c.buffer, 0);
    WholeAgain(|m|);
  }

  lemma WholeAgain(n: nat)
    requires n >= 64 && (n - 64) % 64 == 0
    ensures n % 64 == 0
  {}

  /** Process a block straight from the caller's data. */
  method ProcessBlock(c: Context, data: array<Octet>, off: nat)
    requires Holding(c, 0) && off + 64 <= data.Length && data != c.buffer && |c.msg| + 64 < MAX_BYTES
    modifies c`bitcount, c`msg, c.state, c.buffer
    ensures Holding(c, 0) && c.msg == old(c.msg) + data[off..off + 64]
  {
    hide Absorb, Compress;
    ghost var m, d := c.msg, data[off..off + 64];
    AbsorbBlock(c.hash, m, d);
    assert m[..|m|] == m && (m + d)[..|m| + 64] == m + d;
    c.Transform(data, off);
    c.bitcount := c.bitcount + 512;
    c.msg := c.msg + d;
  }

  /** SHA256_Update: any amount of data, any number of times. */
  method Update(c: Context, data: array<Octet>, len: nat)
    requires Valid(c) && len <= data.Length && data != c.buffer && |c.msg| + len < MAX_BYTES
    modifies c`bitcount, c`msg, c.state, c.buffer
    ensures Valid(c) && c.msg == old(c.msg) + data[..len]
  {
    hide Holding;
    if len == 0 { return; }
    HoldingCount(c, |c.msg| % 64);
    var used := c.bitcount / 8 % 64;
    var off := 0;
    if used > 0 {
      var free := 64 - used;
      if len >= free {
        Append(c, used, data, 0, free);
        off := free;
        ProcessBuffer(c);
      } else {
        Append(c, used, data, 0, len);
        HoldingLength(c, used + len);
        return;
      }
    }
    assert data[..0] == [] && data[0..off] == data[..off];
    if used == 0 { assert c.msg == old(c.msg) + data[..off]; }
    Blocks(c, data, len, off, old(c.msg));
  }

  /** From a block boundary on: whole blocks, and the rest to the buffer. */
  method Blocks(c: Context, data: array<Octet>, len: nat, from: nat, ghost m: seq<Octet>)
    requires Holding(c, 0) && from <= len <= data.Length && data != c.buffer
    requires |m| + len < MAX_BYTES && c.msg == m + data[..from]
    modifies c`bitcount, c`msg, c.state, c.buffer
    ensures Valid(c) && c.msg == m + data[..len]
  {
    hide Holding;
    var off := from;
    while len - off >= 64
      invariant from <= off <= len && Holding(c, 0) && c.msg == m + data[..off]
    {
      ProcessBlock(c, data, off);
      assert data[..off + 64] == data[..off] + data[off..off + 64];
      off := off + 64;
    }
    if off < len {
      Append(c, 0, data, off, len - off);
      assert data[..len] == data[..off] + data[off..len];
    }
    HoldingLength(c, len - off);
  }

  lemma HoldingCount(c: Context, u: nat)
    requires Holding(c, u)
    ensures c.bitcount == 8 * |c.msg|
  {}

  lemma HoldingLength(c: Context, u: nat)
    requires Holding(c, u) && u < 64
    ensures |c.msg| % 64 == u
  {
    var n := |c.msg|;
    var q := (n - u) / 64;
    assert n == 64 * q + u;
  }

  /** How the padding falls into blocks: in the one pending, or in it and one more. */
  lemma PaddingBlocks(m: seq<Octet>, u: nat)
    requires u == |m| % 64
    ensures var whole, rest := m[..|m| - u], m[|m| - u..];
      if u <= 55 then Padded(m) == whole + (rest + [0x80] + Repeat(0, 55 - u) + Count(8 * |m|))
      else Padded(m) == whole + (rest + [0x80] + Repeat(0, 63 - u)) + (Repeat(0, 56) + Count(8 * |m|))
  {
    hide Count;
    FillerIs(|m|, u);
    assert m == m[..|m| - u] + m[|m| - u..];
    if u > 55 { assert Repeat(0, Filler(|m|)) == Repeat(0, 63 - u) + Repeat(0, 56); }
  }

  lemma FillerIs(n: nat, u: nat)
    requires u == n % 64
    ensures Filler(n) == if u <= 55 then 55 - u else 119 - u
  {
    var q := n / 64;
    assert n == 64 * q + u;
    if u <= 55 {
      assert 55 - n == 64 * (0 - q) + (55 - u);
    } else {
      assert 55 - n == 64 * (0 - q - 1) + (119 - u);
    }
  }

  /** memset to zero of part of the buffer. */
  method ClearBuffer(c: Context, from: nat, to: nat)
    requires c.Shape() && from <= to <= 64
    modifies c.buffer
    ensures forall i :: 0 <= i < 64 ==> c.buffer[i] == if from <= i < to then 0 else old(c.buffer[i])
  {
    forall i | from <= i < to { c.buffer[i] := 0; }
  }

  /** The eight bytes of a 64-bit count as a little-endian host holds it. */
  function HostBytes(v: nat): (b: seq<Octet>)
    ensures |b| == 8
  {
    [ByteOf(v), ByteOf(v / 0x100), ByteOf(v / 0x1_0000), ByteOf(v / 0x100_0000),
     ByteOf(v / 0x1_0000_0000), ByteOf(v / 0x100_0000_0000), ByteOf(v / 0x1_0000_0000_0000),
     ByteOf(v / 0x100_0000_0000_0000)]
  }

  /** REVERSE64 on the bytes of a word: swap the halves, then neighbouring bytes, then neighbouring pairs. */
  method Reverse64(w: seq<Octet>) returns (x: seq<Octet>)
    requires |w| == 8
    ensures |x| == 8 && forall k :: 0 <= k < 8 ==> x[k] == w[7 - k]
  {
    x := w[4..] + w[..4];
    x := [x[1], x[0], x[3], x[2], x[5], x[4], x[7], x[6]];
    x := [x[2], x[3], x[0], x[1], x[6], x[7], x[4], x[5]];
  }

  /** The bit count in the last eight bytes: reversed as a word, then stored as the host holds it. */
  method StoreCount(c: Context)
    requires c.Shape()
    modifies c.buffer
    ensures c.buffer[..56] == old(c.buffer[..56]) && c.buffer[56..] == Count(c.bitcount)
  {
    hide ByteOf;
    var b := Reverse64(HostBytes(c.bitcount));
    forall i | 0 <= i < 8 { c.buffer[56 + i] := b[i]; }
    assert c.buffer[56..] == b;
    assert b == Count(c.bitcount);
  }

  /** The marker after the used bytes, and zeros up to offset to. */
  method Mark(c: Context, used: nat, to: nat)
    requires c.Shape() && used < to <= 64
    modifies c.buffer
    ensures c.buffer[..to] == old(c.buffer[..used]) + [0x80] + Repeat(0, to - used - 1)
  {
    c.buffer[used] := 0x80;
    ClearBuffer(c, used + 1, to);
  }

  /** Padding that does not fit before the count: the pending block is finished and processed. */
  method PadFull(c: Context, used: nat, ghost done: seq<Octet>, ghost rest: seq<Octet>)
    requires c.Shape() && 56 <= used < 64 && c.buffer[..used] == rest
    requires |done| % 64 == 0 && c.state[..] == Absorb(c.hash, done)
    modifies c.state, c.buffer
    ensures |rest + [0x80] + Repeat(0, 63 - used)| == 64 && (|done| + 64) % 64 == 0
    ensures c.state[..] == Absorb(c.hash, done + (rest + [0x80] + Repeat(0, 63 - used)))
    ensures c.buffer[..56] == Repeat(0, 56)
  {
    hide Absorb, Compress;
    ghost var block := rest + [0x80] + Repeat(0, 63 - used);
    Mark(c, used, 64);
    assert c.buffer[0..64] == c.buffer[..64] == block;
    AbsorbBlock(c.hash, done, block);
    c.Transform(c.buffer, 0);
    ClearBuffer(c, 0, 56);
    assert c.buffer[..56] == Repeat(0, 56);
  }

  /** The pending bytes, the marker and zeros up to the count, over one block or two. */
  method PadBuffer(c: Context) returns (ghost done: seq<Octet>)
    requires Valid(c)
    modifies c.state, c.buffer
    ensures |done| % 64 == 0 && c.state[..] == Absorb(c.hash, done)
    ensures Padded(c.msg) == done + (c.buffer[..56] + Count(8 * |c.msg|))
  {
    hide Absorb, Compress, Count, Padded, Holding;
    ghost var m := c.msg;
    PendingPart(c);
    var used := c.bitcount / 8 % 64;
    ghost var rest := m[|m| - used..];
    done := m[..|m| - used];
    PaddingBlocks(m, used);
    if used > 0 {
      if used + 1 <= 56 {
        Mark(c, used, 56);
      } else {
        PadFull(c, used, done, rest);
        done := done + (rest + [0x80] + Repeat(0, 63 - used));
      }
    } else {
      ClearBuffer(c, 0, 56);
      c.buffer[0] := 0x80;
      assert c.buffer[..56] == rest + [0x80] + Repeat(0, 55);
    }
  }

  lemma PendingPart(c: Context)
    requires Valid(c)
    ensures var m, u := c.msg, c.bitcount / 8 % 64;
      u == |m| % 64 && u <= |m| && |m[..|m| - u]| % 64 == 0 && c.Shape()
      && c.state[..] == Absorb(c.hash, m[..|m| - u]) && c.buffer[..u] == m[|m| - u..]
  {
    hide Absorb;
  }

  lemma HoldingLengthOnly(c: Context)
    requires Valid(c)
    ensures c.bitcount == 8 * |c.msg|
  {}

  /** SHA256_Last: the state is the fold of the compression function over the padded message. */
  method Last(c: Context)
    requires Valid(c)
    modifies c.state, c.buffer
    ensures |Padded(c.msg)| % 64 == 0 && c.state[..] == Absorb(c.hash, Padded(c.msg))
  {
    hide Absorb, Compress, Count, Padded;
    HoldingLengthOnly(c);
    PaddedWhole(c.msg);
    var done := PadBuffer(c);
    StoreCount(c);
    assert c.buffer[0..64] == c.buffer[..56] + c.buffer[56..];
    AbsorbBlock(c.hash, done, c.buffer[0..64]);
    c.Transform(c.buffer, 0);
  }

  /** A message in any pieces. */
  method HashPieces(h: Hash, pieces: seq<seq<Octet>>) returns (s: seq<Word>)
    requires h.Valid() && |Joined(pieces)| < MAX_BYTES
    ensures |Padded(Joined(pieces))| % 64 == 0 && s == Absorb(h, Padded(Joined(pieces)))
  {
    hide Absorb, Padded, Holding;
    var c := new Context(h);
    Started(c);
    var i := 0;
    while i < |pieces|
      invariant 0 <= i <= |pieces| && fresh(c) && fresh(c.state) && fresh(c.buffer)
      invariant Valid(c) && c.hash == h && c.msg == Joined(pieces[..i])
    {
      assert pieces[..i + 1][..i] == pieces[..i];
      JoinedShorter(pieces, i + 1);
      var d := new Octet[|pieces[i]|](k => if 0 <= k < |pieces[i]| then pieces[i][k] else 0);
      assert d[..|pieces[i]|] == pieces[i];
      Update(c, d, |pieces[i]|);
      i := i + 1;
    }
    assert pieces[..i] == pieces;
    Last(c);
    s := c.state[..];
  }

  lemma Started(c: Context)
    requires c.Shape() && c.bitcount == 0 && c.msg == [] && c.state[..] == c.hash.init
    ensures Valid(c)
  {}

  lemma {:induction false} JoinedShorter(pieces: seq<seq<Octet>>, i: nat)
    requires i <= |pieces|
    ensures |Joined(pieces[..i])| <= |Joined(pieces)|
    decreases |pieces|
  {
    if i == |pieces| {
      assert pieces[..i] == pieces;
    } else {
      assert pieces[..|pieces| - 1][..i] == pieces[..i];
      JoinedShorter(pieces[..|pieces| - 1], i);
    }
  }
}
