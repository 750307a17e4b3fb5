/** Text mode: LF to CR LF on the way in (crlf_process), CR LF to LF on the way out (copy_crlf). */
module LineEndings {
  import opened PacketLength
  import opened PacketWriter
  import opened Sequences

  const CR: Byte := 13
  const LF: Byte := 10
  const TMP_LEN: nat := 1024

  /** Every LF becomes CR LF. */
  function Expand(x: seq<Byte>): (y: seq<Byte>) {
    if x == [] then []
    else Expand(x[..|x| - 1]) + if x[|x| - 1] == LF then [CR, LF] else [x[|x| - 1]]
  }

  predicate EndsInCr(t: seq<Byte>) {
    t != [] && t[|t| - 1] == CR
  }

  /** Every CR LF becomes LF. */
  function Squeeze(t: seq<Byte>): (x: seq<Byte>)
    ensures EndsInCr(t) ==> EndsInCr(x)
  {
    if t == [] then []
    else
      var u, b := t[..|t| - 1], t[|t| - 1];
      var y := Squeeze(u);
      if b == LF && EndsInCr(u) then y[..|y| - 1] + [LF] else y + [b]
  }

  /** What has been written while a CR at the end still waits for what follows it. */
  function Settled(t: seq<Byte>): (x: seq<Byte>) {
    var y := Squeeze(t);
    if EndsInCr(t) then y[..|y| - 1] else y
  }

  lemma SqueezeNext(t: seq<Byte>, b: Byte)
    ensures Squeeze(t + [b]) == if b == LF && EndsInCr(t) then Settled(t) + [LF] else Squeeze(t) + [b]
  {
    assert (t + [b])[..|t|] == t;
  }

  lemma {:induction false} ExpandConcat(a: seq<Byte>, b: seq<Byte>)
    ensures Expand(a + b) == Expand(a) + Expand(b)
  {
    if b == [] {
      assert a + b == a;
    } else {
      var n := |b| - 1;
      assert (a + b)[..|a| + n] == a + b[..n];
      ExpandConcat(a, b[..n]);
    }
  }

  /** Squeezing undoes expanding, for lone CRs and existing CR LFs too. */
  lemma {:induction false} SqueezeExpand(x: seq<Byte>)
    ensures Squeeze(Expand(x)) == x && EndsInCr(Expand(x)) == EndsInCr(x)
  {
    hide Squeeze;
    if x == [] {
      SqueezeNone();
    } else {
      var y, b := x[..|x| - 1], x[|x| - 1];
      var e := Expand(y);
      SqueezeExpand(y);
      assert x == y + [b];
      if b == LF {
        assert Expand(x) == e + [CR] + [LF];
        SqueezeNext(e, CR);
        SqueezeNext(e + [CR], LF);
        assert Settled(e + [CR]) == y;
      } else {
        SqueezeNext(e, b);
      }
    }
  }

  lemma SqueezeNone()
    ensures Squeeze([]) == []
  {}

  /** A stretch without LF stays as it is. */
  lemma {:induction false} ExpandPlain(d: seq<Byte>)
    requires LF !in d
    ensures Expand(d) == d
  {
    if d != [] {
      ExpandPlain(d[..|d| - 1]);
      assert d == d[..|d| - 1] + [d[|d| - 1]];
    }
  }

  /** memchr for LF, or the end. */
  method FindLf(data: seq<Byte>, from: nat) returns (p: nat)
    requires from <= |data|
    ensures from <= p <= |data| && LF !in data[from..p] && (p < |data| ==> data[p] == LF)
  {
    p := from;
    while p < |data| && data[p] != LF
      invariant from <= p <= |data| && LF !in data[from..p]
    {
      p := p + 1;
    }
  }

  /** crlf_process: line by line to the next filter. */
  method CrlfProcess(dst: Sink, data: seq<Byte>)
    modifies dst
    ensures dst.data == old(dst.data) + Expand(data)
  {
    hide Expand;
    ExpandNone();
    var p1 := 0;
    while p1 < |data|
      invariant p1 <= |data| && dst.data == old(dst.data) + Expand(data[..p1])
    {
      var p2 := FindLf(data, p1);
      if p2 > p1 {
        ExpandPlain(data[p1..p2]);
        ExpandConcat(data[..p1], data[p1..p2]);
        assert data[..p2] == data[..p1] + data[p1..p2];
        dst.Append(data[p1..p2]);
        p1 := p2;
      }
      p1 := WriteLfs(dst, data, p1, old(dst.data));
    }
    assert data[..p1] == data;
  }

  /** The run of LFs at p, each written as CR LF. */
  method WriteLfs(dst: Sink, data: seq<Byte>, p: nat, ghost before: seq<Byte>) returns (p1: nat)
    requires p <= |data| && dst.data == before + Expand(data[..p])
    modifies dst
    ensures p <= p1 <= |data| && dst.data == before + Expand(data[..p1])
    ensures p < |data| && data[p] == LF ==> p < p1
  {
    hide Expand;
    p1 := p;
    while p1 < |data| && data[p1] == LF
      invariant p <= p1 <= |data| && dst.data == before + Expand(data[..p1])
    {
      ExpandLf(data, p1);
      dst.Append([CR, LF]);
      p1 := p1 + 1;
    }
  }

  lemma ExpandLf(data: seq<Byte>, p: nat)
    requires p < |data| && data[p] == LF
    ensures Expand(data[..p + 1]) == Expand(data[..p]) + [CR, LF]
  {
    assert data[..p + 1][..p] == data[..p];
  }

  lemma ExpandNone()
    ensures Expand([]) == []
  {}

  /** What must be out before next is looked at: a CR waits only for an LF. */
  function Owed(u: seq<Byte>, next: Byte): (x: seq<Byte>) {
    if EndsInCr(u) && next == LF then Settled(u) else Squeeze(u)
  }

  /** Bytes out so far, when u has been read and rest is still to come. */
  ghost predicate InStep(out: seq<Byte>, before: seq<Byte>, u: seq<Byte>, rest: seq<Byte>) {
    if rest == [] then out == before + Squeeze(u) && !EndsInCr(u) else out == before + Owed(u, rest[0])
  }

  lemma CopyStep(out: seq<Byte>, before: seq<Byte>, u: seq<Byte>, rest: seq<Byte>)
    requires rest != [] && InStep(out, before, u, rest) && (rest[0] == CR ==> |rest| >= 2 && rest[1] != LF)
    ensures InStep(out + [rest[0]], before, u + [rest[0]], rest[1..])
  {
    hide Squeeze;
    SqueezeNext(u, rest[0]);
  }

  lemma SkipStep(out: seq<Byte>, before: seq<Byte>, u: seq<Byte>, rest: seq<Byte>)
    requires |rest| >= 2 && rest[0] == CR && rest[1] == LF && InStep(out, before, u, rest)
    ensures InStep(out + [LF], before, u + [CR] + [LF], rest[2..])
  {
    hide Squeeze;
    SqueezeNext(u, CR);
    SqueezeNext(u + [CR], LF);
    assert Settled(u + [CR]) == Squeeze(u);
  }

  lemma WaitStep(out: seq<Byte>, before: seq<Byte>, u: seq<Byte>, rest: seq<Byte>)
    requires rest == [CR] && InStep(out, before, u, rest)
    ensures out == before + Settled(u + rest) && EndsInCr(u + rest)
  {
    hide Squeeze;
    SqueezeNext(u, CR);
  }

  /** Add a byte to the buffer, emptying it into dst when it is full. */
  method Emit(dst: Sink, tmp: array<Byte>, p: nat, b: Byte) returns (p': nat)
    requires p < tmp.Length == TMP_LEN
    modifies dst, tmp
    ensures p' < TMP_LEN && dst.data + tmp[..p'] == old(dst.data + tmp[..p]) + [b]
  {
    tmp[p] := b;
    p' := p + 1;
    if p' >= tmp.Length {
      assert tmp[..p'] == old(tmp[..p]) + [b];
      dst.Append(tmp[..p']);
      p' := 0;
    }
  }

  /** copy_crlf: one chunk, with the CR that ended the last one. */
  method CopyCrlf(dst: Sink, data: seq<Byte>, gotCr: bool, ghost before: seq<Byte>, ghost t: seq<Byte>)
    returns (got: bool)
    requires data != [] && dst.data == before + Settled(t) && gotCr == EndsInCr(t)
    modifies dst
    ensures dst.data == before + Settled(t + data) && got == EndsInCr(t + data)
  {
    hide Squeeze, InStep;
    var tmp := new Byte[TMP_LEN];
    var p, i := 0, 0;
    got := false;
    ghost var out := dst.data;
    assert tmp[..0] == [];
    if gotCr {
      if data[0] != LF {
        p := Emit(dst, tmp, p, CR);
        out := out + [CR];
      }
    }
    FirstStep(out, before, t, data);
    assert data[..0] == [] && t + [] == t && data[0..] == data;
    while i < |data| && !got
      invariant i <= |data| && 0 <= p < TMP_LEN && dst.data + tmp[..p] == out && fresh(tmp)
      invariant if got then i + 1 == |data| && out == before + Settled(t + data) && EndsInCr(t + data)
        else InStep(out, before, t + data[..i], data[i..])
      decreases |data| - i, !got
    {
      Slices(t, data, i);
      var j := i;
      if data[j] == CR && j + 1 == |data| {
        WaitStep(out, before, t + data[..i], data[i..]);
        got := true;
      } else {
        if data[j] == CR && data[j + 1] == LF {
          SkipStep(out, before, t + data[..i], data[i..]);
          Slices(t, data, i + 1);
          j := j + 1;
        } else {
          CopyStep(out, before, t + data[..i], data[i..]);
        }
        p := Emit(dst, tmp, p, data[j]);
        out := out + [data[j]];
        i := j + 1;
      }
    }
    if !got { LastStep(out, before, t + data[..i], data[i..]); }
    assert data[..|data|] == data && (p == 0 ==> tmp[..p] == []);
    if p > 0 {
      dst.Append(tmp[..p]);
    }
  }

  lemma FirstStep(out: seq<Byte>, before: seq<Byte>, t: seq<Byte>, data: seq<Byte>)
    requires data != [] && out == before + Settled(t) + (if EndsInCr(t) && data[0] != LF then [CR] else [])
    ensures InStep(out, before, t, data)
  {
    hide Squeeze;
    var y := Squeeze(t);
    assert EndsInCr(t) ==> y == y[..|y| - 1] + [CR];
  }

  lemma LastStep(out: seq<Byte>, before: seq<Byte>, u: seq<Byte>, rest: seq<Byte>)
    requires rest == [] && InStep(out, before, u, rest)
    ensures out == before + Settled(u) && !EndsInCr(u)
  {}

  lemma Slices(t: seq<Byte>, data: seq<Byte>, i: nat)
    requires i < |data|
    ensures t + data[..i + 1] == t + data[..i] + [data[i]]
    ensures data[i..][1..] == data[i + 1..] && data[i..] == [data[i]] + data[i + 1..]
    ensures i + 2 <= |data| ==> data[i..][2..] == data[i + 2..]
    ensures i + 1 == |data| ==> t + data[..i] + data[i..] == t + data
  {}

  /**
   The read loop of parse_literal_data in text mode: any split into non-empty
   chunks, and a CR still waiting at the end is written.
   */
  method ReadText(dst: Sink, chunks: seq<seq<Byte>>)
    requires forall k :: 0 <= k < |chunks| ==> chunks[k] != []
    modifies dst
    ensures dst.data == old(dst.data) + Squeeze(Joined(chunks))
  {
    hide Squeeze;
    SqueezeNone();
    var got := false;
    var i := 0;
    ghost var before := dst.data;
    while i < |chunks|
      invariant i <= |chunks| && dst.data == before + Settled(Joined(chunks[..i]))
      invariant got == EndsInCr(Joined(chunks[..i]))
    {
      assert chunks[..i + 1][..i] == chunks[..i];
      got := CopyCrlf(dst, chunks[i], got, before, Joined(chunks[..i]));
      i := i + 1;
    }
    assert chunks[..i] == chunks;
    if got {
      dst.Append([CR]);
    }
  }

  /** Text written through the filter in any pieces. */
  method WriteText(dst: Sink, pieces: seq<seq<Byte>>)
    modifies dst
    ensures dst.data == old(dst.data) + Expand(Joined(pieces))
  {
    hide Expand;
    ExpandNone();
    var i := 0;
    while i < |pieces|
      invariant i <= |pieces| && dst.data == old(dst.data) + Expand(Joined(pieces[..i]))
    {
      assert pieces[..i + 1][..i] == pieces[..i];
      ExpandConcat(Joined(pieces[..i]), pieces[i]);
      CrlfProcess(dst, pieces[i]);
      i := i + 1;
    }
    assert pieces[..i] == pieces;
  }

  /** Data as it arrives: in chunks of any sizes, the last of size(i), the one before it of size(i + 1), and so on. */
  function Chunked(data: seq<Byte>, size: nat -> nat, i: nat): (chunks: seq<seq<Byte>>)
    ensures Joined(chunks) == data && forall k :: 0 <= k < |chunks| ==> chunks[k] != []
    decreases |data|
  {
    if data == [] then []
    else
      var n := if 0 < size(i) < |data| then |data| - size(i) else 0;
      var front := Chunked(data[..n], size, i + 1);
      var all := front + [data[n..]];
      assert all[..|all| - 1] == front;
      all
  }

  /** Text written through the filter in any pieces and read back in any chunks is the same text. */
  method RoundTrip(pieces: seq<seq<Byte>>, size: nat -> nat) returns (text: seq<Byte>)
    ensures text == Joined(pieces)
  {
    hide Squeeze, Expand;
    var packet := new Sink();
    WriteText(packet, pieces);
    assert packet.data == Expand(Joined(pieces));
    SqueezeExpand(Joined(pieces));
    var dst := new Sink();
    ReadText(dst, Chunked(packet.data, size, 0));
    assert dst.data == Squeeze(packet.data);
    text := dst.data;
  }

  /** The text without the carriage returns that stand right before a line feed, read from the front. */
  function WithoutCr(t: seq<Byte>): (x: seq<Byte>) {
    if t == [] then []
    else if t[0] == CR && |t| > 1 && t[1] == LF then WithoutCr(t[1..])
    else [t[0]] + WithoutCr(t[1..])
  }

  lemma {:induction false} WithoutCrNext(u: seq<Byte>, b: Byte)
    ensures var y := WithoutCr(u);
      && (EndsInCr(u) ==> EndsInCr(y))
      && WithoutCr(u + [b]) == if b == LF && EndsInCr(u) then y[..|y| - 1] + [LF] else y + [b]
    decreases |u|
  {
    var t := u + [b];
    if u == [] {
      assert t[1..] == [];
    } else {
      assert t[1..] == u[1..] + [b];
      WithoutCrNext(u[1..], b);
      if |u| == 1 {
        assert u[1..] == [] && u == [u[0]];
      } else {
        assert t[1] == u[1] && u[|u| - 1] == u[1..][|u| - 2];
      }
    }
  }

  /** What is taken out of a text are exactly the carriage returns right before a line feed. */
  lemma {:induction false} SqueezeIs(t: seq<Byte>)
    ensures Squeeze(t) == WithoutCr(t)
  {
    if t != [] {
      var n := |t| - 1;
      SqueezeIs(t[..n]);
      WithoutCrNext(t[..n], t[n]);
      assert t == t[..n] + [t[n]];
    }
  }

  function Feeds(x: seq<Byte>): (n: nat) {
    if x == [] then 0 else Feeds(x[..|x| - 1]) + if x[|x| - 1] == LF then 1 else 0
  }

  /** What is put in is one carriage return for every line feed, right before it. */
  lemma {:induction false} ExpandIs(x: seq<Byte>)
    ensures |Expand(x)| == |x| + Feeds(x)
    ensures forall i :: 0 <= i < |Expand(x)| && Expand(x)[i] == LF ==> i > 0 && Expand(x)[i - 1] == CR
  {
    if x != [] { ExpandIs(x[..|x| - 1]); }
  }
}
