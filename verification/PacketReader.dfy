/** The reading half of the packet stream: parse_new_len and pktreader_pull over any source. */
module PacketReader {
  import opened PacketLength
  import opened PacketWriter
  import opened Sequences
  import opened PowersOfTwo

  /** How many bytes a read may give: any number up to what is asked and there, but not none. */
  predicate ShortRead(n: nat, len: nat, avail: nat) {
    n <= len && n <= avail && (n == 0 <==> len == 0 || avail == 0)
  }

  /** A byte source read through pullf_read: a read may be short, and is empty only at the end. */
  class Source {
    const data: seq<Byte>
    var pos: nat

    ghost predicate Valid()
      reads this
    {
      pos <= |data|
    }

    /** The bytes not read yet. */
    ghost function Rest(): (r: seq<Byte>)
      requires Valid()
      reads this
    {
      data[pos..]
    }

    constructor (d: seq<Byte>)
      ensures Valid() && Rest() == d
    {
      data, pos := d, 0;
    }

    method Read(len: nat) returns (d: seq<Byte>)
      requires Valid()
      modifies this
      ensures Valid() && old(Rest()) == d + Rest() && |d| <= len
      ensures d == [] <==> len == 0 || old(Rest()) == []
    {
      assert ShortRead(if len == 0 || pos == |data| then 0 else 1, len, |data| - pos);
      var n: nat :| ShortRead(n, len, |data| - pos);
      assert ShortRead(n, len, |data| - pos);
      d := data[pos..pos + n];
      pos := pos + n;
    }

    /** GETBYTE: one byte, or none at the end. */
    method GetByte() returns (ok: bool, b: Byte)
      requires Valid()
      modifies this
      ensures Valid() && ok == (old(Rest()) != []) && (ok ==> old(Rest()) == [b] + Rest())
    {
      var d := Read(1);
      if d == [] { return false, 0; }
      ok, b := true, d[0];
      assert d == [b];
    }
  }

  /** parse_new_len: the header at the front of the source, which is then past it. */
  method ParseNewLen(src: Source) returns (ok: bool, kind: Kind, len: nat)
    requires src.Valid()
    modifies src
    ensures src.Valid()
    ensures ok == Parse(old(src.Rest())).Header?
    ensures ok ==> var h := Parse(old(src.Rest()));
      h == Header(kind, len, h.used) && src.Rest() == old(src.Rest())[h.used..]
  {
    hide Exp2;
    ghost var s := src.Rest();
    kind, len := Normal, 0;
    var b;
    ok, b := src.GetByte();
    if !ok { return; }
    assert src.Rest() == s[1..];
    if b <= 191 {
      len := b as int;
    } else if b <= 223 {
      var c;
      ok, c := src.GetByte();
      if !ok { return; }
      assert src.Rest() == s[2..];
      len := (b as int - 192) * 256 + 192 + c as int;
    } else if b == 255 {
      ok, len := GetFour(src, s);
    } else {
      kind, len := Stream, Exp2(b as int % 32);
      if len > MAX_CHUNK { return false, Stream, 0; }
    }
  }

  /** The four length bytes after a leading 255. */
  method GetFour(src: Source, ghost s: seq<Byte>) returns (ok: bool, len: nat)
    requires src.Valid() && |s| >= 1 && src.Rest() == s[1..] && s[0] == 255
    modifies src
    ensures src.Valid() && ok == Parse(s).Header? && (ok ==> Parse(s) == Header(Normal, len, 5) && src.Rest() == s[5..])
  {
    hide Head;
    len := 0;
    var v, i, b := 0, 0, 0;
    HeadNone(s);
    while i < 4
      invariant 0 <= i <= 4 && src.Valid() && 1 + i <= |s| && src.Rest() == s[1 + i..]
      invariant v == Head(s[1..1 + i])
    {
      ok, b := src.GetByte();
      if !ok { return; }
      HeadNext(s, i);
      v := 256 * v + b as int;
      i := i + 1;
    }
    HeadLong(s);
    ok := v <= MAX_CHUNK;
    if ok { len := v; }
  }

  function Head(s: seq<Byte>): (v: nat) {
    if s == [] then 0 else 256 * Head(s[..|s| - 1]) + s[|s| - 1] as int
  }

  lemma HeadNone(s: seq<Byte>)
    requires |s| >= 1
    ensures Head(s[1..1]) == 0
  {}

  lemma HeadNext(s: seq<Byte>, i: nat)
    requires 1 + i < |s|
    ensures Head(s[1..2 + i]) == 256 * Head(s[1..1 + i]) + s[1 + i] as int
  {
    assert s[1..2 + i][..i] == s[1..1 + i];
  }

  lemma HeadLong(s: seq<Byte>)
    requires |s| >= 5
    ensures Head(s[1..5]) == Long(s)
  {
    var t := s[1..5];
    assert t[..3][..2] == t[..2] && t[..2][..1] == t[..1] && t[..1][..0] == [];
    assert Head(t[..1]) == s[1] as int;
    assert Head(t[..2]) == 256 * s[1] as int + s[2] as int;
    assert Head(t[..3]) == 0x1_0000 * s[1] as int + 256 * s[2] as int + s[3] as int;
  }

  /** What a pull gives; no data means the end. */
  datatype Pulled = Data(d: seq<Byte>) | Corrupt

  /** Kind and bytes to go of the current chunk, and what the source still holds. */
  datatype State = State(kind: Kind, len: nat, rest: seq<Byte>)

  /** At most want bytes come out of the current chunk. */
  ghost predicate TakeStep(st: State, want: nat, d: seq<Byte>, st': State) {
    && |d| <= want && |d| <= st.len && d <= st.rest && st' == State(st.kind, st.len - |d|, st.rest[|d|..])
    && (d == [] <==> want == 0 || st.len == 0 || st.rest == [])
  }

  /** One pull: at the end of a stream chunk the next header is read first. */
  ghost predicate PullStep(st: State, want: nat, r: Pulled, st': State) {
    if st.kind == Context then
      r.Data? && r.d <= st.rest && |r.d| <= want && st' == State(Context, st.len, st.rest[|r.d|..])
        && (r.d == [] <==> want == 0 || st.rest == [])
    else if st.len == 0 && st.kind == Normal then r == Data([]) && st' == st
    else if st.len == 0 then
      var h := Parse(st.rest);
      if h.Header? then r.Data? && TakeStep(State(h.kind, h.len, st.rest[h.used..]), want, r.d, st') else r.Corrupt?
    else r.Data? && TakeStep(st, want, r.d, st')
  }

  /** The state of pktreader_pull: where it is in the current chunk. */
  class Reader {
    const src: Source
    var kind: Kind
    var len: nat

    ghost predicate Valid()
      reads this, src
    {
      src.Valid()
    }

    ghost function Now(): (st: State)
      requires Valid()
      reads this, src
    {
      State(kind, len, src.Rest())
    }

    /** pgp_create_pkt_reader with the kind and length of the first chunk. */
    constructor (src: Source, kind: Kind, len: nat)
      ensures this.src == src && this.kind == kind && this.len == len
    {
      this.src, this.kind, this.len := src, kind, len;
    }

    /** pktreader_pull. */
    method Pull(want: nat) returns (r: Pulled)
      requires Valid()
      modifies this, src
      ensures Valid() && PullStep(old(Now()), want, r, Now())
    {
      hide Parse;
      if kind == Context {
        ghost var all := src.Rest();
        var c := src.Read(want);
        assert src.Rest() == all[|c|..];
        return Data(c);
      }
      if len == 0 {
        if kind == Normal { return Data([]); }
        var ok;
        ok, kind, len := ParseNewLen(src);
        if !ok { return Corrupt; }
      }
      ghost var rest := src.Rest();
      var d := src.Read(if want > len then len else want);
      assert src.Rest() == rest[|d|..];
      len := len - |d|;
      r := Data(d);
    }
  }

  /** What the source holds inside a chunk with len bytes to go. */
  function Remaining(kind: Kind, len: nat, payload: seq<Byte>): (s: seq<Byte>)
    requires len <= |payload|
  {
    if kind == Normal then payload else payload[..len] + Frame(payload[len..])
  }

  /** The reader still has payload to deliver, and will leave the source at tail. */
  ghost predicate Carries(st: State, payload: seq<Byte>, tail: seq<Byte>) {
    && st.kind != Context && st.len <= |payload| && (st.kind == Normal ==> st.len == |payload|)
    && st.rest == Remaining(st.kind, st.len, payload) + tail
  }

  /** Reading the header of a frame: of its last chunk, or of a full one. */
  lemma LastHeader(payload: seq<Byte>, tail: seq<Byte>)
    requires |payload| < BLOCK
    ensures var s := Frame(payload) + tail; var h := Parse(s);
      h.Header? && h.kind == Normal && h.len == |payload| && s[h.used..] == payload + tail
  {
    hide Render, Parse, Frame;
    FrameLast(payload);
    ParseRender(|payload|, payload + tail);
    Regrouped(Render(|payload|), payload, tail);
  }

  lemma FullHeader(payload: seq<Byte>, tail: seq<Byte>)
    requires |payload| >= BLOCK
    ensures Parse(Frame(payload) + tail) == Header(Stream, BLOCK, 1)
    ensures (Frame(payload) + tail)[1..] == payload[..BLOCK] + Frame(payload[BLOCK..]) + tail
  {
    hide Render, Parse, Frame;
    FrameFull(payload);
    var c, f := payload[..BLOCK], Frame(payload[BLOCK..]);
    Regrouped([STREAM_BYTE], c, f);
    Regrouped([STREAM_BYTE], c + f, tail);
    StreamHeader(c + f + tail);
  }

  lemma StreamHeader(rest: seq<Byte>)
    ensures Parse([STREAM_BYTE] + rest) == Header(Stream, BLOCK, 1)
  {
    hide Exp2;
    StreamByte();
  }

  lemma FrameHeader(payload: seq<Byte>, tail: seq<Byte>)
    ensures var h := Parse(Frame(payload) + tail);
      h.Header? && Carries(State(h.kind, h.len, (Frame(payload) + tail)[h.used..]), payload, tail)
      && (h.len == 0 ==> payload == [] && h.kind == Normal)
  {
    hide Render, Parse, Frame;
    if |payload| < BLOCK {
      LastHeader(payload, tail);
    } else {
      FullHeader(payload, tail);
    }
  }

  lemma StreamByte()
    ensures Exp2(STREAM_BYTE as int % 32) == BLOCK
  {
    assert Exp2(4) == 16 && Exp2(8) == 256 && Exp2(12) == 4096;
  }

  lemma TakeCarries(st: State, want: nat, d: seq<Byte>, st': State, payload: seq<Byte>, tail: seq<Byte>)
    requires Carries(st, payload, tail) && TakeStep(st, want, d, st')
    requires want > 0 && (st.len == 0 ==> payload == [] && st.kind == Normal)
    ensures d <= payload && Carries(st', payload[|d|..], tail) && (d == [] <==> payload == [])
    ensures d == [] ==> st'.rest == tail
  {
    hide Frame;
    var n, len := |d|, st.len;
    if st.kind == Normal {
      CutFront(payload, tail, n);
      assert payload[n..][..len - n] == payload[n..];
    } else {
      var f := Frame(payload[len..]);
      Regrouped(payload[..len], f, tail);
      CutFront(payload[..len], f + tail, n);
      SliceSlice(payload, n, len);
      Regrouped(payload[n..][..len - n], f, tail);
    }
  }

  /** A pull delivers the next part of the payload; an empty one only at its end. */
  lemma PullCarries(st: State, want: nat, r: Pulled, st': State, payload: seq<Byte>, tail: seq<Byte>)
    requires Carries(st, payload, tail) && PullStep(st, want, r, st') && want > 0
    ensures r.Data? && r.d <= payload && Carries(st', payload[|r.d|..], tail) && (r.d == [] <==> payload == [])
    ensures r.d == [] ==> st'.rest == tail
  {
    hide Frame, Parse;
    if st.len == 0 && st.kind == Normal {
      assert payload[0..] == payload;
    } else if st.len == 0 {
      assert payload[..0] == [] && payload[0..] == payload;
      assert st.rest == Frame(payload) + tail;
      FrameHeader(payload, tail);
      var h := Parse(st.rest);
      TakeCarries(State(h.kind, h.len, st.rest[h.used..]), want, r.d, st', payload, tail);
    } else {
      TakeCarries(st, want, r.d, st', payload, tail);
    }
  }

  /**
   Read a framed payload to its end with any positive request sizes: exactly the
   payload comes out, and the source is left just past the frame.
   */
  method ReadAll(src: Source, sizes: nat -> nat, ghost payload: seq<Byte>, ghost tail: seq<Byte>)
    returns (got: seq<Byte>)
    requires src.Valid() && src.Rest() == Frame(payload) + tail && forall i :: sizes(i) > 0
    modifies src
    ensures got == payload && src.Valid() && src.Rest() == tail
  {
    hide Frame, Parse, Carries, PullStep;
    FrameHeader(payload, tail);
    var ok, kind, len := ParseNewLen(src);
    var reader := new Reader(src, kind, len);
    got := [];
    var i := 0;
    ghost var left := payload;
    var more := true;
    while more
      invariant reader.src == src && reader.Valid() && got + left == payload && fresh(reader)
      invariant Carries(reader.Now(), left, tail)
      invariant !more ==> left == [] && src.Rest() == tail
      decreases more, |left|
    {
      ghost var st := reader.Now();
      var r := reader.Pull(sizes(i));
      PullCarries(st, sizes(i), r, reader.Now(), left, tail);
      got := got + r.d;
      left := left[|r.d|..];
      more := r.d != [];
      i := i + 1;
    }
  }

  /**
   The whole trip: pieces written in any split, flushed, and read back in any
   request sizes from a source where tail follows the frame.
   */
  method RoundTrip(pieces: seq<seq<Byte>>, sizes: nat -> nat, tail: seq<Byte>) returns (got: seq<Byte>, rest: seq<Byte>)
    requires forall i :: sizes(i) > 0
    ensures got == Joined(pieces) && rest == tail
  {
    hide Frame;
    var sink := new Sink();
    var w := new Writer(sink);
    var i := 0;
    while i < |pieces|
      invariant i <= |pieces| && w.Valid() && w.written == Joined(pieces[..i]) && w.next == sink && w.before == []
      invariant fresh(w) && fresh(w.buf) && fresh(sink)
    {
      w.Write(pieces[i]);
      assert pieces[..i + 1][..i] == pieces[..i];
      i := i + 1;
    }
    assert pieces[..i] == pieces;
    w.Flush();
    var src := new Source(sink.data + tail);
    got := ReadAll(src, sizes, Joined(pieces), tail);
    rest := src.data[src.pos..];
  }
}
