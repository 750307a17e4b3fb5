/**
 SHA256_Transform in its rolled form.  The 64-byte buffer that holds pending input
 is also the 16-word window of the schedule, and the block may be that very buffer.
 */
module ShaTransform {
  import opened Octets
  import opened ShaSpec
  import opened Words

  function LittleEndian(b0: Octet, b1: Octet, b2: Octet, b3: Octet): (w: Word) {
    (b0 as Word) | ((b1 as Word) << 8) | ((b2 as Word) << 16) | ((b3 as Word) << 24)
  }

  function Octet0(w: Word): (b: Octet) { (w & 0xFF) as Octet }
  function Octet1(w: Word): (b: Octet) { ((w >> 8) & 0xFF) as Octet }
  function Octet2(w: Word): (b: Octet) { ((w >> 16) & 0xFF) as Octet }
  function Octet3(w: Word): (b: Octet) { ((w >> 24) & 0xFF) as Octet }

  lemma WordRoundTrip(w: Word)
    ensures LittleEndian(Octet0(w), Octet1(w), Octet2(w), Octet3(w)) == w
  {}

  /** The buffer seen as 16 words of the host. */
  function View(b: seq<Octet>): (w: seq<Word>)
    requires |b| == 64
    ensures |w| == 16
  {
    seq(16, j requires 0 <= j < 16 => LittleEndian(b[4 * j], b[4 * j + 1], b[4 * j + 2], b[4 * j + 3]))
  }

  class Context {
    const hash: Hash
    const state: array<Word>
    const buffer: array<Octet>
    var bitcount: nat
    /** All bytes taken in so far. */
    ghost var msg: seq<Octet>

    ghost predicate Shape()
      reads this
    {
      hash.Valid() && state.Length == 8 && buffer.Length == 64
    }

    /** SHA256_Init. */
    constructor (hash: Hash)
      requires hash.Valid()
      ensures Shape() && this.hash == hash && fresh(state) && fresh(buffer) && bitcount == 0 && msg == []
      ensures state[..] == hash.init
    {
      this.hash := hash;
      state := new Word[8](i => if 0 <= i < |hash.init| then hash.init[i] else 0);
      buffer := new Octet[64](_ => 0);
      bitcount, msg := 0, [];
      new;
      assert state[..] == hash.init;
    }

    method LoadWord(j: nat) returns (w: Word)
      requires Shape() && j < 16
      ensures w == View(buffer[..])[j]
    {
      hide LittleEndian;
      w := LittleEndian(buffer[4 * j], buffer[4 * j + 1], buffer[4 * j + 2], buffer[4 * j + 3]);
    }

    method StoreWord(j: nat, w: Word)
      requires Shape() && j < 16
      modifies buffer
      ensures View(buffer[..]) == old(View(buffer[..]))[j := w]
      ensures forall i :: 0 <= i < 64 && (i < 4 * j || 4 * j + 4 <= i) ==> buffer[i] == old(buffer[i])
    {
      hide LittleEndian, Octet0, Octet1, Octet2, Octet3;
      WordRoundTrip(w);
      buffer[4 * j], buffer[4 * j + 1], buffer[4 * j + 2], buffer[4 * j + 3] :=
        Octet0(w), Octet1(w), Octet2(w), Octet3(w);
    }

    /** Rounds 0 to 15: each word is read from the block before its place in the buffer is written. */
    method FirstRounds(data: array<Octet>, off: nat, r0: Regs, ghost block: seq<Octet>) returns (r: Regs)
      requires Shape() && off + 64 <= data.Length && (data == buffer ==> off == 0) && block == data[off..off + 64]
      modifies buffer
      ensures r == Rounds(hash.k, block, r0, 16) && Window(View(buffer[..]), block, 16)
    {
      hide Round, BigEndian, View, Schedule;
      r := r0;
      RoundsNone(hash.k, block, r0);
      var j := 0;
      while j < 16
        invariant 0 <= j <= 16 && r == Rounds(hash.k, block, r0, j)
        invariant forall t :: 0 <= t < j ==> View(buffer[..])[t] == Schedule(block, t)
        invariant forall i :: 4 * j <= i < 64 ==> data[off + i] == block[i]
      {
        StoreWord(j, BigEndian(data[off + 4 * j], data[off + 4 * j + 1], data[off + 4 * j + 2], data[off + 4 * j + 3]));
        FirstWords(block, j);
        var w := LoadWord(j);
        RoundsNext(hash.k, block, r0, j);
        r := Round(r, hash.k[j], w);
        j := j + 1;
      }
    }

    /** Rounds 16 to 63: the buffer is a window on the last 16 words of the schedule. */
    method LaterRounds(r16: Regs, ghost block: seq<Octet>, ghost r0: Regs) returns (r: Regs)
      requires Shape() && |block| == 64 && Window(View(buffer[..]), block, 16) && r16 == Rounds(hash.k, block, r0, 16)
      modifies buffer
      ensures r == Rounds(hash.k, block, r0, 64)
    {
      hide Round, View, Schedule, Expand, SmallSigma0, SmallSigma1;
      r := r16;
      var j := 16;
      while j < 64
        invariant 16 <= j <= 64 && Window(View(buffer[..]), block, j) && r == Rounds(hash.k, block, r0, j)
      {
        ghost var w := View(buffer[..]);
        WindowNext(w, block, j);
        var w1 := LoadWord((j + 1) % 16);
        var w14 := LoadWord((j + 14) % 16);
        var w9 := LoadWord((j + 9) % 16);
        var w0 := LoadWord(j % 16);
        var next := NextWord(w0, w1, w9, w14);
        StoreWord(j % 16, next);
        RoundsNext(hash.k, block, r0, j);
        r := Round(r, hash.k[j], next);
        j := j + 1;
      }
    }

    /** SHA256_Transform. */
    method Transform(data: array<Octet>, off: nat)
      requires Shape() && off + 64 <= data.Length && (data == buffer ==> off == 0)
      modifies state, buffer
      ensures state[..] == Compress(hash.k, old(state[..]), old(data[off..off + 64]))
    {
      hide Rounds, AddRegs, View, Window;
      ghost var block, s := data[off..off + 64], state[..];
      var r0 := Regs(state[0], state[1], state[2], state[3], state[4], state[5], state[6], state[7]);
      var r := FirstRounds(data, off, r0, block);
      r := LaterRounds(r, block, r0);
      assert state[..] == s;
      AddState(r);
    }

    method AddState(r: Regs)
      requires Shape()
      modifies state
      ensures state[..] == AddRegs(old(state[..]), r)
    {
      hide AddRegs;
      var t := AddRegs(state[..], r);
      forall i | 0 <= i < 8 { state[i] := t[i]; }
    }
  }

  /** The 16 words before t, each at its index modulo 16. */
  ghost predicate Window(w: seq<Word>, block: seq<Octet>, t: nat)
    requires |w| == 16 && |block| == 64
  {
    t >= 16 && forall i :: t - 16 <= i < t ==> w[i % 16] == Schedule(block, i)
  }

  /** W256[j & 15] += s1 + W256[(j + 9) & 15] + s0. */
  function NextWord(w0: Word, w1: Word, w9: Word, w14: Word): (w: Word) {
    var s0 := SmallSigma0(w1);
    var s1 := SmallSigma1(w14);
    Plus(w0, Plus(Plus(s1, w9), s0))
  }

  lemma RoundsNone(k: seq<Word>, block: seq<Octet>, r: Regs)
    requires |k| == 64 && |block| == 64
    ensures Rounds(k, block, r, 0) == r
  {}

  lemma RoundsNext(k: seq<Word>, block: seq<Octet>, r: Regs, j: nat)
    requires |k| == 64 && |block| == 64 && j < 64
    ensures Rounds(k, block, r, j + 1) == Round(Rounds(k, block, r, j), k[j], Schedule(block, j))
  {}

  lemma FirstWords(block: seq<Octet>, t: nat)
    requires |block| == 64 && t < 16
    ensures Schedule(block, t) == BigEndian(block[4 * t], block[4 * t + 1], block[4 * t + 2], block[4 * t + 3])
  {}

  /** The four words the recurrence needs are in the window, and the new one completes the next window. */
  lemma WindowNext(w: seq<Word>, block: seq<Octet>, j: nat)
    requires |w| == 16 && |block| == 64 && Window(w, block, j)
    ensures var n := NextWord(w[j % 16], w[(j + 1) % 16], w[(j + 9) % 16], w[(j + 14) % 16]);
      n == Schedule(block, j) && Window(w[j % 16 := n], block, j + 1)
  {
    hide Schedule, NextWord, Expand;
    WindowPlaces(j);
    ScheduleLater(block, j);
    NextIsExpand(w[j % 16], w[(j + 1) % 16], w[(j + 9) % 16], w[(j + 14) % 16]);
    var w' := w[j % 16 := Schedule(block, j)];
    forall i | j - 15 <= i < j + 1 ensures w'[i % 16] == Schedule(block, i) {
      if i < j { Distinct(i, j); }
    }
  }

  lemma NextIsExpand(w0: Word, w1: Word, w9: Word, w14: Word)
    ensures NextWord(w0, w1, w9, w14) == Expand(w0, w1, w9, w14)
  {
    hide SmallSigma0, SmallSigma1;
  }

  lemma WindowPlaces(j: nat)
    requires j >= 16
    ensures j % 16 == (j - 16) % 16 && (j + 1) % 16 == (j - 15) % 16
    ensures (j + 9) % 16 == (j - 7) % 16 && (j + 14) % 16 == (j - 2) % 16
  {}

  lemma Distinct(i: nat, j: nat)
    requires i < j < i + 16
    ensures i % 16 != j % 16
  {}

  lemma ScheduleLater(block: seq<Octet>, t: nat)
    requires |block| == 64 && t >= 16
    ensures Schedule(block, t) ==
      Expand(Schedule(block, t - 16), Schedule(block, t - 15), Schedule(block, t - 7), Schedule(block, t - 2))
  {
    hide Expand;
  }
}
