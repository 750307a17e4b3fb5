/**
 reverse: copying a sparse vector from its last run to its first.  The walk back
 through the packed counts steps over each entry by its own width, where the one
 before it may be of another.
 */
module SparseReverse {
  import opened CompWord
  import opened Sequences
  import opened RunLength
  import opened SparseVector
  import opened SparseOps

  function Backwards<T>(s: seq<T>): (r: seq<T>)
    ensures |r| == |s|
  {
    if s == [] then [] else Backwards(s[1..]) + [s[0]]
  }

  lemma {:induction false} BackwardsConcat<T>(a: seq<T>, b: seq<T>)
    ensures Backwards(a + b) == Backwards(b) + Backwards(a)
  {
    if a == [] {
      assert a + b == b && Backwards(b) + [] == Backwards(b);
    } else {
      assert (a + b)[1..] == a[1..] + b;
      BackwardsConcat(a[1..], b);
    }
  }

  lemma {:induction false} BackwardsRepeat<T>(v: T, n: nat)
    ensures Backwards(Repeat(v, n)) == Repeat(v, n)
  {
    if n > 0 {
      assert Repeat(v, n)[1..] == Repeat(v, n - 1);
      BackwardsRepeat(v, n - 1);
    }
  }

  /** The runs in reverse order stand for the vector in reverse order. */
  lemma {:induction false} BackwardsDense<V>(runs: seq<Run<V>>)
    ensures Dense(Backwards(runs)) == Backwards(Dense(runs))
  {
    hide Repeat;
    if runs != [] {
      var head := Repeat(runs[0].value, runs[0].count);
      BackwardsDense(runs[1..]);
      DenseAppend(Backwards(runs[1..]), runs[0]);
      BackwardsConcat(head, Dense(runs[1..]));
      BackwardsRepeat(runs[0].value, runs[0].count);
    }
  }

  datatype Walk<V> = Lost | Copied(runs: seq<Run<V>>)

  /**
   The runs copied when the cursor is at byte offset at and j values are left, after
   got; lost when the cursor is outside the index or at nothing that could be a count.
   */
  ghost function WalkBack<V>(ix: Index, vals: seq<V>, at: int, j: nat, got: seq<Run<V>>): (w: Walk<V>)
    requires j <= |vals|
    decreases j
  {
    if j == 0 then Copied(got)
    else if at < 0 || !AtEntry(ix, at) || EntryCount(ix, at) <= 0
      || |Dense(got)| + EntryCount(ix, at) > INT_MAX then Lost
    else WalkBack(ix, vals, at - EntrySize(ix, at), j - 1, got + [Run(vals[j - 1], EntryCount(ix, at))])
  }

  /** Where entry k of an index of n entries starts, from offset at. */
  function EntryStart(ix: Index, at: nat, n: nat, k: nat): (o: nat)
    requires Parses(ix, at, n) && k <= n
    decreases n
  {
    if k == 0 then at else EntryStart(ix, at + EntrySize(ix, at), n - 1, k - 1)
  }

  lemma {:induction false} CursorAt<V>(ix: Index, vals: seq<V>, runs: seq<Run<V>>, at: nat, i: nat, k: nat)
    requires Cursor(ix, vals, runs, at, i) && i + k <= |vals|
    ensures Parses(ix, at, |vals| - i)
    ensures Cursor(ix, vals, runs, EntryStart(ix, at, |vals| - i, k), i + k)
    decreases k
  {
    hide RunsFrom, AtEntry, EntryCount, EntrySize;
    if k > 0 {
      CursorStep(ix, vals, runs, at, i);
      CursorAt(ix, vals, runs, at + EntrySize(ix, at), i + 1, k - 1);
    }
  }

  lemma {:induction false} NextStart(ix: Index, at: nat, n: nat, k: nat)
    requires Parses(ix, at, n) && k < n
    ensures var o := EntryStart(ix, at, n, k); AtEntry(ix, o) && EntryStart(ix, at, n, k + 1) == o + EntrySize(ix, o)
    decreases n
  {
    hide AtEntry, EntryCount, EntrySize;
    if k > 0 { NextStart(ix, at + EntrySize(ix, at), n - 1, k - 1); }
  }

  /** Every entry is as wide as its neighbour. */
  ghost predicate SameWidth(ix: Index, n: nat)
    requires Parses(ix, 0, n)
  {
    forall k {:trigger EntryStart(ix, 0, n, k)} :: 0 < k < n ==> OnTrack(ix, n, k)
  }

  /** Stepping back from entry k by its own width leads to the entry before it. */
  ghost predicate OnTrack(ix: Index, n: nat, k: nat)
    requires Parses(ix, 0, n) && 0 < k < n
  {
    NextStart(ix, 0, n, k);
    EntryStart(ix, 0, n, k) - EntrySize(ix, EntryStart(ix, 0, n, k)) == EntryStart(ix, 0, n, k - 1)
  }

  /** Which it does exactly when the two are equally wide. */
  lemma TrackIsWidth(ix: Index, n: nat, k: nat)
    requires Parses(ix, 0, n) && 0 < k < n
    ensures var o, p := EntryStart(ix, 0, n, k), EntryStart(ix, 0, n, k - 1);
      AtEntry(ix, o) && AtEntry(ix, p) && (OnTrack(ix, n, k) <==> EntrySize(ix, o) == EntrySize(ix, p))
  {
    hide AtEntry, EntryCount, EntrySize, EntryStart;
    NextStart(ix, 0, n, k);
    NextStart(ix, 0, n, k - 1);
  }

  /** From entry j - 1 on, a walk that stays on the entries copies the runs before j in reverse. */
  lemma {:induction false} WalkOnTrack<V>(s: SparseData<V>, j: nat, got: seq<Run<V>>)
    requires s.Valid() && 0 < j <= |s.vals| && SameWidth(s.index, |s.vals|) && got == Backwards(s.Runs()[j..])
    ensures WalkBack(s.index, s.vals, EntryStart(s.index, 0, |s.vals|, j - 1), j, got) == Copied(Backwards(s.Runs()))
    decreases j
  {
    hide Dense, Parses, RunsFrom, AtEntry, EntryCount, EntrySize, EntryStart, Cursor;
    var ix, n, runs := s.index, |s.vals|, s.Runs();
    var o := EntryStart(ix, 0, n, j - 1);
    CursorStart(s);
    WholeIndex(s);
    CursorAt(ix, s.vals, runs, 0, 0, j - 1);
    CursorStep(ix, s.vals, runs, o, j - 1);
    RoomFor(s, j);
    var got' := got + [Run(s.vals[j - 1], EntryCount(ix, o))];
    assert runs[j - 1..] == [runs[j - 1]] + runs[j..];
    assert runs[j - 1..][1..] == runs[j..];
    assert got' == Backwards(runs[j - 1..]);
    if j == 1 {
      assert runs[0..] == runs;
    } else {
      assert OnTrack(ix, n, j - 1);
      WalkOnTrack(s, j - 1, got');
    }
  }

  lemma WholeIndex<V>(s: SparseData<V>)
    requires s.Valid()
    ensures Parses(s.index, 0, |s.vals|) && |s.Runs()| == |s.vals|
  {}

  lemma RoomFor<V>(s: SparseData<V>, j: nat)
    requires s.Valid() && 0 < j <= |s.Runs()|
    ensures |Dense(Backwards(s.Runs()[j..]))| + s.Runs()[j - 1].count <= INT_MAX
  {
    hide Dense, Parses, RunsFrom;
    var runs := s.Runs();
    assert runs == runs[..j - 1] + runs[j - 1..] && runs[j - 1..] == [runs[j - 1]] + runs[j..];
    DenseConcat(runs[..j - 1], runs[j - 1..]);
    DenseConcat([runs[j - 1]], runs[j..]);
    DenseAppend([], runs[j - 1]);
    assert [] + [runs[j - 1]] == [runs[j - 1]];
    BackwardsDense(runs[j..]);
    NoRuns<V>();
  }

  lemma NoRuns<V>()
    ensures Dense<V>([]) == []
  {}

  /** The first loop of reverse: the offset of the last entry. */
  method LastEntryOf<V(==)>(s: SparseData<V>) returns (at: nat)
    requires s.Valid() && s.uniqueCount > 0
    ensures Parses(s.index, 0, |s.vals|) && at == EntryStart(s.index, 0, |s.vals|, |s.vals| - 1)
  {
    hide Dense, Parses, RunsFrom, AtEntry, EntryCount, EntrySize;
    ghost var n := |s.vals|;
    WholeIndex(s);
    at := 0;
    var j := 0;
    while j < s.uniqueCount - 1
      invariant 0 <= j < n && at == EntryStart(s.index, 0, n, j)
    {
      NextStart(s.index, 0, n, j);
      at := at + EntrySize(s.index, at);
      j := j + 1;
    }
  }

  /** reverse: null where the walk is lost; the reversed vector when the entries are all of one width. */
  method Reverse<V(==)>(s: SparseData<V>) returns (r: SparseData?<V>)
    requires s.Valid()
    ensures r == null || fresh(r)
    ensures s.uniqueCount > 0 ==>
      && Parses(s.index, 0, |s.vals|)
      && var walk := WalkBack(s.index, s.vals, EntryStart(s.index, 0, |s.vals|, |s.vals| - 1), |s.vals|, []);
      (r == null <==> walk == Lost) && (r != null ==> r.Valid() && walk == Copied(r.Runs()))
    ensures Parses(s.index, 0, |s.vals|) && SameWidth(s.index, |s.vals|) ==>
      r != null && r.Valid() && r.Expand() == Backwards(s.Expand())
  {
    hide Dense, Parses, RunsFrom, AtEntry, EntryCount, EntrySize, EntryStart, SameWidth;
    var out := new SparseData<V>();
    WholeIndex(s);
    if s.uniqueCount == 0 {
      EmptyVector(s);
      return out;
    }
    var at: int := LastEntryOf(s);
    ghost var walk := WalkBack(s.index, s.vals, at, |s.vals|, []);
    ReverseRight(s, walk);
    var j := s.uniqueCount;
    while j > 0
      invariant 0 <= j <= s.uniqueCount && fresh(out) && out.Valid() && out.index.Packed?
      invariant WalkBack(s.index, s.vals, at, j, out.Runs()) == walk
    {
      if at < 0 || !AtEntry(s.index, at) { return null; }
      var n := EntryCount(s.index, at);
      if n <= 0 || out.totalCount + n > INT_MAX { return null; }
      out.AddRun(s.vals[j - 1], n);
      at := at - EntrySize(s.index, at);
      j := j - 1;
    }
    r := out;
  }

  lemma EmptyVector<V>(s: SparseData<V>)
    requires s.Valid() && s.uniqueCount == 0
    ensures s.Expand() == [] && Backwards(s.Expand()) == []
  {}

  lemma ReverseRight<V>(s: SparseData<V>, walk: Walk<V>)
    requires s.Valid() && s.uniqueCount > 0 && Parses(s.index, 0, |s.vals|)
    requires walk == WalkBack(s.index, s.vals, EntryStart(s.index, 0, |s.vals|, |s.vals| - 1), |s.vals|, [])
    ensures SameWidth(s.index, |s.vals|) ==>
      walk == Copied(Backwards(s.Runs())) && Dense(walk.runs) == Backwards(s.Expand())
  {
    hide Dense, Parses, RunsFrom, AtEntry, EntryCount, EntrySize, EntryStart, SameWidth, WalkBack;
    if SameWidth(s.index, |s.vals|) {
      WholeIndex(s);
      assert s.Runs()[|s.vals|..] == [];
      WalkOnTrack(s, |s.vals|, []);
      BackwardsDense(s.Runs());
    }
  }

  /**
   Two runs, of 200 and of 1: the entry before the last is three bytes wide and the
   last one only one, so the walk reads the last byte of the 200 as a count of zero.
   */
  lemma MixedWidths()
    ensures var ix := Packed(Encode(200) + Encode(1));
      && Parses(ix, 0, 2) && !SameWidth(ix, 2)
      && EntryCount(ix, 0) == 200 && EntryStart(ix, 0, 2, 1) == 3 && AtEntry(ix, 2) && EntryCount(ix, 2) == 0
      && forall v: int, w: int :: WalkBack(ix, [v, w], 3, 2, []) == Lost
  {
    var e := Encode(200) + Encode(1);
    var ix := Packed(e);
    MixedBytes();
    assert e[3..] == [-1] && e[2..] == [0, -1];
    assert Word(e[1..3]) == 200 by { assert e[1..3] == [-56, 0] && [-56 as SChar, 0][1..] == [0]; }
    assert Parses(ix, 4, 0) && Parses(ix, 3, 1) && Parses(ix, 0, 2);
    assert EntryStart(ix, 0, 2, 1) == 3 && EntryStart(ix, 0, 2, 0) == 0;
    assert !OnTrack(ix, 2, 1);
    forall v: int, w: int ensures WalkBack(ix, [v, w], 3, 2, []) == Lost {
      assert WalkBack(ix, [v, w], 2, 1, [Run(w, 1)]) == Lost;
    }
  }

  lemma MixedBytes()
    ensures Encode(200) + Encode(1) == [2, -56, 0, -1]
  {
    assert Bytes(200, 2) == [-56, 0] by { assert Bytes(0, 1) == [0]; }
  }

  /**
   Runs of 67,240,962 and 260, stored in five bytes and in three: the walk goes astray,
   and what it reads there happens to be the count it should have read.
   */
  lemma LuckyWidths()
    ensures var ix := Packed(Encode(0x402_0402) + Encode(260));
      && Parses(ix, 0, 2) && !SameWidth(ix, 2) && EntryStart(ix, 0, 2, 1) == 5
      && EntryCount(ix, 0) == 0x402_0402
      && forall v: int, w: int :: WalkBack(ix, [v, w], 5, 2, []) == Copied([Run(w, 260), Run(v, 0x402_0402)])
  {
    hide Encode, Word, Decode;
    var e := Encode(0x402_0402) + Encode(260);
    var ix := Packed(e);
    LuckyBytes();
    LuckyEntry(e, 0);
    LuckyEntry(e, 2);
    assert e[5..] == [2, 4, 1];
    ShortEntry(e[5..]);
    assert Parses(ix, 8, 0) && Parses(ix, 5, 1) && Parses(ix, 0, 2);
    assert EntryStart(ix, 0, 2, 1) == 5 && EntryStart(ix, 0, 2, 0) == 0;
    assert !OnTrack(ix, 2, 1);
    forall v: int, w: int ensures WalkBack(ix, [v, w], 5, 2, []) == Copied([Run(w, 260), Run(v, 0x402_0402)]) {
      var got := [Run(w, 260)];
      DenseLength(got);
      assert [] + [Run(w, 260)] == got && got + [Run(v, 0x402_0402)] == [Run(w, 260), Run(v, 0x402_0402)];
      assert WalkBack(ix, [v, w], 2, 1, got) == Copied([Run(w, 260), Run(v, 0x402_0402)]);
    }
  }

  lemma LuckyEntry(e: seq<SChar>, at: nat)
    requires at + 5 <= |e| && e[at] == 4 && e[at + 1] == 2 && e[at + 2] == 4 && e[at + 3] == 2 && e[at + 4] == 4
    ensures Readable(e[at..]) && StorageSize(e[at]) == 5 && Decode(e[at..]) == 0x402_0402
  {
    hide Word;
    var w := e[at..][1..5];
    assert w == [2, 4, 2, 4] && w[1..] == [4, 2, 4] && [4 as SChar, 2, 4][1..] == [2, 4];
    WordStep(w);
    WordStep([4, 2, 4]);
    TwoBytes(2, 4);
  }

  lemma ShortEntry(x: seq<SChar>)
    requires x == [2, 4, 1]
    ensures Readable(x) && StorageSize(x[0]) == 3 && Decode(x) == 260
  {
    hide Word;
    assert x[1..3] == [4, 1];
    TwoBytes(4, 1);
  }

  lemma WordStep(e: seq<SChar>)
    requires e != []
    ensures Word(e) == ToByte(e[0]) + 256 * Word(e[1..])
  {}

  lemma TwoBytes(lo: SChar, hi: SChar)
    ensures Word([lo, hi]) == ToByte(lo) + 256 * ToByte(hi)
  {
    assert [lo, hi][1..] == [hi] && [hi][1..] == [];
    WordStep([hi]);
    assert Word([hi][1..]) == 0;
  }

  lemma LuckyBytes()
    ensures Encode(0x402_0402) + Encode(260) == [4, 2, 4, 2, 4, 2, 4, 1]
  {
    assert Bytes(0x402, 2) == [2, 4] by { assert Bytes(4, 1) == [4]; }
    assert Bytes(0x402_0402, 4) == [2, 4, 2, 4] by { assert Bytes(0x4_0204, 3) == [4] + Bytes(0x402, 2); }
    assert Bytes(260, 2) == [4, 1] by { assert Bytes(1, 1) == [1]; }
  }

  /** subarr: for start > end the reverse of the same part. */
  method SubarrayEither<V(==)>(s: SparseData<V>, start: int, end: int)
    returns (r: SparseData?<V>, ghost part: SparseData?<V>)
    requires s.Valid()
    ensures part == null <==> start < 1 || end < 1 || start > s.totalCount || end > s.totalCount
    ensures part == null ==> r == null
    ensures part != null && start <= end ==> r == part && r.Valid() && r.Expand() == s.Expand()[start - 1..end]
    ensures part != null && start > end ==> part.Valid() && part.Expand() == s.Expand()[end - 1..start]
    ensures part != null && start > end && Parses(part.index, 0, |part.vals|) && SameWidth(part.index, |part.vals|) ==>
      r != null && r.Valid() && r.Expand() == Backwards(s.Expand()[end - 1..start])
  {
    hide Dense, Parses, RunsFrom, SameWidth, WalkBack;
    if start > end {
      var p := Subarray(s, end, start);
      part := p;
      if p == null { return null, null; }
      r := Reverse(p);
    } else {
      r := Subarray(s, start, end);
      part := r;
    }
  }
}
