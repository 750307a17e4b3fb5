/**
 SparseData: a vector of runs, as a value array and a packed index of counts, and
 the operations that work on it without expanding it.
 */
module SparseVector {
  import opened CompWord
  import opened Sequences
  import opened RunLength

  const INT_MAX: nat := 0x7FFF_FFFF

  /** The index buffer; a NULL one stands for counts that are all one. */
  datatype Index = Ones | Packed(bytes: seq<SChar>)

  /** A cursor at byte offset at points to an entry. */
  predicate AtEntry(ix: Index, at: nat) {
    ix.Ones? || (at <= |ix.bytes| && Readable(ix.bytes[at..]))
  }

  /** int8compstoragesize of a cursor. */
  function EntrySize(ix: Index, at: nat): (s: nat)
    requires AtEntry(ix, at)
  {
    if ix.Ones? then 0 else StorageSize(ix.bytes[at])
  }

  /** compword_to_int8 of a cursor. */
  function EntryCount(ix: Index, at: nat): (n: int)
    requires AtEntry(ix, at)
  {
    if ix.Ones? then 1 else Decode(ix.bytes[at..])
  }

  /** From offset at on there are n entries with positive counts, and nothing else. */
  predicate Parses(ix: Index, at: nat, n: nat)
    decreases n
  {
    if n == 0 then ix.Packed? ==> at == |ix.bytes|
    else AtEntry(ix, at) && EntryCount(ix, at) > 0 && Parses(ix, at + EntrySize(ix, at), n - 1)
  }

  /** The runs the entries from offset at on give to the values. */
  function RunsFrom<V>(ix: Index, at: nat, vals: seq<V>): (runs: seq<Run<V>>)
    requires Parses(ix, at, |vals|)
    ensures |runs| == |vals|
    decreases |vals|
  {
    if vals == [] then [] else [Run(vals[0], EntryCount(ix, at))] + RunsFrom(ix, at + EntrySize(ix, at), vals[1..])
  }

  lemma {:induction false} RunsFromAt<V>(ix: Index, at: nat, vals: seq<V>)
    requires Parses(ix, at, |vals|)
    ensures var runs := RunsFrom(ix, at, vals);
      Positive(runs) && forall k :: 0 <= k < |vals| ==> runs[k].value == vals[k]
    decreases |vals|
  {
    if vals != [] { RunsFromAt(ix, at + EntrySize(ix, at), vals[1..]); }
  }

  /** Reading an entry does not look past its own bytes. */
  lemma DecodePrefix(x: seq<SChar>, e: seq<SChar>)
    requires Readable(x)
    ensures Readable(x + e) && Decode(x + e) == Decode(x) && (x + e)[0] == x[0]
  {
    hide Word;
    var size := StorageSize(x[0]);
    assert (x + e)[1..size] == x[1..size];
  }

  lemma EntryKept(bytes: seq<SChar>, e: seq<SChar>, at: nat)
    requires AtEntry(Packed(bytes), at)
    ensures AtEntry(Packed(bytes + e), at) && EntryCount(Packed(bytes + e), at) == EntryCount(Packed(bytes), at)
    ensures EntrySize(Packed(bytes + e), at) == EntrySize(Packed(bytes), at)
  {
    hide Decode;
    assert (bytes + e)[at..] == bytes[at..] + e;
    DecodePrefix(bytes[at..], e);
  }

  lemma LastEntry(bytes: seq<SChar>, len: nat)
    requires 0 < len < P64 / 2
    ensures var ix := Packed(bytes + Encode(len));
      AtEntry(ix, |bytes|) && EntryCount(ix, |bytes|) == len && |bytes| + EntrySize(ix, |bytes|) == |ix.bytes|
  {
    hide Encode, Decode;
    assert (bytes + Encode(len))[|bytes|..] == Encode(len) + [];
    RoundTrip(len, []);
  }

  /** One more entry at the end of the index is one more run at the end of the vector. */
  lemma {:induction false} EntryAppended<V>(bytes: seq<SChar>, at: nat, vals: seq<V>, v: V, len: nat)
    requires Parses(Packed(bytes), at, |vals|) && 0 < len < P64 / 2
    ensures Parses(Packed(bytes + Encode(len)), at, |vals| + 1)
    ensures RunsFrom(Packed(bytes + Encode(len)), at, vals + [v]) == RunsFrom(Packed(bytes), at, vals) + [Run(v, len)]
    decreases |vals|
  {
    hide Encode, EntryCount, EntrySize, AtEntry;
    if vals == [] {
      LastEntry(bytes, len);
    } else {
      EntryKept(bytes, Encode(len), at);
      EntryAppended(bytes, at + EntrySize(Packed(bytes), at), vals[1..], v, len);
      assert (vals + [v])[1..] == vals[1..] + [v];
    }
  }

  class SparseData<V(==)> {
    var vals: seq<V>
    var index: Index
    var uniqueCount: nat
    var totalCount: nat

    /** One index entry with a positive count for every value. */
    ghost predicate Parsed()
      reads this
    {
      uniqueCount == |vals| && Parses(index, 0, |vals|)
    }

    ghost predicate Valid()
      reads this
    {
      Parsed() && totalCount == |Dense(Runs())| <= INT_MAX
    }

    ghost function Runs(): (runs: seq<Run<V>>)
      requires Parsed()
      reads this
    {
      RunsFrom(index, 0, vals)
    }

    /** The dense vector. */
    ghost function Expand(): (s: seq<V>)
      requires Valid()
      reads this
      ensures |s| == totalCount
    {
      Dense(Runs())
    }

    /** makeSparseData. */
    constructor ()
      ensures Valid() && index.Packed? && Runs() == []
    {
      vals, index, uniqueCount, totalCount := [], Packed([]), 0, 0;
    }

    /** add_run_to_sdata. */
    method AddRun(value: V, len: nat)
      requires Valid() && index.Packed? && 0 < len && totalCount + len <= INT_MAX
      modifies this
      ensures Valid() && index.Packed? && Runs() == old(Runs()) + [Run(value, len)]
      ensures totalCount == old(totalCount) + len
    {
      hide Parses, RunsFrom, Dense;
      EntryAppended(index.bytes, 0, vals, value, len);
      DenseAppend(Runs(), Run(value, len));
      var entry := new SChar[9];
      Int8ToCompword(len, entry);
      vals := vals + [value];
      index := Packed(index.bytes + entry[..StorageSize(entry[0])]);
      uniqueCount, totalCount := uniqueCount + 1, totalCount + len;
    }
  }

  /** A cursor at byte offset at stands before run k. */
  ghost predicate Cursor<V>(ix: Index, vals: seq<V>, runs: seq<Run<V>>, at: nat, k: nat) {
    && k <= |vals| && |runs| == |vals| && Positive(runs)
    && Parses(ix, at, |vals| - k) && RunsFrom(ix, at, vals[k..]) == runs[k..]
  }

  lemma CursorStart<V>(s: SparseData<V>)
    requires s.Parsed()
    ensures Cursor(s.index, s.vals, s.Runs(), 0, 0) && End(s.Runs(), |s.vals|) == |Dense(s.Runs())|
  {
    hide Dense;
    assert s.vals[0..] == s.vals && s.Runs()[0..] == s.Runs();
    RunsFromAt(s.index, 0, s.vals);
    DenseLength(s.Runs());
  }

  /** Reading the entry under a cursor gives the run, and stepping over it the next cursor. */
  lemma CursorStep<V>(ix: Index, vals: seq<V>, runs: seq<Run<V>>, at: nat, k: nat)
    requires Cursor(ix, vals, runs, at, k) && k < |vals|
    ensures AtEntry(ix, at) && EntryCount(ix, at) == runs[k].count > 0 && vals[k] == runs[k].value
    ensures Cursor(ix, vals, runs, at + EntrySize(ix, at), k + 1)
    ensures End(runs, k + 1) == End(runs, k) + runs[k].count
  {
    hide AtEntry, EntryCount, EntrySize;
    assert vals[k..][1..] == vals[k + 1..] && runs[k..][1..] == runs[k + 1..];
    assert runs[k] == runs[k..][0];
  }

  /** What is collected so far: finished runs in s, and a run of last still open. */
  ghost predicate Collected<V>(s: SparseData<V>, last: V, open: nat, done: seq<V>)
    reads s
  {
    && s.Valid() && s.index.Packed? && open > 0
    && s.Expand() + Repeat(last, open) == done && |done| <= INT_MAX
    && Merged(s.Runs()) && (s.Runs() != [] ==> s.Runs()[|s.Runs()| - 1].value != last)
  }

  /** Close the open run and start one of a different value. */
  method CloseRun<V(==)>(s: SparseData<V>, last: V, open: nat, value: V, len: nat, ghost done: seq<V>)
    requires Collected(s, last, open, done) && value != last && 0 < len && |done| + len <= INT_MAX
    modifies s
    ensures Collected(s, value, len, done + Repeat(value, len))
  {
    hide Dense, RunsFrom, Parses;
    ghost var runs := s.Runs();
    s.AddRun(last, open);
    DenseAppend(runs, Run(last, open));
    MergedAppend(runs, Run(last, open));
  }

  lemma OpenLonger<V>(s: SparseData<V>, last: V, open: nat, len: nat, done: seq<V>)
    requires Collected(s, last, open, done) && |done| + len <= INT_MAX
    ensures Collected(s, last, open + len, done + Repeat(last, len))
  {
    hide Dense, RunsFrom, Parses;
    assert Repeat(last, open + len) == Repeat(last, open) + Repeat(last, len);
  }

  /** Close the last run. */
  method Finish<V(==)>(s: SparseData<V>, last: V, open: nat, ghost done: seq<V>)
    requires Collected(s, last, open, done)
    modifies s
    ensures s.Valid() && s.Expand() == done && Merged(s.Runs())
  {
    hide Dense, RunsFrom, Parses;
    ghost var runs := s.Runs();
    s.AddRun(last, open);
    DenseAppend(runs, Run(last, open));
    MergedAppend(runs, Run(last, open));
  }

  /** arr_to_sdata: the runs of an array. */
  method FromArray<V(==)>(a: array<V>) returns (s: SparseData<V>)
    requires 1 <= a.Length <= INT_MAX
    ensures fresh(s) && s.Valid() && s.Expand() == a[..] && Merged(s.Runs())
  {
    hide Dense, RunsFrom, Parses, Collected;
    s := new SparseData();
    var runVal, runLen := a[0], 1;
    FirstCollected(s, runVal, a[..1]);
    var i := 1;
    while i < a.Length
      invariant 1 <= i <= a.Length && runLen > 0
      invariant Collected(s, runVal, runLen, a[..i])
    {
      assert a[..i + 1] == a[..i] + Repeat(a[i], 1);
      if a[i] != runVal {
        CloseRun(s, runVal, runLen, a[i], 1, a[..i]);
        runVal, runLen := a[i], 1;
      } else {
        OpenLonger(s, runVal, runLen, 1, a[..i]);
        runLen := runLen + 1;
      }
      i := i + 1;
    }
    assert a[..i] == a[..];
    Finish(s, runVal, runLen, a[..]);
  }

  lemma FirstCollected<V>(s: SparseData<V>, v: V, done: seq<V>)
    requires s.Valid() && s.index.Packed? && s.Runs() == [] && 1 <= |done| <= INT_MAX && done == Repeat(v, |done|)
    ensures Collected(s, v, |done|, done)
  {}

  /** sdata_to_float8arr: the dense vector, or an error when the counts do not reach the stated total. */
  method ToArray<V(==, 0)>(s: SparseData<V>) returns (r: array?<V>)
    requires s.Parsed() && |Dense(s.Runs())| <= s.totalCount
    ensures r == null <==> |Dense(s.Runs())| != s.totalCount
    ensures r != null ==> fresh(r) && r[..] == Dense(s.Runs())
  {
    hide Dense, RunsFrom, Parses, Cursor, AtEntry, EntryCount, EntrySize;
    var a := new V[s.totalCount];
    ghost var runs := s.Runs();
    CursorStart(s);
    DenseNone(runs);
    var at: nat, aptr, i := 0, 0, 0;
    while i < s.uniqueCount
      invariant i <= s.uniqueCount == |runs| && Cursor(s.index, s.vals, runs, at, i)
      invariant aptr == End(runs, i) <= a.Length && a[..aptr] == Dense(runs[..i])
    {
      CursorStep(s.index, s.vals, runs, at, i);
      EndMono(runs, i + 1, |runs|);
      aptr := FillRun(a, aptr, s.vals[i], EntryCount(s.index, at), runs, i);
      at := at + EntrySize(s.index, at);
      i := i + 1;
    }
    assert runs[..i] == runs;
    r := if aptr != s.totalCount then null else a;
  }

  lemma DenseNone<V>(runs: seq<Run<V>>)
    ensures Dense(runs[..0]) == []
  {}

  /** The inner loop: one run written out. */
  method FillRun<V>(a: array<V>, start: nat, v: V, count: nat, ghost runs: seq<Run<V>>, ghost i: nat)
    returns (aptr: nat)
    requires i < |runs| && runs[i] == Run(v, count) && start + count <= a.Length && a[..start] == Dense(runs[..i])
    modifies a
    ensures aptr == start + count && a[..aptr] == Dense(runs[..i + 1])
  {
    hide Dense;
    aptr := start;
    var j := 0;
    while j < count
      invariant j <= count && aptr == start + j
      invariant a[..start] == Dense(runs[..i]) && forall k :: start <= k < aptr ==> a[k] == v
    {
      a[aptr] := v;
      j, aptr := j + 1, aptr + 1;
    }
    assert runs[..i + 1] == runs[..i] + [runs[i]];
    DenseAppend(runs[..i], runs[i]);
  }
}
