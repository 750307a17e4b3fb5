/**
 Operations that walk two run-length vectors side by side: arithmetic and the two
 equalities.  Each is proved against the dense vectors.
 */
module SparseOps {
  import opened Arithmetic
  import opened Sequences
  import opened RunLength
  import opened SparseVector

  /** The dense operation. */
  function Pointwise<V>(op: (V, V) -> V, a: seq<V>, b: seq<V>): (c: seq<V>)
    requires |a| == |b|
  {
    seq(|a|, i requires 0 <= i < |a| => op(a[i], b[i]))
  }

  /** One side of the merge: the cursor is at run i, which covers positions lst to nxt. */
  ghost predicate Side<V>(ix: Index, vals: seq<V>, runs: seq<Run<V>>, at: nat, i: nat, lst: nat, nxt: nat) {
    Cursor(ix, vals, runs, at, i) && i < |vals| && lst == End(runs, i) && nxt == End(runs, i + 1)
  }

  lemma SideStart<V>(s: SparseData<V>)
    requires s.Valid() && s.uniqueCount > 0
    ensures AtEntry(s.index, 0) && EntryCount(s.index, 0) > 0
    ensures Side(s.index, s.vals, s.Runs(), 0, 0, 0, EntryCount(s.index, 0))
  {
    hide Cursor, AtEntry, EntryCount, EntrySize;
    CursorStart(s);
    CursorStep(s.index, s.vals, s.Runs(), 0, 0);
  }

  /** What the current run says about the vector. */
  lemma SideNow<V>(ix: Index, vals: seq<V>, runs: seq<Run<V>>, at: nat, i: nat, lst: nat, nxt: nat)
    requires Side(ix, vals, runs, at, i, lst, nxt)
    ensures AtEntry(ix, at) && lst + EntryCount(ix, at) == nxt && lst < nxt <= |Dense(runs)|
    ensures forall p :: lst <= p < nxt ==> Dense(runs)[p] == vals[i]
  {
    hide Cursor, AtEntry, EntryCount, EntrySize, Dense;
    CursorStep(ix, vals, runs, at, i);
    CursorLength(ix, vals, runs, at, i);
    DenseLength(runs);
    EndMono(runs, i + 1, |runs|);
    forall p | lst <= p < nxt ensures Dense(runs)[p] == vals[i] {
      DenseAt(runs, i, p);
    }
  }

  /** Stepping over a run that is not the last one. */
  lemma SideNext<V>(ix: Index, vals: seq<V>, runs: seq<Run<V>>, at: nat, i: nat, lst: nat, nxt: nat)
    requires Side(ix, vals, runs, at, i, lst, nxt) && nxt < |Dense(runs)|
    ensures AtEntry(ix, at) && var at' := at + EntrySize(ix, at);
      i + 1 < |vals| && AtEntry(ix, at') && EntryCount(ix, at') > 0
        && Side(ix, vals, runs, at', i + 1, nxt, nxt + EntryCount(ix, at'))
  {
    hide Cursor, AtEntry, EntryCount, EntrySize, Dense;
    CursorStep(ix, vals, runs, at, i);
    CursorLength(ix, vals, runs, at, i);
    DenseLength(runs);
    CursorStep(ix, vals, runs, at + EntrySize(ix, at), i + 1);
  }

  lemma CursorLength<V>(ix: Index, vals: seq<V>, runs: seq<Run<V>>, at: nat, i: nat)
    requires Cursor(ix, vals, runs, at, i)
    ensures |runs| == |vals|
  {}

  /** The vector up to lastpos: nothing yet when open is -1, else finished runs and one of last. */
  ghost predicate Merging<V>(s: SparseData<V>, last: V, open: int, done: seq<V>)
    reads s
  {
    if open == -1 then s.Valid() && s.index.Packed? && s.Runs() == [] && done == []
    else open > 0 && Collected(s, last, open, done)
  }

  /** Take len copies of value in: a new run only when the value changes. */
  method Accumulate<V(==)
    >(s: SparseData<V>, last: V, open: int, value: V, len: nat, ghost done: seq<V>) returns (open': int)
    requires Merging(s, last, open, done) && 0 < len && |done| + len <= INT_MAX
    modifies s
    ensures open' > 0 && Collected(s, value, open', done + Repeat(value, len))
  {
    hide Collected;
    var lastValue, tot := last, open;
    if tot == -1 {
      lastValue, tot := value, 0;
    }
    if value != lastValue {
      CloseRun(s, last, open, value, len, done);
      open' := len;
    } else if tot == 0 {
      assert done + Repeat(value, len) == Repeat(value, len);
      FirstCollected(s, value, Repeat(value, len));
      open' := len;
    } else {
      OpenLonger(s, last, open, len, done);
      open' := tot + len;
    }
  }

  /** The stretch both current runs cover holds one value of the result. */
  lemma Overlap<V>(op: (V, V) -> V, a: seq<V>, b: seq<V>, lo: nat, hi: nat, x: V, y: V)
    requires |a| == |b| && lo < hi <= |a|
    requires (forall p :: lo <= p < hi ==> a[p] == x) && (forall p :: lo <= p < hi ==> b[p] == y)
    ensures Pointwise(op, a, b)[..hi] == Pointwise(op, a, b)[..lo] + Repeat(op(x, y), hi - lo)
  {}

  /**
   op_sdata_by_sdata: the dense operation, computed run by run.  Vectors of
   different dimension are refused.
   */
  method OpBySdata<V(==)>(op: (V, V) -> V, left: SparseData<V>, right: SparseData<V>) returns (s: SparseData?<V>)
    requires left.Valid() && right.Valid() && left.uniqueCount > 0 && right.uniqueCount > 0
    ensures s == null <==> left.totalCount != right.totalCount
    ensures s != null ==>
      && fresh(s) && s.Valid()
      && s.Expand() == Pointwise(op, left.Expand(), right.Expand()) && Merged(s.Runs())
  {
    hide Dense, RunsFrom, Parses, Side, AtEntry, EntryCount, EntrySize, Collected, Pointwise;
    var lix, lvals, rix, rvals := left.index, left.vals, right.index, right.vals;
    ghost var lruns, rruns := left.Runs(), right.Runs();
    SideStart(left);
    SideStart(right);
    var liptr: nat, riptr: nat := 0, 0;
    var leftLst: nat, rightLst: nat, leftNxt: nat, rightNxt: nat := 0, 0, EntryCount(lix, 0), EntryCount(rix, 0);
    var nextpos, lastpos := Min(leftNxt, rightNxt), 0;
    var i: nat, j: nat := 0, 0;
    if left.totalCount != right.totalCount { return null; }
    var out := new SparseData<V>();
    ghost var goal := Pointwise(op, Dense(lruns), Dense(rruns));
    PointwiseLength(op, Dense(lruns), Dense(rruns));
    var open := -1;
    SideNow(lix, lvals, lruns, liptr, i, leftLst, leftNxt);
    SideNow(rix, rvals, rruns, riptr, j, rightLst, rightNxt);
    var value := op(lvals[0], rvals[0]);
    var done := false;
    while !done
      invariant fresh(out) && |goal| == |Dense(lruns)| == |Dense(rruns)| == left.totalCount
      invariant Side(lix, lvals, lruns, liptr, i, leftLst, leftNxt) && i < |lvals|
      invariant Side(rix, rvals, rruns, riptr, j, rightLst, rightNxt) && j < |rvals|
      invariant !done ==>
        && leftLst <= lastpos && rightLst <= lastpos
        && lastpos < nextpos == Min(leftNxt, rightNxt) && lastpos <= |goal|
      invariant !done ==> Merging(out, value, open, goal[..lastpos])
      invariant done ==> open > 0 && Collected(out, value, open, goal)
      decreases !done, |goal| - lastpos
    {
      SideNow(lix, lvals, lruns, liptr, i, leftLst, leftNxt);
      SideNow(rix, rvals, rruns, riptr, j, rightLst, rightNxt);
      var newValue := op(lvals[i], rvals[j]);
      Overlap(op, Dense(lruns), Dense(rruns), lastpos, nextpos, lvals[i], rvals[j]);
      open := Accumulate(out, value, open, newValue, nextpos - lastpos, goal[..lastpos]);
      value := newValue;
      if leftNxt == rightNxt && leftNxt == left.totalCount {
        assert goal[..nextpos] == goal;
        done := true;
      } else {
        if leftNxt == rightNxt {
          SideNext(lix, lvals, lruns, liptr, i, leftLst, leftNxt);
          SideNext(rix, rvals, rruns, riptr, j, rightLst, rightNxt);
          i, j, leftLst, rightLst := i + 1, j + 1, leftNxt, rightNxt;
          liptr, riptr := liptr + EntrySize(lix, liptr), riptr + EntrySize(rix, riptr);
        } else if nextpos == leftNxt {
          SideNext(lix, lvals, lruns, liptr, i, leftLst, leftNxt);
          i, leftLst, liptr := i + 1, leftNxt, liptr + EntrySize(lix, liptr);
        } else {
          SideNext(rix, rvals, rruns, riptr, j, rightLst, rightNxt);
          j, rightLst, riptr := j + 1, rightNxt, riptr + EntrySize(rix, riptr);
        }
        leftNxt, rightNxt := EntryCount(lix, liptr) + leftLst, EntryCount(rix, riptr) + rightLst;
        lastpos, nextpos := nextpos, Min(leftNxt, rightNxt);
      }
    }
    Finish(out, value, open, goal);
    s := out;
  }

  lemma PointwiseLength<V>(op: (V, V) -> V, a: seq<V>, b: seq<V>)
    requires |a| == |b|
    ensures |Pointwise(op, a, b)| == |a|
  {}

  /** The dense vectors agree on the first n positions. */
  ghost predicate Agree<V>(a: seq<V>, b: seq<V>, n: nat) {
    n <= |a| && n <= |b| && forall p :: 0 <= p < n ==> a[p] == b[p]
  }

  lemma AgreeMore<V>(a: seq<V>, b: seq<V>, n: nat, m: nat, x: V)
    requires Agree(a, b, n) && n <= m <= |a| && m <= |b|
    requires forall p :: n <= p < m ==> a[p] == x && b[p] == x
    ensures Agree(a, b, m)
  {}

  /** One value on the left against the runs on the right that overlap it. */
  method EqRun<V(==)
    >(value: V, ghost a: seq<V>, lo: nat, read: nat, right: SparseData<V>, rix0: nat, rread0: nat, rvid0: nat)
    returns (same: bool, rix: nat, rread: nat, rvid: nat)
    requires right.Valid() && |a| == right.totalCount && lo < read <= |a|
    requires (forall p :: lo <= p < read ==> a[p] == value)
    requires Before(right, rix0, rread0, rvid0, lo) && Agree(a, right.Expand(), lo)
    ensures !same ==> a != right.Expand()
    ensures same ==> Before(right, rix, rread, rvid, read) && Agree(a, right.Expand(), read)
  {
    hide Dense, RunsFrom, Parses, Side, AtEntry, EntryCount, EntrySize, Cursor, Agree, Before;
    rix, rread, rvid := rix0, rread0, rvid0;
    same := true;
    ghost var b := right.Expand();
    ghost var at := lo;
    var more := true;
    while more
      invariant same && lo <= at <= read && Before(right, rix, rread, rvid, at) && Agree(a, b, at)
      invariant if more then at < read else at == read
      decreases more, read - at
    {
      BeforeRun(right, rix, rread, rvid, at);
      assert b == right.Expand();
      if value != right.vals[rvid] {
        assert a[at] != b[at];
        same := false;
        return;
      }
      var len := EntryCount(right.index, rix);
      if rread + len > read {
        AgreeMore(a, b, at, read, value);
        BeforeStay(right, rix, rread, rvid, at, read);
        at := read;
        more := false;
      } else {
        AgreeMore(a, b, at, rread + len, value);
        at := rread + len;
        rread := rread + len;
        rix := rix + EntrySize(right.index, rix);
        rvid := rvid + 1;
        more := rread != read;
      }
    }
  }

  /** The right cursor is at the run that holds position p, or past the end with p. */
  ghost predicate Before<V>(s: SparseData<V>, at: nat, start: nat, k: nat, p: nat)
    requires s.Valid()
    reads s
  {
    && Cursor(s.index, s.vals, s.Runs(), at, k) && start == End(s.Runs(), k) <= p <= s.totalCount
    && (if k < |s.vals| then p < End(s.Runs(), k + 1) else p == s.totalCount)
  }

  lemma BeforeRun<V>(s: SparseData<V>, at: nat, start: nat, k: nat, p: nat)
    requires s.Valid() && Before(s, at, start, k, p) && p < s.totalCount
    ensures k < |s.vals| && AtEntry(s.index, at) && start <= p < start + EntryCount(s.index, at) <= s.totalCount
    ensures forall q :: start <= q < start + EntryCount(s.index, at) ==> s.Expand()[q] == s.vals[k]
    ensures Before(s, at + EntrySize(s.index, at), start + EntryCount(s.index, at), k + 1,
      start + EntryCount(s.index, at))
  {
    hide Dense, AtEntry, EntryCount, EntrySize, Cursor;
    CursorStep(s.index, s.vals, s.Runs(), at, k);
    CursorLength(s.index, s.vals, s.Runs(), at, k);
    DenseLength(s.Runs());
    EndMono(s.Runs(), k + 1, |s.vals|);
    forall q | start <= q < End(s.Runs(), k + 1) ensures s.Expand()[q] == s.vals[k] {
      DenseAt(s.Runs(), k, q);
    }
    if k + 1 < |s.vals| {
      CursorStep(s.index, s.vals, s.Runs(), at + EntrySize(s.index, at), k + 1);
    }
  }

  lemma BeforeStay<V>(s: SparseData<V>, at: nat, start: nat, k: nat, p: nat, q: nat)
    requires s.Valid() && Before(s, at, start, k, p) && p <= q && k < |s.vals| && AtEntry(s.index, at)
    requires q < start + EntryCount(s.index, at)
    ensures Before(s, at, start, k, q)
  {
    hide Dense, AtEntry, EntryCount, EntrySize, Cursor;
    CursorStep(s.index, s.vals, s.Runs(), at, k);
    CursorLength(s.index, s.vals, s.Runs(), at, k);
    DenseLength(s.Runs());
    EndMono(s.Runs(), k + 1, |s.vals|);
  }

  lemma BeforeStart<V>(s: SparseData<V>)
    requires s.Valid()
    ensures Before(s, 0, 0, 0, 0)
  {
    hide Dense, AtEntry, EntryCount, EntrySize, Cursor;
    CursorStart(s);
    if s.vals != [] { CursorStep(s.index, s.vals, s.Runs(), 0, 0); }
  }

  /** sparsedata_eq: true exactly when the dense vectors are equal, however the runs are split. */
  method Eq<V(==)>(left: SparseData<V>, right: SparseData<V>) returns (same: bool)
    requires left.Valid() && right.Valid()
    ensures same <==> left.Expand() == right.Expand()
  {
    hide Dense, RunsFrom, Parses, AtEntry, EntryCount, EntrySize, Cursor, Agree, Before;
    if left.totalCount != right.totalCount { return false; }
    var ix: nat, read: nat, i: nat := 0, 0, 0;
    var rix: nat, rread: nat, rvid: nat := 0, 0, 0;
    ghost var a, b := left.Expand(), right.Expand();
    BeforeStart(left);
    BeforeStart(right);
    AgreeNone(a, b);
    while i < left.uniqueCount
      invariant i <= left.uniqueCount && Before(left, ix, read, i, read)
      invariant Before(right, rix, rread, rvid, read) && Agree(a, b, read)
    {
      BeforeMore(left, ix, read, i);
      BeforeRun(left, ix, read, i, read);
      var ok;
      assert a == left.Expand();
      ok, rix, rread, rvid := EqRun(left.vals[i], a, read, read + EntryCount(left.index, ix), right, rix, rread, rvid);
      if !ok { return false; }
      read := read + EntryCount(left.index, ix);
      i, ix := i + 1, ix + EntrySize(left.index, ix);
    }
    BeforeEnd(left, ix, read, i);
    AgreeAll(a, b);
    same := true;
  }

  lemma BeforeMore<V>(s: SparseData<V>, at: nat, start: nat, k: nat)
    requires s.Valid() && Before(s, at, start, k, start) && k < |s.vals|
    ensures start < s.totalCount
  {
    hide Dense, Cursor;
    CursorLength(s.index, s.vals, s.Runs(), at, k);
    DenseLength(s.Runs());
    EndMono(s.Runs(), k + 1, |s.vals|);
  }

  lemma BeforeEnd<V>(s: SparseData<V>, at: nat, start: nat, k: nat)
    requires s.Valid() && Before(s, at, start, k, start) && k >= |s.vals|
    ensures start == s.totalCount
  {}

  lemma AgreeNone<V>(a: seq<V>, b: seq<V>)
    ensures Agree(a, b, 0)
  {}

  lemma AgreeAll<V>(a: seq<V>, b: seq<V>)
    requires |a| == |b| && Agree(a, b, |a|)
    ensures a == b
  {}

  /** Equal bytes, or a zero on either side. */
  predicate Compatible<V(==)>(zero: V -> bool, x: V, y: V) {
    x == y || zero(x) || zero(y)
  }

  ghost predicate CompatibleUpTo<V>(zero: V -> bool, a: seq<V>, b: seq<V>, n: nat) {
    n <= |a| && n <= |b| && forall p :: 0 <= p < n ==> Compatible(zero, a[p], b[p])
  }

  lemma CompatibleMore<V>(zero: V -> bool, a: seq<V>, b: seq<V>, n: nat, m: nat, x: V, y: V)
    requires CompatibleUpTo(zero, a, b, n) && n <= m <= |a| && m <= |b| && Compatible(zero, x, y)
    requires (forall p :: n <= p < m ==> a[p] == x) && (forall p :: n <= p < m ==> b[p] == y)
    ensures CompatibleUpTo(zero, a, b, m)
  {}

  /** The cursor has just passed run k - 1, which ends at end. */
  ghost predicate Passed<V>(s: SparseData<V>, at: nat, k: nat, end: nat)
    requires s.Valid()
    reads s
  {
    Cursor(s.index, s.vals, s.Runs(), at, k) && end == End(s.Runs(), k)
  }

  lemma PassedStart<V>(s: SparseData<V>)
    requires s.Valid()
    ensures Passed(s, 0, 0, 0)
  {
    hide Dense, Cursor;
    CursorStart(s);
  }

  /** Passing the next run. */
  lemma PassRun<V>(s: SparseData<V>, at: nat, k: nat, end: nat)
    requires s.Valid() && Passed(s, at, k, end) && end < s.totalCount
    ensures k < |s.vals| && AtEntry(s.index, at) && var n := EntryCount(s.index, at);
      n > 0 && end + n <= s.totalCount && Passed(s, at + EntrySize(s.index, at), k + 1, end + n)
      && forall p :: end <= p < end + n ==> s.Expand()[p] == s.vals[k]
  {
    hide Dense, AtEntry, EntryCount, EntrySize, Cursor;
    CursorLength(s.index, s.vals, s.Runs(), at, k);
    DenseLength(s.Runs());
    CursorBound(s.index, s.vals, s.Runs(), at, k);
    CursorStep(s.index, s.vals, s.Runs(), at, k);
    EndMono(s.Runs(), k + 1, |s.vals|);
    forall q | end <= q < End(s.Runs(), k + 1) ensures s.Expand()[q] == s.vals[k] {
      DenseAt(s.Runs(), k, q);
    }
  }

  lemma CursorBound<V>(ix: Index, vals: seq<V>, runs: seq<Run<V>>, at: nat, k: nat)
    requires Cursor(ix, vals, runs, at, k)
    ensures k <= |vals|
  {}

  /**
   sparsedata_eq_zero_is_equal: true exactly when every position both vectors have
   is equal or zero on one side.
   */
  method EqZeroIsEqual<V(==)>(zero: V -> bool, left: SparseData<V>, right: SparseData<V>) returns (same: bool)
    requires left.Valid() && right.Valid()
    ensures same <==> CompatibleUpTo(zero, left.Expand(), right.Expand(), Min(left.totalCount, right.totalCount))
  {
    hide Dense, RunsFrom, Parses, AtEntry, EntryCount, EntrySize, Passed, CompatibleUpTo;
    var ix: nat, rix: nat, read: nat, rread: nat := 0, 0, 0, 0;
    var i, j := -1, -1;
    var minimum := Min(left.totalCount, right.totalCount);
    ghost var a, b := left.Expand(), right.Expand();
    PassedStart(left);
    PassedStart(right);
    CompatibleNone(zero, a, b);
    while read < minimum || rread < minimum
      invariant -1 <= i < |left.vals| && -1 <= j < |right.vals| && read <= |a| && rread <= |b|
      invariant Passed(left, ix, i + 1, read) && Passed(right, rix, j + 1, rread)
      invariant read > rread ==> i >= 0 && forall p :: rread <= p < read ==> a[p] == left.vals[i]
      invariant rread > read ==> j >= 0 && forall p :: read <= p < rread ==> b[p] == right.vals[j]
      invariant CompatibleUpTo(zero, a, b, Min(read, rread))
      decreases |a| + |b| - read - rread
    {
      ghost var p, read0, rread0 := Min(read, rread), read, rread;
      if read0 <= rread0 { PassRun(left, ix, i + 1, read); }
      if rread0 <= read0 { PassRun(right, rix, j + 1, rread); }
      assert a == left.Expand() && b == right.Expand();
      if read < rread {
        read, ix, i := read + EntryCount(left.index, ix), ix + EntrySize(left.index, ix), i + 1;
      } else if read > rread {
        rread, rix, j := rread + EntryCount(right.index, rix), rix + EntrySize(right.index, rix), j + 1;
      } else {
        read, rread := read + EntryCount(left.index, ix), rread + EntryCount(right.index, rix);
        ix, rix := ix + EntrySize(left.index, ix), rix + EntrySize(right.index, rix);
        i, j := i + 1, j + 1;
      }
      if !Compatible(zero, left.vals[i], right.vals[j]) {
        Incompatible(zero, a, b, p, minimum);
        return false;
      }
      CompatibleMore(zero, a, b, p, Min(read, rread), left.vals[i], right.vals[j]);
    }
    CompatibleLess(zero, a, b, Min(read, rread), minimum);
    same := true;
  }

  lemma CompatibleNone<V>(zero: V -> bool, a: seq<V>, b: seq<V>)
    ensures CompatibleUpTo(zero, a, b, 0)
  {}

  lemma CompatibleLess<V>(zero: V -> bool, a: seq<V>, b: seq<V>, m: nat, n: nat)
    requires CompatibleUpTo(zero, a, b, m) && n <= m
    ensures CompatibleUpTo(zero, a, b, n)
  {}

  lemma Incompatible<V>(zero: V -> bool, a: seq<V>, b: seq<V>, p: nat, n: nat)
    requires p < n && p < |a| && p < |b| && !Compatible(zero, a[p], b[p])
    ensures !CompatibleUpTo(zero, a, b, n)
  {}

  /** The run that holds position p, counting from one: where sd_proj and subarr start. */
  method FindRun<V(==)>(s: SparseData<V>, p: nat) returns (at: nat, i: nat, lst: nat, read: nat)
    requires s.Valid() && 1 <= p <= s.totalCount
    ensures Side(s.index, s.vals, s.Runs(), at, i, lst, read) && lst < p <= read && i < |s.vals|
  {
    hide Dense, RunsFrom, Parses, Side, AtEntry, EntryCount, EntrySize;
    SomeRun(s);
    SideStart(s);
    at, i, lst, read := 0, 0, 0, EntryCount(s.index, 0);
    SideNow(s.index, s.vals, s.Runs(), at, i, lst, read);
    while read < p
      invariant Side(s.index, s.vals, s.Runs(), at, i, lst, read)
      invariant lst < p && i < |s.vals| && lst < read <= s.totalCount
      decreases s.totalCount - read
    {
      SideNext(s.index, s.vals, s.Runs(), at, i, lst, read);
      at := at + EntrySize(s.index, at);
      lst, read, i := read, read + EntryCount(s.index, at), i + 1;
      SideNow(s.index, s.vals, s.Runs(), at, i, lst, read);
    }
  }

  lemma SomeRun<V>(s: SparseData<V>)
    requires s.Valid() && s.totalCount > 0
    ensures s.uniqueCount > 0
  {}

  /** sd_proj: the element at position p counting from one; None when there is none. */
  method Project<V(==)>(s: SparseData<V>, p: int) returns (v: Element<V>)
    requires s.Valid()
    ensures v == if 1 <= p <= s.totalCount then Some(s.Expand()[p - 1]) else None
  {
    hide Dense, RunsFrom, Parses, Side;
    if 0 >= p || p > s.totalCount { return None; }
    var at, i, lst, read := FindRun(s, p);
    SideNow(s.index, s.vals, s.Runs(), at, i, lst, read);
    v := Some(s.vals[i]);
  }

  datatype Element<V> = None | Some(value: V)

  /** The part taken so far. */
  ghost predicate Taken<V>(s: SparseData<V>, d: seq<V>, lo: nat, hi: nat)
    reads s
  {
    s.Valid() && s.index.Packed? && lo <= hi <= |d| <= INT_MAX && s.Expand() == d[lo..hi]
  }

  /** Take the stretch up to hi, which holds one value. */
  method Take<V(==)>(s: SparseData<V>, ghost d: seq<V>, ghost lo: nat, mid: nat, hi: nat, value: V)
    requires Taken(s, d, lo, mid) && mid < hi <= |d| && forall p :: mid <= p < hi ==> d[p] == value
    modifies s
    ensures Taken(s, d, lo, hi)
  {
    hide Dense, RunsFrom, Parses;
    DenseAppend(s.Runs(), Run(value, hi - mid));
    s.AddRun(value, hi - mid);
    assert d[lo..hi] == d[lo..mid] + Repeat(value, hi - mid);
  }

  /** subarr for start <= end: positions start to end counting from one; null when out of bounds. */
  method Subarray<V(==)>(s: SparseData<V>, start: int, end: int) returns (r: SparseData?<V>)
    requires s.Valid() && start <= end
    ensures r == null <==> start < 1 || end > s.totalCount
    ensures r != null ==> fresh(r) && r.Valid() && r.Expand() == s.Expand()[start - 1..end]
  {
    hide Dense, RunsFrom, Parses, Side, AtEntry, EntryCount, EntrySize, Taken;
    if 0 >= start || end > s.totalCount { return null; }
    ghost var d := s.Expand();
    var out := new SparseData<V>();
    var at: nat, i: nat, lst: nat, read: nat := FindRun(s, start);
    SideNow(s.index, s.vals, s.Runs(), at, i, lst, read);
    TakenNone(out, d, start - 1);
    var hi := if end <= read then end else read;
    Take(out, d, start - 1, start - 1, hi, s.vals[i]);
    while hi < end
      invariant start - 1 < hi <= end && fresh(out) && Taken(out, d, start - 1, hi) && hi <= read
      invariant Side(s.index, s.vals, s.Runs(), at, i, lst, read) && (hi < end ==> hi == read)
      decreases end - hi
    {
      SideNext(s.index, s.vals, s.Runs(), at, i, lst, read);
      at := at + EntrySize(s.index, at);
      lst, read, i := read, read + EntryCount(s.index, at), i + 1;
      SideNow(s.index, s.vals, s.Runs(), at, i, lst, read);
      var next := if end <= read then end else read;
      Take(out, d, start - 1, hi, next, s.vals[i]);
      hi := next;
    }
    TakenAll(out, d, start - 1, end);
    r := out;
  }

  lemma TakenNone<V>(s: SparseData<V>, d: seq<V>, lo: nat)
    requires s.Valid() && s.index.Packed? && s.Runs() == [] && lo <= |d| <= INT_MAX
    ensures Taken(s, d, lo, lo)
  {}

  lemma TakenAll<V>(s: SparseData<V>, d: seq<V>, lo: nat, hi: nat)
    requires Taken(s, d, lo, hi)
    ensures s.Valid() && lo <= hi <= |d| && s.Expand() == d[lo..hi]
  {}

  /** A zero goes with everything, two values that are not zero only with each other, and the order does not matter. */
  lemma CompatibleIs<V>(zero: V -> bool, x: V, y: V)
    ensures Compatible(zero, x, y) == Compatible(zero, y, x)
    ensures zero(x) || zero(y) ==> Compatible(zero, x, y)
    ensures !zero(x) && !zero(y) ==> (Compatible(zero, x, y) <==> x == y)
  {}
}
