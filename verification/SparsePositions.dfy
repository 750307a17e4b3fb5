/** position_to_sdata: a vector from values at unsorted positions, with a default elsewhere. */
module SparsePositions {
  import opened CompWord
  import opened Sequences
  import opened RunLength
  import opened SparseVector

  /** A C int from a wider value. */
  function Wrap32(x: int): (y: int) {
    var m := x % P32;
    if m <= INT_MAX then m else m - P32
  }

  /** compar: the difference of two positions, cut to an int on the way. */
  function Compar(a: int, b: int): (c: int) {
    Wrap32(Wrap32(a) - b)
  }

  /** Below 2^31 the cut loses nothing. */
  lemma ComparIsOrder(a: int, b: int)
    requires 1 <= a <= INT_MAX && 1 <= b <= INT_MAX
    ensures Compar(a, b) <= 0 <==> a <= b
  {}

  /** What qsort leaves: a permutation of 0 to n - 1, in order for the comparison. */
  ghost predicate SortedBy(index: seq<nat>, pos: seq<int>) {
    && |index| == |pos|
    && (forall k :: 0 <= k < |index| ==> index[k] < |pos|)
    && (forall a :: 0 <= a < |pos| ==> a in index)
    && forall j, k :: 0 <= j < k < |index| ==> Compar(pos[index[j]], pos[index[k]]) <= 0
  }

  ghost predicate InRange(pos: seq<int>, end: nat) {
    end <= INT_MAX && forall a :: 0 <= a < |pos| ==> 1 <= pos[a] <= end
  }

  /** The entries in sorted order. */
  ghost predicate Ordered<V>(ps: seq<int>, ws: seq<V>) {
    |ps| == |ws| && forall j, k :: 0 <= j < k < |ps| ==> ps[j] <= ps[k]
  }

  /** Position p + 1 of the wanted vector holds v, going by the entries (ps, ws). */
  ghost predicate Wanted<V>(ps: seq<int>, ws: seq<V>, base: V, p: nat, v: V)
    requires |ps| == |ws|
  {
    && (forall k :: 0 <= k < |ps| && ps[k] == p + 1 ==> ws[k] == v)
    && ((forall k :: 0 <= k < |ps| ==> ps[k] != p + 1) ==> v == base)
  }

  ghost predicate WantedAll<V>(ps: seq<int>, ws: seq<V>, base: V, d: seq<V>)
    requires |ps| == |ws|
  {
    forall p :: 0 <= p < |d| ==> Wanted(ps, ws, base, p, d[p])
  }

  /** Two equal positions with different values. */
  ghost predicate Conflict<V>(ps: seq<int>, ws: seq<V>)
    requires |ps| == |ws|
  {
    exists j, k :: 0 <= j < |ps| && 0 <= k < |ps| && ps[j] == ps[k] && ws[j] != ws[k]
  }

  /** The vector is complete up to the position before entry i, or to the end. */
  ghost predicate Built<V>(s: SparseData<V>, ps: seq<int>, ws: seq<V>, base: V, end: nat, i: nat)
    requires Ordered(ps, ws) && i <= |ps|
    reads s
  {
    && s.Valid() && s.index.Packed? && WantedAll(ps, ws, base, s.Expand())
    && s.totalCount == (if i < |ps| then ps[i] - 1 else end)
    && (0 < i < |ps| ==> ps[i - 1] < ps[i])
  }

  /** Entries lo to hi are one value at consecutive positions, hi to top repeats of the last one. */
  ghost predicate Stretch<V>(ps: seq<int>, ws: seq<V>, lo: nat, hi: nat, top: nat)
    requires Ordered(ps, ws)
  {
    && lo <= hi <= top < |ps| && ps[hi] == ps[lo] + (hi - lo)
    && (forall k :: lo <= k <= top ==> ws[k] == ws[lo])
    && ps[top] == ps[hi]
    && (forall k :: 0 <= k < lo ==> ps[k] < ps[lo])
    && (forall p :: ps[lo] <= p <= ps[hi] ==> p in ps)
  }

  /** A finished stretch is a run of the wanted vector. */
  lemma StretchWanted<V>(ps: seq<int>, ws: seq<V>, base: V, d: seq<V>, lo: nat, hi: nat, top: nat)
    requires Ordered(ps, ws) && Stretch(ps, ws, lo, hi, top) && (top + 1 < |ps| ==> ps[top] < ps[top + 1])
    requires WantedAll(ps, ws, base, d) && |d| == ps[lo] - 1
    ensures WantedAll(ps, ws, base, d + Repeat(ws[top], hi - lo + 1))
  {
    var d' := d + Repeat(ws[top], hi - lo + 1);
    forall p | 0 <= p < |d'| ensures Wanted(ps, ws, base, p, d'[p]) {
      if p >= |d| {
        assert ps[lo] <= p + 1 <= ps[hi];
        assert p + 1 in ps;
        var m :| 0 <= m < |ps| && ps[m] == p + 1;
        forall k | 0 <= k < |ps| && ps[k] == p + 1 ensures ws[k] == ws[top] {
          assert lo <= k <= top;
        }
      } else {
        assert Wanted(ps, ws, base, p, d[p]);
      }
    }
  }

  /** Positions no entry names hold the default. */
  lemma GapWanted<V>(ps: seq<int>, ws: seq<V>, base: V, d: seq<V>, n: nat)
    requires |ps| == |ws| && WantedAll(ps, ws, base, d)
    requires forall k :: 0 <= k < |ps| ==> ps[k] <= |d| || |d| + n < ps[k]
    ensures WantedAll(ps, ws, base, d + Repeat(base, n))
  {
    var d' := d + Repeat(base, n);
    forall p | 0 <= p < |d'| ensures Wanted(ps, ws, base, p, d'[p]) {
      if p < |d| { assert Wanted(ps, ws, base, p, d[p]); }
    }
  }

  /** Find the stretch that starts at entry i: two loops, as the source has them. */
  method FindStretch<V(==)
    >(pos: array<int>, vals: array<V>, index: seq<nat>, i0: nat, ghost ps: seq<int>, ghost ws: seq<V>)
    returns (conflict: bool, hi: nat, top: nat)
    requires |index| == pos.Length == vals.Length == |ps| == |ws| && i0 < |index| && Ordered(ps, ws)
    requires forall k :: 0 <= k < |index| ==> index[k] < pos.Length && pos[index[k]] == ps[k] && vals[index[k]] == ws[k]
    requires forall k :: 0 <= k < i0 ==> ps[k] < ps[i0]
    ensures conflict ==> Conflict(ps, ws)
    ensures !conflict ==> Stretch(ps, ws, i0, hi, top) && (top + 1 < |ps| ==> ps[top] < ps[top + 1])
  {
    var count := |index|;
    var i := i0;
    while i < count - 1 && pos[index[i + 1]] - pos[index[i]] == 1 && vals[index[i]] == vals[index[i + 1]]
      invariant i0 <= i < count && Stretch(ps, ws, i0, i, i)
    {
      i := i + 1;
      assert forall p :: ps[i0] <= p <= ps[i] && p != ps[i] ==> p in ps;
    }
    hi := i;
    while i < count - 1 && pos[index[i + 1]] - pos[index[i]] == 0
      invariant hi <= i < count && Stretch(ps, ws, i0, hi, i)
    {
      if vals[index[i]] == vals[index[i + 1]] {
        i := i + 1;
      } else {
        return true, 0, 0;
      }
    }
    conflict, top := false, i;
  }

  /** The gap after entry top: defaults up to the next entry or the end. */
  method FillGap<V(==)
    >(s: SparseData<V>, base: V, end: nat, ghost ps: seq<int>, ghost ws: seq<V>, ghost top: nat, len: int)
    requires Ordered(ps, ws) && top < |ps| && s.Valid() && s.index.Packed? && WantedAll(ps, ws, base, s.Expand())
    requires s.totalCount == ps[top] && end <= INT_MAX && (forall k :: 0 <= k < |ps| ==> ps[k] <= end)
    requires top + 1 < |ps| ==> ps[top] < ps[top + 1]
    requires len == (if top + 1 < |ps| then ps[top + 1] - 1 else end) - ps[top]
    modifies s
    ensures Built(s, ps, ws, base, end, top + 1)
  {
    hide RunsFrom, Parses, Dense, WantedAll;
    if len > 0 {
      ghost var runs := s.Runs();
      GapWanted(ps, ws, base, s.Expand(), len);
      DenseAppend(runs, Run(base, len));
      s.AddRun(base, len);
    }
  }

  /** One stretch and the gap after it. */
  method AddStretch<V(==)>(s: SparseData<V>, value: V, base: V, end: nat, len: nat, gap: int,
                           ghost ps: seq<int>, ghost ws: seq<V>, ghost lo: nat, ghost hi: nat, ghost top: nat)
    requires Ordered(ps, ws) && lo < |ps| && Built(s, ps, ws, base, end, lo) && Stretch(ps, ws, lo, hi, top)
    requires (top + 1 < |ps| ==> ps[top] < ps[top + 1]) && value == ws[top] && len == hi - lo + 1
    requires end <= INT_MAX && (forall k :: 0 <= k < |ps| ==> 1 <= ps[k] <= end)
    requires gap == (if top + 1 < |ps| then ps[top + 1] - 1 else end) - ps[top]
    modifies s
    ensures Built(s, ps, ws, base, end, top + 1)
  {
    hide RunsFrom, Parses, Dense, WantedAll;
    ghost var runs := s.Runs();
    StretchWanted(ps, ws, base, s.Expand(), lo, hi, top);
    DenseAppend(runs, Run(value, len));
    s.AddRun(value, len);
    FillGap(s, base, end, ps, ws, top, gap);
  }

  /** The defaults before the first entry. */
  method FillFront<V(==)>(s: SparseData<V>, base: V, end: nat, first: int, ghost ps: seq<int>, ghost ws: seq<V>)
    requires s.Valid() && s.index.Packed? && s.Runs() == [] && Ordered(ps, ws) && |ps| > 0 && first == ps[0]
    requires end <= INT_MAX && (forall k :: 0 <= k < |ps| ==> 1 <= ps[k] <= end)
    modifies s
    ensures Built(s, ps, ws, base, end, 0)
  {
    hide RunsFrom, Parses;
    if first > 1 {
      GapWanted(ps, ws, base, [], first - 1);
      DenseAppend([], Run(base, first - 1));
      assert [] + Repeat(base, first - 1) == Repeat(base, first - 1);
      s.AddRun(base, first - 1);
    }
  }

  /**
   position_to_sdata, given the order qsort found.  Refused (no result) exactly when
   two equal positions carry different values; otherwise the vector of length end
   with each value at its position and base everywhere else.
   */
  method FromPositions<V(==)
    >(vals: array<V>, pos: array<int>, end: nat, base: V, index: seq<nat>) returns (s: SparseData?<V>)
    requires 1 <= vals.Length == pos.Length && InRange(pos[..], end) && SortedBy(index, pos[..])
    ensures s == null <==> Conflict(pos[..], vals[..])
    ensures s != null ==> fresh(s) && s.Valid() && s.totalCount == end && WantedAll(pos[..], vals[..], base, s.Expand())
  {
    hide Built, Conflict, WantedAll, Stretch, Permuted, Ordered;
    ghost var pv, vv := pos[..], vals[..];
    ghost var ps, ws := Arrange(pv, index), Arrange(vv, index);
    SortedOrder(pv, vv, index, ps, ws, end);
    var out := new SparseData<V>();
    FillFront(out, base, end, pos[index[0]], ps, ws);
    var i := 0;
    while i < vals.Length
      invariant i <= vals.Length && fresh(out) && Built(out, ps, ws, base, end, i)
    {
      BuiltBefore(out, ps, ws, base, end, i);
      var conflict, hi, top := FindStretch(pos, vals, index, i, ps, ws);
      if conflict {
        ConflictBack(pv, vv, index, ps, ws);
        return null;
      }
      StretchOrder(ps, ws, i, hi, top);
      var gap := (if top < vals.Length - 1 then pos[index[top + 1]] - 1 else end) - pos[index[top]];
      AddStretch(out, vals[index[top]], base, end, hi - i + 1, gap, ps, ws, i, hi, top);
      i := top + 1;
    }
    BuiltAll(out, ps, ws, base, end);
    WantedBack(pv, vv, index, ps, ws, base, out.Expand(), end);
    s := out;
  }

  function Arrange<T>(s: seq<T>, index: seq<nat>): (t: seq<T>)
    requires forall k :: 0 <= k < |index| ==> index[k] < |s|
    ensures |t| == |index| && forall k :: 0 <= k < |index| ==> t[k] == s[index[k]]
  {
    seq(|index|, k requires 0 <= k < |index| => s[index[k]])
  }

  lemma BuiltBefore<V>(s: SparseData<V>, ps: seq<int>, ws: seq<V>, base: V, end: nat, i: nat)
    requires Ordered(ps, ws) && i < |ps| && Built(s, ps, ws, base, end, i)
    ensures forall k :: 0 <= k < i ==> ps[k] < ps[i]
  {}

  lemma BuiltAll<V>(s: SparseData<V>, ps: seq<int>, ws: seq<V>, base: V, end: nat)
    requires Ordered(ps, ws) && Built(s, ps, ws, base, end, |ps|)
    ensures s.Valid() && s.totalCount == end && |ps| == |ws| && WantedAll(ps, ws, base, s.Expand())
  {}

  lemma StretchOrder<V>(ps: seq<int>, ws: seq<V>, lo: nat, hi: nat, top: nat)
    requires Ordered(ps, ws) && Stretch(ps, ws, lo, hi, top)
    ensures lo <= hi <= top < |ps|
  {}

  ghost predicate Permuted<V>(pos: seq<int>, vals: seq<V>, index: seq<nat>, ps: seq<int>, ws: seq<V>) {
    && |pos| == |vals| == |index| == |ps| == |ws|
    && (forall k :: 0 <= k < |index| ==> index[k] < |pos| && ps[k] == pos[index[k]] && ws[k] == vals[index[k]])
    && (forall a :: 0 <= a < |pos| ==> a in index)
  }

  lemma SortedOrder<V>(pos: seq<int>, vals: seq<V>, index: seq<nat>, ps: seq<int>, ws: seq<V>, end: nat)
    requires SortedBy(index, pos) && InRange(pos, end) && |ps| == |ws| == |index| == |vals|
    requires forall k :: 0 <= k < |index| ==> ps[k] == pos[index[k]] && ws[k] == vals[index[k]]
    ensures forall k :: 0 <= k < |ps| ==> 1 <= ps[k] <= end
    ensures Ordered(ps, ws) && Permuted(pos, vals, index, ps, ws)
  {
    hide Compar;
    forall j, k | 0 <= j < k < |ps| ensures ps[j] <= ps[k] {
      ComparIsOrder(pos[index[j]], pos[index[k]]);
    }
  }

  lemma ConflictBack<V>(pos: seq<int>, vals: seq<V>, index: seq<nat>, ps: seq<int>, ws: seq<V>)
    requires Permuted(pos, vals, index, ps, ws) && Conflict(ps, ws)
    ensures Conflict(pos, vals)
  {
    var j, k :| 0 <= j < |ps| && 0 <= k < |ps| && ps[j] == ps[k] && ws[j] != ws[k];
    assert pos[index[j]] == pos[index[k]] && vals[index[j]] != vals[index[k]];
  }

  /** What holds of the sorted entries holds of the given ones, and rules out conflicts. */
  lemma WantedBack<V>(pos: seq<int>, vals: seq<V>, index: seq<nat>, ps: seq<int>, ws: seq<V>, base: V,
                      d: seq<V>, end: nat)
    requires Permuted(pos, vals, index, ps, ws) && InRange(pos, end) && |d| == end && WantedAll(ps, ws, base, d)
    ensures WantedAll(pos, vals, base, d) && !Conflict(pos, vals)
  {
    forall p | 0 <= p < |d| ensures Wanted(pos, vals, base, p, d[p]) {
      assert Wanted(ps, ws, base, p, d[p]);
      forall a | 0 <= a < |pos| && pos[a] == p + 1 ensures vals[a] == d[p] {
        assert a in index;
        var k :| 0 <= k < |index| && index[k] == a;
        assert ps[k] == p + 1;
      }
      if forall a :: 0 <= a < |pos| ==> pos[a] != p + 1 {
        assert forall k :: 0 <= k < |ps| ==> ps[k] != p + 1;
      }
    }
    forall a, b | 0 <= a < |pos| && 0 <= b < |pos| && pos[a] == pos[b] ensures vals[a] == vals[b] {
      assert Wanted(pos, vals, base, pos[a] - 1, d[pos[a] - 1]);
    }
  }
}
