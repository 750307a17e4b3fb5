/** Run-length encoded sequences and the dense sequence they stand for. */
module RunLength {
  import opened Sequences

  datatype Run<V> = Run(value: V, count: nat)

  function Dense<V>(runs: seq<Run<V>>): (s: seq<V>) {
    if runs == [] then [] else Repeat(runs[0].value, runs[0].count) + Dense(runs[1..])
  }

  /** Where run k ends being run k - 1's successor: the length of the first k runs. */
  function End<V>(runs: seq<Run<V>>, k: nat): (n: nat)
    requires k <= |runs|
  {
    if k == 0 then 0 else End(runs, k - 1) + runs[k - 1].count
  }

  ghost predicate Positive<V>(runs: seq<Run<V>>) {
    forall k :: 0 <= k < |runs| ==> runs[k].count > 0
  }

  /** No two neighbours hold the same value. */
  ghost predicate Merged<V>(runs: seq<Run<V>>) {
    forall k :: 0 <= k < |runs| - 1 ==> runs[k].value != runs[k + 1].value
  }

  lemma {:induction false} DenseConcat<V>(a: seq<Run<V>>, b: seq<Run<V>>)
    ensures Dense(a + b) == Dense(a) + Dense(b)
  {
    if a == [] {
      assert a + b == b;
    } else {
      assert (a + b)[1..] == a[1..] + b;
      DenseConcat(a[1..], b);
    }
  }

  lemma DenseAppend<V>(runs: seq<Run<V>>, r: Run<V>)
    ensures Dense(runs + [r]) == Dense(runs) + Repeat(r.value, r.count)
  {
    DenseConcat(runs, [r]);
    assert [r][1..] == [];
  }

  lemma {:induction false} DensePrefix<V>(runs: seq<Run<V>>, k: nat)
    requires k <= |runs|
    ensures |Dense(runs[..k])| == End(runs, k)
  {
    if k > 0 {
      DensePrefix(runs, k - 1);
      assert runs[..k] == runs[..k - 1] + [runs[k - 1]];
      DenseAppend(runs[..k - 1], runs[k - 1]);
    }
  }

  lemma DenseLength<V>(runs: seq<Run<V>>)
    ensures |Dense(runs)| == End(runs, |runs|)
  {
    DensePrefix(runs, |runs|);
    assert runs[..|runs|] == runs;
  }

  lemma {:induction false} EndMono<V>(runs: seq<Run<V>>, j: nat, k: nat)
    requires j <= k <= |runs|
    ensures End(runs, j) <= End(runs, k)
    ensures Positive(runs) && j < k ==> End(runs, j) < End(runs, k)
  {
    if j < k { EndMono(runs, j, k - 1); }
  }

  /** The value at every position of run k. */
  lemma DenseAt<V>(runs: seq<Run<V>>, k: nat, p: nat)
    requires k < |runs| && End(runs, k) <= p < End(runs, k + 1)
    ensures p < |Dense(runs)| && Dense(runs)[p] == runs[k].value
  {
    hide Dense;
    DensePrefix(runs, k);
    assert runs == runs[..k] + runs[k..];
    DenseConcat(runs[..k], runs[k..]);
    DenseHead(runs[k..]);
  }

  lemma DenseHead<V>(runs: seq<Run<V>>)
    requires runs != []
    ensures Dense(runs) == Repeat(runs[0].value, runs[0].count) + Dense(runs[1..])
  {}

  lemma MergedAppend<V>(runs: seq<Run<V>>, r: Run<V>)
    requires Merged(runs) && (runs != [] ==> runs[|runs| - 1].value != r.value)
    ensures Merged(runs + [r])
  {}
}
