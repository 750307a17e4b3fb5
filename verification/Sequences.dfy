/** Facts about sequences that several of the stream models share. */
module Sequences {
  function Repeat<T>(v: T, n: nat): (s: seq<T>)
    ensures |s| == n && forall i :: 0 <= i < n ==> s[i] == v
  {
    seq(n, _ => v)
  }

  /** The pieces of a stream put together. */
  function Joined<T>(pieces: seq<seq<T>>): (s: seq<T>) {
    if pieces == [] then [] else Joined(pieces[..|pieces| - 1]) + pieces[|pieces| - 1]
  }

  lemma Regrouped<T>(a: seq<T>, b: seq<T>, c: seq<T>)
    ensures a + b + c == a + (b + c) && (a + (b + c))[|a|..] == b + c
  {}

  lemma CutFront<T>(a: seq<T>, b: seq<T>, n: nat)
    requires n <= |a|
    ensures (a + b)[..n] == a[..n] && (a + b)[n..] == a[n..] + b
  {}

  lemma SliceSlice<T>(s: seq<T>, n: nat, len: nat)
    requires n <= len <= |s|
    ensures s[n..][..len - n] == s[..len][n..] && s[n..][len - n..] == s[len..] && s[..len][..n] == s[..n]
  {}

  lemma SplitEnd<T>(a: seq<T>, d: seq<T>, n: nat)
    requires n <= |d|
    ensures a + d[..n] + d[n..] == a + d
  {}
}
