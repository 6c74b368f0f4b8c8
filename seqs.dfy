/** Small sequence vocabulary shared by the table model: optional values,
    results, the positions a boolean mask selects, and picking elements by
    position. */
module Seqs {

  datatype Option<+T> = None | Some(value: T)

  datatype Result<+T, +E> = Ok(value: T) | Err(error: E)

  /** No element occurs twice. */
  predicate Distinct<T(==)>(s: seq<T>) {
    forall a, b :: 0 <= a < b < |s| ==> s[a] != s[b]
  }

  /** Positions in strictly increasing order. */
  predicate Increasing(idx: seq<nat>) {
    forall a, b :: 0 <= a < b < |idx| ==> idx[a] < idx[b]
  }

  /** Every position is a valid index into a sequence of length n. */
  predicate InRange(idx: seq<nat>, n: nat) {
    forall k :: 0 <= k < |idx| ==> idx[k] < n
  }

  /** The positions of `mask` that hold true, in increasing order. */
  function Where(mask: seq<bool>): (w: seq<nat>)
    ensures |w| <= |mask|
    ensures InRange(w, |mask|)
  {
    if mask == [] then []
    else Where(mask[..|mask| - 1]) + (if mask[|mask| - 1] then [|mask| - 1] else [])
  }

  /** `Where` lists exactly the true positions, each once, in order. */
  lemma {:induction false} WhereExact(mask: seq<bool>)
    ensures Increasing(Where(mask))
    ensures forall k :: 0 <= k < |Where(mask)| ==> mask[Where(mask)[k]]
    ensures forall i :: 0 <= i < |mask| ==> (mask[i] <==> i in Where(mask))
  {
    if mask != [] {
      var n := |mask| - 1;
      var front := mask[..n];
      WhereExact(front);
      var w := Where(front);
      assert Where(mask) == w + (if mask[n] then [n] else []);
      forall i | 0 <= i < n
        ensures mask[i] <==> i in Where(mask)
      {
        assert front[i] == mask[i];
      }
    }
  }

  /** A mask that is true everywhere selects every position. */
  lemma {:induction false} WhereAll(mask: seq<bool>)
    requires forall i :: 0 <= i < |mask| ==> mask[i]
    ensures Where(mask) == Range(|mask|)
  {
    if mask != [] {
      var n := |mask| - 1;
      WhereAll(mask[..n]);
      assert Range(n) + [n] == Range(n + 1);
    }
  }

  /** 0, 1, ..., n - 1. */
  function Range(n: nat): (r: seq<nat>)
    ensures |r| == n && forall k :: 0 <= k < n ==> r[k] == k
  {
    seq(n, k => k)
  }

  /** The elements of `s` at positions `idx`, in the order of `idx`. */
  function Pick<T>(s: seq<T>, idx: seq<nat>): (r: seq<T>)
    requires InRange(idx, |s|)
    ensures |r| == |idx|
  {
    seq(|idx|, k requires 0 <= k < |idx| => s[idx[k]])
  }

  /** Picking every position in order gives the sequence back. */
  lemma PickRange<T>(s: seq<T>)
    ensures Pick(s, Range(|s|)) == s
  {
  }

  /** `r` is the subsequence of `s` at the increasing positions `idx`. */
  ghost predicate SubsequenceAt<T>(r: seq<T>, s: seq<T>, idx: seq<nat>) {
    && |idx| == |r|
    && InRange(idx, |s|)
    && Increasing(idx)
    && forall k :: 0 <= k < |r| ==> r[k] == s[idx[k]]
  }
}
