/** The positions at which a sequence of flags is true: the index view of a
    JavaScript `filter`, or of the `forEach` that pushes selected items. */
module Indices {

  /** The positions of `flags` that hold `true`, in increasing order. */
  function TrueIndices(flags: seq<bool>): (ks: seq<nat>)
    ensures |ks| <= |flags|
    ensures forall k :: 0 <= k < |ks| ==> ks[k] < |flags| && flags[ks[k]]
    ensures forall k, l :: 0 <= k < l < |ks| ==> ks[k] < ks[l]
    ensures forall i :: 0 <= i < |flags| && flags[i] ==> i in ks
  {
    if flags == [] then []
    else
      var n := |flags| - 1;
      var front := TrueIndices(flags[..n]);
      assert forall i :: 0 <= i < n ==> flags[..n][i] == flags[i];
      front + if flags[n] then [n] else []
  }

  /** Extending the flags by one extends the indices by at most that position. */
  lemma TrueIndicesSnoc(flags: seq<bool>, b: bool)
    ensures TrueIndices(flags + [b]) == TrueIndices(flags) + if b then [|flags|] else []
  {
    assert (flags + [b])[..|flags|] == flags;
  }

  /** The values of `f` at 0 to `n - 1`, built from the front. */
  function Table<T>(f: nat -> T, n: nat): (s: seq<T>)
    ensures |s| == n
  {
    if n == 0 then [] else Table(f, n - 1) + [f(n - 1)]
  }

  /** The table grows by one entry at a time. */
  lemma TableSnoc<T>(f: nat -> T, n: nat)
    ensures Table(f, n + 1) == Table(f, n) + [f(n)]
  {
  }

  /** Entry `i` of the table is `f(i)`. */
  lemma {:induction false} TableAt<T>(f: nat -> T, n: nat, i: nat)
    requires i < n
    ensures Table(f, n)[i] == f(i)
  {
    if i < n - 1 {
      TableAt(f, n - 1, i);
      assert Table(f, n) == Table(f, n - 1) + [f(n - 1)];
    }
  }
}
