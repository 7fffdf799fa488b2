/**
  Walking a sequence in order and appending the value of every element that
  yields one: the shape of a `forEach` whose body ends in a conditional
  `push`.  Stated once, for any per-element function.
 */
module Collecting {
  import opened Wrappers

  /** The values `f` yields along `xs`, in order. */
  function Collect<T, U>(xs: seq<T>, f: T -> Option<U>): (out: seq<U>)
    ensures |out| <= |xs|
  {
    if xs == [] then []
    else
      Collect(xs[..|xs| - 1], f) + match f(xs[|xs| - 1]) { case Some(u) => [u] case None => [] }
  }

  /** The positions of the elements on which `f` yields a value, in increasing order. */
  function YieldingIndices<T, U>(xs: seq<T>, f: T -> Option<U>): (idx: seq<nat>)
    ensures forall k :: 0 <= k < |idx| ==> idx[k] < |xs| && f(xs[idx[k]]).Some?
    ensures forall k, l :: 0 <= k < l < |idx| ==> idx[k] < idx[l]
    ensures forall i :: 0 <= i < |xs| && f(xs[i]).Some? ==> i in idx
  {
    if xs == [] then []
    else
      var n := |xs| - 1;
      var init := xs[..n];
      var prev := YieldingIndices(init, f);
      var idx := prev + if f(xs[n]).Some? then [n] else [];
      assert forall i :: 0 <= i < n ==> init[i] == xs[i];
      assert forall k :: 0 <= k < |prev| ==> idx[k] == prev[k];
      idx
  }

  /**
    `Collect` holds one value per yielding element and nothing else: its k-th
    value is what `f` yields on the k-th yielding element.
   */
  lemma {:induction false} CollectAt<T, U>(xs: seq<T>, f: T -> Option<U>)
    ensures |Collect(xs, f)| == |YieldingIndices(xs, f)|
    ensures forall k :: 0 <= k < |Collect(xs, f)| ==>
              f(xs[YieldingIndices(xs, f)[k]]) == Some(Collect(xs, f)[k])
  {
    if xs != [] {
      var n := |xs| - 1;
      var init := xs[..n];
      CollectAt(init, f);
      var prev, pidx := Collect(init, f), YieldingIndices(init, f);
      var out, idx := Collect(xs, f), YieldingIndices(xs, f);
      assert out == prev + match f(xs[n]) { case Some(u) => [u] case None => [] };
      assert idx == pidx + if f(xs[n]).Some? then [n] else [];
      forall k | 0 <= k < |out|
        ensures f(xs[idx[k]]) == Some(out[k])
      {
        if k < |prev| {
          assert out[k] == prev[k] && idx[k] == pidx[k] && init[pidx[k]] == xs[pidx[k]];
        }
      }
    }
  }

  /** Collecting over two consecutive blocks gives the first block's values, then the second's. */
  lemma {:induction false} CollectConcat<T, U>(a: seq<T>, b: seq<T>, f: T -> Option<U>)
    ensures Collect(a + b, f) == Collect(a, f) + Collect(b, f)
    decreases |b|
  {
    if b == [] {
      assert a + b == a;
    } else {
      var n := |b| - 1;
      var last := match f(b[n]) { case Some(u) => [u] case None => [] };
      CollectConcat(a, b[..n], f);
      assert (a + b)[..|a + b| - 1] == a + b[..n] && (a + b)[|a + b| - 1] == b[n];
      assert Collect(a + b, f) == Collect(a, f) + Collect(b[..n], f) + last;
    }
  }
}
