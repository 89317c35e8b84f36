/**
 * The loop shape "for each item, maybe append something" that both scripts
 * use, as one function on sequences, with the facts the callers need.
 */
module Sequences {
  import opened Wrappers

  /** The `Some` results of `f` over `xs`, in the order of `xs`. */
  function FilterMap<A, B>(xs: seq<A>, f: A -> Option<B>): (r: seq<B>)
    ensures |r| <= |xs|
    decreases |xs|
  {
    if xs == [] then []
    else
      var earlier := FilterMap(xs[..|xs| - 1], f);
      match f(xs[|xs| - 1])
      case Some(y) => earlier + [y]
      case None => earlier
  }

  /** Filtering a concatenation filters each part and concatenates: the order of the input is kept. */
  lemma {:induction false} FilterMapAppend<A, B>(xs: seq<A>, ys: seq<A>, f: A -> Option<B>)
    ensures FilterMap(xs + ys, f) == FilterMap(xs, f) + FilterMap(ys, f)
    decreases |ys|
  {
    if ys == [] {
      assert xs + ys == xs;
    } else {
      var ys' := ys[..|ys| - 1];
      assert (xs + ys)[..|xs + ys| - 1] == xs + ys';
      assert (xs + ys)[|xs + ys| - 1] == ys[|ys| - 1];
      FilterMapAppend(xs, ys', f);
    }
  }

  /**
   * The results come from an increasing run of input positions, and every
   * position where `f` gives a result is in that run.
   */
  lemma {:induction false} FilterMapPositions<A, B>(xs: seq<A>, f: A -> Option<B>) returns (idx: seq<nat>)
    ensures |idx| == |FilterMap(xs, f)|
    ensures forall k :: 0 <= k < |idx| ==> idx[k] < |xs| && f(xs[idx[k]]) == Some(FilterMap(xs, f)[k])
    ensures forall k, l :: 0 <= k < l < |idx| ==> idx[k] < idx[l]
    ensures forall j :: 0 <= j < |xs| && f(xs[j]).Some? ==> j in idx
    decreases |xs|
  {
    if xs == [] {
      idx := [];
    } else {
      var n := |xs| - 1;
      var init := xs[..n];
      var earlier := FilterMapPositions(init, f);
      ghost var before := FilterMap(init, f);
      assert forall j :: 0 <= j < n ==> init[j] == xs[j];
      match f(xs[n])
      case Some(y) =>
        assert FilterMap(xs, f) == before + [y];
        idx := earlier + [n];
        forall k | 0 <= k < |idx|
          ensures idx[k] < |xs| && f(xs[idx[k]]) == Some(FilterMap(xs, f)[k])
        {
          if k < |earlier| {
            assert idx[k] == earlier[k] && FilterMap(xs, f)[k] == before[k];
          }
        }
      case None =>
        assert FilterMap(xs, f) == before;
        idx := earlier;
    }
  }

  /** Every result is what `f` gives for some input. */
  lemma FilterMapFrom<A, B>(xs: seq<A>, f: A -> Option<B>)
    ensures forall k :: 0 <= k < |FilterMap(xs, f)| ==> exists j :: 0 <= j < |xs| && f(xs[j]) == Some(FilterMap(xs, f)[k])
  {
    var idx := FilterMapPositions(xs, f);
    forall k | 0 <= k < |FilterMap(xs, f)|
      ensures exists j :: 0 <= j < |xs| && f(xs[j]) == Some(FilterMap(xs, f)[k])
    {
      assert f(xs[idx[k]]) == Some(FilterMap(xs, f)[k]);
    }
  }

  /** A filter that keeps no more items than another, item by item, keeps no more in all. */
  lemma {:induction false} FilterMapFewer<A, B, C>(xs: seq<A>, f: A -> Option<B>, g: A -> Option<C>)
    requires forall x :: f(x).Some? ==> g(x).Some?
    ensures |FilterMap(xs, f)| <= |FilterMap(xs, g)|
    decreases |xs|
  {
    if xs != [] {
      FilterMapFewer(xs[..|xs| - 1], f, g);
    }
  }

  /** A filter that rejects every item yields nothing. */
  lemma {:induction false} FilterMapNone<A, B>(xs: seq<A>, f: A -> Option<B>)
    requires forall k :: 0 <= k < |xs| ==> f(xs[k]).None?
    ensures FilterMap(xs, f) == []
    decreases |xs|
  {
    if xs != [] {
      FilterMapNone(xs[..|xs| - 1], f);
    }
  }
}
