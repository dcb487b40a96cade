/** Sequence helpers shared by the parsers and the menu: an option type and
    the "build a list by appending the entries that pass a test" loop that
    both process-listing parsers use. */
module Seqs {

  datatype Option<+T> = None | Some(value: T)

  /** The images under `f` of the elements of `xs` that `f` accepts, in the
      order of `xs`: the loop `for x in xs: if ...: out.append(...)`. */
  function FilterMap<A, B>(xs: seq<A>, f: A -> Option<B>): (ys: seq<B>)
    ensures |ys| <= |xs|
    decreases |xs|
  {
    if xs == [] then []
    else
      var init := FilterMap(xs[..|xs| - 1], f);
      match f(xs[|xs| - 1])
      case Some(y) => init + [y]
      case None => init
  }

  /** Positions in `xs` of the elements `f` accepts, ascending. */
  function KeptIndices<A, B>(xs: seq<A>, f: A -> Option<B>): (idx: seq<nat>)
    decreases |xs|
  {
    if xs == [] then []
    else KeptIndices(xs[..|xs| - 1], f) + (if f(xs[|xs| - 1]).Some? then [|xs| - 1] else [])
  }

  /** `FilterMap` keeps exactly the accepted elements, each once, in input
      order: the k-th output is the image of the k-th accepted element. */
  lemma {:induction false} FilterMapSelects<A, B>(xs: seq<A>, f: A -> Option<B>)
    ensures |KeptIndices(xs, f)| == |FilterMap(xs, f)|
    ensures forall k :: 0 <= k < |KeptIndices(xs, f)| ==>
      KeptIndices(xs, f)[k] < |xs| && f(xs[KeptIndices(xs, f)[k]]) == Some(FilterMap(xs, f)[k])
    ensures forall k, l :: 0 <= k < l < |KeptIndices(xs, f)| ==> KeptIndices(xs, f)[k] < KeptIndices(xs, f)[l]
    ensures forall i :: 0 <= i < |xs| ==> (f(xs[i]).Some? <==> i in KeptIndices(xs, f))
    decreases |xs|
  {
    if xs != [] {
      var init := xs[..|xs| - 1];
      FilterMapSelects(init, f);
      var idx0 := KeptIndices(init, f);
      assert forall i :: 0 <= i < |init| ==> init[i] == xs[i];
      assert forall k :: 0 <= k < |idx0| ==> idx0[k] < |init|;
    }
  }

  /** Every output of `FilterMap` is the image of some input element. */
  lemma FilterMapMember<A, B>(xs: seq<A>, f: A -> Option<B>, y: B)
    requires y in FilterMap(xs, f)
    ensures exists i :: 0 <= i < |xs| && f(xs[i]) == Some(y)
  {
    FilterMapSelects(xs, f);
    var k :| 0 <= k < |FilterMap(xs, f)| && FilterMap(xs, f)[k] == y;
    var i := KeptIndices(xs, f)[k];
    assert f(xs[i]) == Some(y);
  }

  /** Every accepted input element reaches the output. */
  lemma FilterMapComplete<A, B>(xs: seq<A>, f: A -> Option<B>, i: nat)
    requires i < |xs| && f(xs[i]).Some?
    ensures f(xs[i]).value in FilterMap(xs, f)
  {
    FilterMapSelects(xs, f);
    var idx := KeptIndices(xs, f);
    var k :| 0 <= k < |idx| && idx[k] == i;
    assert FilterMap(xs, f)[k] == f(xs[i]).value;
  }

  /** A test that accepts every element unchanged filters nothing out. */
  lemma {:induction false} FilterMapKeepsAll<A>(xs: seq<A>, f: A -> Option<A>)
    requires forall i :: 0 <= i < |xs| ==> f(xs[i]) == Some(xs[i])
    ensures FilterMap(xs, f) == xs
    decreases |xs|
  {
    if xs != [] {
      var init := xs[..|xs| - 1];
      assert forall i :: 0 <= i < |init| ==> init[i] == xs[i];
      FilterMapKeepsAll(init, f);
      assert init + [xs[|xs| - 1]] == xs;
    }
  }
}
