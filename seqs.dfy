/** Building a list by visiting the items of another in order and appending
    what each contributes: the shape of both loops of the system, the title
    filter over generated lines and the merge over speaker tracks. */
module Seqs {

  /** What `f` gives for each element of `xs`, concatenated in order. */
  function FlatMap<A, B>(xs: seq<A>, f: A -> seq<B>): seq<B> {
    if xs == [] then []
    else FlatMap(xs[..|xs| - 1], f) + f(xs[|xs| - 1])
  }

  /** One more element appends exactly what it contributes. */
  lemma FlatMapSnoc<A, B>(xs: seq<A>, i: nat, f: A -> seq<B>)
    requires i < |xs|
    ensures FlatMap(xs[..i + 1], f) == FlatMap(xs[..i], f) + f(xs[i])
  {
    assert xs[..i + 1][..i] == xs[..i];
  }

  lemma {:induction false} FlatMapAppend<A, B>(xs: seq<A>, ys: seq<A>, f: A -> seq<B>)
    ensures FlatMap(xs + ys, f) == FlatMap(xs, f) + FlatMap(ys, f)
    decreases |ys|
  {
    if ys == [] {
      assert xs + ys == xs;
    } else {
      var init := ys[..|ys| - 1];
      assert (xs + ys)[..|xs + ys| - 1] == xs + init;
      assert (xs + ys)[|xs + ys| - 1] == ys[|ys| - 1];
      FlatMapAppend(xs, init, f);
    }
  }

  /** An item is in the result exactly when some element contributes it. */
  lemma {:induction false} FlatMapMember<A, B>(xs: seq<A>, f: A -> seq<B>, y: B)
    ensures y in FlatMap(xs, f) <==> exists k :: 0 <= k < |xs| && y in f(xs[k])
    decreases |xs|
  {
    if xs != [] {
      var init := xs[..|xs| - 1];
      FlatMapMember(init, f, y);
      if y in FlatMap(init, f) {
        var k :| 0 <= k < |init| && y in f(init[k]);
        assert xs[k] == init[k];
      }
      if exists k :: 0 <= k < |xs| && y in f(xs[k]) {
        var k :| 0 <= k < |xs| && y in f(xs[k]);
        if k < |init| {
          assert init[k] == xs[k];
        }
      }
    }
  }

  /** When every element contributes at most one item, and every item it
      contributes satisfies `p`, the result is no longer than `xs` and all of
      it satisfies `p`. */
  lemma {:induction false} FlatMapEach<A, B>(xs: seq<A>, f: A -> seq<B>, p: B -> bool)
    requires forall k :: 0 <= k < |xs| ==> |f(xs[k])| <= 1
    requires forall k, j :: 0 <= k < |xs| && 0 <= j < |f(xs[k])| ==> p(f(xs[k])[j])
    ensures |FlatMap(xs, f)| <= |xs|
    ensures forall k :: 0 <= k < |FlatMap(xs, f)| ==> p(FlatMap(xs, f)[k])
    decreases |xs|
  {
    if xs != [] {
      var init := xs[..|xs| - 1];
      var last := f(xs[|xs| - 1]);
      assert forall k :: 0 <= k < |init| ==> init[k] == xs[k];
      FlatMapEach(init, f, p);
      var ys := FlatMap(xs, f);
      forall k | 0 <= k < |ys| ensures p(ys[k]) {
        if k < |FlatMap(init, f)| {
          assert ys[k] == FlatMap(init, f)[k];
        } else {
          assert ys[k] == last[k - |FlatMap(init, f)|];
        }
      }
    }
  }

  /** Elements that contribute nothing leave nothing behind. */
  lemma {:induction false} FlatMapNone<A, B>(xs: seq<A>, f: A -> seq<B>)
    requires forall k :: 0 <= k < |xs| ==> |f(xs[k])| == 0
    ensures FlatMap(xs, f) == []
    decreases |xs|
  {
    if xs != [] {
      var init := xs[..|xs| - 1];
      assert forall k :: 0 <= k < |init| ==> init[k] == xs[k];
      FlatMapNone(init, f);
    }
  }

  /** The positions of the elements that contribute something, in order. */
  function Hits<A, B>(xs: seq<A>, f: A -> seq<B>): seq<nat> {
    if xs == [] then []
    else Hits(xs[..|xs| - 1], f) + (if |f(xs[|xs| - 1])| > 0 then [|xs| - 1] else [])
  }

  /** The positions are strictly increasing, lie within `xs`, and are exactly
      the positions of the elements that contribute something. */
  lemma {:induction false} HitsExactly<A, B>(xs: seq<A>, f: A -> seq<B>)
    ensures forall k :: 0 <= k < |Hits(xs, f)| ==> Hits(xs, f)[k] < |xs|
    ensures forall k, l :: 0 <= k < l < |Hits(xs, f)| ==> Hits(xs, f)[k] < Hits(xs, f)[l]
    ensures forall j :: 0 <= j < |xs| ==> (j in Hits(xs, f) <==> |f(xs[j])| > 0)
    decreases |xs|
  {
    if xs != [] {
      var init := xs[..|xs| - 1];
      HitsExactly(init, f);
      var h := Hits(xs, f);
      var h0 := Hits(init, f);
      assert forall j :: 0 <= j < |init| ==> init[j] == xs[j];
      forall k, l | 0 <= k < l < |h| ensures h[k] < h[l] {
        assert h[k] == h0[k];
        if l < |h0| {
          assert h[l] == h0[l];
        }
      }
    }
  }

  /** When every element contributes at most one item, the k-th item of the
      result is the one contributed by the element at the k-th position. */
  lemma {:induction false} FlatMapFromHits<A, B>(xs: seq<A>, f: A -> seq<B>)
    requires forall k :: 0 <= k < |xs| ==> |f(xs[k])| <= 1
    ensures |FlatMap(xs, f)| == |Hits(xs, f)|
    ensures forall k :: 0 <= k < |Hits(xs, f)| ==>
      Hits(xs, f)[k] < |xs| && f(xs[Hits(xs, f)[k]]) == [FlatMap(xs, f)[k]]
    decreases |xs|
  {
    if xs != [] {
      var init := xs[..|xs| - 1];
      assert forall k :: 0 <= k < |init| ==> init[k] == xs[k];
      FlatMapFromHits(init, f);
      var ys, h := FlatMap(xs, f), Hits(xs, f);
      var ys0, h0 := FlatMap(init, f), Hits(init, f);
      forall k | 0 <= k < |h| ensures h[k] < |xs| && f(xs[h[k]]) == [ys[k]] {
        if k < |h0| {
          assert h[k] == h0[k] && ys[k] == ys0[k];
        }
      }
    }
  }
}
