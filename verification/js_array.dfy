/**
 * The JavaScript array built-ins the test scripts chain together:
 * `find`, `filter` and `map`, over sequences and total callbacks.
 */
module JsArray {
  import opened Wrappers

  /** `xs.find(p)`: the first element satisfying `p`, if any. */
  function Find<T>(xs: seq<T>, p: T -> bool): (r: Option<T>)
    ensures r.None? <==> forall i :: 0 <= i < |xs| ==> !p(xs[i])
    ensures r.Some? ==> exists i :: 0 <= i < |xs| && xs[i] == r.value && p(r.value)
                          && forall j :: 0 <= j < i ==> !p(xs[j])
  {
    if xs == [] then None
    else if p(xs[0]) then Some(xs[0])
    else
      var r := Find(xs[1..], p);
      assert forall i :: 1 <= i < |xs| ==> xs[i] == xs[1..][i - 1];
      r
  }

  /** `xs.filter(p)`: the elements satisfying `p`, in their original order. */
  function Filter<T>(xs: seq<T>, p: T -> bool): (r: seq<T>)
    ensures |r| <= |xs|
    ensures forall k :: 0 <= k < |r| ==> p(r[k])
  {
    if xs == [] then [] else (if p(xs[0]) then [xs[0]] else []) + Filter(xs[1..], p)
  }

  /** `xs.map(f)`. */
  function Map<T, U>(xs: seq<T>, f: T -> U): (r: seq<U>)
    ensures |r| == |xs|
    ensures forall k :: 0 <= k < |xs| ==> r[k] == f(xs[k])
  {
    seq(|xs|, k requires 0 <= k < |xs| => f(xs[k]))
  }

  /** The positions of `xs` whose element satisfies `p`. */
  function PositionsWhere<T>(xs: seq<T>, p: T -> bool): set<nat>
  {
    set k: nat | k < |xs| && p(xs[k])
  }

  /** Filtering commutes with concatenation, so it keeps the relative order of what it keeps. */
  lemma {:induction false} FilterAppend<T>(a: seq<T>, b: seq<T>, p: T -> bool)
    ensures Filter(a + b, p) == Filter(a, p) + Filter(b, p)
  {
    if a == [] {
      assert a + b == b;
    } else {
      assert (a + b)[0] == a[0];
      assert (a + b)[1..] == a[1..] + b;
      FilterAppend(a[1..], b, p);
    }
  }

  /** Mapping commutes with concatenation. */
  lemma MapAppend<T, U>(a: seq<T>, b: seq<T>, f: T -> U)
    ensures Map(a + b, f) == Map(a, f) + Map(b, f)
  {
    assert forall k :: 0 <= k < |a + b| ==> Map(a + b, f)[k] == (Map(a, f) + Map(b, f))[k];
  }

  /** The filter keeps exactly the elements that satisfy `p`. */
  lemma {:induction false} FilterMembers<T>(xs: seq<T>, p: T -> bool, x: T)
    ensures x in Filter(xs, p) <==> x in xs && p(x)
  {
    if xs != [] {
      FilterMembers(xs[1..], p, x);
      assert xs == [xs[0]] + xs[1..];
    }
  }

  /** One more element adds its position exactly when it satisfies `p`. */
  lemma PositionsWhereSnoc<T>(init: seq<T>, last: T, p: T -> bool)
    ensures |PositionsWhere(init + [last], p)| == |PositionsWhere(init, p)| + if p(last) then 1 else 0
  {
    var xs := init + [last];
    var before := PositionsWhere(init, p);
    var all := PositionsWhere(xs, p);
    assert forall k :: 0 <= k < |init| ==> xs[k] == init[k];
    assert |init| !in before;
    if p(last) {
      assert all == before + {|init|};
    } else {
      assert all == before;
    }
  }

  /** The filter keeps as many elements as there are positions whose element satisfies `p`. */
  lemma {:induction false} FilterCount<T>(xs: seq<T>, p: T -> bool)
    ensures |Filter(xs, p)| == |PositionsWhere(xs, p)|
  {
    if xs != [] {
      var init := xs[..|xs| - 1];
      var last := xs[|xs| - 1];
      assert xs == init + [last];
      FilterCount(init, p);
      FilterAppend(init, [last], p);
      assert [last][1..] == [];
      PositionsWhereSnoc(init, last, p);
    } else {
      assert PositionsWhere(xs, p) == {};
    }
  }
}
