/** The optional value used for absent metadata and for targets that are not produced. */
module Wrappers {

  datatype Option<T> = None | Some(value: T) {

    /** The wrapped value, or `default` when there is none (Python's `dict.get(key, default)`). */
    function GetOr(default: T): T {
      if Some? then value else default
    }

    /** The wrapped value as a one-element sequence, or the empty sequence. */
    function ToSeq(): seq<T> {
      if Some? then [value] else []
    }
  }

  /** The values `f` produces over `xs`, in order, skipping the elements it maps to None. */
  function FilterMap<A, B>(f: A -> Option<B>, xs: seq<A>): (r: seq<B>)
    ensures |r| <= |xs|
    decreases |xs|
  {
    if xs == [] then [] else f(xs[0]).ToSeq() + FilterMap(f, xs[1..])
  }

  /** Filter-mapping a concatenation filter-maps each half: order is kept. */
  lemma {:induction false} FilterMapAppend<A, B>(f: A -> Option<B>, a: seq<A>, b: seq<A>)
    ensures FilterMap(f, a + b) == FilterMap(f, a) + FilterMap(f, b)
    decreases |a|
  {
    if a == [] {
      assert a + b == b;
    } else {
      assert (a + b)[1..] == a[1..] + b;
      FilterMapAppend(f, a[1..], b);
      var x, y, z := f(a[0]).ToSeq(), FilterMap(f, a[1..]), FilterMap(f, b);
      assert FilterMap(f, a + b) == x + (y + z);
      assert x + (y + z) == (x + y) + z;
    }
  }

  /** Every value in the result is a value `f` produces for some element. */
  lemma {:induction false} FilterMapFrom<A, B>(f: A -> Option<B>, xs: seq<A>, k: nat)
    requires k < |FilterMap(f, xs)|
    ensures exists i :: 0 <= i < |xs| && f(xs[i]) == Some(FilterMap(f, xs)[k])
    decreases |xs|
  {
    var h := f(xs[0]).ToSeq();
    if k < |h| {
      assert f(xs[0]) == Some(FilterMap(f, xs)[k]);
    } else {
      FilterMapFrom(f, xs[1..], k - |h|);
      var i :| 0 <= i < |xs| - 1 && f(xs[1..][i]) == Some(FilterMap(f, xs[1..])[k - |h|]);
      assert xs[i + 1] == xs[1..][i];
    }
  }
}
