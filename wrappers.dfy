/** The optional-value datatype used for Rust's `Option` and for fallible parses. */
module Wrappers {

  datatype Option<+T> = None | Some(value: T) {

    /** Rust's `unwrap_or`: the value held, or `default` when there is none. */
    function GetOr(default: T): T {
      match this
      case Some(v) => v
      case None => default
    }
  }

  /** The values `f` yields on the elements of `xs`, in order, skipping elements it rejects. */
  function FilterMap<A, B>(f: A -> Option<B>, xs: seq<A>): (ys: seq<B>)
    ensures |ys| <= |xs|
  {
    if xs == [] then []
    else
      match f(xs[0])
      case Some(y) => [y] + FilterMap(f, xs[1..])
      case None => FilterMap(f, xs[1..])
  }

  /** Elements are judged one at a time, so filtering distributes over concatenation. */
  lemma {:induction false} FilterMapAppend<A, B>(f: A -> Option<B>, a: seq<A>, b: seq<A>)
    ensures FilterMap(f, a + b) == FilterMap(f, a) + FilterMap(f, b)
  {
    if a == [] {
      assert a + b == b;
    } else {
      assert (a + b)[0] == a[0];
      assert (a + b)[1..] == a[1..] + b;
      FilterMapAppend(f, a[1..], b);
    }
  }

  /** Every value kept is what `f` yields on some element. */
  lemma {:induction false} FilterMapFrom<A, B>(f: A -> Option<B>, xs: seq<A>, k: nat)
    requires k < |FilterMap(f, xs)|
    ensures exists i :: 0 <= i < |xs| && f(xs[i]) == Some(FilterMap(f, xs)[k])
  {
    var rest := FilterMap(f, xs[1..]);
    var k' := k;
    if f(xs[0]).Some? {
      assert FilterMap(f, xs) == [f(xs[0]).value] + rest;
      if k == 0 {
        assert f(xs[0]) == Some(FilterMap(f, xs)[0]);
        return;
      }
      k' := k - 1;
      assert FilterMap(f, xs)[k] == rest[k'];
    }
    FilterMapFrom(f, xs[1..], k');
    var i :| 0 <= i < |xs[1..]| && f(xs[1..][i]) == Some(rest[k']);
    assert xs[1..][i] == xs[i + 1];
  }
}
