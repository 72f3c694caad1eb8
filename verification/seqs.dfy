/** Order-keeping filtering of a sequence, the shape of every "walk the
    list and skip some entries" loop. */
module Seqs {

  /** The elements of `xs` that `keep` accepts, in their original order. */
  function Filter<T>(xs: seq<T>, keep: T -> bool): (r: seq<T>)
    ensures |r| <= |xs|
    ensures forall i :: 0 <= i < |r| ==> keep(r[i])
  {
    if xs == [] then []
    else (if keep(xs[0]) then [xs[0]] else []) + Filter(xs[1..], keep)
  }

  /** Filtering a concatenation filters each part, in order. */
  lemma {:induction false} FilterAppend<T>(a: seq<T>, b: seq<T>, keep: T -> bool)
    ensures Filter(a + b, keep) == Filter(a, keep) + Filter(b, keep)
  {
    if a == [] {
      assert a + b == b;
    } else {
      var head := if keep(a[0]) then [a[0]] else [];
      assert (a + b)[0] == a[0];
      assert (a + b)[1..] == a[1..] + b;
      FilterAppend(a[1..], b, keep);
      assert Filter(a + b, keep) == head + (Filter(a[1..], keep) + Filter(b, keep));
    }
  }

  /** An accepted element occurs in the result as often as in the input;
      a rejected one does not occur at all. */
  lemma {:induction false} FilterCount<T>(xs: seq<T>, keep: T -> bool, x: T)
    ensures multiset(Filter(xs, keep))[x] == if keep(x) then multiset(xs)[x] else 0
  {
    if xs != [] {
      var y, rest := xs[0], xs[1..];
      var head := if keep(y) then [y] else [];
      FilterCount(rest, keep, x);
      assert xs == [y] + rest;
      assert multiset(xs)[x] == multiset([y])[x] + multiset(rest)[x];
      assert multiset(Filter(xs, keep))[x] == multiset(head)[x] + multiset(Filter(rest, keep))[x];
    }
  }
}
