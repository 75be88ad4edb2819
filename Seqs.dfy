/**
 * Order-preserving filtering of sequences, the model of JavaScript's
 * `Array.prototype.filter` with a side-effect-free callback.
 */
module Seqs {

  /** The elements of `s` that satisfy `p`, in the order they appear in `s`. */
  function Filter<T>(p: T -> bool, s: seq<T>): (r: seq<T>)
    ensures |r| <= |s|
    ensures forall i :: 0 <= i < |r| ==> p(r[i])
    decreases |s|
  {
    if s == [] then []
    else if p(s[0]) then [s[0]] + Filter(p, s[1..])
    else Filter(p, s[1..])
  }

  /** An element is kept exactly when it is in `s` and satisfies `p`. */
  lemma {:induction false} FilterMembers<T>(p: T -> bool, s: seq<T>)
    ensures forall x :: x in Filter(p, s) <==> x in s && p(x)
    decreases |s|
  {
    if s != [] {
      FilterMembers(p, s[1..]);
      assert forall x :: x in s <==> x == s[0] || x in s[1..];
    }
  }

  /** Filtering a single element keeps it exactly when it satisfies `p`. */
  lemma FilterSingleton<T>(p: T -> bool, x: T)
    ensures Filter(p, [x]) == if p(x) then [x] else []
  {
    assert [x][1..] == [];
  }

  /**
   * Filtering distributes over concatenation; with FilterSingleton this
   * pins `Filter` down as the order-preserving selection.
   */
  lemma {:induction false} FilterAppend<T>(p: T -> bool, a: seq<T>, b: seq<T>)
    ensures Filter(p, a + b) == Filter(p, a) + Filter(p, b)
    decreases |a|
  {
    if a == [] {
      assert a + b == b;
    } else {
      assert (a + b)[0] == a[0];
      assert (a + b)[1..] == a[1..] + b;
      FilterAppend(p, a[1..], b);
    }
  }

  /** Filtering by `q` after `p` is the same as filtering once by both. */
  lemma {:induction false} FilterFilter<T>(p: T -> bool, q: T -> bool, both: T -> bool, s: seq<T>)
    requires forall x :: both(x) == (p(x) && q(x))
    ensures Filter(q, Filter(p, s)) == Filter(both, s)
    decreases |s|
  {
    if s != [] {
      FilterFilter(p, q, both, s[1..]);
      if p(s[0]) {
        var rest := Filter(p, s[1..]);
        assert ([s[0]] + rest)[0] == s[0];
        assert ([s[0]] + rest)[1..] == rest;
      }
    }
  }

  /**
   * Filtering by a predicate and by its negation splits `s` in two:
   * the lengths add up and together the two parts hold every element
   * of `s` exactly as often as `s` does.
   */
  lemma {:induction false} FilterPartition<T>(p: T -> bool, q: T -> bool, s: seq<T>)
    requires forall x :: q(x) == !p(x)
    ensures |Filter(p, s)| + |Filter(q, s)| == |s|
    ensures multiset(Filter(p, s)) + multiset(Filter(q, s)) == multiset(s)
    decreases |s|
  {
    if s != [] {
      FilterPartition(p, q, s[1..]);
      assert s == [s[0]] + s[1..];
    }
  }
}
