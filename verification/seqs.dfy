/** Sequence helpers: `min`, the filtering list comprehension `[x for x in xs if p(x)]`,
    and the subsequence relation. */
module Seqs {
  import opened Wrappers

  function Min(a: int, b: int): int
  {
    if a <= b then a else b
  }

  /** `[x for x in xs if p(x)]`: the elements of xs satisfying p, in their original order. */
  function Select<T>(xs: seq<T>, p: T -> bool): (r: seq<T>)
    ensures |r| <= |xs|
    ensures forall k :: 0 <= k < |r| ==> r[k] in xs && p(r[k])
    ensures forall k :: 0 <= k < |xs| && p(xs[k]) ==> xs[k] in r
  {
    if xs == [] then []
    else if p(xs[0]) then [xs[0]] + Select(xs[1..], p)
    else Select(xs[1..], p)
  }

  /** a can be obtained from b by deleting elements: same elements, same relative order. */
  ghost predicate IsSubsequence<T>(a: seq<T>, b: seq<T>)
    decreases |b|
  {
    || a == []
    || (b != [] && ((a[0] == b[0] && IsSubsequence(a[1..], b[1..])) || IsSubsequence(a, b[1..])))
  }

  /** Every element of a subsequence is an element of the sequence. */
  lemma {:induction false} SubsequenceMembers<T>(a: seq<T>, b: seq<T>)
    requires IsSubsequence(a, b)
    ensures forall x :: x in a ==> x in b
    decreases |b|
  {
    if a != [] {
      if a[0] == b[0] && IsSubsequence(a[1..], b[1..]) {
        SubsequenceMembers(a[1..], b[1..]);
        assert forall x :: x in a ==> x == a[0] || x in a[1..];
      } else {
        SubsequenceMembers(a, b[1..]);
      }
    }
  }

  /** Filtering keeps a subsequence of its input. */
  lemma {:induction false} SelectIsSubsequence<T>(xs: seq<T>, p: T -> bool)
    ensures IsSubsequence(Select(xs, p), xs)
  {
    if xs != [] {
      SelectIsSubsequence(xs[1..], p);
      if p(xs[0]) {
        assert ([xs[0]] + Select(xs[1..], p))[1..] == Select(xs[1..], p);
      }
    }
  }

  /** A filter that every element passes returns its input unchanged. */
  lemma {:induction false} SelectAll<T>(xs: seq<T>, p: T -> bool)
    requires forall x :: x in xs ==> p(x)
    ensures Select(xs, p) == xs
  {
    if xs != [] {
      assert forall x :: x in xs[1..] ==> x in xs;
      SelectAll(xs[1..], p);
      assert [xs[0]] + xs[1..] == xs;
    }
  }

  /** Filtering by p and then by q is filtering once by "p and q". */
  lemma {:induction false} SelectSelect<T>(xs: seq<T>, p: T -> bool, q: T -> bool)
    ensures Select(Select(xs, p), q) == Select(xs, x => p(x) && q(x))
  {
    if xs != [] {
      SelectSelect(xs[1..], p, q);
      if p(xs[0]) {
        assert ([xs[0]] + Select(xs[1..], p))[1..] == Select(xs[1..], p);
      }
    }
  }

  /** Filters by pointwise-equal predicates agree. */
  lemma {:induction false} SelectSame<T>(xs: seq<T>, p: T -> bool, q: T -> bool)
    requires forall x :: p(x) == q(x)
    ensures Select(xs, p) == Select(xs, q)
  {
    if xs != [] {
      SelectSame(xs[1..], p, q);
    }
  }

  /** The order in which two filters are applied does not matter. */
  lemma SelectCommutes<T>(xs: seq<T>, p: T -> bool, q: T -> bool)
    ensures Select(Select(xs, p), q) == Select(Select(xs, q), p)
  {
    SelectSelect(xs, p, q);
    SelectSelect(xs, q, p);
    SelectSame(xs, x => p(x) && q(x), x => q(x) && p(x));
  }

  /** Filtering twice by the same predicate is filtering once. */
  lemma SelectIdempotent<T>(xs: seq<T>, p: T -> bool)
    ensures Select(Select(xs, p), p) == Select(xs, p)
  {
    SelectAll(Select(xs, p), p);
  }

  /** Filtering distributes over concatenation. */
  lemma {:induction false} SelectConcat<T>(a: seq<T>, b: seq<T>, p: T -> bool)
    ensures Select(a + b, p) == Select(a, p) + Select(b, p)
  {
    if a == [] {
      assert a + b == b;
    } else {
      assert (a + b)[0] == a[0];
      assert (a + b)[1..] == a[1..] + b;
      SelectConcat(a[1..], b, p);
    }
  }

  /** The values f produces on the elements of xs, in order: the reference definition of a
      loop that appends `f(x)` for each x on which f succeeds. */
  function Produced<A, B>(xs: seq<A>, f: A -> Option<B>): (ys: seq<B>)
    ensures |ys| <= |xs|
    ensures forall j :: 0 <= j < |ys| ==> exists i :: 0 <= i < |xs| && f(xs[i]) == Some(ys[j])
    ensures forall i :: 0 <= i < |xs| && f(xs[i]).Some? ==> f(xs[i]).value in ys
  {
    if xs == [] then []
    else
      var rest := Produced(xs[1..], f);
      assert forall i :: 1 <= i < |xs| ==> xs[i] == xs[1..][i - 1];
      match f(xs[0])
      case Some(y) => [y] + rest
      case None => rest
  }

  /** Each element is handled on its own: what a concatenation produces is what its parts
      produce, in order. */
  lemma {:induction false} ProducedConcat<A, B>(a: seq<A>, b: seq<A>, f: A -> Option<B>)
    ensures Produced(a + b, f) == Produced(a, f) + Produced(b, f)
  {
    if a == [] {
      assert a + b == b;
    } else {
      assert (a + b)[0] == a[0];
      assert (a + b)[1..] == a[1..] + b;
      ProducedConcat(a[1..], b, f);
    }
  }

  /** Applies f to each element in order and keeps the values it produces, skipping the
      elements for which it produces none. */
  method KeepProduced<A, B>(xs: seq<A>, f: A -> Option<B>) returns (ys: seq<B>)
    ensures ys == Produced(xs, f)
  {
    ys := [];
    var i := 0;
    while i < |xs|
      invariant 0 <= i <= |xs|
      invariant ys == Produced(xs[..i], f)
    {
      ProducedConcat(xs[..i], [xs[i]], f);
      assert xs[..i + 1] == xs[..i] + [xs[i]];
      var r := f(xs[i]);
      if r.Some? {
        ys := ys + [r.value];
      }
      i := i + 1;
    }
    assert xs[..i] == xs;
  }
}
