/** Python's `sorted(xs, key=key, reverse=True)`, which is stable: elements with equal keys
    keep their original relative order. Also the top-k prefix of such a sort. */
module Sorting {
  import opened Seqs

  /** Keys never increase from left to right. */
  ghost predicate NonIncreasing<T>(xs: seq<T>, key: T -> real)
  {
    forall i, j :: 0 <= i < j < |xs| ==> key(xs[i]) >= key(xs[j])
  }

  /** The predicate "has key v", used to state stability through `Select`. */
  function KeyIs<T>(key: T -> real, v: real): T -> bool
  {
    x => key(x) == v
  }

  /** A subsequence of a key-ordered sequence is key-ordered. */
  lemma {:induction false} SubsequenceKeepsOrder<T>(a: seq<T>, b: seq<T>, key: T -> real)
    requires IsSubsequence(a, b)
    requires NonIncreasing(b, key)
    ensures NonIncreasing(a, key)
    decreases |b|
  {
    if a != [] {
      if a[0] == b[0] && IsSubsequence(a[1..], b[1..]) {
        SubsequenceKeepsOrder(a[1..], b[1..], key);
        SubsequenceMembers(a[1..], b[1..]);
        forall j | 0 < j < |a|
          ensures key(a[0]) >= key(a[j])
        {
          assert a[j] in b[1..];
        }
      } else {
        SubsequenceKeepsOrder(a, b[1..], key);
      }
    }
  }

  /** An element with a key no smaller than the head's can be put in front. */
  lemma ConsNonIncreasing<T>(y: T, rest: seq<T>, key: T -> real)
    requires NonIncreasing(rest, key)
    requires rest != [] ==> key(y) >= key(rest[0])
    ensures NonIncreasing([y] + rest, key)
  {
    var r := [y] + rest;
    forall i, j | 0 <= i < j < |r|
      ensures key(r[i]) >= key(r[j])
    {
      if i == 0 {
        assert r[j] == rest[j - 1];
        assert key(rest[0]) >= key(rest[j - 1]);
      } else {
        assert r[i] == rest[i - 1] && r[j] == rest[j - 1];
      }
    }
  }

  /** Places x in front of the first element whose key is not larger than its own. */
  function Insert<T>(x: T, s: seq<T>, key: T -> real): (r: seq<T>)
    requires NonIncreasing(s, key)
    ensures |r| == |s| + 1
    ensures multiset(r) == multiset(s) + multiset{x}
    ensures NonIncreasing(r, key)
    ensures r[0] == x || (s != [] && r[0] == s[0])
  {
    if s == [] || key(s[0]) <= key(x) then [x] + s
    else
      var rest := Insert(x, s[1..], key);
      assert s == [s[0]] + s[1..];
      ConsNonIncreasing(s[0], rest, key);
      [s[0]] + rest
  }

  /** Insertion sort, descending by key. */
  function SortDesc<T>(xs: seq<T>, key: T -> real): (r: seq<T>)
    ensures |r| == |xs|
    ensures multiset(r) == multiset(xs)
    ensures NonIncreasing(r, key)
  {
    if xs == [] then []
    else
      assert xs == [xs[0]] + xs[1..];
      Insert(xs[0], SortDesc(xs[1..], key), key)
  }

  lemma {:induction false} InsertStable<T>(x: T, s: seq<T>, key: T -> real, v: real)
    requires NonIncreasing(s, key)
    ensures Select(Insert(x, s, key), KeyIs(key, v))
            == (if key(x) == v then [x] else []) + Select(s, KeyIs(key, v))
  {
    var p := KeyIs(key, v);
    if s == [] || key(s[0]) <= key(x) {
      assert ([x] + s)[1..] == s;
    } else {
      var rest := Insert(x, s[1..], key);
      InsertStable(x, s[1..], key, v);
      assert ([s[0]] + rest)[1..] == rest;
      assert Select(s, p) == (if p(s[0]) then [s[0]] else []) + Select(s[1..], p);
    }
  }

  /** The sort is stable: the elements with any one key appear in the output in the same
      order as in the input. */
  lemma {:induction false} SortStable<T>(xs: seq<T>, key: T -> real, v: real)
    ensures Select(SortDesc(xs, key), KeyIs(key, v)) == Select(xs, KeyIs(key, v))
  {
    if xs != [] {
      SortStable(xs[1..], key, v);
      InsertStable(xs[0], SortDesc(xs[1..], key), key, v);
    }
  }

  /** `sorted(xs, key=key, reverse=True)[:k]`. */
  function TakeTop<T>(xs: seq<T>, key: T -> real, k: nat): (r: seq<T>)
    ensures |r| == Min(k, |xs|)
    ensures NonIncreasing(r, key)
    ensures multiset(r) <= multiset(xs)
  {
    var s := SortDesc(xs, key);
    assert s == s[..Min(k, |s|)] + s[Min(k, |s|)..];
    s[..Min(k, |s|)]
  }

  /** Nothing left out of the top k has a larger key than anything kept: every copy of an
      element that outranks some kept element is itself kept. */
  lemma TakeTopIsTop<T>(xs: seq<T>, key: T -> real, k: nat)
    ensures forall y, i :: 0 <= i < |TakeTop(xs, key, k)| && key(y) > key(TakeTop(xs, key, k)[i])
                           ==> multiset(TakeTop(xs, key, k))[y] == multiset(xs)[y]
    ensures forall y, i :: y in xs && 0 <= i < |TakeTop(xs, key, k)| && key(y) > key(TakeTop(xs, key, k)[i])
                           ==> y in TakeTop(xs, key, k)
  {
    var s := SortDesc(xs, key);
    var r := TakeTop(xs, key, k);
    var rest := s[|r|..];
    assert s == r + rest;
    assert multiset(s) == multiset(r) + multiset(rest);
    forall y, i | 0 <= i < |r| && key(y) > key(r[i])
      ensures multiset(r)[y] == multiset(xs)[y]
    {
      assert forall j :: 0 <= j < |rest| ==> rest[j] == s[|r| + j] && key(s[i]) >= key(s[|r| + j]);
      assert y !in rest;
    }
    forall y, i | y in xs && 0 <= i < |r| && key(y) > key(r[i])
      ensures y in r
    {
      assert multiset(r)[y] == multiset(xs)[y] > 0;
    }
  }

  /** Among equal keys, the top k is a prefix of the input's order. */
  lemma TakeTopStable<T>(xs: seq<T>, key: T -> real, k: nat, v: real)
    ensures Select(TakeTop(xs, key, k), KeyIs(key, v)) <= Select(xs, KeyIs(key, v))
  {
    var s := SortDesc(xs, key);
    var m := Min(k, |s|);
    assert s == s[..m] + s[m..];
    SelectConcat(s[..m], s[m..], KeyIs(key, v));
    SortStable(xs, key, v);
  }
}
