/** Subsequences: the same items in the same order, some left out, none repeated. */
module Subsequences {

  ghost predicate Subsequence<T>(a: seq<T>, b: seq<T>)
    decreases |b|
  {
    a == [] ||
    (b != [] &&
     (Subsequence(a, b[..|b| - 1]) ||
      (a[|a| - 1] == b[|b| - 1] && Subsequence(a[..|a| - 1], b[..|b| - 1]))))
  }

  lemma {:induction false} SubsequenceLength<T>(a: seq<T>, b: seq<T>)
    requires Subsequence(a, b)
    ensures |a| <= |b|
    ensures |a| == |b| ==> a == b
    decreases |b|
  {
    if a != [] {
      var b' := b[..|b| - 1];
      if Subsequence(a, b') {
        SubsequenceLength(a, b');
      } else {
        SubsequenceLength(a[..|a| - 1], b');
      }
    }
  }

  lemma SubsequenceMore<T>(a: seq<T>, b: seq<T>, x: T)
    requires Subsequence(a, b)
    ensures Subsequence(a, b + [x]) && Subsequence(a + [x], b + [x])
  {
    assert (b + [x])[..|b|] == b;
    assert (a + [x])[..|a|] == a;
  }

  /** Leaving out a stretch of a subsequence leaves a subsequence. */
  lemma {:induction false} SubsequenceWithout<T>(a: seq<T>, cut: seq<T>, c: seq<T>, b: seq<T>)
    requires Subsequence(a + cut + c, b)
    ensures Subsequence(a + c, b)
    decreases |b|, |c| + |cut|
  {
    var all := a + cut + c;
    if cut == [] || all == [] {
      assert all == a + c;
    } else {
      var b' := b[..|b| - 1];
      if Subsequence(all, b') {
        SubsequenceWithout(a, cut, c, b');
      } else if c != [] {
        assert all[..|all| - 1] == a + cut + c[..|c| - 1];
        SubsequenceWithout(a, cut, c[..|c| - 1], b');
        assert (a + c)[..|a + c| - 1] == a + c[..|c| - 1];
      } else {
        assert all[..|all| - 1] == a + cut[..|cut| - 1] + [];
        SubsequenceWithout(a, cut[..|cut| - 1], [], b');
      }
    }
  }

  lemma {:induction false} SubsequenceConcat<T>(a: seq<T>, b: seq<T>, c: seq<T>, d: seq<T>)
    requires Subsequence(a, b) && Subsequence(c, d)
    ensures Subsequence(a + c, b + d)
    decreases |d|
  {
    if d == [] {
      assert a + c == a && b + d == b;
    } else {
      var d', x := d[..|d| - 1], d[|d| - 1];
      assert b + d == b + d' + [x];
      if Subsequence(c, d') {
        SubsequenceConcat(a, b, c, d');
        SubsequenceMore(a + c, b + d', x);
      } else {
        var c' := c[..|c| - 1];
        SubsequenceConcat(a, b, c', d');
        SubsequenceMore(a + c', b + d', x);
        assert a + c == a + c' + [x];
      }
    }
  }

  lemma {:induction false} SubsequenceSame<T>(a: seq<T>)
    ensures Subsequence(a, a) && Subsequence([], a)
  {
    if a != [] {
      SubsequenceSame(a[..|a| - 1]);
    }
  }
}
