/** Min-heap order on a sequence of due times, and what one sift step does to it. */
module HeapOrder {

  function Parent(c: int): (p: int)
    requires 0 < c
    ensures 0 <= p < c
  {
    (c - 1) / 2
  }

  /** Exchanges positions `i` and `j`. */
  function Swapped<T>(s: seq<T>, i: nat, j: nat): (r: seq<T>)
    requires i < |s| && j < |s|
  {
    s[i := s[j]][j := s[i]]
  }

  predicate Edge(k: seq<int>, c: int)
    requires 0 < c < |k|
  {
    k[Parent(c)] <= k[c]
  }

  /** The first `n` positions form a min-heap. */
  predicate Ordered(k: seq<int>, n: int)
    requires n <= |k|
  {
    forall c :: 0 < c < n ==> Edge(k, c)
  }

  /** Every edge among the first `n` positions is in order, except possibly those touching `x`,
      and the children of `x` do not precede its parent. */
  predicate OrderedAround(k: seq<int>, n: int, x: int)
    requires n <= |k|
  {
    && (forall c :: 0 < c < n && c != x && Parent(c) != x ==> Edge(k, c))
    && (forall c :: 0 < c < n && 0 < x == Parent(c) ==> k[Parent(x)] <= k[c])
  }

  predicate ChildrenOk(k: seq<int>, n: int, x: int)
    requires n <= |k|
  {
    forall c :: 0 < c < n && Parent(c) == x ==> Edge(k, c)
  }

  /** The root of a heap is a minimum of it. */
  lemma {:induction false} RootIsLeast(k: seq<int>, c: int)
    requires Ordered(k, |k|) && 0 <= c < |k|
    ensures k[0] <= k[c]
  {
    if c > 0 {
      assert Edge(k, c);
      RootIsLeast(k, Parent(c));
    }
  }

  /** Changing one key of a heap leaves it ordered around that position. */
  lemma ChangeOne(k: seq<int>, k': seq<int>, x: int)
    requires |k'| == |k| && 0 <= x < |k| && Ordered(k, |k|)
    requires forall i :: 0 <= i < |k| && i != x ==> k'[i] == k[i]
    ensures OrderedAround(k', |k'|, x)
  {
    forall c | 0 < c < |k| && c != x && Parent(c) != x ensures Edge(k', c) {
      assert Edge(k, c);
    }
    forall c | 0 < c < |k| && 0 < x == Parent(c) ensures k'[Parent(x)] <= k'[c] {
      assert Edge(k, c) && Edge(k, x);
    }
  }

  lemma UpStep(k: seq<int>, n: nat, j: nat)
    requires 0 < j < n <= |k| && OrderedAround(k, n, j) && ChildrenOk(k, n, j)
    requires k[j] < k[Parent(j)]
    ensures var k' := Swapped(k, Parent(j), j);
            OrderedAround(k', n, Parent(j)) && ChildrenOk(k', n, Parent(j))
  {
    var p := Parent(j);
    var k' := Swapped(k, p, j);
    forall c | 0 < c < n && c != p ensures Edge(k', c) && (0 < p == Parent(c) ==> k[Parent(p)] <= k'[c]) {
      if Parent(c) == j {
        assert Edge(k, c) && k[p] <= k[c];
      } else {
        assert c != j ==> Edge(k, c);
        assert 0 < p ==> Edge(k, p);
      }
    }
  }

  /** `j` is the child of `i` that `heap.down` picks. */
  predicate SmallerChild(k: seq<int>, n: int, i: nat, j: nat)
    requires n <= |k|
  {
    && 2 * i + 1 <= j <= 2 * i + 2 && j < n
    && forall c :: 2 * i + 1 <= c <= 2 * i + 2 && c < n ==> k[j] <= k[c]
  }

  lemma DownStep(k: seq<int>, n: nat, i: nat, j: nat)
    requires n <= |k| && SmallerChild(k, n, i, j)
    requires OrderedAround(k, n, i) && k[j] < k[i]
    ensures var k' := Swapped(k, i, j);
            OrderedAround(k', n, j) && Edge(k', j)
    ensures 0 < i ==> Edge(Swapped(k, i, j), i)
  {
  }

  lemma DownStops(k: seq<int>, n: nat, i: nat, j: nat)
    requires n <= |k| && SmallerChild(k, n, i, j) && k[i] <= k[j]
    ensures ChildrenOk(k, n, i)
  {
  }

  lemma LeafChildrenOk(k: seq<int>, n: nat, i: nat)
    requires n <= |k| && n <= 2 * i + 1
    ensures ChildrenOk(k, n, i)
  {
  }

  /** Where `heap.up` stops, the whole prefix is ordered. */
  lemma StopAround(k: seq<int>, n: nat, j: nat)
    requires j < n <= |k| && OrderedAround(k, n, j) && ChildrenOk(k, n, j)
    requires j == 0 || k[Parent(j)] <= k[j]
    ensures Ordered(k, n)
  {
  }

  lemma AroundToOrdered(k: seq<int>, n: nat, i: nat)
    requires n <= |k| && OrderedAround(k, n, i) && ChildrenOk(k, n, i)
    requires 0 < i < n ==> Edge(k, i)
    ensures Ordered(k, n)
  {
  }

  lemma OrderedPrefix(k: seq<int>, n: nat)
    requires n <= |k| && Ordered(k, |k|)
    ensures Ordered(k, n)
  {
  }

  lemma OrderedTake(k: seq<int>, n: nat)
    requires n <= |k| && Ordered(k, n)
    ensures Ordered(k[..n], n)
  {
    forall c | 0 < c < n ensures Edge(k[..n], c) {
      assert Edge(k, c);
    }
  }

  /** A new last position may only have a wrong parent edge. */
  lemma AppendAround(k: seq<int>, x: int)
    requires Ordered(k, |k|)
    ensures var k' := k + [x];
            OrderedAround(k', |k'|, |k|) && ChildrenOk(k', |k'|, |k|)
  {
    forall c | 0 < c < |k| ensures Edge(k + [x], c) {
      assert Edge(k, c);
    }
  }

  /** Exchanging position `i` with the last one leaves the others ordered around `i`. */
  lemma SwapOutAround(k: seq<int>, i: nat)
    requires Ordered(k, |k|) && i < |k|
    ensures OrderedAround(Swapped(k, i, |k| - 1), |k| - 1, i)
  {
    var k' := Swapped(k, i, |k| - 1);
    forall c | 0 < c < |k| - 1 && c != i && Parent(c) != i ensures Edge(k', c) {
      assert Edge(k, c);
    }
    forall c | 0 < c < |k| - 1 && 0 < i == Parent(c) ensures k'[Parent(i)] <= k'[c] {
      assert Edge(k, c) && Edge(k, i);
    }
  }
}
