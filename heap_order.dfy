/**
 * Heap order over the sequence of slot values `h` of a D-ary heap holding `n` slots,
 * and the step lemmas behind `swim` and `sink`.
 */
module HeapOrder {
  import opened Topology

  function Min(a: int, b: int): int { if a <= b then a else b }

  /** `s` with the entries at `i` and `j` exchanged. */
  function Swapped<T>(s: seq<T>, i: int, j: int): (r: seq<T>)
    requires 0 <= i < |s| && 0 <= j < |s|
    ensures |r| == |s| && r[i] == s[j] && r[j] == s[i]
    ensures forall k :: 0 <= k < |s| && k != i && k != j ==> r[k] == s[k]
  {
    s[i := s[j]][j := s[i]]
  }

  /** Every occupied non-root slot holds a value no smaller than its parent's. */
  ghost predicate HeapOrdered(h: seq<int>, d: int, n: int)
    requires d >= 2 && 0 <= n <= |h|
  {
    forall s :: 0 < s < n ==> h[Parent(s, d)] <= h[s]
  }

  /** The same, with the parent strictly smaller: what the diagnostic check accepts. */
  ghost predicate StrictlyOrdered(h: seq<int>, d: int, n: int)
    requires d >= 2 && 0 <= n <= |h|
  {
    forall s :: 0 < s < n ==> h[Parent(s, d)] < h[s]
  }

  /** The parent of slot `i` is no larger than any occupied child of `i`. */
  ghost predicate Bridged(h: seq<int>, d: int, n: int, i: int)
    requires d >= 2 && 0 <= n <= |h| && 0 <= i < |h|
  {
    i > 0 ==> forall c :: 0 < c < n && Parent(c, d) == i ==> h[Parent(i, d)] <= h[c]
  }

  /** What `swim` keeps while the element it moves sits at slot `i`: only the pair (parent of i, i) may be out of order. */
  ghost predicate SwimInvariant(h: seq<int>, d: int, n: int, i: int)
    requires d >= 2 && 0 <= n <= |h| && 0 <= i < |h|
  {
    && (forall s :: 0 < s < n && s != i ==> h[Parent(s, d)] <= h[s])
    && Bridged(h, d, n, i)
  }

  /**
   * What `sink`, started at slot `i0`, keeps while the element it moves sits at slot `i`:
   * only the pairs (i, child of i) and, while nothing has moved yet, (parent of i0, i0) may be out of order.
   */
  ghost predicate SinkInvariant(h: seq<int>, d: int, n: int, i: int, i0: int)
    requires d >= 2 && 0 <= n <= |h| && 0 <= i < |h|
  {
    && (forall s :: 0 < s < n && Parent(s, d) != i && (s != i0 || i != i0) ==> h[Parent(s, d)] <= h[s])
    && Bridged(h, d, n, i)
  }

  /**
   * What `minch(i)` returns: -1 when no occupied child of `i` is strictly smaller than `i`, and otherwise
   * the lowest-numbered child holding the least value among the children, which is smaller than `i`'s.
   */
  ghost predicate MinChildResult(h: seq<int>, d: int, n: int, i: int, j: int)
    requires d >= 2 && 0 <= n <= |h| && 0 <= i < |h|
  {
    var lo, hi := FirstChild(i, d), Min(n, FirstChild(i, d) + d);
    if j == -1 then
      forall c :: lo <= c < hi ==> h[i] <= h[c]
    else
      && lo <= j < hi
      && h[j] < h[i]
      && (forall c :: lo <= c < hi ==> h[j] <= h[c])
      && (forall c :: lo <= c < j ==> h[j] < h[c])
  }

  /** In a heap, the root holds the least value. */
  lemma {:induction false} RootIsMin(h: seq<int>, d: int, n: int, s: int)
    requires d >= 2 && 0 <= n <= |h| && HeapOrdered(h, d, n)
    requires 0 <= s < n
    ensures h[0] <= h[s]
  {
    if s > 0 {
      RootIsMin(h, d, n, Parent(s, d));
    }
  }

  /** Heap order only looks at the first `n` slots. */
  lemma OrderedPrefix(h: seq<int>, h': seq<int>, d: int, n: int)
    requires d >= 2 && 0 <= n <= |h| && n <= |h'|
    requires forall s :: 0 <= s < n ==> h'[s] == h[s]
    requires HeapOrdered(h, d, n)
    ensures HeapOrdered(h', d, n)
  {
    forall s | 0 < s < n ensures h'[Parent(s, d)] <= h'[s] {
      assert h[Parent(s, d)] <= h[s];
    }
  }

  /** A new element appended at slot `n` of a heap satisfies the swim invariant there. */
  lemma InsertSetup(h: seq<int>, d: int, n: int)
    requires d >= 2 && 0 <= n < |h| && HeapOrdered(h, d, n)
    ensures SwimInvariant(h, d, n + 1, n)
  {
  }

  /** One round of `swim`: exchanging slot i with its larger parent moves the invariant to the parent. */
  lemma SwimStep(h: seq<int>, d: int, n: int, i: int)
    requires d >= 2 && 0 <= n <= |h| && 0 < i < n
    requires SwimInvariant(h, d, n, i)
    requires h[i] < h[Parent(i, d)]
    ensures SwimInvariant(Swapped(h, i, Parent(i, d)), d, n, Parent(i, d))
  {
    var p := Parent(i, d);
    var h' := Swapped(h, i, p);
    forall s | 0 < s < n && s != p ensures h'[Parent(s, d)] <= h'[s] {
      var q := Parent(s, d);
      if s == i {
      } else if q == i {
        assert 0 < s < n && Parent(s, d) == i;
      } else if q == p {
        assert h[p] <= h[s];
      } else {
        assert h[q] <= h[s];
      }
    }
    if p > 0 {
      forall c | 0 < c < n && Parent(c, d) == p ensures h'[Parent(p, d)] <= h'[c] {
        assert h[Parent(p, d)] <= h[p];
        if c != i {
          assert h[p] <= h[c];
        }
      }
    }
  }

  /** When `swim` stops (slot i is no smaller than its parent), the heap is ordered. */
  lemma SwimExit(h: seq<int>, d: int, n: int, i: int)
    requires d >= 2 && 0 <= n <= |h| && 0 <= i < |h|
    requires SwimInvariant(h, d, n, i)
    requires 0 < i < n ==> h[Parent(i, d)] <= h[i]
    ensures HeapOrdered(h, d, n)
  {
  }

  /** One round of `sink`: exchanging slot i with the least smaller child moves the invariant to that child. */
  lemma SinkStep(h: seq<int>, d: int, n: int, i: int, i0: int, j: int)
    requires d >= 2 && 0 <= n <= |h| && 0 <= i0 <= i < |h|
    requires SinkInvariant(h, d, n, i, i0)
    requires j != -1 && MinChildResult(h, d, n, i, j)
    ensures 0 < j < n && Parent(j, d) == i
    ensures SinkInvariant(Swapped(h, i, j), d, n, j, i0)
  {
    ChildOf(i, j, d);
    SinkStepOrder(h, d, n, i, i0, j);
    SinkStepBridge(h, d, n, i, j);
  }

  /** After the exchange, every pair not below the child slot j, apart from (parent of i0, i0) before any move, is in order. */
  lemma SinkStepOrder(h: seq<int>, d: int, n: int, i: int, i0: int, j: int)
    requires d >= 2 && 0 <= n <= |h| && 0 <= i0 <= i < |h|
    requires SinkInvariant(h, d, n, i, i0)
    requires MinChildResult(h, d, n, i, j) && 0 < j < n && Parent(j, d) == i
    ensures forall s :: 0 < s < n && Parent(s, d) != j && (s != i0 || j != i0) ==> Swapped(h, i, j)[Parent(s, d)] <= Swapped(h, i, j)[s]
  {
    var h' := Swapped(h, i, j);
    forall s | 0 < s < n && Parent(s, d) != j ensures h'[Parent(s, d)] <= h'[s] {
      var q := Parent(s, d);
      if s == j {
      } else if q == i {
        ChildOf(i, s, d);
        assert FirstChild(i, d) <= s < Min(n, FirstChild(i, d) + d);
      } else if s == i {
        assert h[Parent(i, d)] <= h[j];
      } else {
        assert h[q] <= h[s];
      }
    }
  }

  /** After the exchange, the value moved up to slot i is no larger than the children of slot j. */
  lemma SinkStepBridge(h: seq<int>, d: int, n: int, i: int, j: int)
    requires d >= 2 && 0 <= n <= |h| && 0 <= i < |h|
    requires MinChildResult(h, d, n, i, j) && 0 < j < n && Parent(j, d) == i
    requires Bridged(h, d, n, i)
    requires forall s :: 0 < s < n && Parent(s, d) != i && s != i ==> h[Parent(s, d)] <= h[s]
    ensures Bridged(Swapped(h, i, j), d, n, j)
  {
    var h' := Swapped(h, i, j);
    forall c | 0 < c < n && Parent(c, d) == j ensures h'[Parent(j, d)] <= h'[c] {
      assert h[j] <= h[c];
    }
  }

  /** When `sink` stops (no child of slot i is smaller), only the pair at the start slot i0 may be out of order. */
  lemma SinkExit(h: seq<int>, d: int, n: int, i: int, i0: int)
    requires d >= 2 && 0 <= n <= |h| && 0 <= i0 <= i <= n && i < |h|
    requires SinkInvariant(h, d, n, i, i0)
    requires MinChildResult(h, d, n, i, -1)
    ensures SwimInvariant(h, d, n, i0)
  {
    var lo, hi := FirstChild(i, d), Min(n, FirstChild(i, d) + d);
    forall s | 0 < s < n && (s != i0 || i != i0) ensures h[Parent(s, d)] <= h[s] {
      if Parent(s, d) == i {
        ChildOf(i, s, d);
        assert lo <= s < hi;
      }
    }
    if i != i0 && i0 > 0 {
      forall c | 0 < c < n && Parent(c, d) == i0 ensures h[Parent(i0, d)] <= h[c] {
        assert h[Parent(i0, d)] <= h[i0];
      }
    }
  }

  /**
   * `delete` exchanges the victim's slot i with the last slot n and shrinks the heap to n slots:
   * the result satisfies the sink invariant at i, and when i was the last slot the moved-out pair stays ordered.
   */
  lemma DeleteSetup(h: seq<int>, d: int, n: int, i: int)
    requires d >= 2 && 0 <= i <= n && n + 1 <= |h|
    requires HeapOrdered(h, d, n + 1)
    ensures SinkInvariant(Swapped(h, i, n), d, n, i, i)
    ensures i == n ==> Swapped(h, i, n)[Parent(i, d)] <= Swapped(h, i, n)[i]
  {
    var h' := Swapped(h, i, n);
    forall s | 0 < s < n && Parent(s, d) != i && s != i ensures h'[Parent(s, d)] <= h'[s] {
      assert h[Parent(s, d)] <= h[s];
    }
    if i > 0 {
      forall c | 0 < c < n && Parent(c, d) == i ensures h'[Parent(i, d)] <= h'[c] {
        assert h[Parent(i, d)] <= h[i];
        assert h[i] <= h[c];
      }
    }
    if i == n && n > 0 {
      assert h[Parent(n, d)] <= h[n];
    }
  }
}
