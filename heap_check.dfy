/**
 * The recursive diagnostic `isMinHeap` (MinIndexedPQ.java:169-180), stated on the slot values `h`:
 * starting at slot i, every occupied child must follow i, and the check recurses into it.
 * The flag `strict` chooses the comparison: MinIndexedPQ.java compares with `less`, that is strictly.
 */
module HeapCheck {
  import opened Topology
  import opened HeapOrder

  /** The test the check applies to a (parent, child) pair of values. */
  predicate Precedes(a: int, b: int, strict: bool)
  {
    if strict then a < b else a <= b
  }

  /** Heap order under the comparison `Precedes(_, _, strict)`. */
  ghost predicate OrderedBy(h: seq<int>, d: int, n: int, strict: bool)
    requires d >= 2 && 0 <= n <= |h|
  {
    forall s :: 0 < s < n ==> Precedes(h[Parent(s, d)], h[s], strict)
  }

  /** `isMinHeap(i)`: the children of slot i in [FirstChild(i), min(n, FirstChild(i) + d)) all pass. */
  ghost predicate SubtreeChecks(h: seq<int>, d: int, n: int, i: int, strict: bool)
    requires d >= 2 && 0 <= i && 0 <= n <= |h|
    decreases n - i, d + 1
  {
    ChildrenCheck(h, d, n, i, FirstChild(i, d), strict)
  }

  /** The loop of `isMinHeap(i)` from child slot j on: each child passes the comparison, then its own check. */
  ghost predicate ChildrenCheck(h: seq<int>, d: int, n: int, i: int, j: int, strict: bool)
    requires d >= 2 && 0 <= i && 0 <= n <= |h| && FirstChild(i, d) <= j
    decreases n - i, FirstChild(i, d) + d - j
  {
    ChildAfterParent(i, d);
    if j >= Min(n, FirstChild(i, d) + d) then true
    else Precedes(h[i], h[j], strict) && SubtreeChecks(h, d, n, j, strict) && ChildrenCheck(h, d, n, i, j + 1, strict)
  }

  /** A passing loop has checked every child from j on. */
  lemma {:induction false} ChildrenCheckAt(h: seq<int>, d: int, n: int, i: int, j: int, c: int, strict: bool)
    requires d >= 2 && 0 <= i && 0 <= n <= |h| && FirstChild(i, d) <= j
    requires ChildrenCheck(h, d, n, i, j, strict)
    requires j <= c < Min(n, FirstChild(i, d) + d)
    ensures 0 <= i < c < n && Precedes(h[i], h[c], strict) && SubtreeChecks(h, d, n, c, strict)
    decreases c - j
  {
    ChildAfterParent(i, d);
    if j < c {
      ChildrenCheckAt(h, d, n, i, j + 1, c, strict);
    }
  }

  /** Conversely, the loop passes from j on when every child from j on passes. */
  lemma {:induction false} ChildrenCheckAll(h: seq<int>, d: int, n: int, i: int, j: int, strict: bool)
    requires d >= 2 && 0 <= i && 0 <= n <= |h| && FirstChild(i, d) <= j
    requires forall c :: j <= c < Min(n, FirstChild(i, d) + d) ==> Precedes(h[i], h[c], strict) && SubtreeChecks(h, d, n, c, strict)
    ensures ChildrenCheck(h, d, n, i, j, strict)
    decreases FirstChild(i, d) + d - j
  {
    ChildAfterParent(i, d);
    if j < Min(n, FirstChild(i, d) + d) {
      ChildrenCheckAll(h, d, n, i, j + 1, strict);
    }
  }

  /** A check that passes at the root has passed at every occupied slot, and every pair below the root passes. */
  lemma {:induction false} RootCheckReaches(h: seq<int>, d: int, n: int, s: int, strict: bool)
    requires d >= 2 && 0 <= n <= |h| && SubtreeChecks(h, d, n, 0, strict)
    requires 0 <= s < n
    ensures SubtreeChecks(h, d, n, s, strict)
    ensures s > 0 ==> Precedes(h[Parent(s, d)], h[s], strict)
  {
    if s > 0 {
      var p := Parent(s, d);
      RootCheckReaches(h, d, n, p, strict);
      ChildOf(p, s, d);
      ChildrenCheckAt(h, d, n, p, FirstChild(p, d), s, strict);
    }
  }

  /** In a heap ordered under the comparison, the check passes at every slot. */
  lemma {:induction false} OrderedChecks(h: seq<int>, d: int, n: int, i: int, strict: bool)
    requires d >= 2 && 0 <= n <= |h| && 0 <= i && OrderedBy(h, d, n, strict)
    ensures SubtreeChecks(h, d, n, i, strict)
    decreases n - i
  {
    ChildAfterParent(i, d);
    forall c | FirstChild(i, d) <= c < Min(n, FirstChild(i, d) + d)
      ensures Precedes(h[i], h[c], strict) && SubtreeChecks(h, d, n, c, strict)
    {
      ChildOf(i, c, d);
      assert Precedes(h[Parent(c, d)], h[c], strict);
      OrderedChecks(h, d, n, c, strict);
    }
    ChildrenCheckAll(h, d, n, i, FirstChild(i, d), strict);
  }

  /** The check started at the root passes exactly when the heap is ordered under its comparison. */
  lemma RootCheckExact(h: seq<int>, d: int, n: int, strict: bool)
    requires d >= 2 && 0 <= n <= |h|
    ensures SubtreeChecks(h, d, n, 0, strict) <==> OrderedBy(h, d, n, strict)
  {
    if SubtreeChecks(h, d, n, 0, strict) {
      forall s | 0 < s < n ensures Precedes(h[Parent(s, d)], h[s], strict) {
        RootCheckReaches(h, d, n, s, strict);
      }
    } else if OrderedBy(h, d, n, strict) {
      OrderedChecks(h, d, n, 0, strict);
    }
  }

  /** As written (strict): the check accepts exactly the heaps whose parents are strictly smaller than their children. */
  lemma StrictCheckExact(h: seq<int>, d: int, n: int)
    requires d >= 2 && 0 <= n <= |h|
    ensures SubtreeChecks(h, d, n, 0, true) <==> StrictlyOrdered(h, d, n)
  {
    RootCheckExact(h, d, n, true);
    assert OrderedBy(h, d, n, true) <==> StrictlyOrdered(h, d, n);
  }

  /** Corrected (non-strict): the check accepts exactly the heap order the queue maintains. */
  lemma HeapCheckExact(h: seq<int>, d: int, n: int)
    requires d >= 2 && 0 <= n <= |h|
    ensures SubtreeChecks(h, d, n, 0, false) <==> HeapOrdered(h, d, n)
  {
    RootCheckExact(h, d, n, false);
    assert OrderedBy(h, d, n, false) <==> HeapOrdered(h, d, n);
  }

  /** As written, a parent and child holding equal values make the check fail, although the heap is ordered. */
  lemma StrictCheckRejectsTies(h: seq<int>, d: int, n: int, s: int)
    requires d >= 2 && 0 <= n <= |h| && 0 < s < n
    requires h[Parent(s, d)] == h[s]
    ensures !SubtreeChecks(h, d, n, 0, true)
  {
    StrictCheckExact(h, d, n);
    assert !Precedes(h[Parent(s, d)], h[s], true);
  }

  /** The smallest such input: two slots of a binary heap holding the same value. */
  lemma StrictCheckCounterexample()
    ensures HeapOrdered([7, 7], 2, 2) && !SubtreeChecks([7, 7], 2, 2, 0, true)
  {
    assert Parent(1, 2) == 0;
    StrictCheckRejectsTies([7, 7], 2, 2, 1);
  }
}
