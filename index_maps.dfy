/**
 * The position map `pm` (key -> slot), the inverse map `im` (slot -> key) and the values table `vs`
 * (key -> value or null), as sequences, with the consistency conditions that tie them to the
 * abstract contents of the queue, a map from present keys to their values.
 */
module IndexMaps {
  import opened Results
  import opened HeapOrder

  /** pm and im are inverse wherever an entry is not the sentinel -1. */
  ghost predicate Linked(pm: seq<int>, im: seq<int>)
  {
    && |pm| == |im|
    && (forall s :: 0 <= s < |im| && im[s] != -1 ==> 0 <= im[s] < |pm| && pm[im[s]] == s)
    && (forall k :: 0 <= k < |pm| && pm[k] != -1 ==> 0 <= pm[k] < |im| && im[pm[k]] == k)
  }

  /** The value held at slot `s`, or 0 for a slot that holds none (such slots are never compared). */
  function SlotValue(im: seq<int>, vs: seq<Option<int>>, s: int): int
  {
    if 0 <= s < |im| && 0 <= im[s] < |vs| && vs[im[s]].Some? then vs[im[s]].value else 0
  }

  /** The values of all slots, in slot order: the heap as `swim` and `sink` see it. */
  function SlotValues(im: seq<int>, vs: seq<Option<int>>): (h: seq<int>)
    ensures |h| == |im|
    ensures forall s :: 0 <= s < |im| && 0 <= im[s] < |vs| && vs[im[s]].Some? ==> h[s] == vs[im[s]].value
  {
    seq(|im|, s requires 0 <= s < |im| => SlotValue(im, vs, s))
  }

  /** The first `n` slots hold keys whose values are not null. */
  ghost predicate Filled(im: seq<int>, vs: seq<Option<int>>, n: int)
  {
    && 0 <= n <= |im|
    && forall s :: 0 <= s < n ==> 0 <= im[s] < |vs| && vs[im[s]].Some?
  }

  /** Exactly the first `n` slots hold keys. */
  ghost predicate Occupied(im: seq<int>, n: int)
  {
    forall s :: 0 <= s < |im| ==> (im[s] != -1 <==> s < n)
  }

  /** A key has a slot exactly when it has a value. */
  ghost predicate Present(pm: seq<int>, vs: seq<Option<int>>)
  {
    && |pm| == |vs|
    && forall k :: 0 <= k < |pm| ==> (pm[k] != -1 <==> vs[k].Some?)
  }

  /** `contents` is the map from present keys to their stored values. */
  ghost predicate Abstracts(pm: seq<int>, vs: seq<Option<int>>, contents: map<int, int>)
  {
    && (forall k :: k in contents <==> 0 <= k < |pm| && pm[k] != -1)
    && (forall k :: k in contents ==> 0 <= k < |vs| && vs[k] == Some(contents[k]))
  }

  /** The representation invariant of the index arrays, with `n` keys present. */
  ghost predicate Consistent(pm: seq<int>, im: seq<int>, vs: seq<Option<int>>, n: int, contents: map<int, int>)
  {
    && 0 <= n <= |im|
    && Linked(pm, im)
    && Occupied(im, n)
    && Present(pm, vs)
    && Abstracts(pm, vs, contents)
    && |contents| == n
  }

  /**
   * (pm, im) differs from (pm0, im0) only by a rearrangement of the first `n` slots: slots from n on and
   * the keys not held in them keep their entries, and keys held in the first n slots stay there.
   */
  ghost predicate SameOutside(pm0: seq<int>, im0: seq<int>, pm: seq<int>, im: seq<int>, n: int)
  {
    && |pm| == |pm0| && |im| == |im0|
    && (forall s :: 0 <= s < |im| && n <= s ==> im[s] == im0[s])
    && (forall k :: 0 <= k < |pm| && !(0 <= pm0[k] < n) ==> pm[k] == pm0[k])
    && (forall k :: 0 <= k < |pm| && 0 <= pm0[k] < n ==> 0 <= pm[k] < n)
  }

  lemma ConsistentFilled(pm: seq<int>, im: seq<int>, vs: seq<Option<int>>, n: int, contents: map<int, int>)
    requires Consistent(pm, im, vs, n, contents)
    ensures Filled(im, vs, n)
  {
    forall s | 0 <= s < n ensures 0 <= im[s] < |vs| && vs[im[s]].Some? {
      assert im[s] != -1;
    }
  }

  /** `swap(i, j)` keeps pm and im inverse. */
  lemma SwapLinked(pm: seq<int>, im: seq<int>, i: int, j: int)
    requires Linked(pm, im)
    requires 0 <= i < |im| && 0 <= j < |im| && 0 <= im[i] < |pm| && 0 <= im[j] < |pm|
    ensures Linked(pm[im[j] := i][im[i] := j], Swapped(im, i, j))
  {
    var pm', im' := pm[im[j] := i][im[i] := j], Swapped(im, i, j);
    forall k | 0 <= k < |pm'| && pm'[k] != -1 ensures 0 <= pm'[k] < |im'| && im'[pm'[k]] == k {
      if k != im[i] && k != im[j] {
        assert pm[k] != i && pm[k] != j;
      }
    }
  }

  /** Swapping two of the first `n` slots is a rearrangement of those slots. */
  lemma SwapSameOutside(pm: seq<int>, im: seq<int>, i: int, j: int, n: int)
    requires Linked(pm, im)
    requires 0 <= i < n && 0 <= j < n && n <= |im| && 0 <= im[i] < |pm| && 0 <= im[j] < |pm|
    ensures SameOutside(pm, im, pm[im[j] := i][im[i] := j], Swapped(im, i, j), n)
  {
  }

  lemma SwapFilled(im: seq<int>, vs: seq<Option<int>>, i: int, j: int, n: int)
    requires Filled(im, vs, n) && 0 <= i < n && 0 <= j < n
    ensures Filled(Swapped(im, i, j), vs, n)
  {
  }

  lemma SameOutsideTransitive(pm0: seq<int>, im0: seq<int>, pm1: seq<int>, im1: seq<int>, pm: seq<int>, im: seq<int>, n: int)
    requires SameOutside(pm0, im0, pm1, im1, n) && SameOutside(pm1, im1, pm, im, n)
    ensures SameOutside(pm0, im0, pm, im, n)
  {
  }

  /** Swapping two slots of im swaps their values. */
  lemma SwapSlotValues(im: seq<int>, vs: seq<Option<int>>, i: int, j: int)
    requires 0 <= i < |im| && 0 <= j < |im|
    ensures SlotValues(Swapped(im, i, j), vs) == Swapped(SlotValues(im, vs), i, j)
  {
    var a, b := SlotValues(Swapped(im, i, j), vs), Swapped(SlotValues(im, vs), i, j);
    forall s | 0 <= s < |im| ensures a[s] == b[s] {
      assert a[s] == SlotValue(Swapped(im, i, j), vs, s);
    }
  }

  /** Every key lies in [0, m), so a key of [0, m) that is absent leaves room for another slot. */
  lemma RoomForAbsentKey(pm: seq<int>, im: seq<int>, vs: seq<Option<int>>, n: int, contents: map<int, int>, k: int)
    requires Consistent(pm, im, vs, n, contents)
    requires 0 <= k < |pm| && pm[k] == -1
    ensures n < |im|
  {
    var all, used := KeyRange(|pm|), contents.Keys + {k};
    assert k !in contents.Keys;
    assert |used| == n + 1;
    forall x | x in used ensures x in all {
      if x != k {
        assert x in contents;
      }
    }
    SubsetSize(used, all);
  }

  /** The key indices [0, m), with their number. */
  function KeyRange(m: nat): (r: set<int>)
    ensures |r| == m
    ensures forall x :: x in r <==> 0 <= x < m
  {
    if m == 0 then {} else KeyRange(m - 1) + {m - 1}
  }

  lemma SubsetSize(a: set<int>, b: set<int>)
    requires a <= b
    ensures |a| <= |b|
  {
    assert b == a + (b - a);
  }

  /** `insert` of an absent key k with value v at the next free slot n. */
  lemma InsertConsistent(pm: seq<int>, im: seq<int>, vs: seq<Option<int>>, n: int, contents: map<int, int>, k: int, v: int)
    requires Consistent(pm, im, vs, n, contents)
    requires 0 <= k < |pm| && pm[k] == -1 && n < |im|
    ensures Consistent(pm[k := n], im[n := k], vs[k := Some(v)], n + 1, contents[k := v])
    ensures forall s :: 0 <= s < n ==> SlotValues(im[n := k], vs[k := Some(v)])[s] == SlotValues(im, vs)[s]
    ensures SlotValues(im[n := k], vs[k := Some(v)])[n] == v
  {
    var pm', im', vs' := pm[k := n], im[n := k], vs[k := Some(v)];
    assert k !in contents;
    forall s | 0 <= s < n ensures SlotValues(im', vs')[s] == SlotValues(im, vs)[s] {
      assert im[s] != -1 && im[s] != k;
    }
    assert |contents[k := v]| == n + 1;
  }

  /**
   * The state `delete(k)` reaches after exchanging k's slot with the last one and shrinking to n slots:
   * k sits at slot n, linked but outside the heap, and the first n slots are filled.
   */
  ghost predicate PendingDelete(pm: seq<int>, im: seq<int>, vs: seq<Option<int>>, n: int, contents: map<int, int>, k: int)
  {
    && 0 <= n < |im|
    && Linked(pm, im)
    && Occupied(im, n + 1)
    && Present(pm, vs)
    && Abstracts(pm, vs, contents)
    && |contents| == n + 1
    && 0 <= k < |pm| && pm[k] == n && im[n] == k
  }

  lemma DeleteSwapped(pm: seq<int>, im: seq<int>, vs: seq<Option<int>>, n: int, contents: map<int, int>, k: int)
    requires Consistent(pm, im, vs, n + 1, contents)
    requires 0 <= k < |pm| && pm[k] != -1 && 0 <= n
    ensures 0 <= pm[k] <= n && 0 <= im[n] < |pm|
    ensures PendingDelete(pm[im[n] := pm[k]][im[pm[k]] := n], Swapped(im, pm[k], n), vs, n, contents, k)
    ensures Filled(Swapped(im, pm[k], n), vs, n)
  {
    var i := pm[k];
    assert im[n] != -1;
    SwapLinked(pm, im, i, n);
    var pm', im' := pm[im[n] := i][im[i] := n], Swapped(im, i, n);
    forall x | 0 <= x < |pm| ensures (pm'[x] != -1 <==> vs[x].Some?) {
      if x != im[i] && x != im[n] {
        assert pm'[x] == pm[x];
      }
    }
    forall s | 0 <= s < n ensures 0 <= im'[s] < |vs| && vs[im'[s]].Some? {
      assert im'[s] != -1;
    }
  }

  /** After sink and swim rearranged the first n slots, clearing k's entries leaves a consistent state. */
  lemma DeleteFinish(pm1: seq<int>, im1: seq<int>, pm: seq<int>, im: seq<int>, vs: seq<Option<int>>, n: int, contents: map<int, int>, k: int, d: int)
    requires PendingDelete(pm1, im1, vs, n, contents, k)
    requires Linked(pm, im) && Filled(im, vs, n) && SameOutside(pm1, im1, pm, im, n)
    requires d >= 2 && HeapOrdered(SlotValues(im, vs), d, n)
    ensures pm[k] == n && im[n] == k && k in contents
    ensures Consistent(pm[k := -1], im[n := -1], vs[k := None], n, contents - {k})
    ensures HeapOrdered(SlotValues(im[n := -1], vs[k := None]), d, n)
  {
    var pm', im', vs' := pm[k := -1], im[n := -1], vs[k := None];
    forall x | 0 <= x < |pm| ensures (pm[x] != -1 <==> pm1[x] != -1) {
      if 0 <= pm1[x] < n {
      } else {
        assert pm[x] == pm1[x];
      }
    }
    forall s | 0 <= s < |im'| ensures (im'[s] != -1 <==> s < n) {
      if s > n {
        assert im[s] == im1[s];
      }
    }
    forall s | 0 <= s < n ensures SlotValues(im', vs')[s] == SlotValues(im, vs)[s] {
      assert im[s] != k;
    }
    assert (contents - {k}).Keys == contents.Keys - {k};
    OrderedPrefix(SlotValues(im, vs), SlotValues(im', vs'), d, n);
  }

  /** After sink or swim rearranged the first n slots of a consistent state, it is still consistent. */
  lemma RepairedConsistent(pm0: seq<int>, im0: seq<int>, pm: seq<int>, im: seq<int>, vs: seq<Option<int>>, n: int, contents: map<int, int>)
    requires Consistent(pm0, im0, vs, n, contents)
    requires Linked(pm, im) && Filled(im, vs, n) && SameOutside(pm0, im0, pm, im, n)
    ensures Consistent(pm, im, vs, n, contents)
  {
    forall x | 0 <= x < |pm| ensures (pm[x] != -1 <==> pm0[x] != -1) {
      if !(0 <= pm0[x] < n) {
        assert pm[x] == pm0[x];
      }
    }
    forall s | 0 <= s < |im| ensures (im[s] != -1 <==> s < n) {
      if s >= n {
        assert im[s] == im0[s];
      }
    }
  }

  /** A freshly constructed queue: every entry of pm and im is -1 and every value null. */
  lemma EmptyConsistent(pm: seq<int>, im: seq<int>, vs: seq<Option<int>>)
    requires |pm| == |im| == |vs|
    requires forall s :: 0 <= s < |im| ==> pm[s] == -1 && im[s] == -1 && vs[s] == None
    ensures Consistent(pm, im, vs, 0, map[])
  {
  }
}
