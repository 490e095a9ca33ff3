/**
 * Clients of the queue whose outcomes follow from the queue's contracts alone.
 */
module Scenarios {
  import opened Results
  import opened Topology
  import opened HeapOrder
  import opened IndexedPQ

  /** The example: keys 0..4 get these values, in this order. */
  const ExampleValues: seq<int> := [5, 3, 8, 1, 4]

  /** The keys in the order the example polls them: by increasing value. */
  const ExampleOrder: seq<int> := [3, 1, 4, 0, 2]

  /** The example's keys 0 .. i-1 with their values. */
  ghost function Inserted(i: int): map<int, int>
    requires 0 <= i <= 5
  {
    map k | 0 <= k < i :: ExampleValues[k]
  }

  /** The example's content after each of its polls, from the full queue to the empty one. */
  const Remaining: seq<map<int, int>> := [
    map[0 := 5, 1 := 3, 2 := 8, 3 := 1, 4 := 4],
    map[0 := 5, 1 := 3, 2 := 8, 4 := 4],
    map[0 := 5, 2 := 8, 4 := 4],
    map[0 := 5, 2 := 8],
    map[2 := 8],
    map[]]

  /** Degree 2, capacity 5: keys 0..4 inserted with values 5, 3, 8, 1, 4 are polled as 3, 1, 4, 0, 2. */
  method DegreeTwoPollOrder() returns (keys: seq<int>)
    ensures keys == ExampleOrder
  {
    var pq := ExampleQueue();
    ExampleStart();
    keys := PollExample(pq);
  }

  /** A fresh queue of degree 2 and capacity 5 after inserting keys 0..4 with the example's values. */
  method ExampleQueue() returns (pq: MinIndexedPQ)
    ensures fresh(pq) && fresh(pq.pm) && fresh(pq.im) && fresh(pq.val)
    ensures pq.Valid() && pq.Contents == Inserted(5)
  {
    pq := new MinIndexedPQ(2, 5);
    for i := 0 to 5
      invariant pq.Valid() && pq.N == 5 && pq.Contents == Inserted(i)
    {
      InsertedStep(i);
      InsertAbsent(pq, i, ExampleValues[i]);
    }
  }

  /** Five polls of the example queue return its keys by increasing value. */
  method PollExample(pq: MinIndexedPQ) returns (keys: seq<int>)
    requires pq.Valid() && pq.Contents == Remaining[0]
    modifies pq, pq.pm, pq.im, pq.val
    ensures pq.Valid() && pq.Contents == map[]
    ensures keys == ExampleOrder
  {
    keys := [];
    for i := 0 to 5
      invariant pq.Valid() && pq.Contents == Remaining[i]
      invariant keys == ExampleOrder[..i]
    {
      RemainingStep(i);
      var k := PollUniqueMin(pq, ExampleOrder[i]);
      PrefixStep(ExampleOrder, i);
      keys := keys + [k];
    }
  }

  /** All five inserts give the content the polls start from. */
  lemma ExampleStart()
    ensures Inserted(5) == Remaining[0]
  {
    assert Inserted(5).Keys == Remaining[0].Keys;
  }

  /** Inserting key i with its value extends the first i pairs to i + 1. */
  lemma InsertedStep(i: int)
    requires 0 <= i < 5
    ensures i !in Inserted(i) && Inserted(i)[i := ExampleValues[i]] == Inserted(i + 1)
  {
    assert Inserted(i)[i := ExampleValues[i]].Keys == Inserted(i + 1).Keys;
  }

  /** After i polls, the key polled next holds the single least value, and removing it leaves the next state. */
  lemma RemainingStep(i: int)
    requires 0 <= i < 5
    ensures ExampleOrder[i] in Remaining[i]
    ensures forall j :: j in Remaining[i] && j != ExampleOrder[i] ==> Remaining[i][ExampleOrder[i]] < Remaining[i][j]
    ensures Remaining[i + 1] == Remaining[i] - {ExampleOrder[i]}
  {
    var m, w, m2 := Remaining[i], ExampleOrder[i], Remaining[i + 1];
    // One branch per step, so that each call sees the constants of that step evaluated.
    if i == 0 {
      RemovedKey(m, w, m2);
    } else if i == 1 {
      RemovedKey(m, w, m2);
    } else if i == 2 {
      RemovedKey(m, w, m2);
    } else if i == 3 {
      RemovedKey(m, w, m2);
    } else {
      RemovedKey(m, w, m2);
    }
  }

  /** Extending a prefix by one element. */
  lemma PrefixStep(s: seq<int>, i: int)
    requires 0 <= i < |s|
    ensures s[..i + 1] == s[..i] + [s[i]]
  {
  }

  /** A queue obtained from Create can be filled: degree 2, capacity 5, then key 0 with value 1. */
  method CreateThenInsert() returns (r: Result<MinIndexedPQ>)
    ensures r.Success? && r.value.Valid() && r.value.Contents == map[0 := 1]
  {
    r := MinIndexedPQ.Create(2, 5);
    InsertAbsent(r.value, 0, 1);
  }

  /** Inserting an absent in-range key with a value succeeds and adds the pair. */
  method InsertAbsent(pq: MinIndexedPQ, k: int, v: int)
    requires pq.Valid() && 0 <= k < pq.N && k !in pq.Contents
    modifies pq, pq.pm, pq.im, pq.val
    ensures pq.Valid() && pq.Contents == old(pq.Contents)[k := v]
  {
    var r := pq.Insert(k, Some(v));
  }

  /** Polling a queue holding m, whose least value is held by the single key w, returns w and leaves m2 = m without w. */
  method PollUniqueMin(pq: MinIndexedPQ, w: int) returns (k: int)
    requires pq.Valid() && w in pq.Contents
    requires forall j :: j in pq.Contents && j != w ==> pq.Contents[w] < pq.Contents[j]
    modifies pq, pq.pm, pq.im, pq.val
    ensures pq.Valid() && pq.Contents == old(pq.Contents) - {w} && k == w
  {
    var r := pq.PollMinKeyIndex();
    MinKeyIs(old(pq.Contents), r.value, w);
    k := r.value;
  }

  /** Removing key w from m leaves m2 when m2 lists exactly the other pairs of m. */
  lemma RemovedKey(m: map<int, int>, w: int, m2: map<int, int>)
    requires forall k :: k in m2 <==> k in m && k != w
    requires forall k :: k in m2 ==> m2[k] == m[k]
    ensures m - {w} == m2
  {
    assert forall k :: k in m - {w} <==> k in m2;
    assert forall k :: k in m2 ==> (m - {w})[k] == m2[k];
  }

  /** When one key holds a value smaller than every other key's, it is the only key with a least value. */
  lemma MinKeyIs(m: map<int, int>, k: int, w: int)
    requires k in m && w in m
    requires forall j :: j in m ==> m[k] <= m[j]
    requires forall j :: j in m && j != w ==> m[w] < m[j]
    ensures k == w
  {
  }

  /**
   * Two keys inserted with equal values into a fresh binary queue: the queue is a valid heap,
   * yet the strict isMinHeap reports false and the corrected check reports true.
   */
  method EqualValuesCheck() returns (asWritten: bool, corrected: bool)
    ensures !asWritten && corrected
  {
    var pq := new MinIndexedPQ(2, 2);
    InsertAbsent(pq, 0, 7);
    InsertAbsent(pq, 1, 7);
    TiedRootAndChild(pq);
    asWritten := pq.IsMinHeap();
    corrected := pq.IsMinHeapCorrected();
  }

  /** A binary queue holding two keys with the same value has a root and a child holding equal values. */
  lemma TiedRootAndChild(pq: MinIndexedPQ)
    requires pq.Valid() && pq.D == 2 && pq.Contents == map[0 := 7, 1 := 7]
    ensures !StrictlyOrdered(pq.Slots(), pq.D, pq.sz)
  {
    pq.SlotsHoldContents();
    assert Parent(1, 2) == 0;
    assert pq.Slots()[0] == 7 && pq.Slots()[1] == 7;
  }

  /**
   * Polling until empty yields every key that was present exactly once, a least remaining one each time:
   * `keys` lists the polled keys, each value is its key's value, and the values are non-decreasing.
   */
  method Drain(pq: MinIndexedPQ) returns (values: seq<int>, ghost keys: seq<int>)
    requires pq.Valid()
    modifies pq, pq.pm, pq.im, pq.val
    ensures pq.Valid() && pq.Contents == map[]
    ensures DrainedSoFar(old(pq.Contents), map[], values, keys)
    ensures |values| == |old(pq.Contents)|
  {
    ghost var c0 := pq.Contents;
    values, keys := [], [];
    while !pq.IsEmpty()
      invariant pq.Valid()
      invariant DrainedSoFar(c0, pq.Contents, values, keys)
      decreases |pq.Contents|
    {
      ghost var before := pq.Contents;
      ghost var k := pq.PeekMinKeyIndex().value;
      var r := pq.PollMinValue();
      DrainStep(c0, before, values, keys, k, r.value);
      values, keys := values + [r.value], keys + [k];
    }
    DrainedAll(c0, values, keys);
  }

  /**
   * After polling `values`, the values of the distinct keys `keys`, from a queue that held c0, it holds
   * `rest`: the pairs of c0 whose keys were not polled. The values are non-decreasing and no larger
   * than any value left.
   */
  ghost predicate DrainedSoFar(c0: map<int, int>, rest: map<int, int>, values: seq<int>, keys: seq<int>)
  {
    && |keys| == |values|
    && (forall k :: k in rest ==> k in c0 && rest[k] == c0[k])
    && (forall i :: 0 <= i < |keys| ==> keys[i] in c0 && keys[i] !in rest && values[i] == c0[keys[i]])
    && (forall i, j :: 0 <= i < j < |keys| ==> keys[i] != keys[j])
    && (forall k :: k in c0 ==> k in rest || k in keys)
    && (forall i, j :: 0 <= i < j < |values| ==> values[i] <= values[j])
    && (forall i, k :: 0 <= i < |values| && k in rest ==> values[i] <= rest[k])
  }

  /** Polling key k, which holds a least value v of `rest`, keeps the drain invariant. */
  lemma DrainStep(c0: map<int, int>, rest: map<int, int>, values: seq<int>, keys: seq<int>, k: int, v: int)
    requires DrainedSoFar(c0, rest, values, keys)
    requires k in rest && rest[k] == v && forall j :: j in rest ==> v <= rest[j]
    ensures DrainedSoFar(c0, rest - {k}, values + [v], keys + [k])
  {
    var keys', values' := keys + [k], values + [v];
    forall x | x in c0 ensures x in rest - {k} || x in keys' {
      if x !in rest - {k} && x !in keys {
        assert x == k;
        assert keys'[|keys|] == x;
      }
    }
    forall i | 0 <= i < |keys| ensures keys'[i] != k {
      assert keys[i] !in rest;
    }
  }

  /** A finished drain has polled each key of c0 once, so it yields exactly |c0| values. */
  lemma DrainedAll(c0: map<int, int>, values: seq<int>, keys: seq<int>)
    requires DrainedSoFar(c0, map[], values, keys)
    ensures (forall k :: k in c0 <==> k in keys) && |values| == |c0|
  {
    var ks := set x | x in keys;
    forall x | x in ks ensures x in c0 {
      var i :| 0 <= i < |keys| && keys[i] == x;
    }
    forall x | x in c0 ensures x in ks {
      assert x in keys;
    }
    assert ks == c0.Keys;
    DistinctCount(keys);
  }

  /** A sequence without repeats has as many distinct elements as entries. */
  lemma {:induction false} DistinctCount(s: seq<int>)
    requires forall i, j :: 0 <= i < j < |s| ==> s[i] != s[j]
    ensures |set x | x in s| == |s|
  {
    if s != [] {
      var t := s[..|s| - 1];
      DistinctCount(t);
      assert (set x | x in s) == (set x | x in t) + {s[|s| - 1]};
      assert s[|s| - 1] !in t;
    }
  }
}
