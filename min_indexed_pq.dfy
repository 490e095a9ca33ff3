/**
 * An indexed D-ary min-heap. Callers address elements by a key index in [0, N); the heap keeps
 * a position map `pm` (key -> slot), an inverse map `im` (slot -> key), a values table `val`
 * (key -> value, `None` standing for Java's null) and precomputed parent and first-child tables.
 */
module IndexedPQ {
  import opened Results
  import opened Topology
  import opened HeapOrder
  import opened IndexMaps
  import opened HeapCheck

  class MinIndexedPQ {
    const D: int            // branching factor
    const N: int            // capacity: keys are 0 .. N-1
    var sz: int             // number of present keys
    const pm: array<int>    // key -> slot, or -1
    const im: array<int>    // slot -> key, or -1
    const par: array<int>   // slot -> parent slot
    const ch: array<int>    // slot -> first child slot
    const val: array<Option<int>>   // key -> value, or None

    /** The abstract content: present keys and their values. */
    ghost var Contents: map<int, int>

    /** The fixed shape: sizes, distinct arrays and the topology tables. */
    ghost predicate Tables()
      reads par, ch
    {
      && D >= 2 && N >= D + 1
      && pm.Length == N && im.Length == N && par.Length == N && ch.Length == N && val.Length == N
      && pm != im && par != pm && par != im && ch != pm && ch != im
      && (forall s :: 0 <= s < N ==> par[s] == Parent(s, D))
      && (forall s :: 0 <= s < N ==> ch[s] == FirstChild(s, D))
    }

    /** The value held at every slot, in slot order. */
    ghost function Slots(): (h: seq<int>)
      reads im, val
    {
      SlotValues(im[..], val[..])
    }

    ghost predicate Valid()
      reads this, pm, im, val, par, ch
    {
      && Tables()
      && Consistent(pm[..], im[..], val[..], sz, Contents)
      && HeapOrdered(Slots(), D, sz)
    }

    /** The constructor proper, once the capacity has been checked (see Create). */
    constructor (degree: int, maxSize: int)
      requires maxSize > 0
      ensures D == (if degree > 2 then degree else 2)
      ensures N == (if D + 1 > maxSize then D + 1 else maxSize)
      ensures Valid() && sz == 0 && Contents == map[]
      ensures forall s :: 0 <= s < N ==> pm[s] == -1 && im[s] == -1 && val[s] == None
      ensures forall s :: 0 <= s < N ==> par[s] == Parent(s, D) && ch[s] == FirstChild(s, D)
      ensures fresh(pm) && fresh(im) && fresh(par) && fresh(ch) && fresh(val)
    {
      var d := if degree > 2 then degree else 2;
      var n := if d + 1 > maxSize then d + 1 else maxSize;
      D, N := d, n;
      im := new int[n];
      pm := new int[n];
      ch := new int[n];
      par := new int[n];
      val := new Option<int>[n](_ => None);
      sz := 0;
      Contents := map[];
      new;
      assert pm != im && par != pm && par != im && ch != pm && ch != im && par != ch;
      for i := 0 to N
        invariant forall s :: 0 <= s < i ==> par[s] == Parent(s, D) && ch[s] == FirstChild(s, D)
        invariant forall s :: 0 <= s < i ==> pm[s] == -1 && im[s] == -1
        invariant forall s :: 0 <= s < N ==> val[s] == None
        invariant sz == 0 && Contents == map[]
      {
        par[i] := Parent(i, D);
        ch[i] := FirstChild(i, D);
        pm[i] := -1;
        im[i] := -1;
      }
      EmptyConsistent(pm[..], im[..], val[..]);
    }

    /** Construction: a non-positive capacity is rejected before anything is allocated. */
    static method Create(degree: int, maxSize: int) returns (r: Result<MinIndexedPQ>)
      ensures r.Failure? <==> maxSize <= 0
      ensures r.Failure? ==> r.error == BadCapacity
      ensures r.Success? ==> fresh(r.value) && r.value.Valid() && r.value.Contents == map[]
      ensures r.Success? ==> fresh(r.value.pm) && fresh(r.value.im) && fresh(r.value.val)
      ensures r.Success? ==> r.value.D == (if degree > 2 then degree else 2)
      ensures r.Success? ==> r.value.N == (if r.value.D + 1 > maxSize then r.value.D + 1 else maxSize)
    {
      if maxSize <= 0 {
        return Failure(BadCapacity);
      }
      var pq := new MinIndexedPQ(degree, maxSize);
      r := Success(pq);
    }

    function Size(): (r: int)
      reads this, pm, im, val, par, ch
      requires Valid()
      ensures r == |Contents|
    {
      sz
    }

    function IsEmpty(): (r: bool)
      reads this, pm, im, val, par, ch
      requires Valid()
      ensures r <==> Contents == map[]
    {
      assert Contents == map[] <==> |Contents| == 0;
      sz == 0
    }

    function CheckKeyInBounds(ki: int): (r: Outcome)
      ensures r.Pass? <==> 0 <= ki < N
      ensures r.Fail? ==> r.error == KeyOutOfBounds
    {
      if ki < 0 || ki >= N then Fail(KeyOutOfBounds) else Pass
    }

    function Contains(ki: int): (r: Result<bool>)
      reads this, pm, im, val, par, ch
      requires Valid()
      ensures r.Failure? <==> !(0 <= ki < N)
      ensures r.Failure? ==> r.error == KeyOutOfBounds
      ensures r.Success? ==> (r.value <==> ki in Contents)
    {
      match CheckKeyInBounds(ki)
      case Fail(e) => Failure(e)
      case Pass => Success(pm[ki] != -1)
    }

    function CheckKeyExists(ki: int): (r: Outcome)
      reads this, pm, im, val, par, ch
      requires Valid()
      ensures r == (if !(0 <= ki < N) then Fail(KeyOutOfBounds) else if ki !in Contents then Fail(NoSuchKey) else Pass)
    {
      match Contains(ki)
      case Failure(e) => Fail(e)
      case Success(present) => if !present then Fail(NoSuchKey) else Pass
    }

    function CheckValueNotNull(value: Option<int>): (r: Outcome)
      ensures r.Fail? <==> value == None
      ensures r.Fail? ==> r.error == NullValue
    {
      if value.None? then Fail(NullValue) else Pass
    }

    function CheckNotEmpty(): (r: Outcome)
      reads this, pm, im, val, par, ch
      requires Valid()
      ensures r == (if Contents == map[] then Fail(Underflow) else Pass)
    {
      if IsEmpty() then Fail(Underflow) else Pass
    }

    /** Each occupied slot holds the key stored there and that key's value. */
    lemma SlotsHoldContents()
      requires Valid()
      ensures forall s :: 0 <= s < sz ==> im[s] in Contents && Slots()[s] == Contents[im[s]]
    {
      ConsistentFilled(pm[..], im[..], val[..], sz, Contents);
      forall s | 0 <= s < sz ensures im[s] in Contents && Slots()[s] == Contents[im[s]] {
        assert im[..][s] == im[s];
      }
    }

    /** A full queue holds every key, so insert's duplicate check fires before sz could pass N. */
    lemma FullHoldsEveryKey()
      requires Valid() && sz == N
      ensures forall k :: 0 <= k < N ==> k in Contents
    {
      forall k | 0 <= k < N ensures k in Contents {
        if k !in Contents {
          assert pm[..][k] == -1;
          RoomForAbsentKey(pm[..], im[..], val[..], sz, Contents, k);
          assert false;
        }
      }
    }

    /** The root holds a least value among the present keys. */
    lemma MinAtRoot()
      requires Valid() && sz > 0
      ensures im[0] in Contents
      ensures forall k :: k in Contents ==> Contents[im[0]] <= Contents[k]
    {
      ConsistentFilled(pm[..], im[..], val[..], sz, Contents);
      assert im[..][0] != -1;
      forall k | k in Contents ensures Contents[im[0]] <= Contents[k] {
        var s := pm[k];
        assert im[..][s] == k;
        RootIsMin(Slots(), D, sz, s);
      }
    }

    function PeekMinKeyIndex(): (r: Result<int>)
      reads this, pm, im, val, par, ch
      requires Valid()
      ensures r.Failure? <==> Contents == map[]
      ensures r.Failure? ==> r.error == Underflow
      ensures r.Success? ==> r.value in Contents && forall k :: k in Contents ==> Contents[r.value] <= Contents[k]
    {
      match CheckNotEmpty()
      case Fail(e) => Failure(e)
      case Pass => MinAtRoot(); Success(im[0])
    }

    function PeekMinValue(): (r: Result<int>)
      reads this, pm, im, val, par, ch
      requires Valid()
      ensures r.Failure? <==> Contents == map[]
      ensures r.Failure? ==> r.error == Underflow
      ensures r.Success? ==> r.value in Contents.Values && forall k :: k in Contents ==> r.value <= Contents[k]
      ensures r.Success? ==> PeekMinKeyIndex().Success? && r.value == Contents[PeekMinKeyIndex().value]
    {
      match CheckNotEmpty()
      case Fail(e) => Failure(e)
      case Pass =>
        MinAtRoot();
        assert Contents[im[0]] in Contents.Values;
        Success(val[im[0]].value)
    }

    function ValueOf(ki: int): (r: Result<int>)
      reads this, pm, im, val, par, ch
      requires Valid()
      ensures r == (if !(0 <= ki < N) then Failure(KeyOutOfBounds)
                    else if ki !in Contents then Failure(NoSuchKey)
                    else Success(Contents[ki]))
    {
      match CheckKeyExists(ki)
      case Fail(e) => Failure(e)
      case Pass => Success(val[ki].value)
    }

    /** Slot i's value is strictly less than slot j's. */
    predicate Less(i: int, j: int)
      reads im, val
      requires 0 <= i < im.Length && 0 <= im[i] < val.Length && val[im[i]].Some?
      requires 0 <= j < im.Length && 0 <= im[j] < val.Length && val[im[j]].Some?
      ensures Less(i, j) <==> Slots()[i] < Slots()[j]
    {
      val[im[i]].value < val[im[j]].value
    }

    /** Exchanges the keys at slots i and j and repoints pm for exactly those two keys. */
    method Swap(i: int, j: int)
      requires Tables() && Linked(pm[..], im[..]) && 0 <= sz <= N
      requires 0 <= i < N && 0 <= j < N && 0 <= im[i] < N && 0 <= im[j] < N
      modifies pm, im
      ensures im[..] == Swapped(old(im[..]), i, j)
      ensures pm[..] == old(pm[..])[old(im[j]) := i][old(im[i]) := j]
      ensures Linked(pm[..], im[..])
      ensures Slots() == Swapped(old(Slots()), i, j)
      ensures i < sz && j < sz ==> SameOutside(old(pm[..]), old(im[..]), pm[..], im[..], sz)
      ensures i < sz && j < sz && Filled(old(im[..]), val[..], sz) ==> Filled(im[..], val[..], sz)
    {
      ghost var pm0, im0 := pm[..], im[..];
      pm[im[j]] := i;
      pm[im[i]] := j;
      var tmp := im[i];
      im[i] := im[j];
      im[j] := tmp;
      assert pm[..] == pm0[im0[j] := i][im0[i] := j];
      assert im[..] == Swapped(im0, i, j);
      SwapLinked(pm0, im0, i, j);
      SwapSlotValues(im0, val[..], i, j);
      if i < sz && j < sz {
        SwapSameOutside(pm0, im0, i, j, sz);
        if Filled(im0, val[..], sz) {
          SwapFilled(im0, val[..], i, j, sz);
        }
      }
    }

    /** minch: the least child of slot i that is strictly smaller than it, or -1. */
    method MinChild(i: int) returns (index: int)
      requires Tables() && Filled(im[..], val[..], sz)
      requires 0 <= i <= sz && i < N
      ensures MinChildResult(Slots(), D, sz, i, index)
    {
      ChildAfterParent(i, D);
      index := -1;
      var m := i;
      var from := ch[i];
      var to := Min(sz, from + D);
      var j := from;
      while j < to
        invariant from <= j && (j <= to || j == from)
        invariant m == (if index == -1 then i else index)
        invariant index == -1 ==> forall c :: from <= c < j ==> Slots()[i] <= Slots()[c]
        invariant index != -1 ==> from <= index < j && index < to && Slots()[index] < Slots()[i]
        invariant index != -1 ==> forall c :: from <= c < j ==> Slots()[index] <= Slots()[c]
        invariant index != -1 ==> forall c :: from <= c < index ==> Slots()[index] < Slots()[c]
      {
        assert im[..][j] == im[j] && im[..][m] == im[m];
        if Less(j, m) {
          index := j;
          m := j;
        }
        j := j + 1;
      }
    }

    /**
     * What sink keeps while the element it started with at slot i0 sits at slot i: the maps are linked, the
     * first sz slots filled and rearranged among themselves since (pm0, im0), and the sink invariant holds.
     */
    ghost predicate Sinking(pm0: seq<int>, im0: seq<int>, i: int, i0: int)
      reads this, pm, im, val, par, ch
    {
      && Tables() && 0 <= i0 <= i <= sz && i < N
      && Linked(pm[..], im[..]) && Filled(im[..], val[..], sz)
      && SameOutside(pm0, im0, pm[..], im[..], sz)
      && SinkInvariant(Slots(), D, sz, i, i0)
    }

    /** One round of the loop of sink: slot i is exchanged with its least child j, smaller than it, and the least child of j is found. */
    method SinkRound(ghost pm0: seq<int>, ghost im0: seq<int>, i: int, i0: int, j: int) returns (next: int)
      requires Sinking(pm0, im0, i, i0)
      requires j != -1 && MinChildResult(Slots(), D, sz, i, j)
      modifies pm, im
      ensures i < j && Sinking(pm0, im0, j, i0) && MinChildResult(Slots(), D, sz, j, next)
    {
      SinkStep(Slots(), D, sz, i, i0, j);
      ChildAfterParent(i, D);
      ParentBlock(j, D);
      ghost var pm1, im1 := pm[..], im[..];
      assert im1[i] == im[i] && im1[j] == im[j];
      Swap(i, j);
      SameOutsideTransitive(pm0, im0, pm1, im1, pm[..], im[..], sz);
      next := MinChild(j);
    }

    /** The element at slot i0 moves down, exchanged each time with its least smaller child. */
    method Sink(i0: int)
      requires Tables() && Linked(pm[..], im[..]) && Filled(im[..], val[..], sz)
      requires 0 <= i0 <= sz && i0 < N
      requires SinkInvariant(Slots(), D, sz, i0, i0)
      modifies pm, im
      ensures Linked(pm[..], im[..]) && Filled(im[..], val[..], sz)
      ensures SameOutside(old(pm[..]), old(im[..]), pm[..], im[..], sz)
      ensures SwimInvariant(Slots(), D, sz, i0)
      ensures i0 == sz ==> unchanged(pm, im)
    {
      var i := i0;
      var j := MinChild(i);
      while j != -1
        invariant Sinking(old(pm[..]), old(im[..]), i, i0) && MinChildResult(Slots(), D, sz, i, j)
        invariant i == i0 ==> unchanged(pm, im)
        decreases sz - i
      {
        var next := SinkRound(old(pm[..]), old(im[..]), i, i0, j);
        i, j := j, next;
      }
      SinkExit(Slots(), D, sz, i, i0);
    }

    /** The element at slot i0 moves up, exchanged with its parent while it is strictly smaller. */
    method Swim(i0: int)
      requires Tables() && Linked(pm[..], im[..]) && Filled(im[..], val[..], sz)
      requires 0 <= i0 <= sz && i0 < N && 0 <= im[i0] < N && val[im[i0]].Some?
      requires SwimInvariant(Slots(), D, sz, i0)
      requires i0 == sz ==> Slots()[Parent(i0, D)] <= Slots()[i0]
      modifies pm, im
      ensures Linked(pm[..], im[..]) && Filled(im[..], val[..], sz)
      ensures SameOutside(old(pm[..]), old(im[..]), pm[..], im[..], sz)
      ensures HeapOrdered(Slots(), D, sz)
      ensures i0 == sz ==> unchanged(pm, im)
    {
      var i := i0;
      while Less(i, par[i])
        invariant 0 <= i <= sz && i < N && 0 <= im[i] < N && val[im[i]].Some?
        invariant i0 == sz ==> i == i0 && unchanged(pm, im)
        invariant Linked(pm[..], im[..]) && Filled(im[..], val[..], sz)
        invariant SameOutside(old(pm[..]), old(im[..]), pm[..], im[..], sz)
        invariant SwimInvariant(Slots(), D, sz, i)
        invariant i == sz ==> Slots()[Parent(i, D)] <= Slots()[i]
        decreases i
      {
        var p := par[i];
        SwimStep(Slots(), D, sz, i);
        ghost var pm1, im1 := pm[..], im[..];
        assert im1[i] == im[i] && im1[p] == im[p];
        Swap(i, p);
        SameOutsideTransitive(old(pm[..]), old(im[..]), pm1, im1, pm[..], im[..], sz);
        i := p;
      }
      SwimExit(Slots(), D, sz, i);
    }

    /** Adds key ki with the given value; a bad index, a present key or a null value changes nothing. */
    method Insert(ki: int, value: Option<int>) returns (r: Outcome)
      requires Valid()
      modifies this, pm, im, val
      ensures Valid()
      ensures r == (if !(0 <= ki < N) then Fail(KeyOutOfBounds)
                    else if ki in old(Contents) then Fail(DuplicateKey)
                    else if value.None? then Fail(NullValue)
                    else Pass)
      ensures r.Fail? ==> sz == old(sz) && Contents == old(Contents) && unchanged(pm, im, val)
      ensures r.Pass? ==> sz == old(sz) + 1 && Contents == old(Contents)[ki := value.value]
    {
      var present := Contains(ki);
      if present.Failure? {
        return Fail(present.error);
      }
      if present.value {
        return Fail(DuplicateKey);
      }
      var check := CheckValueNotNull(value);
      if check.Fail? {
        return check;
      }
      ghost var pm0, im0, vs0, h0 := pm[..], im[..], val[..], Slots();
      RoomForAbsentKey(pm0, im0, vs0, sz, Contents, ki);
      InsertConsistent(pm0, im0, vs0, sz, Contents, ki, value.value);
      pm[ki] := sz;
      im[sz] := ki;
      val[ki] := value;
      Contents := Contents[ki := value.value];
      var s := sz;
      sz := sz + 1;
      assert pm[..] == pm0[ki := s] && im[..] == im0[s := ki] && val[..] == vs0[ki := value];
      OrderedPrefix(h0, Slots(), D, s);
      InsertSetup(Slots(), D, s);
      ConsistentFilled(pm[..], im[..], val[..], sz, Contents);
      ghost var pm1, im1 := pm[..], im[..];
      Swim(s);
      RepairedConsistent(pm1, im1, pm[..], im[..], val[..], sz, Contents);
      r := Pass;
    }

    /** Removes key ki and returns its value; a bad index or an absent key changes nothing. */
    method Delete(ki: int) returns (r: Result<int>)
      requires Valid()
      modifies this, pm, im, val
      ensures Valid()
      ensures r == (if !(0 <= ki < N) then Failure(KeyOutOfBounds)
                    else if ki !in old(Contents) then Failure(NoSuchKey)
                    else Success(old(Contents)[ki]))
      ensures r.Failure? ==> sz == old(sz) && Contents == old(Contents) && unchanged(pm, im, val)
      ensures r.Success? ==> sz == old(sz) - 1 && Contents == old(Contents) - {ki}
      ensures r.Success? ==> val[ki] == None && pm[ki] == -1 && im[sz] == -1
      ensures r.Success? ==> forall k :: 0 <= k < N && k != ki ==> val[k] == old(val[k])
    {
      var check := CheckKeyExists(ki);
      if check.Fail? {
        return Failure(check.error);
      }
      MoveToEnd(ki);
      var value := Detach(ki);
      r := Success(value);
    }

    /** delete, MinIndexedPQ.java:90-91: the entry now at slot i is sunk and then swum until the first sz slots are in heap order. */
    method Resettle(i: int)
      requires Tables() && Linked(pm[..], im[..]) && Filled(im[..], val[..], sz)
      requires 0 <= i <= sz && i < N && 0 <= im[i] < N && val[im[i]].Some?
      requires SinkInvariant(Slots(), D, sz, i, i)
      requires i == sz ==> Slots()[Parent(i, D)] <= Slots()[i]
      modifies pm, im
      ensures Linked(pm[..], im[..]) && Filled(im[..], val[..], sz)
      ensures SameOutside(old(pm[..]), old(im[..]), pm[..], im[..], sz)
      ensures HeapOrdered(Slots(), D, sz)
    {
      ghost var pm1, im1 := pm[..], im[..];
      Sink(i);
      assert 0 <= im[i] < N && val[im[i]].Some? by {
        if i == sz {
          assert im[..][i] == im1[i];
        } else {
          assert im[..][i] == im[i];
        }
      }
      ghost var pm2, im2 := pm[..], im[..];
      Swim(i);
      SameOutsideTransitive(pm1, im1, pm2, im2, pm[..], im[..], sz);
    }

    /**
     * delete, MinIndexedPQ.java:87-89: the live region shrinks by one and the entry of key ki, at slot i, is
     * exchanged with the one at slot sz, just past it; every key other than ki is still held in [0, sz).
     */
    method SwapOut(ki: int) returns (i: int)
      requires Valid() && 0 <= ki < N && ki in Contents
      modifies this, pm, im
      ensures Tables() && 0 <= sz < N && sz == old(sz) - 1 && i == old(pm[ki]) && 0 <= i <= sz
      ensures Contents == old(Contents) && val[ki].Some? && Contents[ki] == val[ki].value
      ensures PendingDelete(pm[..], im[..], val[..], sz, Contents, ki) && Filled(im[..], val[..], sz)
      ensures 0 <= im[i] < N && val[im[i]].Some?
      ensures SinkInvariant(Slots(), D, sz, i, i) && (i == sz ==> Slots()[Parent(i, D)] <= Slots()[i])
    {
      i := pm[ki];
      assert |Contents| > 0 by { assert ki in Contents; }
      ghost var pm0, im0, vs0, h0 := pm[..], im[..], val[..], Slots();
      assert val[ki].Some? && Contents[ki] == val[ki].value by { assert vs0[ki] == val[ki]; }
      DeleteSwapped(pm0, im0, vs0, sz - 1, Contents, ki);
      sz := sz - 1;
      Swap(i, sz);
      DeleteSetup(h0, D, sz, i);
      assert im[..][i] == im[i];
    }

    /**
     * The first part of delete: after SwapOut, the entry that took key ki's place is sunk and swum
     * back into order, while ki waits at slot sz.
     */
    method MoveToEnd(ki: int)
      requires Valid() && 0 <= ki < N && ki in Contents
      modifies this, pm, im
      ensures Tables() && 0 <= sz < N && sz == old(sz) - 1
      ensures Contents == old(Contents) && val[ki].Some? && Contents[ki] == val[ki].value
      ensures Consistent(pm[..][ki := -1], im[..][sz := -1], val[..][ki := None], sz, Contents - {ki})
      ensures HeapOrdered(SlotValues(im[..][sz := -1], val[..][ki := None]), D, sz)
    {
      var i := SwapOut(ki);
      ghost var pm1, im1 := pm[..], im[..];
      Resettle(i);
      DeleteFinish(pm1, im1, pm[..], im[..], val[..], sz, Contents, ki, D);
    }

    /**
     * delete, MinIndexedPQ.java:92-96: forget key ki, whose entry has been moved to slot sz, just past
     * the live slots, and return its value.
     */
    method Detach(ki: int) returns (value: int)
      requires Tables() && 0 <= ki < N && 0 <= sz < N && ki in Contents && val[ki].Some?
      requires Consistent(pm[..][ki := -1], im[..][sz := -1], val[..][ki := None], sz, Contents - {ki})
      requires HeapOrdered(SlotValues(im[..][sz := -1], val[..][ki := None]), D, sz)
      requires Contents[ki] == val[ki].value
      modifies this, pm, im, val
      ensures Valid()
      ensures value == old(Contents[ki]) && sz == old(sz) && Contents == old(Contents) - {ki}
      ensures pm[..] == old(pm[..][ki := -1]) && im[..] == old(im[..][sz := -1]) && val[..] == old(val[..][ki := None])
    {
      ghost var pm0, im0, vs0 := pm[..], im[..], val[..];
      value := val[ki].value;
      val[ki] := None;
      pm[ki] := -1;
      im[sz] := -1;
      assert val[..] == vs0[ki := None];
      assert pm[..] == pm0[ki := -1];
      assert im[..] == im0[sz := -1];
      Contents := Contents - {ki};
    }

    /** Removes a key with the least value and returns that key. */
    method PollMinKeyIndex() returns (r: Result<int>)
      requires Valid()
      modifies this, pm, im, val
      ensures Valid()
      ensures r.Failure? <==> old(Contents) == map[]
      ensures r.Failure? ==> r.error == Underflow && sz == old(sz) && Contents == old(Contents) && unchanged(pm, im, val)
      ensures r.Success? ==> r.value in old(Contents) && forall k :: k in old(Contents) ==> old(Contents)[r.value] <= old(Contents)[k]
      ensures r.Success? ==> sz == old(sz) - 1 && Contents == old(Contents) - {r.value}
      ensures r.Success? ==> r == old(PeekMinKeyIndex())
    {
      var minki := PeekMinKeyIndex();
      if minki.Failure? {
        return minki;
      }
      var _ := Delete(minki.value);
      r := minki;
    }

    /** Removes a key with the least value and returns that value. */
    method PollMinValue() returns (r: Result<int>)
      requires Valid()
      modifies this, pm, im, val
      ensures Valid()
      ensures r.Failure? <==> old(Contents) == map[]
      ensures r.Failure? ==> r.error == Underflow && sz == old(sz) && Contents == old(Contents) && unchanged(pm, im, val)
      ensures r.Success? ==> forall k :: k in old(Contents) ==> r.value <= old(Contents)[k]
      ensures r.Success? ==> exists k :: k in old(Contents) && old(Contents)[k] == r.value && Contents == old(Contents) - {k}
      ensures r.Success? ==> sz == old(sz) - 1
      ensures r.Success? ==> r == old(PeekMinValue()) && Contents == old(Contents) - {old(PeekMinKeyIndex()).value}
    {
      var minValue := PeekMinValue();
      if minValue.Failure? {
        return minValue;
      }
      var minki := PeekMinKeyIndex();
      var _ := Delete(minki.value);
      r := minValue;
    }

    /**
     * isMinHeap(i): the loop over the occupied children of slot i, comparing each with i and then
     * recursing into it. With `strict` the comparison is `less(i, j)` as written; without it, `!less(j, i)`.
     */
    method SubtreeIsHeap(i: int, strict: bool) returns (b: bool)
      requires Tables() && Filled(im[..], val[..], sz)
      requires 0 <= i <= sz && i < N
      ensures b == SubtreeChecks(Slots(), D, sz, i, strict)
      decreases sz - i
    {
      ChildAfterParent(i, D);
      var from := ch[i];
      var to := Min(sz, from + D);
      var j := from;
      while j < to
        invariant from <= j && (j <= to || j == from)
        invariant SubtreeChecks(Slots(), D, sz, i, strict) == ChildrenCheck(Slots(), D, sz, i, j, strict)
      {
        assert im[..][j] == im[j] && im[..][i] == im[i];
        var ok := if strict then Less(i, j) else !Less(j, i);
        if !ok {
          return false;
        }
        var sub := SubtreeIsHeap(j, strict);
        if !sub {
          return false;
        }
        j := j + 1;
      }
      return true;
    }

    /** isMinHeap() as written: true exactly when every parent's value is strictly less than each child's. */
    method IsMinHeap() returns (b: bool)
      requires Valid()
      ensures b <==> StrictlyOrdered(Slots(), D, sz)
      ensures sz == 0 ==> b
    {
      ConsistentFilled(pm[..], im[..], val[..], sz, Contents);
      b := SubtreeIsHeap(0, true);
      StrictCheckExact(Slots(), D, sz);
    }

    /** isMinHeap() with the comparison the heap order needs: it accepts exactly the heap order, so every valid queue. */
    method IsMinHeapCorrected() returns (b: bool)
      requires Valid()
      ensures b <==> HeapOrdered(Slots(), D, sz)
      ensures b
    {
      ConsistentFilled(pm[..], im[..], val[..], sz, Contents);
      b := SubtreeIsHeap(0, false);
      HeapCheckExact(Slots(), D, sz);
    }
  }
}
