# Indexed D-ary min-heap

This project models `MinIndexedPQ`, an indexed priority queue stored as a D-ary min-heap.
Callers name elements by a key index `ki` in `[0, N)`. The queue keeps five arrays:

- `pm`, the position map from key to heap slot, or -1;
- `im`, the inverse map from slot to key, or -1;
- `val`, the value of each key, or null;
- `par` and `ch`, the precomputed parent slot and first-child slot of every slot.

The first `sz` slots form a heap: no slot holds a smaller value than its parent. This heap order
puts a least value at slot 0.

The class `IndexedPQ.MinIndexedPQ` (`min_indexed_pq.dfy`) keeps the same fields, arrays and loops
as the original. It also keeps a ghost map `Contents` from the present keys to their values.
Its invariant `Valid()` says three things:

- the arrays agree with `Contents` (module `IndexMaps`);
- the first `sz` slots are heap-ordered (module `HeapOrder`);
- `par` and `ch` hold the tree arithmetic of module `Topology`, which uses Java's truncating
  division, so `par[0] == 0`.

Every public operation is proved against `Contents`. `insert` adds the pair, `delete` removes it
and returns its value, and a peek returns a key of least value.

Each failure the original signals with an exception is a value here. `Results.Error` names the
condition that failed, and the state is left unchanged. The recursive diagnostic `isMinHeap` is
modelled in module `HeapCheck`. The clients in `Scenarios` derive concrete outcomes from the
contracts alone. One example is the poll order of the five-key example below. Another is the
fact that polling until empty yields non-decreasing values.

Files: `results.dfy`, `topology.dfy`, `heap_order.dfy`, `index_maps.dfy`, `heap_check.dfy`,
`min_indexed_pq.dfy`, `scenarios.dfy`.

## Model

| member | source | states |
|---|---|---|
| IndexedPQ.MinIndexedPQ.constructor | MinIndexedPQ.java:16-33 | D = max(2, degree), N = max(D+1, maxSize); every pm and im entry is -1 and every value null; par[s] = (s-1)/D truncated and ch[s] = s*D+1; the queue is empty and valid |
| IndexedPQ.MinIndexedPQ.Create | MinIndexedPQ.java:16-20 | fails with BadCapacity exactly when maxSize <= 0; otherwise returns a fresh, valid, empty queue with fresh arrays and D and N as above |
| IndexedPQ.MinIndexedPQ.Size | MinIndexedPQ.java:35-37 | sz is the number of present keys |
| IndexedPQ.MinIndexedPQ.IsEmpty | MinIndexedPQ.java:39-41 | true exactly when no key is present |
| IndexedPQ.MinIndexedPQ.CheckKeyInBounds | MinIndexedPQ.java:162-165 | passes exactly when 0 <= ki < N, else fails with KeyOutOfBounds |
| IndexedPQ.MinIndexedPQ.Contains | MinIndexedPQ.java:43-46 | fails with KeyOutOfBounds exactly for a key outside [0, N); otherwise true exactly when the key is present |
| IndexedPQ.MinIndexedPQ.CheckKeyExists | MinIndexedPQ.java:154-156 | KeyOutOfBounds for a key outside [0, N), NoSuchKey for an absent key, otherwise passes |
| IndexedPQ.MinIndexedPQ.CheckValueNotNull | MinIndexedPQ.java:158-160 | fails with NullValue exactly for a null value |
| IndexedPQ.MinIndexedPQ.CheckNotEmpty | MinIndexedPQ.java:145-147 | fails with Underflow exactly on an empty queue |
| IndexedPQ.MinIndexedPQ.SlotsHoldContents | MinIndexedPQ.java:61 | in a valid queue each occupied slot holds a present key, and its value is that key's value |
| IndexedPQ.MinIndexedPQ.FullHoldsEveryKey | MinIndexedPQ.java:70-76 | with sz == N every key in [0, N) is present, so the duplicate check of insert fires before im[sz] could be written past the end |
| IndexedPQ.MinIndexedPQ.MinAtRoot | MinIndexedPQ.java:48-51 | in a non-empty valid queue the key at slot 0 is present and its value is no larger than any present key's |
| IndexedPQ.MinIndexedPQ.PeekMinKeyIndex | MinIndexedPQ.java:48-51 | Underflow exactly on an empty queue; otherwise a present key whose value is least |
| IndexedPQ.MinIndexedPQ.PeekMinValue | MinIndexedPQ.java:59-62 | Underflow exactly on an empty queue; otherwise a stored value no larger than any present key's, the value of the key peekMinKeyIndex returns |
| IndexedPQ.MinIndexedPQ.ValueOf | MinIndexedPQ.java:80-83 | KeyOutOfBounds, NoSuchKey, or the key's value in Contents |
| IndexedPQ.MinIndexedPQ.Less | MinIndexedPQ.java:129-131 | true exactly when slot i's value is strictly less than slot j's |
| IndexedPQ.MinIndexedPQ.Swap | MinIndexedPQ.java:120-126 | im is im with slots i and j exchanged; pm changes only for the two keys, which now point at their new slots (also for i == j); pm and im stay inverse; the slot values are exchanged; within [0, sz) it is a rearrangement of the live slots |
| IndexedPQ.MinIndexedPQ.MinChild | MinIndexedPQ.java:114-118 | -1 exactly when no child of i in [ch[i], min(sz, ch[i]+D)) is strictly smaller than i; otherwise the lowest-numbered child holding the least value, which is smaller than i's |
| IndexedPQ.MinIndexedPQ.SinkRound | MinIndexedPQ.java:100-104 | one round of the loop of sink: after swapping i with its least smaller child j, the sink invariant holds at j > i, the swaps stay within [0, sz), and minch(j) is computed |
| IndexedPQ.MinIndexedPQ.Sink | MinIndexedPQ.java:99-105 | terminates; only rearranges the first sz slots; afterwards only the pair (parent of i0, i0) may be out of order; with i0 == sz it changes nothing |
| IndexedPQ.MinIndexedPQ.Swim | MinIndexedPQ.java:107-112 | terminates; only rearranges the first sz slots; restores heap order when only the pair (parent of i0, i0) was out of order; started at slot sz, as delete does when it removes the last slot, it changes nothing |
| IndexedPQ.MinIndexedPQ.Insert | MinIndexedPQ.java:70-77 | KeyOutOfBounds, DuplicateKey and NullValue, in that order, change nothing; otherwise sz grows by one, Contents gains (ki, value) and the queue stays valid |
| IndexedPQ.MinIndexedPQ.Delete | MinIndexedPQ.java:86-97 | KeyOutOfBounds or NoSuchKey change nothing; otherwise returns the key's value, sz shrinks by one, the key leaves Contents, val[ki] is null, pm[ki] and im[sz] are -1, every other key's value is unchanged, and the queue stays valid |
| IndexedPQ.MinIndexedPQ.SwapOut | MinIndexedPQ.java:87-89 | after swap(i, --sz) key ki waits at slot sz, the other keys fill [0, sz), and the sink invariant holds at i; when i was the last slot its pair with its parent is still ordered |
| IndexedPQ.MinIndexedPQ.Resettle | MinIndexedPQ.java:90-91 | sink(i) then swim(i) restore the heap order of the first sz slots by rearranging them only |
| IndexedPQ.MinIndexedPQ.MoveToEnd | MinIndexedPQ.java:87-91 | after the swap, sink and swim, clearing ki's entries would leave a consistent, heap-ordered queue without ki |
| IndexedPQ.MinIndexedPQ.Detach | MinIndexedPQ.java:92-96 | returns ki's value and clears val[ki], pm[ki] and im[sz], leaving a valid queue without ki |
| IndexedPQ.MinIndexedPQ.PollMinKeyIndex | MinIndexedPQ.java:53-57 | Underflow on an empty queue with no change; otherwise returns exactly the key peekMinKeyIndex returned, a key of least value, and removes exactly that key |
| IndexedPQ.MinIndexedPQ.PollMinValue | MinIndexedPQ.java:64-68 | Underflow on an empty queue with no change; otherwise returns exactly what peekMinValue returned, a least value, and removes exactly the key peekMinKeyIndex returned |
| IndexedPQ.MinIndexedPQ.SubtreeIsHeap | MinIndexedPQ.java:173-180 | the recursive check from slot i returns exactly SubtreeChecks, its recursive definition |
| IndexedPQ.MinIndexedPQ.IsMinHeap | MinIndexedPQ.java:169-171 | as written: true exactly when every parent's value is strictly less than each child's, and true on an empty queue |
| IndexedPQ.MinIndexedPQ.IsMinHeapCorrected | MinIndexedPQ.java:173-180 | with the non-strict comparison: true exactly on heap order, hence on every valid queue |
| Topology.JavaDiv | MinIndexedPQ.java:29 | Java's division: the remainder has the dividend's sign and is smaller than the divisor |
| Topology.Parent | MinIndexedPQ.java:29 | par[0] is 0 and every other slot's parent is a smaller slot |
| Topology.ParentBlock | MinIndexedPQ.java:29-30 | a slot lies among the D child slots of its parent |
| Topology.ChildAfterParent | MinIndexedPQ.java:30 | ch[i] > i, so the children of i follow it |
| Topology.ChildOf | MinIndexedPQ.java:115 | c is a child of p exactly when ch[p] <= c < ch[p] + D |
| HeapOrder.RootIsMin | MinIndexedPQ.java:50 | in a heap, slot 0 holds a value no larger than any live slot's |
| HeapOrder.OrderedPrefix | MinIndexedPQ.java:73-75 | heap order of n slots depends only on those slots |
| HeapOrder.InsertSetup | MinIndexedPQ.java:73-76 | a value appended after a heap satisfies the swim invariant at its slot |
| HeapOrder.SwimStep | MinIndexedPQ.java:108-110 | swapping a slot with its larger parent moves the swim invariant to the parent |
| HeapOrder.SwimExit | MinIndexedPQ.java:108 | when swim stops, the heap is ordered |
| HeapOrder.SinkStep | MinIndexedPQ.java:100-103 | swapping a slot with the child minch picked moves the sink invariant to that child |
| HeapOrder.SinkStepOrder | MinIndexedPQ.java:101 | after that swap every pair not below the child is in order |
| HeapOrder.SinkStepBridge | MinIndexedPQ.java:101 | after that swap the child's old parent value is no larger than the child's children |
| HeapOrder.SinkExit | MinIndexedPQ.java:100 | when sink stops, only the pair at the start slot may be out of order |
| HeapOrder.DeleteSetup | MinIndexedPQ.java:88-89 | swapping the victim's slot with the last one and shrinking leaves the sink invariant at the victim's slot; when that was the last slot, its pair with its parent stays ordered, which is what lets Swim, started at slot sz, change nothing |
| IndexMaps.SlotValues | MinIndexedPQ.java:130 | the value of each slot is val[im[s]] wherever that is non-null |
| IndexMaps.ConsistentFilled | MinIndexedPQ.java:130 | in a consistent state every live slot holds a key whose value is non-null, so less never dereferences null |
| IndexMaps.SwapLinked | MinIndexedPQ.java:120-126 | swap keeps pm and im inverse |
| IndexMaps.SwapSameOutside | MinIndexedPQ.java:120-126 | swapping two live slots moves no key out of or into the live region |
| IndexMaps.SwapFilled | MinIndexedPQ.java:120-126 | swapping two live slots keeps every live slot filled |
| IndexMaps.SameOutsideTransitive | MinIndexedPQ.java:99-112 | rearrangements of the live slots compose |
| IndexMaps.SwapSlotValues | MinIndexedPQ.java:123-125 | exchanging two entries of im exchanges the two slot values |
| IndexMaps.RoomForAbsentKey | MinIndexedPQ.java:71-74 | when some key is absent, sz < N, so im[sz] is in bounds |
| IndexMaps.KeyRange | MinIndexedPQ.java:163 | the N key indices [0, N) |
| IndexMaps.InsertConsistent | MinIndexedPQ.java:73-75 | writing pm[ki] = sz, im[sz] = ki and val[ki] = value for an absent key gives a consistent state holding one more pair and leaves the other slot values alone |
| IndexMaps.DeleteSwapped | MinIndexedPQ.java:88-89 | after swap(pm[ki], --sz) key ki sits at slot sz, linked, with the other keys filling [0, sz) |
| IndexMaps.DeleteFinish | MinIndexedPQ.java:92-95 | after the live slots were rearranged, clearing val[ki], pm[ki] and im[sz] gives a consistent heap without ki |
| IndexMaps.RepairedConsistent | MinIndexedPQ.java:76 | a state that swim only rearranged within the live slots stays consistent with the same contents |
| IndexMaps.EmptyConsistent | MinIndexedPQ.java:28-32 | all entries -1 and all values null is the consistent empty state |
| HeapCheck.ChildrenCheckAt | MinIndexedPQ.java:175-177 | a passing loop from child j on has compared and recursed into every child from j on |
| HeapCheck.ChildrenCheckAll | MinIndexedPQ.java:175-179 | conversely the loop passes when every remaining child passes |
| HeapCheck.RootCheckReaches | MinIndexedPQ.java:169-180 | a check passing at the root passes at every live slot and every (parent, child) pair passes the comparison |
| HeapCheck.OrderedChecks | MinIndexedPQ.java:173-180 | when every pair passes the comparison, the check passes at every slot |
| HeapCheck.RootCheckExact | MinIndexedPQ.java:169-180 | the check at the root passes exactly when every (parent, child) pair passes its comparison |
| HeapCheck.StrictCheckExact | MinIndexedPQ.java:169-180 | as written, the check accepts exactly the strictly ordered heaps |
| HeapCheck.HeapCheckExact | MinIndexedPQ.java:169-180 | with the non-strict comparison, the check accepts exactly heap order |
| HeapCheck.StrictCheckRejectsTies | MinIndexedPQ.java:176 | a parent and child holding equal values make the strict check fail |
| HeapCheck.StrictCheckCounterexample | MinIndexedPQ.java:176 | the two-slot binary heap [7, 7] is heap-ordered, yet the strict check fails on it |
| Scenarios.DegreeTwoPollOrder | MinIndexedPQ.java:53-77 | degree 2, capacity 5: inserting keys 0..4 with values 5, 3, 8, 1, 4 and polling five times yields keys 3, 1, 4, 0, 2 |
| Scenarios.ExampleQueue | MinIndexedPQ.java:70-77 | the five inserts of the example succeed and give Contents {0:5, 1:3, 2:8, 3:1, 4:4} |
| Scenarios.PollExample | MinIndexedPQ.java:53-57 | five polls of that queue return its keys by increasing value and empty it |
| Scenarios.CreateThenInsert | MinIndexedPQ.java:16-33 | a queue built by Create(2, 5) accepts insert(0, 1) and then holds exactly that pair |
| Scenarios.InsertAbsent | MinIndexedPQ.java:70-77 | inserting an absent in-range key with a value adds exactly that pair |
| Scenarios.PollUniqueMin | MinIndexedPQ.java:53-57 | when one key holds the single least value, the poll returns that key and removes it |
| Scenarios.EqualValuesCheck | MinIndexedPQ.java:169-180 | after insert(0, 7) and insert(1, 7) on a binary queue, isMinHeap as written is false and the corrected check is true |
| Scenarios.TiedRootAndChild | MinIndexedPQ.java:169-176 | a binary queue holding two keys of equal value is not strictly ordered |
| Scenarios.Drain | MinIndexedPQ.java:64-68 | polling values until the queue is empty polls every key that was present exactly once; each value is its key's value, the values are non-decreasing, and there are as many as there were keys |
| Scenarios.DrainStep | MinIndexedPQ.java:64-68 | polling a key of least value keeps the drain invariant: polled keys distinct, not left, and together with the rest covering the initial keys |
| Scenarios.DrainedAll | MinIndexedPQ.java:64-68 | a finished drain has polled exactly the initial keys, one value for each |
| Scenarios.RemainingStep | MinIndexedPQ.java:53-57 | in the example, the key polled next holds the single least value and removing it leaves the next content |

## Left out

- Generic values: the Java class stores `Comparable` objects in an `Object[]`. The model stores
  `int` values ordered by `<`, so a failing cast or an inconsistent `compareTo` is not modelled.
- Java `null` in `val` and as the value argument of `insert` is `Option.None`.
- The second `less(Object, Object)` (MinIndexedPQ.java:134-136) and
  `keyExistsAndValueNotNullOrThrow` (MinIndexedPQ.java:149-152) are never called and are not modelled.
- `toString` (MinIndexedPQ.java:138-143) only renders `im[0..sz)` as text and is not modelled.
- Exception classes and messages: only the failing condition (`Results.Error`) is kept, and the
  state is unchanged after a failure.
- IndexedPQ.MinIndexedPQ.constructor: requires maxSize > 0. The check that throws for
  maxSize <= 0 is modelled by `Create`, which fails before any allocation.
- 32-bit overflow: the model computes with unbounded integers and so describes the queue only where
  Java's `int` arithmetic does not wrap. `ch[i] = i * D + 1` (MinIndexedPQ.java:30) wraps once
  (N-1)*D+1 > 2^31-1, and `from + D` in minch and isMinHeap (MinIndexedPQ.java:115, 174) once
  N*D+1 > 2^31-1. This already happens at moderate capacities with a large degree: with degree 65536
  and more than 32768 keys, `ch[32768]` wraps to a negative slot. `D + 1` (MinIndexedPQ.java:20)
  wraps for degree == Integer.MAX_VALUE.
- The Java field `val` is public and could be changed by callers, which would break the
  invariant. The model lets only the queue's own methods change it.
- Thread safety: the class is single-threaded and unsynchronised, so concurrency is not modelled.
- IndexedPQ.MinIndexedPQ.SubtreeIsHeap: this method takes a flag `strict`, which Java's
  `isMinHeap(int)` does not have. When the flag is set it performs the comparison as written; when
  it is clear it performs the corrected comparison.
- Delete is split into SwapOut, Resettle, MoveToEnd and Detach, run in the source's order.

## Findings

| source | as written | input that shows it | evidently intended | confidence | as-written member | corrected member |
|---|---|---|---|---|---|---|
| MinIndexedPQ.java:176 | `if (!less(i, j)) return false;` rejects a child whose value equals its parent's | degree 2: `insert(0, 7)`, `insert(1, 7)`, then `isMinHeap()` returns false for a valid heap | accept the heap order the queue maintains, using `less(j, i)` to reject | medium, not executed | Scenarios.EqualValuesCheck | IndexedPQ.MinIndexedPQ.IsMinHeapCorrected |
