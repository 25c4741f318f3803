# Deadlock-detecting bank and sequential containers, modelled in Dafny

This project models the core of a collection of systems-design prototypes and
proves properties of the model.

**Proactive deadlock detection for two-account transfers.** There are two
prototypes:

- **The DFS bank** (`BankDfs`) keeps a wait-for graph as a map from thread id
  to the set of thread ids it waits for. It checks a speculative edge with a
  recursive depth-first search that uses a visited set and a recursion stack.
- **The matrix bank** (`BankMatrix`) maps thread ids to slots of a fixed 0/1
  matrix. It runs Warshall's transitive closure in place on a copy of the
  mapped block, and reports a cycle when some diagonal entry is set. After
  each probe it gives a thread's slot back when the thread's row is clear.

Both share `transfer`: precondition checks that return `False`, a debit and
credit that conserve the total balance (`Ledger`), and a probe loop over the
graph's (or slot map's) keys. That loop can only iterate over threads that
`_check_deadlock` itself put there, and `_check_deadlock` is only called from
that loop. So from a fresh bank the loop never runs. Each `Transfer` contract
states this: an empty graph (or slot map) stays empty, and the outcome is a
plain `True`/`False`.

**The sequential containers**, each with its locks stripped:

- the ring-buffer blocking queue (`BoundedBuffer`);
- the free-stack object pool (`ObjectPooling`);
- two time-series stores, one with an out-of-order buffer
  (`TimeSeriesOutOfOrder`) and one with an active list and a frozen snapshot
  (`TimeSeriesSnapshot`). They share the point type, `bisect_left` and
  `bisect_right` as the real binary searches, Python's slice, and reference
  definitions of range selection and floor lookup (`Series`);
- the sliding-window event deduplicator (`EventDedup`);
- the bucketed latency histogram (`LatencyHistogram`).

Code that updates state in place is modelled as classes whose methods carry
`modifies` clauses. Each method is proved against specification functions
(graph reachability, Warshall's recurrence, the ring's contents, filters,
sums), and the properties of those functions are proved as lemmas. Blocking
waits become preconditions. The lock outcomes of `transfer` (a timed
`acquire`, `locked()`) become a `Schedule` parameter. The probe loops over
a snapshot of a dict's keys, or over a set, may visit them in any order
(`:|`). That includes Python's insertion order, so every proof holds for the
order Python uses.

The loop of `get_percentile` always finds a bucket when there are samples,
because the last bucket's cumulative count is the whole total.
`LatencyHistogram.Analyzer.FindBucket` proves this, so the fallback
`return self.num_buckets * self.bucket_width`
(`src/py/system_design/12_latency_analyzer/latency_analyzer_hist.py:36`)
cannot be reached.

## Model

| member | source | states |
|---|---|---|
| Ledger.Apply | src/py/system_design/02_deadlock_detection/bank_dfs.py:80-83 | the source is debited and the destination credited by `amount` when they differ. When they are the same account its balance is unchanged. No other balance changes and no account appears or disappears |
| Ledger.TotalRemove | src/py/system_design/02_deadlock_detection/bank_dfs.py:81-82 | the sum of balances splits as any one balance plus the sum of the others, whichever key is taken out first |
| Ledger.TotalUpdate | src/py/system_design/02_deadlock_detection/bank_dfs.py:81-82 | overwriting one balance changes the total by exactly the difference |
| Ledger.ApplyConserves | src/py/system_design/02_deadlock_detection/bank_dfs.py:80-83 | a debit/credit leaves the sum of all balances unchanged |
| BankDfs.AddEdge | src/py/system_design/02_deadlock_detection/bank_dfs.py:36 | adding `c -> t` adds `t` to `c`'s successors and changes no other thread's successors |
| BankDfs.BackEdgeCycle | src/py/system_design/02_deadlock_detection/bank_dfs.py:26-27 | an edge to a node on the recursion stack, which reaches the current node, closes a cycle through that node |
| BankDfs.FinishOrderClosed | src/py/system_design/02_deadlock_detection/bank_dfs.py:22-30 | the set of nodes a search finished without a back edge is closed under reachability |
| BankDfs.FinishOrderNoCycle | src/py/system_design/02_deadlock_detection/bank_dfs.py:22-30 | no finished node lies on a cycle |
| BankDfs.FinishOrderAcyclic | src/py/system_design/02_deadlock_detection/bank_dfs.py:17-30 | when the search finished its start node, no cycle is reachable from that node (the `False` answer is right) |
| BankDfs.FinishOrderAppend | src/py/system_design/02_deadlock_detection/bank_dfs.py:29-30 | finishing a node after all of its successors keeps the finishing order closed |
| BankDfs.Bank.constructor | src/py/system_design/02_deadlock_detection/bank_dfs.py:10-14 | the given balances and an empty wait-for graph |
| BankDfs.Bank.DetectCycle | src/py/system_design/02_deadlock_detection/bank_dfs.py:17-30 | `True` only when a cycle is reachable from the root. On `False` the recursion stack is as on entry, and the finished nodes form a finishing order with no back edge. `visited` only grows. The graph's edges are unchanged, and its only new keys are the visited nodes (the `defaultdict` read at line 22) |
| BankDfs.Bank.CheckDeadlock | src/py/system_design/02_deadlock_detection/bank_dfs.py:32-48 | the result is `True` exactly when the graph plus `cur -> tgt` has a cycle reachable from `cur`. Afterwards `cur -> tgt` is gone and every other edge is as before. `cur`'s key is present iff its set is non-empty. Any key that was not there before has an empty set |
| BankDfs.Bank.Transfer | src/py/system_design/02_deadlock_detection/bank_dfs.py:50-87 | a missing account, a non-positive amount or an insufficient balance gives `False` with nothing changed. When those checks pass and the first lock is obtained, the result is `True` exactly when the accounts differ and the second lock is obtained: the debit/credit is applied and the source stays non-negative. The result is `True` whenever both locks are obtained and the second was free or the graph was empty. `DeadlockError` and `RuntimeError` come only after the first lock, when the second was held (or the accounts are the same) and the graph was not empty. The total is always conserved. The probe only removes the caller's own edges. A deadlock is raised only when a check against another thread found a reachable cycle. From an empty graph the probe does nothing |
| BankDfs.Bank.GetBalance | src/py/system_design/02_deadlock_detection/bank_dfs.py:89-92 | the account's balance, or `None` where Python raises `KeyError` |
| BankMatrix.ReachToPath | src/py/system_design/02_deadlock_detection/bank_matrix.py:38-41 | every entry Warshall's recurrence sets is witnessed by a walk whose interior slots are below `k` |
| BankMatrix.PathToReach | src/py/system_design/02_deadlock_detection/bank_matrix.py:38-41 | every walk whose interior slots are below `k` is found by the recurrence |
| BankMatrix.ReachIffPath | src/py/system_design/02_deadlock_detection/bank_matrix.py:38-41 | the recurrence after `k` rounds is exactly reachability in one or more steps through slots below `k` |
| BankMatrix.Block | src/py/system_design/02_deadlock_detection/bank_matrix.py:37 | the copied `n x n` block holds the matrix's top-left entries |
| BankMatrix.TransitiveClosure | src/py/system_design/02_deadlock_detection/bank_matrix.py:38-41 | the in-place triple loop leaves every entry equal to the recurrence after all `n` rounds |
| BankMatrix.Frontier | src/py/system_design/02_deadlock_detection/bank_matrix.py:67 | `max(values, default=-1) + 1`: above every remaining slot, one past the largest, and 0 when none remain |
| BankMatrix.MaxExists | src/py/system_design/02_deadlock_detection/bank_matrix.py:67 | a non-empty set of slots has a largest element |
| BankMatrix.SingleEdgeAcyclic | src/py/system_design/02_deadlock_detection/bank_matrix.py:56-59 | a matrix whose only entry joins two different slots has no cycle, so the speculative entry alone never reports a deadlock |
| BankMatrix.Bank.constructor | src/py/system_design/02_deadlock_detection/bank_matrix.py:10-18 | the given balances and slot limit (10 by default), no mapped threads, `next_index` 0, an all-zero matrix |
| BankMatrix.Bank.GetThreadIndex | src/py/system_design/02_deadlock_detection/bank_matrix.py:20-28 | a mapped thread gets its slot back with nothing changed. An unmapped one gets `next_index`, which then increases by one, or `ValueError` with nothing changed once `next_index >= max_threads`. Slots stay distinct and below `max_threads` |
| BankMatrix.Bank.DetectCycle | src/py/system_design/02_deadlock_detection/bank_matrix.py:30-47 | `True` exactly when the graph on the first `next_index` slots has a cycle (a set diagonal entry of the closure). `False` when `next_index == 0` |
| BankMatrix.Bank.Probe | src/py/system_design/02_deadlock_detection/bank_matrix.py:56-62 | the search runs on the matrix with the speculative entry set. Afterwards that entry is clear and every other entry is as before |
| BankMatrix.Bank.ReleaseIfIdle | src/py/system_design/02_deadlock_detection/bank_matrix.py:64-67 | when the thread's row is all clear it is unmapped and `next_index` becomes one past the largest remaining slot. Otherwise nothing changes |
| BankMatrix.Bank.TakeSlots | src/py/system_design/02_deadlock_detection/bank_matrix.py:52-53 | the slots `cur` and then `tgt` receive: an existing slot is reused, otherwise the next fresh one. Exhaustion happens exactly when no fresh slot is left, and `tgt` is not asked after `cur` failed. On exhaustion at `tgt`, the counter is at the limit and `cur` keeps a slot it just got. Existing mappings are kept and only `cur` and `tgt` can be added |
| BankMatrix.Bank.CheckDeadlock | src/py/system_design/02_deadlock_detection/bank_matrix.py:49-69 | which slots the two threads get, and when slot exhaustion raises `ValueError`. The verdict is whether the mapped block plus the speculative entry has a cycle. The entry is cleared and no other entry changes. `cur` is released exactly when its row is clear. No other mapping changes. When the ids differ, they get different slots and `tgt` stays mapped to its slot. While `cur` keeps its slot, the counter has advanced by one per id that was new. On `ValueError` the slot counter is at the limit, and a `cur` mapped on this call keeps its new slot |
| BankMatrix.Bank.ProbeOthers | src/py/system_design/02_deadlock_detection/bank_matrix.py:88-94 | the probe loop over the other thread ids. It raises `ValueError`, `DeadlockError` or `RuntimeError` only from a non-empty slot map. `DeadlockError` requires a cycle in the block with the entry `me -> other` set, so it is impossible from a matrix with no entries. Entries are only ever cleared |
| BankMatrix.Bank.Transfer | src/py/system_design/02_deadlock_detection/bank_matrix.py:71-107 | the same rejections, debit/credit and conservation as the DFS bank, and the same conditions for `True` and for the exceptions, with the slot map in place of the graph. `DeadlockError` is raised only after a check against some other mapped thread `other`. That check searched the current block with the one entry `me -> other` set, between two different slots, and found a cycle. So a matrix with no entries never raises it. `ValueError` leaves the slot counter at the limit. The probe never sets a matrix entry. From an empty slot map nothing in the detector changes |
| BoundedBuffer.RingDistinct | src/cpp/01_bounded_buffer/blockingBoundedQueue.h:36 | two different offsets below the capacity from the same head land on different slots |
| BoundedBuffer.RingPush | src/cpp/01_bounded_buffer/blockingBoundedQueue.h:35-37 | writing at `(head + count) % capacity` appends the item to the ring's contents |
| BoundedBuffer.RingPop | src/cpp/01_bounded_buffer/blockingBoundedQueue.h:47-49 | the slot at `head` is the oldest item, and advancing `head` drops exactly that item |
| BoundedBuffer.Queue.constructor | src/cpp/01_bounded_buffer/blockingBoundedQueue.h:11-12 | `head = tail = count = 0`, with nothing queued |
| BoundedBuffer.Queue.Enqueue | src/cpp/01_bounded_buffer/blockingBoundedQueue.h:30-40 | once `count < capacity`: the item is stored at `tail`, `tail` advances modulo the capacity and `count` grows by one. The contents gain the item at the back. The ring invariant `(head + count) % capacity == tail` is kept, and what came out is still a prefix of what went in |
| BoundedBuffer.Queue.Dequeue | src/cpp/01_bounded_buffer/blockingBoundedQueue.h:42-53 | once `count > 0`: returns `buffer[head]`, the oldest item. `head` advances modulo the capacity and `count` drops by one. The dequeued items remain a prefix of the enqueued ones (FIFO) |
| BoundedBuffer.Queue.Size | src/cpp/01_bounded_buffer/blockingBoundedQueue.h:55-59 | the number of queued items, changing nothing |
| ObjectPooling.Pool.constructor | src/cpp/09_objectPooling/objectPool.h:14-20 | `size` objects, all free, pushed in storage order, none handed out |
| ObjectPooling.Pool.Acquire | src/cpp/09_objectPooling/objectPool.h:27-37 | once an object is free: pops the top of the free stack. The object was not already handed out and now is |
| ObjectPooling.Pool.Release | src/cpp/09_objectPooling/objectPool.h:49-56 | pushes the handed-out object back on top of the free stack |
| ObjectPooling.Pool.Available | src/cpp/09_objectPooling/objectPool.h:39-42 | the free stack's size, which is the capacity less the objects in use and never above the capacity |
| ObjectPooling.Pool.Capacity | src/cpp/09_objectPooling/objectPool.h:44-46 | the constant capacity, equal to the free objects plus those in use |
| ObjectPooling.ReleaseThenAcquire | src/cpp/09_objectPooling/objectPool.h:31-32 | last in, first out: the object just released is the next one acquired, and the pool is back as it was |
| ObjectPooling.SingleThreadTest | src/cpp/09_objectPooling/test.cpp:14-27 | available is 3, then 1 with two objects held, then 3 again with the free stack restored |
| ObjectPooling.MultiThreadTest | src/cpp/09_objectPooling/test.cpp:29-48 | with the workers run one after another, `available() == capacity() == 5` at the end |
| Series.Times | src/py/system_design/06_ds_time_series_store/time_series_store_out_of_order.py:22 | the list of timestamps, position by position |
| Series.InsertSorted | src/py/system_design/06_ds_time_series_store/time_series_store_out_of_order.py:22-23 | inserting between the points not later and the points not earlier keeps the list sorted and adds exactly that point |
| Series.BisectLeft | src/py/system_design/06_ds_time_series_store/time_series_store_out_of_order.py:22 | on a sorted list: everything before the index is below `x`, everything from it on is at least `x` |
| Series.BisectRight | src/py/system_design/06_ds_time_series_store/time_series_store_out_of_order.py:31 | on a sorted list: everything before the index is at most `x`, everything from it on is above `x` |
| Series.Slice | src/py/system_design/06_ds_time_series_store/time_series_store_with_snapshot.py:49 | Python's `s[lo:hi]`: the sub-sequence, or empty when `lo > hi` |
| Series.Filter | src/py/system_design/06_ds_time_series_store/time_series_store_with_snapshot.py:62-63 | the comprehension keeps only points inside the span, each taken from the input, and is no longer than it |
| Series.FilterSorted | src/py/system_design/06_ds_time_series_store/time_series_store_with_snapshot.py:62-63 | filtering a sorted list gives a sorted list |
| Series.FilterMultiset | src/py/system_design/06_ds_time_series_store/time_series_store_with_snapshot.py:62-63 | filtering only removes points |
| Series.BisectSlice | src/py/system_design/06_ds_time_series_store/time_series_store_with_snapshot.py:46-54 | on a sorted list, the slice from `bisect_left(start)` to `bisect_right(end)` (or to the end) is exactly the points in the range, in order |
| Series.LastAtOrBefore | src/py/system_design/06_ds_time_series_store/time_series_store_out_of_order.py:29-34 | the reference floor lookup: `None` exactly when every point is later than `t`, otherwise a point of the list at or before `t` |
| Series.BisectFloor | src/py/system_design/06_ds_time_series_store/time_series_store_out_of_order.py:31-34 | on a sorted list, the point just left of `bisect_right(t)` is the last one at or before `t`, and there is none when the index is 0 |
| TimeSeriesOutOfOrder.EntriesAdd | src/py/system_design/06_ds_time_series_store/time_series_store_out_of_order.py:21-23 | merging one more buffered key adds exactly its point |
| TimeSeriesOutOfOrder.InsertAtBisect | src/py/system_design/06_ds_time_series_store/time_series_store_out_of_order.py:22-23 | inserting at `bisect_left` keeps the points sorted and adds exactly that point |
| TimeSeriesOutOfOrder.Store.constructor | src/py/system_design/06_ds_time_series_store/time_series_store_out_of_order.py:7-10 | no points and an empty buffer |
| TimeSeriesOutOfOrder.Store.MergeBuffer | src/py/system_design/06_ds_time_series_store/time_series_store_out_of_order.py:20-24 | every buffered entry, in ascending key order, goes into the points. The points stay sorted and grow by the buffer's size, as a multiset by exactly its entries. The buffer ends empty |
| TimeSeriesOutOfOrder.Store.Insert | src/py/system_design/06_ds_time_series_store/time_series_store_out_of_order.py:12-19 | an in-order point is appended with the buffer unchanged. A late one is stored in the buffer, overwriting an earlier value for that timestamp. Once the buffer holds more than 100 entries it is merged. Sortedness is kept |
| TimeSeriesOutOfOrder.Store.GetLatestBeforeOrEqual | src/py/system_design/06_ds_time_series_store/time_series_store_out_of_order.py:26-34 | merges first, then returns the last point at or before the timestamp, or `None` |
| TimeSeriesOutOfOrder.Store.ExpireBefore | src/py/system_design/06_ds_time_series_store/time_series_store_out_of_order.py:36-39 | keeps exactly the points at or after the cutoff, in order. The buffer is untouched |
| TimeSeriesOutOfOrder.Store.Size | src/py/system_design/06_ds_time_series_store/time_series_store_out_of_order.py:41-43 | the number of merged points, without the buffered ones |
| TimeSeriesSnapshot.InsortSearch | src/py/system_design/06_ds_time_series_store/time_series_store_with_snapshot.py:23 | `insort_right` comparing whole (timestamp, value) tuples still stops between the points not later and the points not earlier |
| TimeSeriesSnapshot.Insort | src/py/system_design/06_ds_time_series_store/time_series_store_with_snapshot.py:23 | adds the point exactly once and keeps a time-sorted list time-sorted |
| TimeSeriesSnapshot.InsertByTime | src/py/system_design/06_ds_time_series_store/time_series_store_with_snapshot.py:56 | one step of the stable sort adds exactly the point |
| TimeSeriesSnapshot.InsertByTimeSorted | src/py/system_design/06_ds_time_series_store/time_series_store_with_snapshot.py:56 | that step keeps a sorted list sorted |
| TimeSeriesSnapshot.SortByTime | src/py/system_design/06_ds_time_series_store/time_series_store_with_snapshot.py:56 | `sorted(..., key=timestamp)` is a permutation of its input |
| TimeSeriesSnapshot.SortByTimeSorted | src/py/system_design/06_ds_time_series_store/time_series_store_with_snapshot.py:56 | and is sorted by timestamp |
| TimeSeriesSnapshot.InsertStep | src/py/system_design/06_ds_time_series_store/time_series_store_with_snapshot.py:15-28 | an in-order point is appended and becomes the last timestamp. A late one is insorted. Past 1000 points the grown list becomes the snapshot, replacing the old one, and the active list starts empty |
| TimeSeriesSnapshot.InsertKeepsCoherent | src/py/system_design/06_ds_time_series_store/time_series_store_with_snapshot.py:15-28 | inserting keeps both lists sorted, and keeps the last timestamp at or above every active point |
| TimeSeriesSnapshot.MinTimestamp | src/py/system_design/06_ds_time_series_store/time_series_store_with_snapshot.py:64 | the least timestamp of the list, or `None` for an empty list |
| TimeSeriesSnapshot.MaxTimestamp | src/py/system_design/06_ds_time_series_store/time_series_store_with_snapshot.py:64 | the greatest timestamp of the list, or `None` for an empty list |
| TimeSeriesSnapshot.ExpireAsWritten | src/py/system_design/06_ds_time_series_store/time_series_store_with_snapshot.py:58-64 | both lists keep exactly their points at or after the cutoff. The last timestamp becomes the least remaining active timestamp |
| TimeSeriesSnapshot.MinResetBreaksOrder | src/py/system_design/06_ds_time_series_store/time_series_store_with_snapshot.py:64 | after that reset, a point between the least and the greatest active timestamp counts as in order, and appending it leaves the active list unsorted |
| TimeSeriesSnapshot.Expire | src/py/system_design/06_ds_time_series_store/time_series_store_with_snapshot.py:58-64 | the same filtering, with the last timestamp reset to the greatest remaining active timestamp |
| TimeSeriesSnapshot.ExpireKeepsCoherent | src/py/system_design/06_ds_time_series_store/time_series_store_with_snapshot.py:58-64 | with that reset, expiring keeps the store coherent |
| TimeSeriesSnapshot.Store.constructor | src/py/system_design/06_ds_time_series_store/time_series_store_with_snapshot.py:9-13 | both lists empty, last timestamp unset |
| TimeSeriesSnapshot.Store.Insert | src/py/system_design/06_ds_time_series_store/time_series_store_with_snapshot.py:15-28 | the fields change as `InsertStep` says, and the store stays coherent |
| TimeSeriesSnapshot.Store.GetLatestBeforeOrEqual | src/py/system_design/06_ds_time_series_store/time_series_store_with_snapshot.py:30-38 | reads the snapshot only: its last point at or before the timestamp, or `None` |
| TimeSeriesSnapshot.Store.GetRange | src/py/system_design/06_ds_time_series_store/time_series_store_with_snapshot.py:40-56 | the result is sorted by timestamp. With sorted lists it is exactly the stable sort of the snapshot's in-range points followed by the active list's. So it holds exactly the in-range points of both |
| TimeSeriesSnapshot.Store.ExpireBefore | src/py/system_design/06_ds_time_series_store/time_series_store_with_snapshot.py:58-64 | the fields change as `Expire` says, and the store stays coherent |
| TimeSeriesSnapshot.Store.Size | src/py/system_design/06_ds_time_series_store/time_series_store_with_snapshot.py:66-68 | the snapshot's length only |
| EventDedup.ExpiredPrefix | src/py/system_design/20_event_deduplication/event_deduplication.py:24-26 | how many front entries the eviction loop drops: all of them expired, and the next one (if any) live |
| EventDedup.SignaturesTail | src/py/system_design/20_event_deduplication/event_deduplication.py:25-26 | popping the front entry and discarding its signature keeps the set equal to the deque's signatures |
| EventDedup.Deduplicator.constructor | src/py/system_design/20_event_deduplication/event_deduplication.py:7-11 | the given window (60 seconds by default), and an empty deque and set |
| EventDedup.Deduplicator.IsDuplicate | src/py/system_design/20_event_deduplication/event_deduplication.py:18-35 | evicts exactly the expired front entries, then answers `True` iff the signature is among the kept ones. A duplicate changes nothing more and keeps its old time. A new signature is appended with time `now`. The set always equals the deque's signatures with no repeats. With non-decreasing `now` the deque's times stay non-decreasing |
| EventDedup.Example | src/py/system_design/20_event_deduplication/event_deduplication.py:38-48 | with a one-second window: `False`, `True`, `False`, then `False` again after 1.5 seconds |
| LatencyHistogram.SumIncrement | src/py/system_design/12_latency_analyzer/latency_analyzer_hist.py:15-16 | one more count in one bucket raises the sum by one |
| LatencyHistogram.SumZeros | src/py/system_design/12_latency_analyzer/latency_analyzer_hist.py:8-9 | all-zero buckets sum to zero |
| LatencyHistogram.CeilDiv | src/py/system_design/12_latency_analyzer/latency_analyzer_hist.py:7 | `ceil(a / b)`: the least multiple count of `b` covering `a` |
| LatencyHistogram.CumulativeStep | src/py/system_design/12_latency_analyzer/latency_analyzer_hist.py:27-28 | the running count grows by each bucket, and after the last bucket equals the total |
| LatencyHistogram.InterpolationWithin | src/py/system_design/12_latency_analyzer/latency_analyzer_hist.py:34-35 | the interpolated offset lies within the bucket's width |
| LatencyHistogram.Analyzer.constructor | src/py/system_design/12_latency_analyzer/latency_analyzer_hist.py:5-10 | `ceil(max / width)` buckets, all zero, and no samples |
| LatencyHistogram.Analyzer.BucketOf | src/py/system_design/12_latency_analyzer/latency_analyzer_hist.py:14 | the bucket whose edges contain the latency, or the last bucket when the latency is past the end |
| LatencyHistogram.Analyzer.Record | src/py/system_design/12_latency_analyzer/latency_analyzer_hist.py:12-16 | exactly that bucket and the total grow by one, keeping the sum invariant. With no buckets it raises `IndexError` and changes nothing |
| LatencyHistogram.Analyzer.FindBucket | src/py/system_design/12_latency_analyzer/latency_analyzer_hist.py:26-29 | finds the first bucket whose cumulative count reaches the target, and the count before it |
| LatencyHistogram.Analyzer.Interpolate | src/py/system_design/12_latency_analyzer/latency_analyzer_hist.py:31-35 | a value within the bucket's edges, exactly the lower edge when nothing lies below the bucket |
| LatencyHistogram.Analyzer.GetPercentile | src/py/system_design/12_latency_analyzer/latency_analyzer_hist.py:18-36 | `ValueError` exactly outside [0, 100] and `None` exactly when there are no samples. Otherwise the result is read from the first bucket reaching `total * p / 100`: within its edges, and its lower edge when all earlier buckets are empty |
| LatencyHistogram.Create | src/py/system_design/12_latency_analyzer/latency_analyzer_hist.py:5-10 | `ZeroDivisionError` exactly when the width is zero. Otherwise a fresh analyzer with `ceil(max / width)` zero buckets and no samples |
| LatencyHistogram.CreateDefault | src/py/system_design/12_latency_analyzer/latency_analyzer_hist.py:5-10 | the default arguments give 1 ms buckets, 1000 of them, all zero |
| LatencyHistogram.Analyzer.Reset | src/py/system_design/12_latency_analyzer/latency_analyzer_hist.py:38-43 | returns the old counts, which add up to the old total, and leaves every bucket zero and the total zero |

## Left out

- Locks, condition variables and threads are left out. Each operation runs on its own:
  - a blocking wait becomes a precondition (`count < capacity`, `count > 0`, a free object);
  - a timed `acquire` or a `locked()` test becomes a field of `Schedule`.
- The matrix bank's `_check_deadlock` holds the non-reentrant `matrix_lock` and then calls `_get_thread_index`, which takes it again. That self-deadlock is not modelled: the index logic runs without the lock.
- In `transfer`, the caller already holds `from`'s lock. So when `from == to`, `locked()` is true and the second timed acquire fails. The model returns `False` there.
- Python raises `RuntimeError` when a dict changes size during iteration. The model raises it exactly then; the rarer "keys changed" check at equal size is not modelled.
- Very deep recursion in the DFS (Python's recursion limit) is not modelled.
- The lock-free object pool, `PoolAllocator` and the lock-free and buggy/fixed concurrency demos are not part of this model. They are about CAS loops, address arithmetic, shutdown signalling and races.
- `PoolAllocator` in `objectPool.h` also calls pool members that `ObjectPool` does not declare.
- The t-digest latency analyzer is not part of this model. It depends on an external library and on the wall clock.
- The drivers, `__main__` blocks, printing and benchmarks are not part of this model. The C++ tests and the deduplicator demo are modelled as `SingleThreadTest`, `MultiThreadTest` and `Example`.
- SHA-256 of the event's fields is the given function `signature`. `EventDedup.Example` requires the two different events to get different signatures.
- `event.get(field, '')` for a missing field is not modelled: an `Event` always has all three fields.
- `time.time()` is the `now` argument of `IsDuplicate`.
- Floats:
  - latencies are whole non-negative milliseconds, so a negative latency, which Python would send to a negative index, is excluded;
  - the percentile and its result are exact reals, with no rounding;
  - the matrix's 0/1 integers are booleans;
  - the snapshot store's values are reals, so that `insort` can compare tuples, and NaN is not modelled;
  - `-float('inf')` as the initial last timestamp is `None`.
- The out-of-order store's values have an arbitrary type. Its `SortedDict` buffer is a map whose keys are merged in ascending order.
- `TimeSeriesOutOfOrder.Store.MergeBuffer` states the merged list as sorted, with exactly the added points as a multiset. It does not state where points with equal timestamps land relative to each other.
- `TimeSeriesOutOfOrder.Store.Insert` states the merge case through the same multiset, with the same limitation.
- `LatencyHistogram.Analyzer.constructor` requires a positive width; the zero-width `ZeroDivisionError` is modelled by `LatencyHistogram.Create`. Widths and latencies are natural numbers, so negative or fractional widths are not modelled.
- `LatencyHistogram.Analyzer.GetPercentile` states the bucket chosen and bounds on the interpolated value. It does not state the interpolation formula itself as a postcondition.
- `TimeSeriesSnapshot.Store.GetLatestBeforeOrEqual` and `TimeSeriesSnapshot.Store.GetRange` state their results for sorted lists. The store's invariant guarantees sorted lists.
- `time_series_store_with_snapshot.py` annotates `get_range` with `List`, which is never imported (line 3 against line 40), so the module would fail when the class is defined. The model ignores the annotation.
- The example comment at line 82 of the same file expects the point at 1500. After four inserts the snapshot is still empty, so the call returns `None`. The model follows the code.
- `TimeSeriesSnapshot.Store.ExpireBefore` uses the corrected reset of the last timestamp (see Findings), not the reset as written.

## Findings

| source | as written | input that shows it | evidently intended | confidence | as-written member | corrected member |
|---|---|---|---|---|---|---|
| src/py/system_design/06_ds_time_series_store/time_series_store_with_snapshot.py:64 | after expiry, `_last_timestamp` is reset to the least remaining active timestamp | active `[(1, 0.0), (5, 0.0)]`, `expire_before(0)`, then `insert(3, 0.0)`: 3 ≥ 1 counts as in order and is appended after 5, so `_active` is no longer sorted (and `get_range`/`insort` rely on it being sorted) | reset to the greatest remaining active timestamp, so an insert counts as in order only when it is not earlier than every active point | not executed | TimeSeriesSnapshot.MinResetBreaksOrder | TimeSeriesSnapshot.ExpireKeepsCoherent |
