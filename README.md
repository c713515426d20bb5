# Store, heap and pseudo-random generators, modelled in Dafny

This project models three pieces, each with proofs:

- the key-value store of the web runtime, `Store` in `src/web/feature/store.ts`;
- the binary min-heap utility, `Heap` in `src/pi_sys/modules/util/heap.ts`;
- the integer pseudo-random generators, `RC4`, `LC` and `Rand` in `src/pi_sys/modules/math/rand.ts`.

Files:

- `wrappers.dfy`: `Option`. It stands for `undefined` results.
- `jsmap.dfy`: a JavaScript `Map` as its insertion-ordered entry list. It covers `get`, `set` and `delete`, with their laws.
- `store.dfy`: module `KvStore`.
- `heap.dfy`: module `MinHeap`.
- `rand.dfy`: module `Prng`.

## What is modelled

**Store.** `create` gives a store one of two modes:

- **volatile**: an in-memory `Map` named `map`. A store gets this mode when the module-level `iDB` is absent. It also gets it when `indexedDB.open` throws, and that throw also clears `iDB` for every later call.
- **staging**: an IndexedDB object store plus `dataMap`, which holds writes whose transaction has not completed. A store gets this mode when the open request succeeds. When the open request errors, the promise rejects.

How the staging store works:

- A write stages its data and resolves at once.
- It queues a closure that opens a `readwrite` transaction. The queue is `writeList`, used with `unshift`/`pop`. The flag `writing` ensures that at most one transaction is open.
- Each transaction's `oncomplete`/`onerror` starts the next closure.
- `oncomplete` deletes the key from `dataMap`.
- `onerror` calls a `reject` that can no longer take effect, because the promise has already resolved.

Environment, events and promises:

- The IndexedDB object store is a `map` field `backend`.
- A transaction's completion or failure is an explicit event, `CommitInFlight` or `FailInFlight`.
- IndexedDB runs the transactions of one object store in the order they were created. A put's transaction is created when its closure starts; the transactions of `read`, `delete` and `clear` are created at the call. A `txFails` argument says whether one of these fails.
- So a `delete` or `clear` issued while a put is open waits, in the queue `afterPut`, and runs after that put and before every later put. An unstaged `read` sees the object store after the open put (whose outcome is the argument `putFails`) and after the waiting deletes and clears.
- Promises are a sequence of settlements. The first settlement wins.
- The module-level `iDB` is a `Host` object.

Ghost state and invariant:

- Ghost state keeps the submitted and finished writes, and the values a client that awaits nothing expects to read (`live`).
- `Valid` says that the queue is FIFO with at most one write in flight, and that every such promise has resolved.
- It also says that a read returns `live` for every key outside `overlap`. `overlap` is the set of keys whose last write was submitted while an earlier write to the same key was outstanding.

**Heap.** The heap array is a `seq` field. The comparator is a function field.

- `down` and `up` are the hole-based TypeScript loops. They are proved equal to swap-based recursive sifts (`SiftDown`, `SiftUp`).
- Heap order, permutation and minimality are proved about those sifts.
- `removeByIndex` only ever sifts the moved leaf down, which can break heap order (see Findings). A restoring variant is proved correct beside it.

**Generators.**

- `RC4` is MT19937, whatever its name: a 624-word table, `M = 397`, matrix `0x9908b0df` and the standard tempering.
- Table words are `bv32`, because every operation the TypeScript applies (`Int32Array`, `|`, `^`, `>>>`, `imul`) acts on 32-bit two's-complement words.
- `refreshData` is proved, loop by loop, to compute a reference twist. That reference defines word j of the new table by the MT19937 recurrence.
- `LC` is the Park-Miller minimal standard generator. It is computed with Schrage's factorisation, after an XOR of the seed with `RANDOM_MASK`.
- `Rand` picks one of the two generators in its constructor and delegates to it.

## Surprising behaviour of the code (the model follows the code)

- `create` rejects when the open request reports `onerror` (store.ts:52). It does not fall back to volatile mode in that case. Only a synchronous throw falls back.
- A commit deletes the key from `dataMap` unconditionally (store.ts:112-113). It does so even when a newer write to that key is staged. Take writes of `k`, then `j`, then `k` again, and let the first commit: a read of `k` then returns the older data, whatever the put of `j` does (`KvStore.NewerWriteLost`).
- A `delete` of a key whose write is still queued removes the staged data, but the queued put runs later and stores the data again (store.ts:128-132, 150-154; `KvStore.DeleteUndoneByQueuedWrite`).
- A failed write transaction cannot surface its error, because the staging branch resolves the promise first (store.ts:134-136).
- `iterate` chooses its path by the module-level `iDB`, not by the store's mode. A staging store created before a later fallback cleared `iDB` takes the `map` path and throws (`KvStore.IterateAfterFallback`).

## Model

| member | source | states |
|---|---|---|
| JsMap.Get | src/web/feature/store.ts:77 | `Map.get` is undefined exactly when no entry has the key; otherwise it returns a value stored under the key |
| JsMap.GetSet | src/web/feature/store.ts:104 | after `map.set(k, v)`, `get(k)` is v and every other key reads as before |
| JsMap.GetRemove | src/web/feature/store.ts:147 | after `map.delete(k)`, `get(k)` is undefined and every other key reads as before |
| JsMap.SetOrder | src/web/feature/store.ts:185 | `set` keeps the iteration order: a present key keeps its place, a new key is appended |
| JsMap.SetNoDup | src/web/feature/store.ts:104 | `set` keeps map keys distinct |
| JsMap.RemoveNoDup | src/web/feature/store.ts:147 | `delete` keeps map keys distinct |
| KvStore.Settle | src/web/feature/store.ts:121-122 | a promise settles once: resolve or reject on a settled promise has no effect |
| KvStore.Host.constructor | src/web/feature/store.ts:208 | the module-level `iDB` starts as whether IndexedDB is available |
| KvStore.Create | src/web/feature/store.ts:31-60 | no iDB or a throwing open gives a volatile store (and a throw clears iDB); a successful open gives a staging store over the existing database; an open error rejects |
| KvStore.Store.constructor | src/web/feature/store.ts:61-64 | a new store has its names, no queued or open write, empty maps, and satisfies the store invariant |
| KvStore.Store.Read | src/web/feature/store.ts:74-96 | volatile: `[key, map.get(key)]` with the live value; staging: the staged data if present; otherwise a rejection when the transaction fails, or else the value the object store holds once the open put (committed or failed) and the deletes and clears waiting behind it have run; read-your-writes for every key outside `overlap` |
| KvStore.Store.WriteNext | src/web/feature/store.ts:66-69 | `_write` starts the oldest queued closure (the back of the list) and sets `writing`, or does nothing on an empty queue; queue membership is unchanged |
| KvStore.Store.Write | src/web/feature/store.ts:101-139 | write resolves immediately; a following read returns the new data in either mode, even when the read's transaction would fail; volatile sets the map; staging stages the data, queues exactly one put, and starts it when no transaction is open |
| KvStore.Store.WriteVolatile | src/web/feature/store.ts:103-105 | the volatile branch sets the map entry, resolves, and queues nothing |
| KvStore.Store.WriteStaged | src/web/feature/store.ts:107-137 | the staging branch appends one pending write to the submitted sequence and stages its data; the put starts at once exactly when no transaction was open |
| KvStore.Store.Enqueue | src/web/feature/store.ts:128-132 | `unshift` puts the closure at the front; it starts at once exactly when `writing` was false, and the queue stays FIFO |
| KvStore.Store.Stage | src/web/feature/store.ts:134-137 | staging the data and resolving keeps the store invariant, including read-your-writes outside `overlap` |
| KvStore.Store.Complete | src/web/feature/store.ts:117-118 | clearing `writing` and calling `_write` finishes the open write and starts the next one in submission order |
| KvStore.Store.CommitInFlight | src/web/feature/store.ts:111-120 | on `oncomplete` the object store holds the put and then the effect of the waiting deletes and clears, the key is unstaged whatever was staged later, and the next write starts |
| KvStore.Store.FailInFlight | src/web/feature/store.ts:121-125 | on `onerror` no promise changes (the reject comes after the resolve), staging is kept, the waiting deletes and clears run, and the next write still starts |
| KvStore.Store.Delete | src/web/feature/store.ts:144-158 | the key leaves the map, or leaves staging and, when the transaction succeeds, the object store: at once when no put is open, otherwise queued behind the open put; on success a read of the key returns nothing, whatever the open put's outcome; a volatile store leaves staging, the object store and the waiting operations alone |
| KvStore.Store.Clear | src/web/feature/store.ts:163-177 | the map, or staging and (on success) the object store, become empty: at once when no put is open, otherwise behind the open put; on success every read returns nothing, whatever the open put's outcome; a volatile store leaves staging, the object store and the waiting operations alone |
| KvStore.Store.Iterate | src/web/feature/store.ts:182-204 | with iDB, the cursor path; without iDB, a staging store throws (no map), and a volatile store delivers along the map's order |
| KvStore.DeliveredShape | src/web/feature/store.ts:184-190 | iterate delivers the entries in map order until the callback returns false, then stops; the final `null` call comes exactly when every entry was accepted |
| KvStore.QueueOrder | src/web/feature/store.ts:66-69 | writes finish in submission order: the finished ones are a prefix, then the open one, then `writeList` read from its back (popped end) to its front (unshifted end) |
| KvStore.ReadsLiveWrite | src/web/feature/store.ts:134-135 | staging a new write keeps read-your-writes, and the key joins `overlap` exactly when an earlier write to it is outstanding |
| KvStore.ReadsLiveCommit | src/web/feature/store.ts:111-113 | a commit that unstages its key, stores its data and then runs the waiting deletes and clears keeps read-your-writes outside `overlap` |
| KvStore.ReadsLiveFail | src/web/feature/store.ts:121-125 | a failed put that keeps staging and runs the waiting deletes and clears keeps read-your-writes outside `overlap` |
| KvStore.ReadsLiveDelete | src/web/feature/store.ts:150-154 | delete's unstaging, and its removal now or behind the open put, keep read-your-writes |
| KvStore.ApplyOps | src/web/feature/store.ts:153-154 | running the waiting deletes and clears in order leaves exactly the keys neither deleted nor cleared, with their values |
| KvStore.NewerWriteLost | src/web/feature/store.ts:111-113 | writes of k, j, k, then the first commits: a read of k returned the newer data before and returns the older data after, whether the put of j commits or fails |
| KvStore.DeleteAfterOpenPut | src/web/feature/store.ts:150-156 | a delete issued while the put of its key is open runs after it: once the put commits, the key reads as absent |
| KvStore.DeleteUndoneByQueuedWrite | src/web/feature/store.ts:128-132 | a delete while a write of the key is still queued reads as absent at once, but after both puts commit the key holds the written data again |
| KvStore.IterateAfterFallback | src/web/feature/store.ts:183-185 | after a later `create` falls back and clears iDB, an earlier staging store's iterate throws on the missing map |
| MinHeap.Heap.constructor | src/pi_sys/modules/util/heap.ts:16-18 | a new heap is empty and keeps the comparator |
| MinHeap.Heap.Empty | src/pi_sys/modules/util/heap.ts:23-25 | `empty` holds exactly when `get` finds no root |
| MinHeap.Heap.Get | src/pi_sys/modules/util/heap.ts:79-81 | `get` is undefined exactly on an empty heap; otherwise it is the root, which no element precedes in a valid heap |
| MinHeap.Heap.Insert | src/pi_sys/modules/util/heap.ts:37-40 | `insert` adds exactly the value (multiset) and keeps heap order |
| MinHeap.InsertKeepsHeap | src/pi_sys/modules/util/heap.ts:37-40 | pushing a value and sifting it up from the last position keeps heap order |
| MinHeap.IndexOf | src/pi_sys/modules/util/heap.ts:52 | `indexOf` is the first position holding the value, or -1 exactly when the value is absent |
| MinHeap.Heap.Remove | src/pi_sys/modules/util/heap.ts:51-53 | `remove` of an absent value changes nothing; otherwise it removes its first occurrence, and the multiset loses exactly one copy |
| MinHeap.Heap.RemoveByIndex | src/pi_sys/modules/util/heap.ts:57-64 | an index out of range changes nothing; otherwise exactly the element at the index is removed; heap order is kept when the moved leaf is not before the hole's parent |
| MinHeap.RemoveKeepsHeap | src/pi_sys/modules/util/heap.ts:57-64 | removal by index and a downward sift keep heap order at the root, at the last position, or when the last leaf is not before the hole's parent |
| MinHeap.RemovedAtPerm | src/pi_sys/modules/util/heap.ts:61-63 | removal by index loses exactly the element at the index |
| MinHeap.SplicedPerm | src/pi_sys/modules/util/heap.ts:61-62 | moving the last leaf into the hole and shrinking the array removes exactly the element at the hole |
| MinHeap.RemovedAtCanBreakHeap | src/pi_sys/modules/util/heap.ts:61-63 | on the heap [0,5,1,6,7,2], removing index 3 gives [0,5,1,2,7], which is not a heap |
| MinHeap.Heap.RemoveByIndexRestoring | src/pi_sys/modules/util/heap.ts:57-64 | removal that sifts the moved leaf up or down keeps heap order for every index |
| MinHeap.RemovedAtRestoringKeepsHeap | src/pi_sys/modules/util/heap.ts:57-64 | the restoring removal keeps heap order and loses exactly the removed element |
| MinHeap.Kept | src/pi_sys/modules/util/heap.ts:68-74 | the elements `filter` keeps are elements of the heap that satisfy the predicate |
| MinHeap.Heap.Filter | src/pi_sys/modules/util/heap.ts:68-74 | after `filter` the heap holds exactly the elements the predicate accepts (multiset), and no others |
| MinHeap.FilterKeeps | src/pi_sys/modules/util/heap.ts:69-73 | one backward step of `filter`, keeping or removing position i, preserves its loop invariant |
| MinHeap.FilterDone | src/pi_sys/modules/util/heap.ts:68-74 | once every position has been visited, the heap holds exactly the accepted elements |
| MinHeap.FilterStep | src/pi_sys/modules/util/heap.ts:71 | a removal at i leaves positions before i alone and only permutes the rest, so `filter` never revisits a position |
| MinHeap.Heap.Pop | src/pi_sys/modules/util/heap.ts:86-93 | `pop` on an empty heap returns undefined and leaves it empty; otherwise it returns the root, a minimum, removes exactly that one element and keeps heap order |
| MinHeap.Heap.Clear | src/pi_sys/modules/util/heap.ts:98-100 | after `clear` the heap is empty |
| MinHeap.Heap.Down | src/pi_sys/modules/util/heap.ts:105-135 | the hole-based `down` loop has the same result as the swap-based sift down |
| MinHeap.Heap.Up | src/pi_sys/modules/util/heap.ts:140-156 | the hole-based `up` loop has the same result as the swap-based sift up |
| MinHeap.MinChild | src/pi_sys/modules/util/heap.ts:117-120 | `down` compares against one of the two children of i |
| MinHeap.SiftDownPerm | src/pi_sys/modules/util/heap.ts:105-135 | sifting down only permutes the elements |
| MinHeap.SiftUpPerm | src/pi_sys/modules/util/heap.ts:140-156 | sifting up only permutes the elements |
| MinHeap.SiftDownFrame | src/pi_sys/modules/util/heap.ts:105-135 | sifting down from i leaves positions before i untouched |
| MinHeap.SiftDownHeap | src/pi_sys/modules/util/heap.ts:105-135 | sifting down restores heap order when only the start position may be out of place |
| MinHeap.SiftUpHeap | src/pi_sys/modules/util/heap.ts:140-156 | sifting up restores heap order when only the start position may be out of place |
| MinHeap.RootIsMin | src/pi_sys/modules/util/heap.ts:79-81 | in a heap the root precedes no element of it (the root is a minimum) |
| MinHeap.RootIsMinAll | src/pi_sys/modules/util/heap.ts:86-93 | the element `pop` returns is a minimum of a valid heap |
| Prng.Signed | src/pi_sys/modules/math/rand.ts:73 | a 32-bit word read as a two's-complement integer, agreeing with the word modulo 2^32 |
| Prng.Masked | src/pi_sys/modules/math/rand.ts:149 | `seed ^= RANDOM_MASK` yields a signed 32-bit value, non-negative for a seed in [0, INT32_MAX] |
| Prng.Unmasked | src/pi_sys/modules/math/rand.ts:149 | every signed 32-bit value is the masked value of some seed (the mask is its own inverse) |
| Prng.XorTwice | src/pi_sys/modules/math/rand.ts:149 | XOR with the same operand twice gives back the original |
| Prng.Schrage | src/pi_sys/modules/math/rand.ts:150-154 | Schrage's product plus the correction is a word, and for a non-negative masked seed it is A * s mod (2^31 - 1) |
| Prng.SchrageStep | src/pi_sys/modules/math/rand.ts:150-151 | A * s - floor(s / Q) * M equals A * (s mod Q) - R * floor(s / Q) and lies between -M and 2^32 |
| Prng.LcStep | src/pi_sys/modules/math/rand.ts:148-156 | one `next` step yields a non-negative result, below 2^31 - 1 for a seed in [0, INT32_MAX] |
| Prng.LcStepIsParkMiller | src/pi_sys/modules/math/rand.ts:148-156 | for a seed in [0, INT32_MAX] a step is the Park-Miller step A * (seed ^ MASK) mod (2^31 - 1) |
| Prng.LcStepInRange | src/pi_sys/modules/math/rand.ts:145-147 | a seed within the documented range [0, MAX_INT32] steps to a seed within it |
| Prng.LcIterateInRange | src/pi_sys/modules/math/rand.ts:145-147 | from a seed in [0, MAX_INT32] every later seed, and so every output, stays in that range |
| Prng.LcIterateNext | src/pi_sys/modules/math/rand.ts:161-163 | n + 1 steps are n steps followed by one step |
| Prng.LcNegativeSeedLeavesRange | src/pi_sys/modules/math/rand.ts:145-155 | for a seed outside that range the documented bound fails: the seed masking to -2147480812 steps to 2195131492 |
| Prng.LC.constructor | src/pi_sys/modules/math/rand.ts:142-144 | the generator starts from the given seed |
| Prng.LC.Next | src/pi_sys/modules/math/rand.ts:148-156 | `next` advances the seed by one Park-Miller step and returns the new seed |
| Prng.LC.Discard | src/pi_sys/modules/math/rand.ts:157-164 | `discard` does nothing for a count <= 0, otherwise it is exactly `count` steps |
| Prng.LC.GetState | src/pi_sys/modules/math/rand.ts:165-167 | the state is the current seed |
| Prng.LC.SetState | src/pi_sys/modules/math/rand.ts:168-170 | setting the state replaces the seed |
| Prng.SeedTableRecurrence | src/pi_sys/modules/math/rand.ts:70-80 | the seeded table has 624 words; word 0 is the seed's low 32 bits and word i is `imul(p ^ (p >>> 30), 0x6c078965) + i` of its predecessor p, kept to 32 bits |
| Prng.RC4.SeededTable | src/pi_sys/modules/math/rand.ts:71-77 | the seeding loop fills a fresh table with exactly that seeded table |
| Prng.RC4.constructor | src/pi_sys/modules/math/rand.ts:70-80 | the generator holds the seeded table with index 624, so the first `next` regenerates |
| Prng.TwistPrefixAt | src/pi_sys/modules/math/rand.ts:121-128 | each word the two loops of `refreshData` produce in order is the MT19937 recurrence's word at that position |
| Prng.TwistLastWord | src/pi_sys/modules/math/rand.ts:129-130 | the last-word update completes the regeneration, mixing in the renewed word 0 and word M - 1 |
| Prng.RC4.RefreshData | src/pi_sys/modules/math/rand.ts:118-131 | the in-place regeneration leaves exactly the reference twist of the old table |
| Prng.RC4.TwistLower | src/pi_sys/modules/math/rand.ts:121-124 | the first loop renews words 0 .. N - M - 1 from the old words M ahead and leaves the rest alone |
| Prng.RC4.TwistUpper | src/pi_sys/modules/math/rand.ts:125-128 | the second loop renews words N - M .. N - 2 from words the first loop renewed and leaves the last word alone |
| Prng.Advance | src/pi_sys/modules/math/rand.ts:81-89 | `next` regenerates exactly when the index has reached 624 or passed it, and otherwise only moves the index on by one |
| Prng.RC4.Next | src/pi_sys/modules/math/rand.ts:81-89 | `next` makes the state change of Advance and returns the tempered current word as an unsigned integer; an index within [0, 624] stays within it |
| Prng.RC4.Value | src/pi_sys/modules/math/rand.ts:112-117 | `value` returns an unsigned 32-bit integer |
| Prng.NextNWithinTable | src/pi_sys/modules/math/rand.ts:103 | while the table lasts, n calls only advance the index by n |
| Prng.NextNAdd | src/pi_sys/modules/math/rand.ts:98-103 | a + b calls are a calls followed by b calls |
| Prng.NextNAtEnd | src/pi_sys/modules/math/rand.ts:94-97 | at an index of 624 or more, calls behave as the same calls on the regenerated table from index 0 |
| Prng.DiscardRound | src/pi_sys/modules/math/rand.ts:98-102 | one round of the discard loop, regenerating and subtracting the words left, matches the same number of `next` calls |
| Prng.RC4.Discard | src/pi_sys/modules/math/rand.ts:90-104 | `discard(count)` for count > 0 leaves the table and index that `count` calls of `next` leave; nothing otherwise; an index within [0, 624] stays within it |
| Prng.NextNIndexBound | src/pi_sys/modules/math/rand.ts:68 | from an index within [0, 624], any number of `next` calls leaves the index within [0, 624] |
| Prng.OutputsSplit | src/pi_sys/modules/math/rand.ts:90-104 | discarding n outputs then reading m gives outputs n .. n + m - 1 of the undisturbed stream |
| Prng.RC4.GetState | src/pi_sys/modules/math/rand.ts:105-107 | the snapshot is the live table object and the index, not a copy |
| Prng.RC4.SetState | src/pi_sys/modules/math/rand.ts:108-111 | the generator adopts the given table object and index |
| Prng.RestoreAtOnce | src/pi_sys/modules/math/rand.ts:105-111 | restoring an untouched snapshot leaves the state unchanged |
| Prng.SnapshotSharesTable | src/pi_sys/modules/math/rand.ts:105-107 | after a regenerating `next`, the earlier snapshot's table is the live array and holds `Twist` of the words it was taken from |
| Prng.Rand.constructor | src/pi_sys/modules/math/rand.ts:8-10 | type 1 creates an LC seeded with the seed; every other type creates an RC4 seeded with it |
| Prng.Rand.Next | src/pi_sys/modules/math/rand.ts:11-13 | `next` is the chosen generator's `next`; an RC4 index within [0, 624] stays within it |
| Prng.Rand.Discard | src/pi_sys/modules/math/rand.ts:14-16 | `discard` is the chosen generator's `discard`; an RC4 index within [0, 624] stays within it |

## Left out

- IndexedDB itself: the database open and upgrade, transactions and the cursor. The object store is a map and transaction outcomes are arguments or events; `iterate`'s cursor path is only recognised (`CursorScan`), its record-by-record delivery is not modelled.
- Timing: `setTimeout` (the volatile `iterate` delivers all its calls at once) and when promise callbacks run. A read, delete or clear transaction either succeeds or fails as a whole (`txFails`); its effects run in the transaction order described above.
- A store with a database but no `dataMap`. `create` never builds one, so the `resolve()` branch of the commit handler (store.ts:114-115) is unreachable and not modelled.
- KvStore.Store.Iterate: the callback is a pure function of the entry; a callback that changes the map while the loop runs is not modelled.
- `console.warn` in read (I/O), and `data = undefined` after a commit (memory only).
- Keys: a `number` key is an integer (no fractional or NaN keys). Data is a byte sequence.
- `Store.check` and `Store.delete` (store.ts:14-26): the static capability probe and database deletion are thin calls into IndexedDB.
- `Rand.getState`/`Rand.setState` (rand.ts:17-22): they forward an untyped state to the chosen generator, whose own `getState`/`setState` are modelled.
- `nextFloat`, `nextInt` and `shuffle` (rand.ts:26-45): floating point.
- math.ts is not part of this model. `imul` is taken as the low 32 bits of the product, and INT32_SIZE, INT32_MAX and UINT32_MAX as 0x80000000, 0x7fffffff and 0xffffffff.
- Prng.LC.constructor: the seed is an integer; a fractional seed is not modelled.
- Default arguments (`seed = 1`, `type = 0`, `tabName = "_db"`) are passed explicitly.
- Prng.RC4.SetState: requires a 624-word table and an index >= 0. The TypeScript accepts any object; a negative or fractional index or a table of another length is not modelled.
- Prng.RC4.Next: requires a valid state (a 624-word table, index >= 0), which construction and `setState` establish. The documented range [0, 624] is kept rather than required: construction gives 624, and `next`, `discard` and `NextNIndexBound` keep an index within it.
- Prng.LC.Discard: count is an integer; a fractional count makes `while (count--)` never reach 0 (rand.ts:161) and is not modelled.
- Prng.RC4.Discard: count is an integer; a fractional count leaves a fractional index (rand.ts:98-103) and is not modelled.
- Tempering is not proved invertible; only its output range is stated.
- `getImpl` and `findIndex` (heap.ts:30-32, 45-47): the heap's array and a linear search are exposed to callers; `remove` is modelled through `indexOf` directly.
- MinHeap.Heap: elements are values (no mutable objects, `===` as value equality); the comparator is a pure, total function, and heap order is proved when it is a total preorder (`ComparatorOk`).
- MinHeap.Heap.Filter: states only the contents it keeps; like the TypeScript, which removes through `removeByIndex`, it does not promise heap order.

## Findings

| source | as written | input that shows it | evidently intended | confidence | as-written member | corrected member |
|---|---|---|---|---|---|---|
| src/pi_sys/modules/util/heap.ts:57-64 | `removeByIndex` moves the last leaf into the hole and only calls `down` | heap [0,5,1,6,7,2] with comparator a - b, remove index 3: result [0,5,1,2,7], where 2 sits below 5 | the moved leaf also goes up when it is before its new parent, so every removal keeps heap order | high, not executed | MinHeap.RemovedAtCanBreakHeap | MinHeap.RemovedAtRestoringKeepsHeap |

The heap methods that model the TypeScript (`Remove`, `Pop`, `Filter`) keep the removal as written. `MinHeap.Heap.RemoveByIndexRestoring` is the corrected method.
