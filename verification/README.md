# Buildbarn remote execution: a Dafny model

This project models the parts of Buildbarn's remote execution services in which a fast, index-heavy or concurrent
structure has to agree with a simple specification, and proves that it does.

`Common` has definitions that several of these share.

**Scheduler and workers.** `InMemoryBuildQueue` is a state machine under one lock: tasks, operations, workers and, per size
class queue, a tree of invocations with counters over subtrees and heaps that track the positions of their elements. Every
public method of the class `BuildQueue` is what happens while the lock is held once, and `Valid()` is what holds whenever it is
not held. `InvocationTree`, `IndexedHeap`, `InvocationPresence`, `InvocationCounts` and `InvocationForest` build up the tree from
below; `SchedulerTables` relates it to tasks, operations and workers; `SchedulerSteps` says what the
steps do to these tables, and what follows from that; `InMemoryBuildQueue` has the steps. `BuildClient` has the
worker's side, and runs of both sides in which calls may fail before or after the scheduler has acted.

**File pool.** `Words` and `BitmapSectorAllocator` are the sector allocator; `FileImage` says what a file holds, given the
device, its sector list and its hole source; `BlockDeviceFilePool` has the operations on files; `FilePoolRuns` has runs of any
number of operations on any number of files, compared against independent plain byte sequences, with and without faults.

**Virtual file system.** `ByteRangeLocks` has the locking algorithm on sequences of locks, compared against a map from bytes to
lock types; `ByteRangeLockSet` is the doubly linked list. `LockPile` is the class that acquires several locks without deadlocks,
and `LockPileThreads` has all interleavings of any number of threads that use it. `PoolBackedFile` has links, descriptors, frozen
handles and the cached digest of a file. `DirectoryContents` has directories that change while they are listed.

**Encoders and timers.** `TreeEncoding` and `OutputDirectories` construct topologically sorted trees of output directories (Remote
Execution API v2, `OutputDirectory.is_topologically_sorted`). `PathHashes`, `BloomFilter` and `Prefetching` go from recorded file
accesses to a Bloom filter and back to the files that are prefetched. `SuspendableClock` accounts for time spent unsuspended.

Three properties that the sources suggest do not hold as stated. `LockPile.Lock()` is documented to return true if and only if
no lock was released; `FalseWithoutRelease` has runs in which it returns false without having released any that it held, and
`ResultTellsRelease` shows that the documentation is right exactly if the pile is not empty or there is but one new lock. The cached
digest of a file is not always that of its contents: `StaleDigest` has a truncation that fails half-way, and `TruncateKeepsDigest` and
`WriteKeepsDigest` have the exact conditions, which can be told before the call. And a worker may abandon a task right after the
scheduler has given it one: `BuildClient.Drive` shows that a minute passes in between unless a call returned after the worker was due,
and `AbandonsEarly` that for all such calls it need not.

Conventions. Errors of the device, the hole source, the backing file and remote calls are nondeterministic, or parameters, so that
everything is proved for all ways in which they may occur. Panics of the original are assertions, or preconditions of helpers that all callers
meet. Clocks, random identifiers and what the size class learner decides are parameters. Integers are unbounded, except for the
64-bit words of the bitmap, which are sequences of 64 bits, the bytes of Bloom filters, which are sequences of 8 bits, and hashes, which are computed modulo 2^64.
Lemmas carry `{:induction false}` throughout: their proofs are written out.

## Model

| member | source | states |
|---|---|---|
| FilePoolRuns.Drive | pkg/filesystem/pool/block_device_backed_file_pool.go:35-494 | Over every run of NewFile, ReadAt, WriteAt, Truncate and Close on any number of files of one device: every read, and what every file holds in the end, are those of independent plain byte sequences (unknown are only files on which the device or a truncation failed, and those whose hole source was not zero past their size). Failures are reported only if the device or hole sources may fail, and writes run out of space only if the files, rounded up to sectors, would not fit; so without faults everything succeeds. Sectors are conserved throughout, and once all files are closed every sector is free |
| FilePoolRuns.NothingFails | pkg/filesystem/pool/block_device_backed_file_pool.go:197-494 | If nothing may fail, hole sources are zero past the sizes of the files, and the files fit on the device at all times: every operation returns, and every file holds, exactly what it does for plain byte sequences |
| FilePoolRuns.OutOfSpace | pkg/filesystem/pool/block_device_backed_file_pool.go:346-465 | A write to a hole while no sector is free means that the sizes of all files, with the write and rounded up to sectors, exceed the device |
| FilePoolRuns.Step | pkg/filesystem/pool/block_device_backed_file_pool.go:35-494 | One operation has an outcome that the byte sequence specification allows, which reports failures only where something may fail, and exactly the specified effect on its file and on no other |
| FilePoolRuns.OthersUnaffected | pkg/filesystem/pool/block_device_backed_file_pool.go:346-465 | Whatever an operation leaves on the device, the contents of all files but one are as before |
| BlockDeviceFilePool.File.ReadAt | pkg/filesystem/pool/block_device_backed_file_pool.go:241-277 | Reads return the bytes of the plain sequence at that offset; end of file exactly when the read reaches it; negative offsets are refused; failures only if the device or hole sources may fail |
| BlockDeviceFilePool.File.WriteAt | pkg/filesystem/pool/block_device_backed_file_pool.go:467-494 | The contents become the old ones overlaid with the bytes that were written, also when space or the hole source runs out half-way; the size grows to the end of what was written; other files are kept. Space runs out only if no sector is free and there is a hole in front of the end of the write; other failures are reported only if the device or hole sources may fail |
| BlockDeviceFilePool.File.Truncate | pkg/filesystem/pool/block_device_backed_file_pool.go:301-341 | The contents are cut or padded with zeroes (so shrinking and growing gives zeroes); after a failure, which is reported only if the device or hole sources may fail, the size, and the bytes in front of the requested size, are unchanged |
| BlockDeviceFilePool.File.GetNextData | pkg/filesystem/pool/block_device_backed_file_pool.go:122-159 | The least offset at or after the given one that is in a sector or in data of the hole source; the scan stays within the sector list because its last entry is never zero; failures only if hole sources may fail |
| BlockDeviceFilePool.File.GetNextHole | pkg/filesystem/pool/block_device_backed_file_pool.go:160-191 | The least offset that is a hole in both layers, or the end of the file; the loop terminates; failures only if hole sources may fail |
| BlockDeviceFilePool.File.Close | pkg/filesystem/pool/block_device_backed_file_pool.go:50-59 | All sectors of the file, and no others, become free; conservation holds for the remaining files |
| BlockDeviceFilePool.File.TruncateSectors | pkg/filesystem/pool/block_device_backed_file_pool.go:281-293 | The list loses the sectors from an index on and all trailing holes, and exactly those sectors are freed |
| BlockDeviceFilePool.File.WriteToNewSectors | pkg/filesystem/pool/block_device_backed_file_pool.go:346-417 | Newly allocated sectors hold the data, surrounded by what the hole source has there; on failure they are freed again |
| BlockDeviceFilePool.File.InsertSectorsContiguous | pkg/filesystem/pool/block_device_backed_file_pool.go:421-433 | The hole is replaced by consecutive sectors; the panic about replacing an existing sector is not reachable |
| BlockDeviceFilePool.File.WriteToSectors | pkg/filesystem/pool/block_device_backed_file_pool.go:436-465 | A chunk of a write lands at its offset of this file, whether over existing sectors or into a hole, and nowhere else in any file |
| BlockDeviceFilePool.File.GetSectorsContiguous | pkg/filesystem/pool/block_device_backed_file_pool.go:92-111 | The longest run, up to the last sector asked for, that is either consecutive on the device or one hole |
| BlockDeviceFilePool.FilePool.NewFile | pkg/filesystem/pool/block_device_backed_file_pool.go:35-41 | A new file holds what its hole source provides and owns no sectors |
| BlockDeviceFilePool.FilePool.AllClosedFreesAll | pkg/filesystem/pool/block_device_backed_file_pool.go:50-59 | Without open files, every sector is free |
| FileImage.ImageAfterWrite | pkg/filesystem/pool/block_device_backed_file_pool.go:436-494 | From what the device holds to plain sequences: a write is an overlay, and bytes past the end stay zero |
| FileImage.ImageAfterShrink | pkg/filesystem/pool/block_device_backed_file_pool.go:301-341 | Zeroing the rest of the last sector and truncating the hole source is enough for growing to show zeroes |
| FileImage.ImageAfterGrow | pkg/filesystem/pool/block_device_backed_file_pool.go:333-340 | Growing without touching the device appends zeroes |
| BitmapSectorAllocator.Allocator.constructor | pkg/filesystem/pool/bitmap_sector_allocator.go:32-45 | Initially exactly the sectors 1..sectorCount are free; the sentinel bits behind them are not |
| BitmapSectorAllocator.Allocator.AllocateContiguous | pkg/filesystem/pool/bitmap_sector_allocator.go:49-73 | Takes the first free sector at or after nextSector, else the lowest; as many as asked for or as the free run there has; clears exactly those bits; fails if and only if nothing is free; never indexes past the bitmap |
| BitmapSectorAllocator.Allocator.AllocateAt | pkg/filesystem/pool/bitmap_sector_allocator.go:75-111 | The run is taken across word boundaries up to the maximum or the first sector in use |
| BitmapSectorAllocator.Allocator.FreeContiguous | pkg/filesystem/pool/bitmap_sector_allocator.go:120-153 | Exactly the given range becomes free; the panic for sectors that are not allocated is not reachable |
| BitmapSectorAllocator.Allocator.FreeList | pkg/filesystem/pool/bitmap_sector_allocator.go:155-170 | Exactly the non-zero sectors of the list become free |
| BitmapSectorAllocator.NextFitSectors | pkg/filesystem/pool/bitmap_sector_allocator.go:49-111 | What next-fit takes was free, and the free set shrinks by exactly that |
| BitmapSectorAllocator.RunEndsBeforeSentinel | pkg/filesystem/pool/bitmap_sector_allocator.go:87-106 | A free run never extends to the last word's sentinel, so the word that follows it exists |
| ByteRangeLockSet.LockSet.Set | pkg/filesystem/virtual/byte_range_lock_set.go:75-190 | On the doubly linked list: the entries become those of SetLocks, sorted and merged, and the result is the change in the number of entries |
| ByteRangeLockSet.LockSet.Test | pkg/filesystem/virtual/byte_range_lock_set.go:194-210 | The entry returned is the one of TestLock |
| ByteRangeLockSet.LockSet.InsertBefore | pkg/filesystem/virtual/byte_range_lock_set.go:39-44 | The entry is in the list right before the other one, and the links in both directions agree |
| ByteRangeLockSet.LockSet.Remove | pkg/filesystem/virtual/byte_range_lock_set.go:46-51 | Only that entry is gone, and the links in both directions agree |
| ByteRangeLockSet.LockSet.constructor | pkg/filesystem/virtual/byte_range_lock_set.go:63-66 | An empty list |
| ByteRangeLocks.SetRefines | pkg/filesystem/virtual/byte_range_lock_set.go:75-190 | Set changes the type of lock that this owner holds on exactly these bytes, and nothing else for any owner and byte |
| ByteRangeLocks.SetKeepsWellFormed | pkg/filesystem/virtual/byte_range_lock_set.go:75-190 | The list stays sorted, each owner's ranges stay disjoint, and touching ones of the same type merged |
| ByteRangeLocks.SetNeverPanics | pkg/filesystem/virtual/byte_range_lock_set.go:90-186 | None of the panics about overlapping or touching locks is reachable |
| ByteRangeLocks.SetAllWellFormed | pkg/filesystem/virtual/byte_range_lock_set.go:63-190 | After any series of calls on an empty set the list is well-formed |
| ByteRangeLocks.SetAllRefines | pkg/filesystem/virtual/byte_range_lock_set.go:63-190 | After any series of calls, every owner holds on every byte what its last call covering that byte asked for |
| ByteRangeLocks.TestFindsConflict | pkg/filesystem/virtual/byte_range_lock_set.go:194-210 | A result is an entry that conflicts; without one, no entry does, so the early exit misses nothing |
| ByteRangeLocks.TestIsExact | pkg/filesystem/virtual/byte_range_lock_set.go:194-210 | Test returns nil if and only if no other owner holds any byte of the lock in a type that excludes it |
| ByteRangeLocks.SetKeepsMutualExclusion | pkg/filesystem/virtual/byte_range_lock_set.go:75-210 | Setting a lock keeps mutual exclusion if and only if Test returns nil for it or it is an unlock |
| InMemoryBuildQueue.BuildQueue.WorkConserved | pkg/scheduler/in_memory_build_queue.go:2654-2704 | In every state in which the lock is not held: no size class queue has both a queued operation and a parked worker, and parked workers have no task and are neither drained nor terminating |
| InMemoryBuildQueue.BuildQueue.CountersExact | pkg/scheduler/in_memory_build_queue.go:2051-2086 | For every invocation, executingWorkers counts the operations of a worker's current task in its subtree (and has no zero entries), and idleWorkersCount the workers that were last active there |
| InMemoryBuildQueue.BuildQueue.HeapsExact | pkg/scheduler/in_memory_build_queue.go:1803-1910 | For every invocation, both heaps of children hold exactly the qualifying ones, the heap of operations exactly those that are queued, and all indices are right |
| InMemoryBuildQueue.BuildQueue.InvocationHasReason | pkg/scheduler/in_memory_build_queue.go:1985-1997 | An invocation other than a root exists only while an unfinished operation or a worker that was last active is in its subtree |
| InMemoryBuildQueue.BuildQueue.ReasonHasInvocation | pkg/scheduler/in_memory_build_queue.go:1721-1748 | ... and all the while |
| InMemoryBuildQueue.BuildQueue.TasksExact | pkg/scheduler/in_memory_build_queue.go:2708-2883 | worker.currentTask and task.currentWorker are each other's inverse; completed tasks have no worker; every entry of the deduplication map is an unfinished task with that digest and at least one operation |
| InMemoryBuildQueue.BuildQueue.constructor | pkg/scheduler/in_memory_build_queue.go:311-360 | The invariant holds initially |
| InMemoryBuildQueue.BuildQueue.Execute | pkg/scheduler/in_memory_build_queue.go:546-680 | Returns an operation of an unfinished task with the digest, and gives the whole new tables: the task in the deduplication map gains an operation for the invocation unless it has one, or a new task with one operation is created, registered if cacheable, and scheduled; nothing else changes; a worker that it is assigned to is neither drained nor terminating; the panics about tasks without operations or in an unexpected stage are not reachable |
| InMemoryBuildQueue.BuildQueue.Deduplicate | pkg/scheduler/in_memory_build_queue.go:546-577 | The task is as before, but that it has an operation for the invocation: the one it had, or else the new one |
| InMemoryBuildQueue.BuildQueue.RemoveOperation | pkg/scheduler/in_memory_build_queue.go:2386-2412 | The operation is gone; if it was the last one of an unfinished task, that is completed, no longer deduplicated against, and its worker idle in the root; otherwise nothing else changes |
| InMemoryBuildQueue.BuildQueue.Schedule | pkg/scheduler/in_memory_build_queue.go:2654-2704 | The task is given to a worker that was parked in its size class queue, and is neither drained nor terminating, if and only if there is one; it is one that was last active nearest to an invocation of the task: below what one of them is nested in by the least number of levels for which there is any. Otherwise all its operations are queued, and no worker is affected |
| InMemoryBuildQueue.BuildQueue.FindParked | pkg/scheduler/in_memory_build_queue.go:2664-2703 | The scan, breadth first and bottom up, finds an invocation with parked workers that an invocation of the task is nested in by the least number of levels; and none only if the size class queue has no parked worker |
| InMemoryBuildQueue.BuildQueue.Complete | pkg/scheduler/in_memory_build_queue.go:2720-2883 | For each verdict the whole new tables. Unless it is to be run again, the task is completed and no longer deduplicated against, and a background task is created and scheduled exactly if it is asked for and its invocation has fewer queued operations than the maximum. Upon a retry, the task is not completed and still deduplicated against, its operations are those with the same keys in the other queue, and it is given to a worker that was parked there, or else queued. The worker that executed it was last active in the lowest common ancestor of its operations if it completed the task itself, or in the root; all other workers but the one that is given a task are untouched. Completed tasks never change |
| InMemoryBuildQueue.BuildQueue.StopExecuting | pkg/scheduler/in_memory_build_queue.go:2729-2776 | The worker has no task, and was last active in the lowest common ancestor of its operations, or in the root if it did not complete the task itself |
| InMemoryBuildQueue.BuildQueue.Reschedule | pkg/scheduler/in_memory_build_queue.go:2840-2857 | Exactly the operations of the task move to the same invocation keys of the other queue, where a worker that was parked is given the task, or it is queued |
| InMemoryBuildQueue.BuildQueue.StartBackground | pkg/scheduler/in_memory_build_queue.go:2795-2825 | Unless too many are queued, a task with one operation is created and scheduled; otherwise nothing changes. No invocation is left behind empty |
| InMemoryBuildQueue.BuildQueue.AssignUnqueued | pkg/scheduler/in_memory_build_queue.go:3028-3047 | Worker and task refer to each other, every invocation of the task and all above it count the worker, and the worker is no longer idle anywhere |
| InMemoryBuildQueue.BuildQueue.AssignQueued | pkg/scheduler/in_memory_build_queue.go:3051-3058 | Likewise, and none of the task's operations is queued any longer |
| InMemoryBuildQueue.BuildQueue.AssignNextQueued | pkg/scheduler/in_memory_build_queue.go:3099-3189 | Succeeds if and only if the size class queue has a queued operation, and then the worker got a task that was queued; otherwise nothing changes |
| InMemoryBuildQueue.BuildQueue.NextTaskOrWait | pkg/scheduler/in_memory_build_queue.go:3254-3354 | Exactly when a worker gets a task, is parked, or has to wait for a drain to be lifted, in terms of what is queued and whether it is drained or terminating; and what changes in the tables, which is nothing but the worker and the task that it is given |
| InMemoryBuildQueue.BuildQueue.NextTask | pkg/scheduler/in_memory_build_queue.go:3254-3354 | Likewise; workers that prefer being idle are told to be |
| InMemoryBuildQueue.BuildQueue.ParkWorker | pkg/scheduler/in_memory_build_queue.go:3310-3325 | A worker is parked only where nothing is queued; it is never parked already |
| InMemoryBuildQueue.BuildQueue.CurrentOrNextTask | pkg/scheduler/in_memory_build_queue.go:3360-3382 | A worker is told to execute the task it has, unless that was tried too often, in which case the task is completed; what else it is told depends exactly on whether it is drained or terminating, and on what is queued |
| InMemoryBuildQueue.BuildQueue.FinishedTask | pkg/scheduler/in_memory_build_queue.go:3412-3418 | By verdict, whatever task the worker is given next: the task is completed; and a background task is there, and executed or queued, exactly if there was room for it; or upon a retry the task is not completed, its operations are those with the same keys in the other queue, and it is executed or queued there, maybe by the same worker. What the worker is told, exactly, in terms of what is queued and parked before |
| InMemoryBuildQueue.BuildQueue.Synchronize | pkg/scheduler/in_memory_build_queue.go:712-830 | A second call for the same worker is refused and changes nothing. Otherwise both the reply and the new tables are given for every report: a worker continues if and only if it reports its own task as running; one that reports it finished has it completed, run again or followed by a background task, as by the verdict; one that reports something else is told to execute the task it has, or gets another one, is parked, has to wait for a drain to be lifted or is told to be idle, exactly by what is queued and whether it is drained or terminating. Other workers that have no task get one only while they are synchronizing |
| InMemoryBuildQueue.BuildQueue.BeginSynchronize | pkg/scheduler/in_memory_build_queue.go:773-795 | New workers start out in the root invocation, without a task |
| InMemoryBuildQueue.BuildQueue.Resume | pkg/scheduler/in_memory_build_queue.go:3281-3352 | A call that waited returns a task that it was given meanwhile, also upon a timeout; without one, a timeout makes the worker idle; upon cancellation the task is kept and the worker dequeued. A call that was woken up without a task gets one if and only if the worker is neither drained nor terminating and something is queued, is parked again if nothing is, and waits on exactly if the worker is drained or terminating |
| InMemoryBuildQueue.BuildQueue.WakeUp | pkg/scheduler/in_memory_build_queue.go:2998-3025 | The worker is no longer parked, nor present in any heap above |
| InMemoryBuildQueue.BuildQueue.AddDrain | pkg/scheduler/in_memory_build_queue.go:1306-1324 | The drain is added, and exactly the parked workers that match it are woken up, so that none of them stays parked |
| InMemoryBuildQueue.BuildQueue.RemoveDrain | pkg/scheduler/in_memory_build_queue.go:1326-1339 | Only this drain is gone, and the invariant is kept |
| InMemoryBuildQueue.BuildQueue.TerminateWorkers | pkg/scheduler/in_memory_build_queue.go:1341-1376 | Exactly the matching workers become terminating, and none of them is parked |
| InMemoryBuildQueue.BuildQueue.KillOperation | pkg/scheduler/in_memory_build_queue.go:901-958 | The task of the operation is completed, with everything that entails; other tasks are untouched |
| InMemoryBuildQueue.BuildQueue.RemoveStaleWorker | pkg/scheduler/in_memory_build_queue.go:1692-1719 | The worker is gone, a task that it had is completed and no longer deduplicated against, and nothing else changes |
| InMemoryBuildQueue.BuildQueue.RemoveQueue | pkg/scheduler/in_memory_build_queue.go:1657-1690 | Of a size class queue without workers, exactly the unfinished tasks are completed, no invocation remains, and tasks elsewhere, operations and workers are untouched |
| SchedulerSteps.FinishedBy | pkg/scheduler/in_memory_build_queue.go:2782-2883 | What completeTask() followed by getNextTask() does to the tables implies: upon a retry the task is not completed, has moved, and is executed or queued in the other queue, even if the worker that failed is given it again; a background task is there exactly if there was room |
| SchedulerSteps.CompletedReply | pkg/scheduler/in_memory_build_queue.go:3254-3418 | What a worker is told once its task has been completed can be told before: it gets a task exactly if it may be given any and something is queued in its queue, or will be because the retried or background task goes there and nobody is parked there |
| SchedulerSteps.QueuedAfter | pkg/scheduler/in_memory_build_queue.go:2782-2883 | Completing a task adds to a size class queue exactly if it is retried, or followed by a background task, there, and nobody is parked there |
| SchedulerSteps.StopsAndCompletes | pkg/scheduler/in_memory_build_queue.go:2720-2883 | Taking the task from the queue or its worker, and then completing or rescheduling it, is what task.complete() does as a whole |
| InvocationTree.LowestOfTwo | pkg/scheduler/in_memory_build_queue.go:2743-2756 | The three loops find the lowest common ancestor of two invocations |
| InvocationTree.LowestCommonAncestor | pkg/scheduler/in_memory_build_queue.go:2738-2757 | For every order of iteration the result is the lowest common ancestor of all invocations |
| InvocationForest.Forest.Increment | pkg/scheduler/in_memory_build_queue.go:2074-2086 | Counters and heaps are exact for one more operation of the worker, in every invocation above |
| InvocationForest.Forest.Decrement | pkg/scheduler/in_memory_build_queue.go:2051-2072 | Counters and heaps are exact for one operation less; exactly the invocations that are empty now are gone |
| InvocationForest.Forest.SetLast | pkg/scheduler/in_memory_build_queue.go:3213-3221 | idleWorkersCount is exact for the new last invocation |
| InvocationForest.Forest.ClearLast | pkg/scheduler/in_memory_build_queue.go:3194-3209 | idleWorkersCount is exact without it; exactly the invocations that are empty now are gone |
| InvocationForest.Forest.Enqueue | pkg/scheduler/in_memory_build_queue.go:2374-2384 | The operation is queued, and all invocations above are in their parents' heaps |
| InvocationForest.Forest.Unqueue | pkg/scheduler/in_memory_build_queue.go:2358-2372 | The operation is not queued, and invocations above without any are no longer in their parents' heaps |
| InvocationForest.Forest.UnqueueAndRemove | pkg/scheduler/in_memory_build_queue.go:2399-2406 | Likewise, and exactly the invocations that are empty now are gone |
| InvocationForest.Forest.RemoveIfEmpty | pkg/scheduler/in_memory_build_queue.go:1985-1997 | Removes the invocation if and only if it is not a root and nothing is queued, executing or idle in it |
| InvocationForest.Forest.GetOrCreate | pkg/scheduler/in_memory_build_queue.go:1721-1748 | Returns the invocation with these keys, and creates exactly what is missing above it |
| InvocationPresence.Add | pkg/scheduler/in_memory_build_queue.go:3456-3462 | With heapPushOrFix at every level: the invariant of heaps and indices holds with one more element |
| InvocationPresence.Take | pkg/scheduler/in_memory_build_queue.go:3445-3452 | With heapRemoveOrFix at every level: likewise with one element less |
| InvocationPresence.MaybeFix | pkg/scheduler/in_memory_build_queue.go:3466-3470 | heapMaybeFix changes the order only |
| InvocationPresence.Descend | pkg/scheduler/in_memory_build_queue.go:2676-2678 | Following the first child leads to an invocation with elements of its own; the descent terminates |
| InvocationPresence.PresentIff | pkg/scheduler/in_memory_build_queue.go:1971-1973 | The condition that there are elements of its own or children in the heap is exact: it holds if and only if some element is in the subtree |
| InvocationPresence.PresentAtRoot | pkg/scheduler/in_memory_build_queue.go:1971-1973 | At the root, it holds if and only if the size class queue has any |
| IndexedHeap.Push | pkg/scheduler/in_memory_build_queue.go:1822-1829 | One element more; all positions recorded are right |
| IndexedHeap.Remove | pkg/scheduler/in_memory_build_queue.go:1831-1841 | Exactly the element at that position is gone; all positions recorded are right; the "Invalid queue index" panics are not reachable |
| IndexedHeap.Fix | pkg/scheduler/in_memory_build_queue.go:1813-1820 | Swapping keeps the elements, and all positions recorded right |
| BuildClient.Drive | pkg/builder/build_client.go:171-306 | Over every run of a scheduler and a worker that it has not seen, with calls that may fail at any point: whenever schedulerMayThinkExecutingUntil is nil between two calls, the scheduler has no task for the worker and no call of it in progress; so a worker that terminates abandons a task only once over a minute has passed since it was due to synchronize, and also since its last call returned unless that was after it was due; when it is to synchronize is what the last response that it received with a time asked for, or when there was an update before that; the scheduler's invariant holds throughout, and completed tasks stay completed |
| BuildClient.Step | pkg/builder/build_client.go:181-306 | Every step of either side keeps this, and does exactly what it is to do to the phase, the tables of the scheduler and the worker; steps that are not possible have no effect. When the worker is due is what the last response said, or if that was none, what it knew before; and no step gives a task to a worker that is drained or terminating |
| BuildClient.OutsideStep | pkg/scheduler/in_memory_build_queue.go:477-1376 | Every step on behalf of others that is possible takes place, and has the effect on the tables that the operation has; none of them gives a task to a worker that has none and is not synchronizing, nor to one that is drained or terminating |
| BuildClient.ReceiveRequest | pkg/scheduler/in_memory_build_queue.go:712-830 | What the worker is doing is reported as it is, and handled as Synchronize() does. If the reply is to go idle, the scheduler has no task for the worker; if it is to continue, the worker had reported to be executing |
| BuildClient.ReturnFromCall | pkg/builder/build_client.go:261-306 | What the worker assumes after the call is right whichever reply it received, or none |
| BuildClient.Client.BeginRun | pkg/builder/build_client.go:181-260 | When the worker may terminate, exactly; when it asks not to be given a task; which updates it has consumed; and that it synchronizes earlier than it was to exactly if there was an update before that |
| BuildClient.ConsumedExact | pkg/builder/build_client.go:140-163 | Of the updates, those up to the end of the execution count, and of these the last one |
| BuildClient.Client.EndRun | pkg/builder/build_client.go:261-306 | For every response: when to synchronize next is the time that it carries, and unchanged if it carries none; what the worker does. schedulerMayThinkExecutingUntil becomes nil exactly if the scheduler told the worker to be idle, or to continue what is no execution; otherwise it is a minute after when the worker is due: the time in the response, or if it got none, when it was due before; or if it was not, when the last response with a time, or an earlier update, had asked it to synchronize |
| BuildClient.AbandonsEarly | pkg/builder/build_client.go:181-265 | For every time at which a call may return after the worker was due, a run in which it then abandons the task it was given within a minute: it was parked, was given a task, and the call failed. So the condition in Drive, which can be told from what the worker knew before the call, is exact |
| LockPile.Pile.Lock | pkg/sync/lock_pile.go:86-120 | On return the pile holds the old and the new locks, once each, with recursion counts adding up; the thread blocks only while it holds none, and only on the lock that it was just refused, or on the first one if the pile was empty; true means that no lock was released, and false that all locks held at entry were and that the pile has at least two |
| LockPile.Pile.Unlock | pkg/sync/lock_pile.go:123-141 | One acquisition less; the lock is released if it was the last one |
| LockPile.Pile.UnlockAll | pkg/sync/lock_pile.go:146-152 | The pile is empty, and the thread holds nothing |
| LockPile.Insert | pkg/sync/lock_pile.go:44-54 | The lock's count is raised if it is in the pile, and appended otherwise |
| LockPile.InsertedAllShape | pkg/sync/lock_pile.go:44-54 | No lock is in the pile twice, those that were there keep their place, and every lock counts once more per occurrence |
| LockPile.SwappedTimes | pkg/sync/lock_pile.go:103-113 | Moving the contended lock to the front loses nothing |
| LockPileThreads.RunInv | pkg/sync/lock_pile.go:86-152 | Over every interleaving of any number of threads: ownership is exact, and blocked threads hold nothing |
| LockPileThreads.NextInv | pkg/sync/lock_pile.go:86-152 | Every step of any thread keeps this |
| LockPileThreads.HolderNotBlocked | pkg/sync/lock_pile.go:94-118 | A thread that waits holds no lock, and whoever has what it waits for is not blocked and can take a step |
| LockPileThreads.NoDeadlock | pkg/sync/lock_pile.go:86-120 | No cycle in which threads wait for each other, nor any chain longer than one wait, is reachable |
| LockPileThreads.LockReturns | pkg/sync/lock_pile.go:86-120 | For every call and every interleaving with other threads, once it has returned: the pile is exact and held; true means that no lock held at entry was released, false that all of them were |
| LockPileThreads.WaitsForThat | pkg/sync/lock_pile.go:96-118 | A thread that is refused a lock releases what it has and then waits for that one |
| LockPileThreads.UnlockOneTimes | pkg/sync/lock_pile.go:123-141 | Unlock takes back one acquisition, and releases the lock exactly if that was the only one |
| LockPileThreads.FalseWithoutRelease | pkg/sync/lock_pile.go:56-60 | The documentation's claim that false is returned only if locks were released does not hold: for any two or more new locks there is a run, from threads that hold nothing to where the call returns, in which false is returned although nothing was held at entry |
| LockPileThreads.ResultTellsRelease | pkg/sync/lock_pile.go:56-60 | Exactly when it does hold, for every pile and list of new locks, over all reachable states and interleavings: if the pile is not empty, or there is at most one distinct new lock |
| PoolBackedFile.Drive | pkg/filesystem/virtual/pool_backed_file_allocator.go:116-553 | Over all interleavings of writes, truncations, opens, closes, links, unlinks and uploads: users, contents and cached digest are those of a file without reference counts, which can be used as long as anybody uses it and changed as long as it is not frozen; contents do not change while a frozen handle is open; the backing file is closed exactly once, when the last link, descriptor and frozen handle is gone; and a cached digest is that of the contents as long as the backing file changes nothing in calls that report to have had no effect |
| PoolBackedFile.Step | pkg/filesystem/virtual/pool_backed_file_allocator.go:116-553 | Every step keeps this, and is that of the file without reference counts |
| PoolBackedFile.FrozenUntilUnfrozen | pkg/filesystem/virtual/pool_backed_file_allocator.go:116-191 | From when a file is frozen for an upload until that upload closes it, and whatever others do in between, it holds what it held then |
| PoolBackedFile.File.Write | pkg/filesystem/virtual/pool_backed_file_allocator.go:510-529 | The cached digest is dropped exactly if something was written; when it is right afterwards, exactly |
| PoolBackedFile.File.Truncate | pkg/filesystem/virtual/pool_backed_file_allocator.go:475-484 | The cached digest is dropped exactly if the truncation succeeds; when it is right afterwards, exactly |
| PoolBackedFile.TruncateKeepsDigest | pkg/filesystem/virtual/pool_backed_file_allocator.go:475-484 | A truncation leaves a right digest whatever the backing file does if and only if none is cached or nothing is cut off |
| PoolBackedFile.WriteKeepsDigest | pkg/filesystem/virtual/pool_backed_file_allocator.go:510-529 | A write leaves a right digest whatever the backing file does if and only if none is cached or nothing is overwritten |
| PoolBackedFile.StaleDigest | pkg/filesystem/virtual/pool_backed_file_allocator.go:475-484 | That a cached digest always is that of the contents does not hold: a concrete truncation that fails after it has changed the file |
| PoolBackedFile.File.Link | pkg/filesystem/virtual/pool_backed_file_allocator.go:196-205 | Fails exactly if nobody uses the file any longer |
| PoolBackedFile.File.Unlink | pkg/filesystem/virtual/pool_backed_file_allocator.go:207-212 | One reference less; the file is closed if it was the last one |
| PoolBackedFile.File.Open | pkg/filesystem/virtual/pool_backed_file_allocator.go:415-438 | Fails exactly if nobody uses the file any longer; every access counts as a reference |
| PoolBackedFile.File.Close | pkg/filesystem/virtual/pool_backed_file_allocator.go:458-473 | The references are given back; the panic about writable descriptors is not reachable |
| PoolBackedFile.File.OpenReadFrozen | pkg/filesystem/virtual/pool_backed_file_allocator.go:129-138 | Freezes the file, unless nobody uses it any longer |
| PoolBackedFile.File.CloseFrozen | pkg/filesystem/virtual/pool_backed_file_allocator.go:536-553 | One frozen handle less, and one reference |
| OutputDirectories.UploadOutputDirectory | pkg/builder/output_hierarchy.go:221-288 | For every finite directory tree: the bytes decode to a tree that has the root first, every directory exactly once and none missing, and every directory before those it refers to. What is listed is described without reference to how it is built: each message has exactly the files that were uploaded, with names, digests and executable bits, the symbolic links that were read, and the directories that could be read, with the digests of messages that describe them, all in order. The first error is the first thing that went wrong, and there is none exactly if everything below was read and uploaded. The length does not exceed the maximum computed from these directories |
| OutputDirectories.Collector.UploadDirectory | pkg/builder/output_hierarchy.go:354-420 | Every directory in the tree is collected once, after all directories it refers to; the result is its digest; the first error is kept, and what goes wrong does not prevent the remainder from being collected |
| OutputDirectories.MessageDescribes | pkg/builder/output_hierarchy.go:354-400 | The message that is built lists exactly the qualifying entries of a directory, in order and with their attributes, recursively |
| OutputDirectories.OnlyMessage | pkg/builder/output_hierarchy.go:354-400 | It is the only one that does |
| OutputDirectories.NoProblems | pkg/builder/output_hierarchy.go:360-400 | Nothing goes wrong if and only if everything below can be entered, read and uploaded |
| OutputDirectories.NotBelowItself | pkg/builder/output_hierarchy.go:354-420 | No directory has the same message as one above it, so the root is never mistaken for one seen already |
| OutputDirectories.FieldsAreTree | pkg/builder/output_hierarchy.go:236-247 | Reversing the order of collection gives a topologically sorted tree |
| TreeEncoding.BuildTree | pkg/builder/output_hierarchy.go:229-247 | The bytes written are the fields in reverse order, within the precomputed size |
| TreeEncoding.RoundTrip | pkg/builder/output_hierarchy.go:239-247 | Reading back tagged, length-prefixed fields gives the fields that were written |
| TreeEncoding.TreeSize | pkg/builder/output_hierarchy.go:229-239 | The precomputed size is an upper bound for every list of directories |
| Prefetching.RecordAndPrefetch | pkg/builder/prefetching_build_executor.go:204-267 | End to end, for every run of accesses through any number of monitors and all size limits: prefetching succeeds exactly if every directory that the filter leads to can be read and is well-formed, and every file that it contains is there; and then everything accessed that the input root has is prefetched |
| Prefetching.Record | pkg/filesystem/access/bloom_filter_computing_monitor.go:38-227 | Over every run of ReadDirectory, ResolvedDirectory and ReadFile on any number of monitors, exactly the paths that were accessed are recorded |
| Prefetching.AccessedExact | pkg/filesystem/access/bloom_filter_computing_monitor.go:38-227 | Of a run: a path is accessed exactly if it is that of a directory that is read through a monitor, or of a file that is read in such a directory; there are monitors for the root and exactly what is resolved in directories that are read |
| Prefetching.Prefetch | pkg/builder/prefetching_build_executor.go:204-267 | Every recorded path below a directory is reached, and only paths that the filter contains, and that are there, are fetched; it fails exactly if a directory that the filter leads to, or a file that it contains, is missing or malformed |
| Prefetching.UnreadDirectoryMonitor.ReadDirectory | pkg/filesystem/access/bloom_filter_computing_monitor.go:55-66 | The directory is recorded, and recorded paths stay closed under parent directories |
| Prefetching.ReadDirectoryMonitor.ReadFile | pkg/filesystem/access/bloom_filter_computing_monitor.go:221-227 | The file is recorded, likewise |
| Prefetching.ReadDirectoryMonitor.ResolvedDirectory | pkg/filesystem/access/bloom_filter_computing_monitor.go:211-219 | Nothing is recorded until the directory is read |
| Prefetching.AncestorRecorded | pkg/filesystem/access/bloom_filter_computing_monitor.go:55-66 | All directories above a recorded path are recorded |
| BloomFilter.GetBloomFilter | pkg/filesystem/access/bloom_filter_computing_monitor.go:142-188 | The filter has exactly the bits of the recorded hashes set, and the padding bit right behind them; its size is the first in the table of primes that is large enough, or the largest within the limit; the number of hash functions is the optimal one, rounded, but at least one |
| BloomFilter.ChooseSize | pkg/filesystem/access/bloom_filter_computing_monitor.go:151-164 | Likewise; the size is never a multiple of eight, so there is room for the padding bit |
| BloomFilter.Fill | pkg/filesystem/access/bloom_filter_computing_monitor.go:178-186 | Exactly the bits of the given hashes, and the padding bit, are set |
| BloomFilter.ReaderRecoversSize | pkg/filesystem/access/bloom_filter_reader.go:20-46 | The reader accepts every filter of the writer, gets its exact size in bits from the padding bit, and uses all hash functions up to 1000 |
| BloomFilter.ReaderExact | pkg/filesystem/access/bloom_filter_reader.go:20-46 | A filter is refused exactly if it is empty or the last byte has no padding bit above its lowest bit; the padding bit is the highest one that is set |
| BloomFilter.NoFalseNegatives | pkg/filesystem/access/bloom_filter_reader.go:20-58 | Every hash recorded is contained, also if the reader reduces the number of hash functions to 1000 |
| BloomFilter.Contains | pkg/filesystem/access/bloom_filter_reader.go:49-58 | True if and only if all bits of the path are set |
| PathHashes.AppendComponent | pkg/filesystem/access/path_hashes.go:39-52 | The loop over bytes computes the hash of the path with the component appended |
| PathHashes.PathHashIterator.GetNextHash | pkg/filesystem/access/path_hashes.go:69-73 | The n-th call gives the n-th hash of the path |
| PathHashes.HashOfWritten | pkg/filesystem/access/path_hashes.go:10-73 | Although computed name by name, the hash of a path is the 64-bit FNV-1a of the path as it is written, with a slash in front of every name; and further hashes are those of the path followed by slashes |
| DirectoryContents.List | pkg/filesystem/virtual/in_memory_prepopulated_directory.go:910-957 | For a listing in pages that resumes at the last cookie accepted, with attaches and detaches between and within pages: every visible entry that is attached throughout is reported exactly once, in order of cookies; and everything reported was there at the start or has been attached since |
| DirectoryContents.Contents.ReadDir | pkg/filesystem/virtual/in_memory_prepopulated_directory.go:910-957 | One page reports, in order and without gaps, the visible entries from its first cookie on, even if the lock is given up half-way, and only entries that were there at the start or have been attached since; the directory afterwards is what others have made of it |
| DirectoryContents.Contents.GetEntryAtCookie | pkg/filesystem/virtual/in_memory_prepopulated_directory.go:214-222 | The first entry with that cookie or a later one |
| DirectoryContents.Contents.AttachEntry | pkg/filesystem/virtual/in_memory_prepopulated_directory.go:120-140 | Map and list hold the same entries; cookies increase along the list and stay below changeID |
| DirectoryContents.Contents.DetachEntry | pkg/filesystem/virtual/in_memory_prepopulated_directory.go:151-158 | Likewise, without the entry |
| SuspendableClock.Clock.TotalUnsuspendedNow | pkg/clock/suspendable_clock.go:93-102 | The total is the summed length of all intervals without suspensions |
| SuspendableClock.Clock.TotalUnsuspendedWithTime | pkg/clock/suspendable_clock.go:104-111 | Likewise, up to a given time or the last change if that was later |
| SuspendableClock.Clock.Suspend | pkg/clock/suspendable_clock.go:59-69 | The change is accounted for, also while suspended already |
| SuspendableClock.Clock.Resume | pkg/clock/suspendable_clock.go:71-81 | Likewise |
| SuspendableClock.UnsuspendedGrows | pkg/clock/suspendable_clock.go:93-111 | The total never decreases, nor grows faster than time |
| SuspendableClock.UnsuspendedRate | pkg/clock/suspendable_clock.go:59-111 | Between any two changes the total grows as fast as time if nothing is suspended, and not at all otherwise |
| SuspendableClock.RunTimer | pkg/clock/suspendable_clock.go:176-228 | For all durations and all suspensions while a timer runs, stated without the reference WaitedAll: it is stopped if and only if the first wait that decides is a stop; fires if and only if it is an expiry by which more than the duration less the threshold has passed unsuspended; fires at the maximum if and only if it is the timer that bounds the suspension; and is pending if and only if none decides |
| SuspendableClock.TimerResult | pkg/clock/suspendable_clock.go:190-228 | The same of the reference WaitedAll, which says what happens wait by wait |
| SuspendableClock.TimerArmed | pkg/clock/suspendable_clock.go:190-211 | While a timer is pending, it is armed since its last expiry, for what was left then; or since its start, for its duration |
| SuspendableClock.ChangedByAll | pkg/clock/suspendable_clock.go:59-81 | Suspensions and resumptions that are possible all take place |
| SuspendableClock.RearmsBounded | pkg/clock/suspendable_clock.go:190-228 | If no expiry is acted upon after the bound on suspensions, the timer is armed again at most 1 + maximumSuspension / threshold times |
| SuspendableClock.Check | pkg/clock/suspendable_clock.go:197-210 | What is left is the duration less the unsuspended time since the start; the timer fires if and only if that is less than the threshold |

## Left out

- Multi-node tasks: groups of tasks, and how queued groups keep workers parked, are not modelled; every task is for a single node.
- Selection of queues, invocations and operations: size class selection, stickiness of workers to invocations and the order of heaps
  are abstracted to arbitrary choices among what qualifies; which invocation `schedule()` takes a parked worker from is not. What is in the heaps, and where, is exact. The order of the heap of
  invocations with idle workers is not consistent in the original either.
- Invocations as objects: an invocation is identified by its size class queue and its path of keys, and fields of invocations are maps
  from there, so that two objects for the same path can not occur by construction.
- The cleanup queue: timeouts are steps that may happen whenever they are enabled; their timing is not modelled. `RemoveOperation`
  and `RemoveQueue` may thus happen more often than in the original.
- InMemoryBuildQueue.BuildQueue.AddDrain: parked workers are woken up before the drain is added, and those of `TerminateWorkers` before
  they are marked; nobody can tell, as the lock is held.
- InMemoryBuildQueue.BuildQueue.AssignNextQueued: does not say which of the queued operations is taken. Their order depends on expected durations
  that change while an operation exists, and the heaps of invocations compare floating point scores; so heaps are modelled with arbitrary comparisons.
- InMemoryBuildQueue.BuildQueue.CurrentOrNextTask: how often a task was handed out is a flag that says whether to give up.
- InMemoryBuildQueue.BuildQueue.Resume: does not distinguish waiting while parked from waiting for a drain to be lifted, so that it also covers the
  latter for a worker with a task, which does not occur.
- InMemoryBuildQueue.BuildQueue.KillOperation: covers one operation; killing all operations that match a filter is a series of those.
- That every task in flight that may be cached is in the deduplication map: it is not, as background tasks share the digest of the
  task they were created for. Only the direction from the map to the tasks is stated.
- WaitExecution, listing and pagination calls, platform queues and their lookup by prefix, metrics, authorization: easy, or plumbing.
- BuildClient.Drive: how long the scheduler keeps a worker that does not synchronize is not modelled, so that it is not shown that the
  scheduler has forgotten about it after that minute; what an action does while it is executed is a parameter.
- FilePoolRuns.Drive: operations are modelled one at a time, as the original does not lock; a hole source is a value that belongs to its file.
  After the device has failed on a file, its size and the sectors it owns are tracked, but not the bytes it holds.
- BlockDeviceFilePool.File.GetNextHole: states the result for hole sources without data past the size of the file, as the original requires of them.
- BitmapSectorAllocator.Allocator.AllocateContiguous: is for a maximum of at least one, as all callers ask for.
- ByteRangeLockSet.LockSet.Set: is for ranges that are not empty, as the callers guarantee.
- LockPile.Pile.Lock: requires that there is any lock in the pile or to be added, as the original panics otherwise. It terminates because other
  threads contend finitely often; without that, the original may retry forever.
- PoolBackedFile.Drive: waiting until a file is no longer frozen is modelled as the step being disabled until then; waiting for writers before
  a file is frozen has a timeout in the original, so that freezing is always possible here. Attributes, and the failure to compute a digest, are not modelled.
- DirectoryContents: the list of entries is a sequence, so that links between entries are not modelled; renaming, recursive removal
  and initial contents that are fetched lazily are left out.
- OutputDirectories.UploadOutputDirectory: digests and marshalling of messages are functions that are assumed to be injective, and marshalling to succeed; errors
  have no messages, and thus no paths; uploads of the resulting blobs, and output files and symlinks outside of directories, are left out.
- BloomFilter.GetBloomFilter: the number of hash functions is computed over real numbers rather than in floating point.
- Prefetching: the semaphore and the concurrency of prefetching are left out, and so is `Execute()` around it.
- SuspendableClock.RunTimer: times are integers, and the base clock does not go backwards; `NewContextWithTimeout()` has the same loop, and is not modelled
  separately; tickers and the stopping race in `Stop()` are left out.
- The file system access cache, quota enforcement, NFSv4 and FUSE servers, runners and cleaners.
