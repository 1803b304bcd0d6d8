# Colony: pool, chunked files, cache and namespace

Dafny models of the stateful parts of Colony, a distributed file system, with proofs of the
properties those parts exist for. Five components are modelled.

**The thread pool** (`PoolMachine`, `PoolInvariants`, `PoolLedger`, `PoolTheorems`, `PoolHistory`,
`PoolCallers`, `PoolWorkers`, `PoolShutdown`, `PoolTermination`, `ThreadPool`, `Schedulers`). Each critical section under `m_monitor` is one event; a
worker stands at one of six places between two of its critical sections, and a caller of `wait` or
`terminate_all_workers(true)` is blocked un-notified, blocked notified, or gone. Runs interleave all
events freely: `schedule`, `clear`, `resize` with failing thread creation, termination, returning and
throwing tasks, and wake-ups with or without a notification. Counters are 64-bit and wrap around in
the model. `ThreadPool.PoolCore` has the pool's own fields; each of its methods is one critical
section, with the loops of the source, and is proved to do what the event does.

**The chunked file** (`CopyLoop`, `ChunkedFile`, `FileSystem`, `FileClasses`). The copy loop of the
aggregator exists in two forms, as written and as intended; they differ in the test that decides where
a piece ends. The chunk size is any positive number.

**The write-back cache and the location protocol** (`CacheMachine`, `CacheClasses`, `CachedFiles`,
`Location`). Resident and dirty chunks over a store split into the DHT (chunk to host) and the hosts.
`CachedFiles` runs the file operations over the cache, with flushes, evictions and drops in between.
`Location` takes deposit, publish, look-up and fetch apart into separate steps.

**Framing, names and chunk storage** (`Numerals`, `Naming`, `Framing`, `ChunkServer`). The hexadecimal
length header, the on-disk and DHT names of chunks, and a chunk server's files and database.

**The directory namespace** (`Namespace`). Attributes by path on one side, the listing each directory
carries on the other, and six operations that update the two separately.

## What the proofs found

- The test at `aggregator.hpp:360` adds `buffer_start` where the position in the chunk is needed. As
  written, the loop partitions a request exactly if `offset % CHUNK_SIZE + size <= CHUNK_SIZE`
  (`CopyLoop.AsWrittenPartitions`); every other request writes or reads past a chunk or the buffer.
- The recorded file size goes through an `int` (`colonyfs_fusexx.cpp:761`): it is right exactly if the
  end of the request is below 2^31 or inside the file (`FileSystem.GrownSizeIsExact`).
- A cache miss on `operator[]` starts from a blank chunk (`cache.hpp:101-105`). A write is read back
  correctly exactly if each of its pieces finds its chunk resident or overwrites all that the file has
  there but zeros (`CachedFiles.CachedWriteExactly`). The piece of no bytes that a write ending at a
  chunk boundary makes in the next chunk (`aggregator.hpp:356-368`) counts, too.
- `truncate` changes a chunk without marking it dirty (`aggregator.hpp:246-250`). After an eviction a clean
  chunk is back at its old length (`CacheMachine.TruncateSurvivesEvictionExactly`). That is invisible
  as long as no truncate extends a file, since what comes back lies beyond `st_size`
  (`CachedFiles.LongerChunksServe`, `CachedFiles.CachedFilesAreFlatFiles`).
- A caller of `wait` can sleep un-notified although its condition holds, because neither `clear` nor the
  pop of a task notifies callers; these two steps are the only ones to do that, and the exact moments are
  given by `PoolCallers.SomebodyBecomesOverdueExactly`. Nobody is left to notify it exactly if the pool
  has no worker (`PoolCallers.StrandedExactly`).
- `terminate_all_workers(true)` returns while workers are still alive in some continuation exactly if a
  worker is inside the task wait when it is called, that is if the active count is below the worker
  count (`PoolTermination.TerminationLeavesNobodyExactly`).
- The namespace operations check almost nothing they rely on; the exact guard is `Namespace.Permitted`.
  A rename onto itself loses the attributes.
- Flushes of one chunk can overtake each other, so that readers are moved back to an older content.
  Starting a flush can end like that exactly if another flush of the same chunk is under way
  (`Location.FlushMayRegressExactly`); nothing in `dht_task` prevents it.

## Model

| member | source | states |
|---|---|---|
| PoolTheorems.RunKeepsInvariant | src/boost/threadpool/detail/pool_core.hpp:182-445 | in every state of every run, whatever the interleaving, the counters count the workers, sleepers are covered, blocked callers will be notified, and every accepted task is where its history says |
| PoolTheorems.NoWakeupIsLost | src/boost/threadpool/detail/pool_core.hpp:182-195 | if any worker sleeps un-notified, the notified and ready workers suffice for all pending tasks and the pool is not above its target; with a task pending some live worker is awake |
| PoolInvariants.StepKeepsFlow | src/boost/threadpool/detail/pool_core.hpp:329-435 | every event keeps the accounting, no sleeper above target, no lost wake-up, callers served, and joinability together |
| PoolInvariants.WakeThroughReady | src/boost/threadpool/detail/pool_core.hpp:416-431 | leaving the task wait is the same as being ready again and fetching, except that a pending task is preferred to a reduction |
| PoolTheorems.CountersNeverWrap | src/boost/threadpool/detail/pool_core.hpp:369-398 | the worker count is the number of live workers, the active count that of workers outside the task wait, and no `size_t` decrement ever starts from zero |
| PoolTheorems.DeathIsReplaced | src/boost/threadpool/size_policies.hpp:87-90 | a death outside shutdown makes the old worker count the target, and restores count and activity exactly if one thread can be created |
| PoolWorkers.OnlyThrowsKill | src/boost/threadpool/detail/worker_thread.hpp:78-86 | in every run whoever is about to report its death threw at an earlier step; a task that returns never costs its thread |
| PoolWorkers.OnlySurplusExits | src/boost/threadpool/detail/pool_core.hpp:410-423 | in every run whoever is on its way out decided so at a step at which the pool was above its target |
| PoolWorkers.WorkersStay | src/boost/threadpool/detail/worker_thread.hpp:82 | as long as no task throws and the pool is not above its target, every worker ever created is alive and works on |
| PoolWorkers.NewWorkersCome | src/boost/threadpool/detail/worker_thread.hpp:100-107 | every worker a step creates is alive after it and ready to fetch |
| PoolWorkers.ReturnsAndThrows | src/boost/threadpool/detail/pool_core.hpp:437-444 | a worker whose task returned can fetch again at once and the task is finished; one whose task threw can only report its death and the task is thrown |
| PoolWorkers.TheDyingStayDying | src/boost/threadpool/detail/worker_thread.hpp:69-86 | after a throw the worker takes no further task in any continuation |
| PoolWorkers.DecisionsExactly | src/boost/threadpool/detail/pool_core.hpp:410-431 | when a fetching and when a waking worker starts a task, exits or sleeps, each exactly |
| PoolTheorems.EachTaskIsInOnePlace | src/boost/threadpool/detail/pool_core.hpp:433-441 | an accepted task is pending, in flight with exactly the worker that runs it, finished, thrown or cleared, never two of these, and it starts at most once |
| PoolLedger.StepKeepsLedger | src/boost/threadpool/detail/pool_core.hpp:182-223 | no event loses, duplicates or reorders tasks: container, running workers, start history and fates stay in agreement |
| PoolTheorems.StartsInPolicyOrder | src/boost/threadpool/scheduling_policies.hpp:67-79 | the task that starts is the oldest pending one (fifo), the newest (lifo), or one of maximal priority |
| PoolTheorems.FifoStartsInScheduleOrder | src/boost/threadpool/scheduling_policies.hpp:59-70 | over every history of a fifo pool tasks start in the order they were scheduled |
| PoolTheorems.DrainReturns | src/boost/threadpool/detail/pool_core.hpp:241-260 | when `wait(n)` returns, pending plus in-flight tasks are at most n; after `wait(0)` every accepted task is finished, thrown or cleared |
| PoolTheorems.IdlePoolHoldsNoCaller | src/boost/threadpool/detail/pool_core.hpp:424-431 | once all live workers sleep un-notified, every blocked caller has been notified |
| PoolCallers.StepFreesExactly | src/boost/threadpool/detail/pool_core.hpp:219-260 | for each caller and each step: a caller that had to wait is left asleep with its condition true exactly by a `clear` or by a pop that brings the sum down to its threshold |
| PoolCallers.SomebodyBecomesOverdueExactly | src/boost/threadpool/detail/pool_core.hpp:246-260 | from a reachable state in which every sleeping caller must wait, a step leaves one asleep that need not if and only if it is such a `clear` or pop for some caller |
| PoolCallers.OverdueCallersWereFreed | src/boost/threadpool/detail/pool_core.hpp:246-260 | in every run, whoever sleeps although its condition holds was freed by such a step earlier in that run |
| PoolCallers.StrandedExactly | src/boost/threadpool/detail/pool_core.hpp:246-260 | nobody is left to notify a sleeping caller if and only if the pool has no worker, and then the caller is in `wait` |
| PoolCallers.ClearStrandsExactly | src/boost/threadpool/detail/pool_core.hpp:219-223 | a `clear` leaves a sleeping `wait` caller with its condition true and nobody to notify it if and only if the pool has no worker |
| PoolCallers.PopLeavesWaiterAsleep | src/boost/threadpool/detail/pool_core.hpp:433-434 | a concrete run in which a pop makes the condition of `wait(1)` true and leaves the caller asleep, with no `clear` and a live worker |
| PoolCallers.ClearStrandsWaiter | src/boost/threadpool/detail/pool_core.hpp:219-223 | a concrete run in which `clear` makes a waiter's condition true and leaves it asleep in a pool without workers |
| PoolTermination.TerminationLeavesNobodyExactly | src/boost/threadpool/detail/pool_core.hpp:296-321 | every return of a `terminate_all_workers(true)`, in every continuation of the run, leaves no worker if and only if no worker is in the task wait when it is called |
| PoolTermination.TerminationReturns | src/boost/threadpool/detail/pool_core.hpp:296-321 | when the call returns, the workers still alive were in the task wait when it was made and are notified; every other worker, and every one on the join list then, has been joined |
| PoolTermination.TerminationMayLeaveWorkers | src/boost/threadpool/detail/pool_core.hpp:306-320 | a concrete run in which it returns while a worker is alive and not joined |
| PoolTheorems.JoinsCannotDeadlock | src/boost/threadpool/detail/pool_core.hpp:313-319 | no worker on the join list can take another step under the monitor, and each is listed once |
| PoolHistory.FatesOnlyMoveForward | src/boost/threadpool/detail/pool_core.hpp:178-181 | over every run a task goes from pending to in flight to finished or thrown, or from pending to cleared, and never back |
| PoolHistory.ClearedTasksNeverStart | src/boost/threadpool/shutdown_policies.hpp:71-79 | a task pending when the scheduler is cleared is never started in any continuation |
| PoolHistory.DrainedTasksStaySettled | src/boost/threadpool/shutdown_policies.hpp:35-43 | every task accepted before a `wait(0)` returned is settled at that moment and keeps that outcome for good |
| PoolHistory.StartsOnlyGrow | src/boost/threadpool/detail/pool_core.hpp:433-434 | the start history of a run only gets longer, so start order is a property of the whole run |
| PoolShutdown.ShutdownWindsDown | src/boost/threadpool/detail/pool_core.hpp:296-304 | from a terminating state on the target stays 0, the worker count never rises, at most 4 steps per live worker remain, and at most as many tasks start as workers are in the task wait |
| PoolTermination.WaitersStartOnce | src/boost/threadpool/detail/pool_core.hpp:401-435 | from a terminating state on only a worker that was inside the task wait can still start a task, and each at most one |
| PoolTermination.NobodySleepsInShutdown | src/boost/threadpool/detail/pool_core.hpp:417-431 | from a terminating state on no worker is ever asleep un-notified |
| PoolShutdown.WindsDown | src/boost/threadpool/detail/pool_core.hpp:401-431 | every worker step after termination decreases a natural-number measure and no other step increases it |
| PoolShutdown.EveryWorkerCanGoOn | src/boost/threadpool/detail/worker_thread.hpp:78-86 | after termination every live worker has a step of its own that needs no further notification |
| PoolMachine.SomethingPops | src/boost/threadpool/scheduling_policies.hpp:75-79 | a non-empty container always has a task the policy may hand out |
| ThreadPool.PoolCore.Schedule | src/boost/threadpool/detail/pool_core.hpp:182-195 | the container gains the task where the policy puts it, and one sleeper, if there is one, is notified |
| PoolWorkers.ScheduleAddsOne | src/boost/threadpool/detail/pool_core.hpp:182-195 | exactly the new task, with its priority, joins the pending ones, and exactly one sleeper is notified if there is one |
| ThreadPool.PoolCore.Clear | src/boost/threadpool/detail/pool_core.hpp:219-223 | all pending tasks become cleared, and nothing else changes |
| ThreadPool.PoolCore.ResizeWorkers | src/boost/threadpool/detail/pool_core.hpp:329-365 | the creation loop adds workers until the target or the first failure, counting each; a reduction notifies all sleepers |
| PoolWorkers.ResizeHolds | src/boost/threadpool/detail/pool_core.hpp:329-341 | over runs the target is what the last resize asked for, grown or shrunk, successful or not, until it is set anew |
| PoolWorkers.ResizeTakesEffect | src/boost/threadpool/detail/pool_core.hpp:359-362 | and once all live workers sleep there are no more of them than it asked for |
| ThreadPool.PoolCore.Resize | src/boost/threadpool/detail/pool_core.hpp:329-365 | true exactly if the pool is not terminating and has at least the requested number of workers, with the invariant kept |
| ThreadPool.ResizeReaches | src/boost/threadpool/detail/pool_core.hpp:343-364 | the result of `resize` says exactly whether the requested count was reached or is left to the workers to shrink to |
| ThreadPool.PoolCore.Wait | src/boost/threadpool/detail/pool_core.hpp:241-260 | returns only if active plus pending is within the threshold, otherwise the caller blocks un-notified |
| PoolWorkers.CallersReturnExactly | src/boost/threadpool/detail/pool_core.hpp:246-260 | a caller comes back if and only if active plus pending is within its threshold, or for termination nobody is active; otherwise it waits for just that, and no other caller is affected |
| ThreadPool.PoolCore.TerminateAllWorkers | src/boost/threadpool/detail/pool_core.hpp:296-321 | blocks exactly if asked to wait while a worker is active; otherwise joins and empties the list |
| PoolWorkers.TerminationIsFinal | src/boost/threadpool/detail/pool_core.hpp:301-304 | after a termination, waited for or not, the target stays 0, no thread is created and every resize fails, in every continuation |
| ThreadPool.PoolCore.JoinTerminated | src/boost/threadpool/detail/pool_core.hpp:313-319 | every worker on the list is joined, in order, none of them live, and the list is empty |
| ThreadPool.PoolCore.WakeCaller | src/boost/threadpool/detail/pool_core.hpp:246-259 | a woken caller tests its condition again and stays blocked, un-notified, exactly if it must |
| ThreadPool.PoolCore.ExecuteTask | src/boost/threadpool/detail/pool_core.hpp:401-435 | a ready worker exits above target, else takes the policy's task, else sleeps as inactive and notifies the callers |
| ThreadPool.PoolCore.ResumeTaskWait | src/boost/threadpool/detail/pool_core.hpp:417-431 | a worker that leaves the wait counts as active again and goes round the loop, which prefers a task to an exit |
| ThreadPool.PoolCore.WorkerDestructed | src/boost/threadpool/detail/pool_core.hpp:387-398 | the worker leaves both counters, the callers are notified, and it is put on the join list only in shutdown |
| ThreadPool.PoolCore.WorkerDiedUnexpectedly | src/boost/threadpool/detail/pool_core.hpp:369-385 | likewise, and outside shutdown the pool has its old size again if a thread can be had |
| Schedulers.FifoScheduler.Push | src/boost/threadpool/scheduling_policies.hpp:59-63 | the new task is behind all others |
| Schedulers.LifoScheduler.Push | src/boost/threadpool/scheduling_policies.hpp:131-135 | the new task is in front of all others |
| Schedulers.PrioScheduler.Top | src/boost/threadpool/scheduling_policies.hpp:223-226 | no task in the container has a higher priority |
| Schedulers.PrioScheduler.Pop | src/boost/threadpool/scheduling_policies.hpp:215-218 | exactly the task `top` showed leaves, and a maximal one is in front again |
| Schedulers.PrioScheduler.Clear | src/boost/threadpool/scheduling_policies.hpp:248-254 | the draining loop ends with an empty container |
| CopyLoop.IntendedPartitions | src/api/aggregator.hpp:345-374 | for every request the intended loop's pieces are contiguous in the buffer from 0 to size, contiguous in the file from offset, each inside one chunk, and end in the chunk where the request ends |
| CopyLoop.AsWrittenPartitions | src/api/aggregator.hpp:356-374 | the loop as written partitions a request, and cuts like the intended one, if and only if offset % C + size <= C |
| CopyLoop.AsWrittenStrays | src/api/aggregator.hpp:360-361 | otherwise its first piece passes the end of its chunk (size <= C) or its last piece passes the end of the buffer (size > C) |
| CopyLoop.SubtractionsNeverWrap | src/api/aggregator.hpp:358-361 | in neither form, for no request, does an unsigned subtraction of the loop go below zero |
| ChunkedFile.ChunksArePresent | src/api/aggregator.hpp:348-374 | of a represented file every chunk up to st_size / C exists, all but the last are full, and the last reaches st_size % C |
| ChunkedFile.WriteTiles | src/api/aggregator.hpp:381-396 | writing pieces that tile a request turns chunks holding a file into chunks holding the overwritten file, and touches no other file |
| ChunkedFile.ReadTiles | src/api/aggregator.hpp:401-414 | reading pieces that tile a request never misses a chunk or passes its end, and yields exactly the file's slice |
| FileSystem.GrownSizeIsExact | src/fuse/colonyfs_fusexx.cpp:761-762 | the recorded size is the true one if and only if the end fits an `int` or lies inside the file |
| FileSystem.GrownSizeWraps | src/fuse/colonyfs_fusexx.cpp:761-762 | what is recorded otherwise: an end from 2^31 to 2^32 leaves the size alone, larger ends count modulo 2^32 |
| FileSystem.TruncateRepresents | src/api/aggregator.hpp:235-257 | a shrinking truncate leaves chunks that stand for the shorter file, although later chunks stay behind |
| FileSystem.TruncateCuts | src/api/aggregator.hpp:246-250 | a truncate cuts the chunk in which the new size ends, or fills it with zeros, touches nothing else, and fails exactly if that chunk is missing |
| FileSystem.StepRefines | src/fuse/colonyfs_fusexx.cpp:741-766 | every permitted create, write, read, truncate and unlink answers as flat files would and leaves chunks that stand for the flat result |
| FileSystem.WriteRefinesExactly | src/fuse/colonyfs_fusexx.cpp:741-766 | a gap-free write does what a flat write does if and only if it fits its chunk (as written) and its end fits the recorded size |
| FileSystem.ReadRefinesExactly | src/fuse/colonyfs_fusexx.cpp:377-392 | a read answers with the flat file's slice clamped at its size if and only if, as written, the clamped request fits its chunk |
| FileSystem.ReadDelivers | src/fuse/colonyfs_fusexx.cpp:377-392 | a read delivers the file's bytes from the offset on, all that were asked for or all up to the end; beyond the end it delivers nothing |
| FileSystem.ChunkedFilesAreFlatFiles | src/api/aggregator.hpp:235-414 | over every permitted run from an empty file system all answers are those of flat files |
| FileClasses.DataSink.Write | src/api/aggregator.hpp:345-374 | the loop over the chunks does what writing the pieces one after the other does, or stops where that fails |
| FileClasses.DataSink.Read | src/api/aggregator.hpp:345-374 | the loop fills the buffer, from its start and in order, with the bytes of the pieces, or stops where that fails |
| FileClasses.DataSink.Truncate | src/api/aggregator.hpp:235-257 | only the chunk in which the new size ends is resized; without it nothing changes |
| FileClasses.ColonyFs.WriteFile | src/fuse/colonyfs_fusexx.cpp:741-766 | answer, chunks and recorded size are those of the specified write |
| FileClasses.ColonyFs.ReadFile | src/fuse/colonyfs_fusexx.cpp:371-392 | the answer is that of the specified read and its bytes are in the caller's buffer |
| FileClasses.ColonyFs.TruncateFile | src/fuse/colonyfs_fusexx.cpp:636-668 | answer and new state are those of the specified truncate, error paths included |
| FileClasses.ReadFillsBuffer | src/api/aggregator.hpp:345-374 | a read that succeeds, in either form, has delivered exactly the number of bytes asked for |
| CacheMachine.InvalidateIsTransparent | src/cache/cache.hpp:135-148 | flushing a chunk changes no chunk's content, neither the resident one nor what lasts after eviction, only its dirtiness |
| CacheMachine.FlushAndEvictIsTransparent | src/fuse/colonyfs_fusexx.hpp:45-54 | `dht_task` loses nothing that lasts and from a coherent cache changes no chunk's content; afterwards no chunk of the file is dirty, none recorded is resident, and other files are as before |
| CacheMachine.FlushAllIsTransparent | src/cache/cache.hpp:152-171 | flushing the whole cache changes no content and leaves nothing dirty |
| CacheMachine.LoadIsTransparent | src/cache/cache.hpp:57-85 | a lookup changes no content and finds the chunk exactly if it is resident or stored, with its logical value |
| CacheMachine.PurgeLosesExactly | src/cache/cache.hpp:116-126 | evicting a chunk keeps all content if and only if it was clean or was flushed with this very content |
| CacheMachine.StoreUpdatesExactly | src/cache/cache.hpp:90-111 | a write through a possibly missing chunk updates its content if and only if the chunk is resident, or nowhere stored, or overwritten up to leading zeros |
| CacheMachine.TruncateSurvivesEvictionExactly | src/api/aggregator.hpp:246-250 | a truncated chunk has its new length while resident, and after flush and eviction is back at the old one if and only if it was clean and its size changed; no other chunk is affected |
| CacheMachine.CacheIsTransparent | src/cache/cache.hpp:57-171 | over every run of reads, allowed writes, flushes and evictions every chunk reads as from a plain map, and dirty chunks are resident and recorded in `index_map_` |
| CachedFiles.StoresAgree | src/api/aggregator.hpp:419-430 | writing pieces through cache, DHT and hosts has the effect and the failures of writing them into plain chunks, whenever each piece gives the same chunk on both sides |
| CachedFiles.CachedWriteExactly | src/api/aggregator.hpp:345-430 | a permitted write through the cache is read back correctly by every permitted read of the file if and only if each piece finds its chunk resident or overwrites all that the file has there but zeros |
| CachedFiles.LoadsAgree | src/api/aggregator.hpp:435-442 | reading pieces through cache, DHT and hosts yields what a plain map of chunks yields, hit or miss |
| CachedFiles.CachedReadDelivers | src/fuse/colonyfs_fusexx.cpp:377-392 | the same through cache, DHT and hosts |
| CachedFiles.UpkeepStandsFor | src/api/aggregator.hpp:299-322 | flushing a file and evicting it, flushing everything, and dropping a clean cache leave a mount that stands for the same files, even where truncated chunks fall back to their stored length |
| CachedFiles.LongerChunksServe | src/api/aggregator.hpp:246-254 | chunks of a file that were never truncated still represent the shorter file |
| CachedFiles.TruncateStandsFor | src/fuse/colonyfs_fusexx.cpp:636-668 | a shrinking truncate, of a dirty or of an already flushed chunk, leaves both what is read now and what is read after eviction standing for the shorter file |
| CachedFiles.CachedTruncateCuts | src/api/aggregator.hpp:246-250 | through the cache the chunk is fetched if need be and cut there, without being flushed or marked dirty |
| CachedFiles.CachedFilesAreFlatFiles | src/fuse/colonyfs_fusexx.hpp:45-54 | end to end: over every run of file operations, truncates included, interleaved with flushes, evictions and drops, every request is answered as flat files would |
| CacheClasses.BasicCache.ReadDirty | src/cache/basic_cache.hpp:73-90 | finds exactly the dirty chunks; each is still owned by the whole map, so its weak pointer is live |
| CacheClasses.BasicCache.Erase | src/cache/basic_cache.hpp:126-129 | the chunk leaves both maps |
| CacheClasses.DataOnFlush.PreRead | src/cache/policy/DataOnFlush.hpp:43-55 | succeeds exactly if the DHT names a host that holds the chunk, and fetches its bytes |
| CacheClasses.DataOnFlush.OnFlush | src/cache/policy/DataOnFlush.hpp:73-84 | afterwards the chunk is found through the DHT with exactly these bytes, on the chosen host, and nothing else changed |
| CacheClasses.ChunkCache.Lookup | src/cache/cache.hpp:57-85 | the chunk object found or fetched; the cache state is that of the specified load |
| CacheClasses.ChunkCache.WriteChunk | src/api/aggregator.hpp:419-430 | mutating the object create_if_missing returned has the effect of the specified store |
| CacheClasses.ChunkCache.InvalidateKey | src/cache/cache.hpp:135-148 | a dirty chunk is flushed and clean, any other call changes nothing |
| CacheClasses.ChunkCache.InvalidateWhole | src/cache/cache.hpp:152-171 | flushing in a loop and then forgetting all dirt equals flushing the chunks one by one |
| CacheClasses.ChunkCache.DhtTask | src/fuse/colonyfs_fusexx.hpp:45-54 | the two loops over `index_map_` have the effect of the specified flush-then-evict; from a coherent cache no chunk's content changes and nothing of the file stays dirty |
| Location.StepKeepsConsistent | src/cache/policy/DataOnFlush.hpp:43-84 | deposits, publishes, look-ups and fetches in any order, also of concurrent flushes of one chunk, keep every published place holding the chunk at or ahead of the version published last |
| Location.PublishedChunksAreHeld | src/cache/policy/DataOnFlush.hpp:73-84 | in every reachable state the published host holds the chunk, with the content published last or a later deposit |
| Location.ReadsAreNeverStale | src/cache/policy/DataOnFlush.hpp:43-55 | however flushes interleave with it, a read returns a content at least as new as the one its host held, and the one published, when it looked the host up |
| Location.MovesBackExactly | src/cache/policy/DataOnFlush.hpp:77-83 | in any consistent state a publication moves readers back to an older content if and only if the host the DHT names got a deposit of the chunk after the last one on the flush's own host |
| Location.FlushMayRegressExactly | src/cache/policy/DataOnFlush.hpp:73-84 | in any consistent state starting a flush can end with readers moved back if and only if another flush of the same chunk is under way |
| Location.SerialFlushesNeverRegress | src/cache/policy/DataOnFlush.hpp:73-84 | in a run that starts no flush of a chunk while another is under way, every publication makes readers see the newest content there is |
| Location.ConcurrentFlushesCanRegress | src/cache/policy/DataOnFlush.hpp:73-84 | a concrete run in which the flush that deposited first publishes last and readers get the older content |
| Location.TwoFlushesEndExactly | src/cache/policy/DataOnFlush.hpp:77-83 | from any store, of two flushes that both deposit first, the newer content stays if it publishes last, and otherwise if and only if hosts or contents coincide |
| Location.UnpublishedDepositsCount | src/cache/policy/DataOnFlush.hpp:77-83 | readers can be moved back behind a content whose own flush has not published yet |
| Numerals.NumeralRoundTrip | src/intercom/connection.hpp:55-57 | reading a printed number back, in any base up to 16, gives the number |
| Framing.SenderRejectsExactly | src/intercom/connection.hpp:55-64 | the sender refuses exactly the messages of 16^8 bytes and more |
| Framing.HeaderRoundTrip | src/intercom/connection.hpp:103-112 | the receiver's extraction of a padded header gives the length it was made from |
| Framing.HeaderLooksLike | src/intercom/connection.hpp:55-57 | a header is eight characters: blanks, then the length in lower-case hexadecimal without leading zeros |
| Framing.ReceiverRejects | src/intercom/connection.hpp:106-112 | a header of blanks alone, or whose first other character is neither a hexadecimal digit nor a sign, is refused |
| Framing.StreamRoundTrip | src/intercom/connection.hpp:54-71 | any list of sendable messages, sent back to back and followed by anything, is received as that list |
| Framing.BrokenStream | src/intercom/connection.hpp:77-124 | a stream that breaks off anywhere inside a frame yields exactly the whole messages before it, then the end of file |
| Framing.GarbledStream | src/intercom/connection.hpp:106-112 | a bad header ends the stream with an error after exactly the messages before it |
| Framing.Connection.AsyncWrite | src/intercom/connection.hpp:44-73 | one frame more on the wire, or an invalid_argument and nothing on the wire |
| Framing.Connection.AsyncRead | src/intercom/connection.hpp:77-124 | receives exactly the first message of the stream and leaves the rest to be decoded, or reports why there is none |
| Naming.RepresentationIsInjective | src/storage/util.cpp:76-93 | two chunks of normalised absolute paths with the same file on a chunk server's disk are the same chunk, even where leaves contain "__" and digits |
| Naming.RepresentationIsPlaced | src/storage/util.cpp:80-90 | the file of a chunk lies under the storage prefix, in the directory of its uid |
| Naming.RepresentationRoundTrip | src/storage/util.cpp:80-90 | from its name, stripped of the prefix and split at the last slash and the last underscores, uid and chunk number are read back |
| Naming.DhtKeyIsInjective | src/cache/policy/DataOnFlush.hpp:45 | two chunks whose uids do not start with a digit, as no absolute path does, and that share a DHT key are the same chunk |
| Naming.DhtKeysCollideExactly | src/cache/policy/DataOnFlush.hpp:79 | two different chunks share a DHT key if and only if one uid is a number followed by the other and the chunk numbers fit |
| ChunkServer.RetrieveReturnsLastDeposit | src/storage/util.cpp:72-140 | after any deposits of chunks of normalised absolute paths a retrieve returns the last bytes deposited for that very chunk or reports that there are none, and the chunk count is one more than the largest number saved |
| ChunkServer.FilesSayWhatTheyHold | src/storage/util.cpp:80-102 | after any deposits every file of the server lies under its prefix, and its name says of which chunk it holds the last bytes deposited |
| ChunkServer.DepositRefines | src/storage/db.cpp:63-69 | a deposit changes one chunk of the stored map and no other, whatever the names of the others |
| ChunkServer.Storage.Save | src/storage/file.cpp:31-35 | the database names the given file for the chunk, keeps all other names, and counts one more than the largest number, old or new |
| ChunkServer.Storage.Deposit | src/storage/util.cpp:72-103 | the storage holds the same chunks as before, with this one replaced |
| ChunkServer.Storage.Retrieve | src/storage/util.cpp:118-140 | the stored chunk, or inexistent_file_e exactly if it was never deposited |
| Namespace.StepKeepsConsistentExactly | src/fuse/colonyfs_fusexx.cpp:146-711 | from a consistent tree an operation completes with a consistent tree if and only if its permission condition holds: for each of create, mkdir, symlink, rename, rmdir and unlink |
| Namespace.NamespaceStaysConsistentExactly | src/fuse/colonyfs_fusexx.cpp:146-711 | of all runs from the root exactly those whose operations are all permitted stay consistent throughout |
| Namespace.AddExactly | src/fuse/colonyfs_fusexx.cpp:290-329 | adding a path keeps the tree consistent if and only if the path is new and its parent is a directory |
| Namespace.RenameExactly | src/fuse/colonyfs_fusexx.cpp:489-546 | a rename works if and only if the source exists and is no non-empty directory, the target is new, and the target's parent is a directory other than the source |
| Namespace.RemoveExactly | src/fuse/colonyfs_fusexx.cpp:551-586 | removing a path keeps the tree consistent if and only if it is no non-empty directory and its parent has attributes |
| Namespace.StepChangesOnly | src/fuse/colonyfs_fusexx.cpp:489-711 | a permitted operation adds and removes exactly the paths it names, gives a new path the type, owner and target asked for, lets a rename carry the attribute along, and changes of other paths only the parents' listings |
| Namespace.RefusalChangesNothing | src/fuse/colonyfs_fusexx.cpp:686-691 | which permitted operations are refused, for a long name or a foreign owner, and that they leave the tree alone |
| Namespace.OnlyOwnersUnlink | src/fuse/colonyfs_fusexx.cpp:691 | an existing path is unlinked for its owner and for root, and denied to everybody else with the tree unchanged |
| Namespace.LongNamesAreRefused | src/fuse/colonyfs_fusexx.cpp:128-142 | create, mkdir and unlink refuse every name of more than 255 characters and change nothing; no other operation and no shorter name is refused so |
| Namespace.ResultsExactly | src/fuse/colonyfs_fusexx.cpp:146-711 | the result of every permitted operation |
| Namespace.ListingsKeepOrder | src/fuse/colonyfs_fusexx.cpp:146-711 | a new name comes last in its directory, and a removal or rename takes out just one entry and keeps the order of the others |
| Namespace.ListingsAreExact | src/fuse/colonyfs_fusexx.cpp:412-434 | what readdir lists for a directory are its children, all of them, each once |
| Namespace.AncestorsAreDirectories | src/fuse/colonyfs_fusexx.cpp:290-329 | in a consistent tree every prefix of an existing path is a directory |
| Namespace.Directories.Create | src/fuse/colonyfs_fusexx.cpp:146-189 | attribute and parent listing change as specified, or nothing does when the name is too long |
| Namespace.Directories.Mkdir | src/fuse/colonyfs_fusexx.cpp:290-329 | the same for a directory |
| Namespace.Directories.Symlink | src/fuse/colonyfs_fusexx.cpp:590-630 | the link's attribute holds its target and the parent lists it, whatever the name's length |
| Namespace.Directories.Rename | src/fuse/colonyfs_fusexx.cpp:489-546 | the listings and attributes after each way the operation can end, including the half-done one |
| Namespace.Directories.Rmdir | src/fuse/colonyfs_fusexx.cpp:551-586 | the attribute is gone and the parent no longer lists the name |
| Namespace.Directories.Unlink | src/fuse/colonyfs_fusexx.cpp:674-711 | the same for a user who owns the file or is root; otherwise access is denied |

## Left out

- FileSystem.StepRefines: writes that leave a gap and truncates that extend a file are excluded; what stale chunks they expose is not described.
- CachedFiles.CachedFilesAreFlatFiles: writes need the condition of CachedFiles.CachedWriteExactly; after a copy that fails nothing is said about the chunks.
- FileClasses.ColonyFs.WriteFile: after a copy that fails, memory may have been overwritten, and the chunks are unspecified.
- FileClasses.ColonyFs.ReadFile: the class keeps chunks in one map; the cache below it is modelled in CacheClasses.
- PoolTheorems.StartsInPolicyOrder: which of several tasks of equal priority starts is left open, as `std::priority_queue` does.
- Schedulers.PrioScheduler.Pop: the heap inside `std::priority_queue` is one index of a maximal element.
- Namespace.Directories.Rename: paths are sequences of components, and the data of a renamed file (a FIXME in the source) is not moved.
- The Harmony XML-RPC client, its retries and its 16-bit hashed keys: the DHT is a map on full keys.
- Boost.Asio connection set-up, command dispatch, FUSE registration, Boost.Serialization, logging, configuration files: payloads are opaque strings, operations are called directly.
- The spin mutex per key, `CV::Instance` and the `shared_ptr` deleters of the cache: the cache is sequential and the whole map owns its chunks.
- The dirty-clearing of the metadata cache on a per-key invalidate (`cache.hpp:146` erases by raw key): only the chunk instance is modelled.
- `OnDone` of DataOnFlush invalidates a metadata cache that nothing fills.
- The purge of an attribute writes an empty value to the DHT, which counts as absence here.
- Deposits and retrieves are asynchronous in the code and complete when the call returns here; Location separates the steps of a flush, but a deposit itself is one step.
- `CSScheduler` picks hosts at random; every choice of hosts is allowed instead.
- The `int` in which `index_map_` and chunk numbers are kept: chunk numbers are unbounded naturals.
- ThreadPool.PoolCore.Schedule: the pool keeps its container as a sequence handled by policy, not as one of the three scheduler classes, which the source plugs in as a template parameter.
- Renaming a non-empty directory: the children stay at their old paths; it is shown to break consistency, not described further.
- Data rename and erase in the aggregator, which are TODOs.
- Path normalisation (uids with empty, "." or ".." components are not among the inputs of ChunkServer), permission bits, timestamps, disk errors, and user files named like a stored chunk on a chunk server's disk.
- `future.hpp`, looped tasks, timed waits and null tasks of the thread pool, and exceptions that leave `worker_died_unexpectedly`.
- `size_t` sums of request offset and size: requests are assumed not to reach 2^64.
