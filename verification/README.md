# Verified models of fswatcher

fswatcher is a file watcher: platform backends turn native notifications into raw events, a watcher filters them by
the configured roots, and an aggregator merges them per path and delivers them after a quiet period. This project
models the stateful parts of that pipeline and proves what they keep.

Classes mirror the structures that the code updates in place and carry its algorithms, loops included. Their methods
are proved against functions on values, and the laws are proved about those functions, about every reachable state, or
about every run of a step relation whose steps are the mutex-held sections.

## What is modelled

**Aggregation** (`Events`, `DeadlineHeap`, `Aggregator`, `Protocol`, `ProtocolSafety`, `ProtocolTheorems`,
`ProtocolProgress`, `Delivery`, `Intake`). `Events` says what merging means and gives each critical section as a
function on values. `DeadlineHeap` is the binary heap with back-pointers, with the sift algorithms of Go's
`container/heap` over the program's own `Swap`, `Push` and `Pop`. `Aggregator` runs the critical sections over map and
heap and refines them to `Events`. `Protocol` lets event sources, the timer worker, deliveries, consumers and the
closer interleave; its history variables record what was accepted, which blocks were taken and what was sent. `Intake`
and `Delivery` couple the watcher's filters, counters and channels and the aggregator's critical sections to that
protocol, each as one of its steps. Time is read from a clock that never goes back.

**Roots and filters** (`Paths`, `PathTrie`, `RootIndex`, `Watcher`). Paths are byte strings, tokenized by hand as in
the code; the subpath test works on the text of a relative path and is proved to be the strict prefix order on
components. Root lookup walks a linked trie and is proved to be a linear scan of all roots.

**Linux inotify** (`MovePaths`, `Inotify`). Descriptor table, its trie, and directory moves paired by cookie.

**Linux fanotify** (`Fanotify`, `FanotifyInfo`, `ByteOrder`). Reference-counted marks shared by overlapping roots,
with every mark operation allowed to fail, rollbacks included; and the parser of variable-length information records.

**kqueue** (`Kqueue`). The descriptor tables and the open descriptors behind them.

**Small concurrent structures** (`HiddenCache`, `HiddenCacheRuns`, `ScanQueue`, `ScanQueueRuns`). The stamped cache of
hidden attributes and the antichain queue of recovery scans, each with all interleavings of its callers.

Kernels are ghost or explicit sets (marks, open descriptors) that answer from an arbitrary script, so every pattern of
success and failure is covered. Iteration over Go maps picks elements in arbitrary order.

## Findings

- A directory moved out of the watched tree and back within the grace period loses its watch. The first move
  remembers the number of its descriptor; the move back carries another cookie, so it does not complete the first one;
  adding the watch again returns the same number, as the directory is the same; and when the first move expires, the
  live watch goes. `Inotify.MoveAwayAndBack` is this case, `Inotify.MovedAwayAndBack` the same as a sequence of
  operations. `Inotify.RegisteredSurvivesIff` gives the exact condition: no
  expired move that covers the new path remembers the number. `DescriptorInMove` answering no before the registration
  is enough.
- The worker's timer can be set later than the least queued deadline: its delay is computed first and armed later.
  `ProtocolTheorems.BlockedWorkerHasTimer` shows that it is late by exactly the time in between, `TimerInTimeIff` that
  it is in time exactly if that time is zero, and `LateTimer` gives a run for every positive lag and every first event
  whose deadline lies in the future. Late as it is, the timer unblocks the worker once a queued path has been due for
  that time (`ProtocolProgress.DuePathEnablesWorker`).
- `batchAddWatchesLocked` claims to handle duplicates in its input, but tests only against paths already recorded,
  not against the batch itself. Call an entry usable if its path is neither recorded nor ignored.
  `Kqueue.Backend.BatchAddWatchesLocked` shows that the two tables stay inverse if no path occurs twice among the usable
  entries, and exactly then if registration succeeds and none of them is refused. `Kqueue.RepeatedEntry` is a batch
  that fails: any entry twice. No descriptor is lost even so, whatever operations follow, and shutdown closes all of
  them. Directory entries have distinct names, so the one caller meets the condition.
- The scan worker uses the empty string for "nothing pending". `ScanQueueRuns.StallsIff` shows that its step can leave
  other paths queued without a worker exactly if the empty string is queued beside them, and `LosesIff` that it can
  lose a path exactly if only the empty string covers it, which then is relative; `EmptyPathStalls` and
  `EmptyPathLoses` give such runs. Without an empty path neither happens (`PendingHasWorker`,
  `AcceptedStaysCovered`). Nothing in `queueScan` rules the input out; its only caller
  (watcher_darwin_fsevents.go:253) passes on the path that FSEvents delivers, which is not expected to be empty.
- `completeMove` joins strings. `MovePaths.MovedSubstitutesIff` shows that this replaces path components exactly
  unless one of the two directories, but not the other, is the file system root. No event names the file system root
  as an entry that moved.

## Model

| member | source | states |
|---|---|---|
| Events.RendersUnique | event.go:367-384 | a pending entry can be rendered as only one delivered event: strictly increasing types and flags leave no freedom |
| Events.FreshSummarizes | event.go:227-243 | a new pending entry holds exactly the data and the deadline of its one event |
| Events.MergeSummarizes | event.go:201-226 | merging an event keeps the entry the union, greatest identifier and time span of its whole block; the deadline never moves earlier and never passes first event + maximum wait |
| Events.AdmitAfterEvict | event.go:179-243 | drawing the version before or after the eviction comes to the same state |
| Events.VictimIgnoresSequence | event.go:186-200 | who may be evicted does not depend on the version drawn |
| Events.AddsEvicts | event.go:186-200 | an accepted event evicts exactly if its path is new, there is a limit and that many paths are pending; then a path with the least deadline of those queued; every other entry stays as it is |
| Events.AddsMerges | event.go:178-243 | what is then pending under its path: queued under the next version, last seen now, first seen as before, types and flags put together, the greater identifier, and due at the earliest of cooldown, maximum wait from now and maximum wait from the first event |
| Events.RendersExactly | event.go:367-384 | a delivered event has the identifier, the time, exactly the types in ascending and exactly the flags in byte-wise lexicographic order of its entry |
| Events.PoppedOne | event.go:335-342 | popping a due root extends the list of popped paths by exactly that path and its current version |
| Events.PoppedAll | event.go:323-347 | once no due path is queued, the list holds every due path once, with its version, and nothing else |
| Events.PopsDue | event.go:323-347 | what is queued and due leaves the queue and is listed, once and under its version; nothing else changes |
| Sorting.IncreasingUnique | event.go:132-146 | a strictly increasing list is determined by its elements |
| Sorting.Sort | event.go:380-383 | sorting permutes: the result is ascending and holds every element as often as the input |
| Sorting.SortDistinct | event.go:143-145 | sorting a list without duplicates makes it strictly increasing |
| Sorting.StringLessIff | event.go:380-380 | one string sorts before another exactly if it is a proper prefix or has the smaller byte where they first differ |
| DeadlineHeap.SetBit | event.go:119-124 | setting a type's bit in the mask adds that type and no other |
| DeadlineHeap.AggregatedEvent.AddTypes | event.go:119-130 | the recorded types become the union with the new ones, those above the mask's range included |
| DeadlineHeap.AggregatedEvent.AddFlags | event.go:215-220 | the recorded flags become the union with the new ones |
| DeadlineHeap.AggregatedEvent.Coalesce | event.go:205-220 | the node then holds the merge of its entry with the event |
| DeadlineHeap.AggregatedEvent.MaskedTypes | event.go:134-138 | the masked types come out strictly increasing and complete |
| DeadlineHeap.AggregatedEvent.EventTypes | event.go:132-146 | all recorded types, strictly increasing because none is collected twice, also when sorting is skipped for a single extra type |
| DeadlineHeap.AppendAll | event.go:140-142 | the extra types are appended in any order, each once |
| DeadlineHeap.AppendedIncreasing | event.go:140-145 | at most one extra type behind the masked ones needs no sorting |
| DeadlineHeap.Heap.Swap | event.go:97-101 | exchanges two nodes; every node still knows its exact position |
| DeadlineHeap.Heap.RiseOnce | event.go:95-101 | one exchange with a later parent moves the only possible violation up one level |
| DeadlineHeap.Heap.Up | event.go:95-101 | sifting up restores the heap order and touches no node beyond the range |
| DeadlineHeap.Heap.EarlierChild | event.go:95-96 | finds a child with the least deadline among the children |
| DeadlineHeap.Heap.SinkOnce | event.go:95-101 | one exchange with the least child moves the only possible violation down one level |
| DeadlineHeap.Heap.Down | event.go:95-101 | sifting down restores the order if it moved; if not, only the parent edge can still be wrong |
| DeadlineHeap.Heap.PushLast | event.go:103-107 | appends a node and records its position |
| DeadlineHeap.Heap.PopLast | event.go:109-117 | removes the last node and clears its position |
| DeadlineHeap.Heap.Push | event.go:221-222 | adds exactly one node and keeps order and positions |
| DeadlineHeap.Heap.Fix | event.go:223-225 | restores the order after one deadline changed either way |
| DeadlineHeap.Heap.Remove | event.go:372-374 | removes exactly the node at a position, wherever it is, and keeps order and positions |
| DeadlineHeap.Heap.PopMin | event.go:335-338 | removes the root and keeps order and positions |
| DeadlineHeap.Heap.RootIsMin | event.go:91-96 | the root has a least deadline |
| Aggregator.EventAggregator.QueuedIffInHeap | event.go:188-196 | some pending path is queued exactly if the heap is not empty |
| Aggregator.EventAggregator.RootIsEarliest | event.go:188-190 | the heap root is a live map entry with the least deadline of all queued paths |
| Aggregator.EventAggregator.NextDeadline | event.go:314-321 | reads the least deadline of the queued paths, none exactly if nothing is queued |
| Aggregator.EventAggregator.Detach | event.go:372-374 | takes a node out of the heap exactly if it is in it |
| Aggregator.EventAggregator.Unlink | event.go:372-375 | removes one pending path from map and heap; heap, positions and map still agree |
| Aggregator.EventAggregator.TakeEventLocked | event.go:367-384 | takes a path exactly if it is pending and, unless forced, has that version; nothing else changes and the event is the rendering of its entry |
| Aggregator.EventAggregator.AddEventLocked | event.go:178-246 | the whole critical section: evicts exactly if a new path finds as many paths pending as the limit allows, and then an earliest queued one; no other entry changes; then merges or starts, and re-queues |
| Aggregator.EventAggregator.EvictIfFull | event.go:186-200 | evicts exactly if a new path finds as many paths pending as the limit allows, and then the victim allowed |
| Aggregator.EventAggregator.Oldest | event.go:187-196 | an earliest queued path, or any pending path when none is queued |
| Aggregator.EventAggregator.Store | event.go:201-244 | the new state is the merge or the fresh entry under the version drawn |
| Aggregator.EventAggregator.Update | event.go:204-220 | folding an event into its node leaves the heap out of order around that node at most |
| Aggregator.EventAggregator.Refresh | event.go:201-226 | merges in place and restores the heap, also for an entry popped but not yet taken |
| Aggregator.EventAggregator.Requeue | event.go:221-225 | a node with a changed deadline ends in its place in the heap, pushed back if it was popped |
| Aggregator.EventAggregator.Start | event.go:227-243 | starts a pending entry for a path not pending |
| Aggregator.EventAggregator.PopRoot | event.go:335-342 | the root leaves the heap and stays pending |
| Aggregator.EventAggregator.FlushDueLocked | event.go:323-347 | an entry leaves the heap exactly if it is queued and its deadline has come, and is then listed once with its version |
| Aggregator.CollectFlags | event.go:376-380 | the flags in strictly increasing order, each once, none lost |
| Aggregator.RenderNode | event.go:376-384 | the event built from a node is the rendering of its entry |
| ProtocolSafety.MergeUnique | event.go:119-146 | a block of raw events has only one merge |
| ProtocolSafety.RenderingMerges | event.go:367-384 | rendering an entry that summarizes a block gives the merge of that block |
| ProtocolSafety.AddKeepsInv | event.go:162-253 | accepting an event, eviction included, keeps the whole invariant |
| ProtocolSafety.LoopKeepsInv | event.go:262-312 | every section of the timer loop keeps it |
| ProtocolSafety.PopKeepsInv | event.go:323-347 | the pop phase keeps it |
| ProtocolSafety.FlushKeepsInv | event.go:349-365 | each step of the second phase keeps it, whether the version is stale or current |
| ProtocolSafety.CloseKeepsInv | event.go:392-411 | every step of closing keeps it |
| ProtocolSafety.DeliverKeepsInv | event.go:386-389 | a delivery keeps it |
| ProtocolSafety.NextKeepsInv | event.go:162-411 | every step of the protocol keeps it |
| ProtocolSafety.RunInv | event.go:162-411 | it holds in every state of every run |
| ProtocolTheorems.NoPendingEventIsOrphaned | event.go:323-365 | before close every pending path is in the heap or on the worker's list under its current version |
| ProtocolTheorems.StaleVersionsTakeNothing | event.go:367-371 | a listed version that is still current belongs to an entry untouched since it was popped and due |
| ProtocolTheorems.AcceptedEventsSplitIntoBlocks | event.go:201-246 | per path, what was accepted is the blocks of its takes in order plus the pending block, and every delivered event is exactly the merge of its block |
| ProtocolTheorems.PendingDeadlines | event.go:179-210 | every pending deadline is last event + cooldown, capped by first event + maximum wait, for either order of the two |
| ProtocolTheorems.BlockedWorkerHasTimer | event.go:262-312 | blocked without a wake token, the worker has no timer exactly if nothing is queued; else the timer fires at the least queued deadline plus the lag between computing the delay and arming it |
| ProtocolTheorems.TimerInTimeIff | event.go:283-300 | the timer is set at or before every queued deadline exactly if that lag is zero |
| ProtocolTheorems.LateTimer | event.go:283-297 | for any first event whose deadline lies in the future and any positive lag, a run whose timer is late by that lag |
| ProtocolTheorems.EventsAreConserved | watcher.go:622-650 | raw events not refused = filtered + coalesced + processed + dropped + lost + pending + in flight, in every state of every run |
| ProtocolTheorems.AddEvictsIff | event.go:186-200 | in every run an accepting step evicts exactly if a new path finds as many paths pending as the limit allows, then an earliest queued path, and touches no other entry |
| ProtocolTheorems.DeliverDecides | watcher.go:622-650 | a delivery is processed exactly if the event channel has a blocked receiver or room, dropped exactly if it has not and the dropped channel has, else lost; it reaches the end of the buffer or one receiver of that channel, and the other channel stays as it is |
| Intake.Pipeline.HandlePlatformEvent | watcher.go:839-925 | what the filters and the aggregator do with one raw event, counters included, is one protocol step: refused leaves the state, filtered is `Filter`, forwarded is `Add` or, once closed, `Refuse` |
| Intake.Pipeline.AddEvent | event.go:162-253 | the critical section with its coalesced counter is the protocol step `Add`, or `Refuse` once closed; what it evicts is in flight |
| Intake.Pipeline.TakePath | event.go:349-365 | under the lock, a path is taken exactly if forced or not closed, and pending under that version; the delivery count follows |
| Intake.Pipeline.ReadDeadline | event.go:268-282 | reading the heap root is the worker's step at `Reading`, also when nothing is queued |
| Intake.Pipeline.PopDuePaths | event.go:323-343 | the pop phase over map and heap is the step `WorkerPop`, closed or not |
| Intake.Pipeline.FlushNext | event.go:345-365 | one listed path of the second phase is the step `WorkerFlush`, whether it is taken, stale or cut off by close |
| Intake.Pipeline.BeginClose | event.go:394-397 | setting the flag is the first step of `Close` |
| Intake.Pipeline.CollectPaths | event.go:398-405 | collecting what is pending once the worker is done is its second step |
| Intake.Pipeline.DrainNext | event.go:406-408 | one forced flush is a step of `Close`, whether or not the path is still pending |
| Intake.Pipeline.DeliverEvent | event.go:386-389 | sending what any take handed out, and counting it as done, is the step `Deliver` |
| Intake.Pipeline.Follow | watcher.go:860-924 | the step that follows each verdict |
| Intake.Pipeline.CountersAreConserved | watcher.go:622-650 | in every run the fields eventsFiltered, eventsCoalesced, eventsProcessed, eventsDropped, eventsLost, the size of the aggregator's map and the count of deliveries under way add up to the raw events not refused, which the code itself does not count |
| Intake.Pipeline.RootsKept | watcher.go:839-925 | the roots stay valid whatever the aggregator does |
| Intake.StoredIsAdd | event.go:178-246 | the refinement of the critical section is the protocol's accepting step |
| Intake.StoredInFlight | event.go:186-200 | an accepted event puts exactly its evicted event in flight and moves no channel and no delivery counter |
| Intake.FlushIsStep | event.go:345-365 | taking the listed path, or not, is the protocol's second-phase step |
| Intake.DrainIsStep | event.go:406-408 | taking a collected path, or not, is the protocol's draining step |
| Intake.VerdictExtendsRun | watcher.go:839-925 | whatever becomes of a raw event can come next in any run |
| ProtocolTheorems.PendingPathsAreBounded | event.go:186-200 | pending paths never exceed the limit, channels never their capacities |
| ProtocolTheorems.CloseFlushesEverything | event.go:392-411 | when close returns, nothing is pending or in flight, every accepted event was taken in one block and every take delivered once |
| ProtocolTheorems.ClosedAcceptsNothing | event.go:162-170 | nothing is accepted after the closed flag is set |
| ProtocolTheorems.NothingMovesAfterClose | watcher.go:264-287 | after close has returned no event is ever taken or sent |
| ProtocolTheorems.NoSendOnClosedChannels | watcher.go:264-287 | once the channels are closed no delivery is possible |
| ProtocolTheorems.CloseIsNeverStuck | event.go:392-411 | while closing, some party that is waited for can move |
| ProtocolTheorems.CloseTerminates | event.go:392-411 | every such move lowers a well-founded rank, so close returns |
| ProtocolTheorems.EnvironmentKeepsRank | event.go:392-411 | nobody else can raise that rank |
| ProtocolTheorems.WorkerFrame | event.go:262-365 | worker steps accept nothing, and after the flag is set each brings the worker nearer to its exit |
| ProtocolTheorems.RenderingExists | event.go:376-384 | every pending entry can be delivered |
| ProtocolTheorems.EarliestExists | event.go:314-321 | if anything is queued, some queued path has the least deadline |
| ProtocolTheorems.ReadyListExists | event.go:323-347 | in every state some list is what a pop phase hands over: each due path once, under its version |
| ProtocolTheorems.WorkerMove | event.go:262-365 | a worker that is running, not blocked and done with its delivery has a step, wherever it stands |
| ProtocolProgress.WorkerCanStepIff | event.go:262-365 | in every run the worker can step exactly unless it is not running, its own delivery is not finished, or it is blocked with no token, no shutdown and its timer still to come |
| ProtocolProgress.DuePathEnablesWorker | event.go:262-312 | in every run, before close, a queued path due for at least the lag of the timer means that the worker can step unless its own delivery is under way: no due event waits for ever on a blocked worker |
| ProtocolProgress.DuePathComesCloser | event.go:262-365 | every step of the worker pops a due path, under its current version, or lowers a lexicographic rank, so a due path is popped after finitely many worker steps |
| ProtocolProgress.DuePathIsNotPutOff | event.go:162-411 | no other step raises that rank while it leaves the entry alone |
| Delivery.Sink.SendToChannel | watcher.go:622-650 | processed exactly if the event channel has a blocked receiver or room, dropped exactly if it has not and the dropped channel has, else lost; the event goes to the end of that buffer or to one receiver, the other channel stays as it is, exactly one counter moves, and this is the protocol's step `Deliver` |
| Paths.TokensOfJoin | root_index.go:16-29 | splitting undoes joining |
| Paths.RenderIsClean | root_index.go:16-29 | clean absolute paths and name lists correspond one to one |
| Paths.CleanIsClean | root_index.go:76-76 | cleaning an absolute path gives a clean path and leaves a clean one alone |
| Paths.JoinAppends | watcher_linux_fanotify.go:255-255 | joining a name onto a clean directory appends one component; joining "." changes nothing |
| Paths.IsSubpathIff | filters.go:142-151 | on clean paths the text test for a subpath is the strict prefix order on components, so it respects segment boundaries |
| Paths.IsSubpathParts | filters.go:142-151 | for any two paths, clean or not: the child's cleaned components continue the parent's without leading up, and both are absolute or both relative |
| Paths.PartsAreParts | filters.go:142-145 | cleaned components are segments, none is ".", and ".." occurs only at the front of a relative path |
| Paths.PartsAppend | filters.go:142-145 | what one more segment does to the cleaned components: "." nothing, ".." takes the last one away, or stays at the root, or leads up from a relative path, any other is added |
| Paths.CleanKeepsParts | filters.go:30-30 | cleaning any path keeps its components and whether it is absolute; cleaning twice is cleaning once |
| Paths.JoinDotDot | filters.go:149-151 | the text of a relative path begins with a parent segment exactly if its first component is ".." |
| Paths.SubpathIrreflexive | filters.go:142-145 | no path at all is inside itself |
| Paths.SubpathTransitive | filters.go:142-145 | being inside is transitive on all paths |
| Paths.CoversIff | filters.go:142-145 | "equal or inside" is the prefix order on components |
| Paths.DirIff | watcher.go:870-872 | the parent of a path has its components but the last |
| Paths.DirOfClean | watcher.go:870-872 | the text up to the last separator, cleaned, is the parent; the root is its own |
| Paths.DirIsClean | watcher.go:870-872 | the parent of an absolute path is clean |
| PathTrie.Trie.Child | watcher_linux_inotify.go:44-47 | the child for a component; if it is missing it is created under exactly that key, else no node changes |
| PathTrie.Trie.Insert | watcher_linux_inotify.go:36-51 | changes the value at the given components and nothing else |
| PathTrie.Trie.FindNode | watcher_linux_inotify.go:53-68 | finds a node exactly if the components lead to one, and its value is what was inserted there |
| PathTrie.Trie.Unreachable | watcher_linux_inotify.go:61-64 | beyond a missing node there is none |
| RootIndex.PathComponent | root_index.go:16-29 | cuts off exactly the next component |
| RootIndex.RebuildRootIndex | root_index.go:35-56 | a new index holds exactly the roots, each under its components |
| RootIndex.Reach | root_index.go:38-51 | the walk ends at the node under exactly the components of the path, whatever of them was there before |
| RootIndex.InsertRoot | root_index.go:38-53 | sets the value of exactly that root |
| RootIndex.Find | root_index.go:72-93 | returns the value at the longest indexed prefix of the components; none for a relative path |
| RootIndex.Walk | root_index.go:77-92 | the walk down the index ends with the value at the longest indexed prefix |
| RootIndex.Descend | root_index.go:84-90 | one level down keeps the best value that of the longest prefix so far |
| RootIndex.LeavesIndex | root_index.go:84-87 | when the walk leaves the index the best value so far is final |
| RootIndex.LongestIsMostSpecific | root_index.go:72-93 | the lookup equals a linear scan of the roots by equality or subpath |
| RootIndex.MostSpecificUnique | root_index.go:72-93 | that scan has only one answer |
| Watcher.NativeWatchNeeded | watcher.go:824-836 | true exactly if another root equals the path, watches everything below itself and has the path inside, or, on request, is its parent |
| Watcher.InDepthIff | watcher.go:867-877 | a top-level root lets through exactly paths at most one component below it |
| Watcher.AllowedElements | watcher.go:908-914 | the event mask lets through exactly the types it shares with the event |
| Watcher.AllowedAt | watcher.go:909-914 | what is let through are the types at ascending positions, which are exactly the positions of types in the mask: order and repetitions stay |
| Watcher.VerdictIff | watcher.go:860-921 | an event is forwarded exactly if a root covers it, the one with the longest path, and depth, ignore list, both filters and the mask of that root let it pass; only its types change |
| Watcher.FilterTypes | watcher.go:909-914 | the loop keeps exactly the types in the mask, in their order and as often as they occur |
| Watcher.CacheInvalidation | watcher.go:844-858 | creation, removal, renaming and overflow invalidate the whole hidden cache, else a change of attributes its path, anything else nothing |
| Watcher.RootSet.constructor | watcher.go:200-204 | a watcher starts with the last root configured for each path and the last path for each name, and an index that agrees with them |
| Watcher.CollectRoots | watcher.go:200-203 | the loop over the configured roots, later ones winning |
| Watcher.LastOfPathIs | watcher.go:200-203 | which root that is: one with that path and none behind it with the same |
| Watcher.RootSet.AddPath | watcher.go:404-434 | adds a root exactly if running, new and accepted by the backend; the index agrees with the roots after success and after failure |
| Watcher.RootSet.Reserve | watcher.go:410-418 | the first locked section reserves a path exactly if it is free, and the index follows |
| Watcher.RootSet.SetAlias | watcher.go:429-431 | the last one records the name the root was asked for by |
| Watcher.RootSet.DropPath | watcher.go:453-477 | succeeds exactly if running, watched under that path or the target of that alias, and the backend agrees; then that root goes and exactly the aliases that lead to it; failure changes nothing; the index agrees |
| Watcher.RootSet.FindMostSpecificWatchPath | watcher.go:812-817 | the answer is that of scanning all roots |
| Watcher.RootSet.HandlePlatformEvent | watcher.go:839-925 | refused exactly during shutdown; overflow bypasses all filters; otherwise forwarded exactly if every filter of the most specific root passes, with the types the mask shares; the filtered counter moves exactly on a filtered event |
| Watcher.RootSet.Classify | watcher.go:839-921 | the decision without the count |
| Watcher.Judge | watcher.go:867-921 | depth, ignore list, global and own filter and event mask of one root decide |
| MovePaths.MovedSubstitutes | watcher_linux_inotify.go:508-508 | for every path at or under a moved directory the string operation replaces the leading components |
| MovePaths.MoveKeepsOrder | watcher_linux_inotify.go:503-517 | subpath relations among moved paths stay as they were, and distinct paths stay distinct |
| MovePaths.MovedSubstitutesIff | watcher_linux_inotify.go:508-508 | the exact condition under which the string operation is the substitution, the file system root included |
| Inotify.RemainingReaches | watcher_linux_inotify.go:537-537 | waiting the remaining milliseconds reaches the deadline, at most one millisecond late; the number is exact, for deadlines ahead and past |
| Inotify.TimeoutReachesEarliest | watcher_linux_inotify.go:532-566 | after the timeout the earliest move is due and the next expiry leaves strictly fewer moves |
| Inotify.MovedTableKeepsOrder | watcher_linux_inotify.go:503-517 | any two descriptors that a move takes along relate afterwards as before, and keep their components below the moved directory |
| Inotify.RegisteredSurvivesIff | watcher_linux_inotify.go:545-566 | a descriptor registered while moves are in progress survives their expiry exactly if no expired move that covers its path remembers its number; that no move remembers it is enough |
| Inotify.ReplacementSurvivesIff | watcher_linux_inotify.go:480-493 | after one move began, the registered descriptor goes exactly if the move expired, the number was under the old path before, and its directory is under it again |
| Inotify.MoveAwayAndBack | watcher_linux_inotify.go:545-566 | a directory moved away and back under its old number loses its watch when the move expires |
| Inotify.MovedAwayAndBack | watcher_linux_inotify.go:545-566 | the same in operations on the backend: begin the move, register again, expire; the watch is gone from the table and from the kernel |
| Inotify.RegisterAgreesIff | watcher_linux_inotify.go:393-396 | adding a descriptor keeps the index in agreement exactly unless its number was indexed under other components |
| Inotify.IgnoredAgreesIff | watcher_linux_inotify.go:216-226 | dropping a descriptor and clearing its node keeps the agreement exactly if no other descriptor has its path |
| Inotify.Backend.RebuildTrieLocked | watcher_linux_inotify.go:461-468 | the rebuilt index finds a descriptor at a path exactly if some descriptor has that path |
| Inotify.Backend.Register | watcher_linux_inotify.go:393-396 | records a descriptor; for a new number the index still agrees |
| Inotify.Backend.RemoveSubtreeLocked | watcher_linux_inotify.go:470-478 | drops exactly the descriptors at or under a path |
| Inotify.Backend.RemoveWatch | watcher_linux_inotify.go:443-459 | drops exactly the descriptors at or under a root that no other root needs |
| Inotify.Backend.BeginMove | watcher_linux_inotify.go:480-493 | adds one move under its cookie, with its path, exactly the descriptors at or under that path and the deadline 100 milliseconds from now; every other move stays |
| Inotify.Backend.CompleteMove | watcher_linux_inotify.go:495-519 | each remembered descriptor still under the old path gets the destination followed by the rest of its path if a root needs that and it is not ignored, else goes; all others are untouched; the index agrees |
| Inotify.Backend.MoveAll | watcher_linux_inotify.go:503-517 | the loop performs that on all remembered descriptors, in any order |
| Inotify.Backend.MoveOne | watcher_linux_inotify.go:504-516 | and on one of them |
| Inotify.Backend.DescriptorInMove | watcher_linux_inotify.go:521-530 | true exactly if some move remembers the descriptor |
| Inotify.Backend.MoveTimeout | watcher_linux_inotify.go:532-543 | -1 exactly without moves, else the least remaining time |
| Inotify.Backend.ExpireMoves | watcher_linux_inotify.go:545-566 | exactly the moves past their deadline go, and exactly the numbers that one of them remembers and whose path is at or under its path; everything else stays; the index is rebuilt if a number went |
| Inotify.Backend.ExpireAll | watcher_linux_inotify.go:549-562 | the loop over the moves does that, in any order |
| Inotify.Backend.ExpireOne | watcher_linux_inotify.go:553-560 | and the loop over one move's descriptors |
| Fanotify.BalancedTake | watcher_linux_fanotify.go:454-456 | a root taking directories it did not own is one more owner of each, and counts stay owner counts plus leaks |
| Fanotify.BalancedGive | watcher_linux_fanotify.go:465-474 | a root giving directories up is one owner less of each |
| Fanotify.BalancedLeak | watcher_linux_fanotify.go:502-505 | what a failed registration could not roll back is exactly what leaks |
| Fanotify.BalancedNewRoot | watcher_linux_fanotify.go:502-508 | registering a root makes it an owner of what it took |
| Fanotify.BalancedDropRoot | watcher_linux_fanotify.go:614-615 | a root that owns nothing can be unregistered |
| Fanotify.OwnedIsMarked | watcher_linux_fanotify.go:437-617 | a directory some root owns is marked and counted at least once per owner |
| Fanotify.ExactWithoutLeaks | watcher_linux_fanotify.go:437-617 | without leaks a directory is marked exactly if some root owns it, and counted once per owner |
| Fanotify.RefsDetermined | watcher_linux_fanotify.go:437-476 | equal counts mean equal tables and equal marks |
| Fanotify.RolledBack | watcher_linux_fanotify.go:446-453 | a rollback leaves exactly the stuck directories counted, none of which was marked before |
| Fanotify.Kernel.AddMark | watcher_linux_fanotify.go:446-446 | one answer of the kernel; success exactly if it accepts |
| Fanotify.Kernel.RemoveMark | watcher_linux_fanotify.go:467-469 | one answer of the kernel; success exactly unless it is a failure: that there is no such mark is none |
| Fanotify.Backend.ReleaseDirectoryLocked | watcher_linux_fanotify.go:461-476 | gives up one reference, and the mark with the last one, by one answer of the kernel; fails exactly if that answer is a failure, which a missing mark is not, and then changes nothing |
| Fanotify.Backend.ReleaseEach | watcher_linux_fanotify.go:447-451 | the rollback loop releases everything but the directories it names |
| Fanotify.Backend.ReleaseAll | watcher_linux_fanotify.go:478-489 | the same over a set in any order |
| Fanotify.Backend.AddDirectoryLocked | watcher_linux_fanotify.go:445-457 | takes one directory, asking the kernel once exactly if it has no mark; fails exactly if that mark is not accepted, and then changes nothing |
| Fanotify.Backend.AddDirectoriesLocked | watcher_linux_fanotify.go:437-459 | all or nothing: a failed mark with successful rollback restores directories, counts and marks exactly; otherwise precisely the stuck directories stay |
| Fanotify.Backend.Take | watcher_linux_fanotify.go:437-459 | the same on a registered root, keeping the ownership invariant without a leak; succeeds if every answer to come accepts |
| Fanotify.Backend.Give | watcher_linux_fanotify.go:478-489 | giving up directories keeps the ownership invariant; if no removal to come fails, all of them go |
| Fanotify.Backend.AddWatch | watcher_linux_fanotify.go:491-510 | refuses a known root; registers all directories or nothing; only a failed rollback leaks, and exactly the stuck directories |
| Fanotify.Backend.AddDirectoryTree | watcher_linux_fanotify.go:526-535 | every root gains all the directories exactly if it watches everything below itself and covers the path, up to the first that cannot take one, which is left as it was but for the directories whose rollback failed; none fails if every answer to come accepts |
| Fanotify.Backend.RemoveDirectoryTree | watcher_linux_fanotify.go:538-548 | no root loses a directory elsewhere, whatever fails; at or under the path only directories whose mark could not be removed remain; success exactly if none does, as is the case if no removal to come fails |
| Fanotify.Backend.ReconcileRoot | watcher_linux_fanotify.go:569-587 | a root ends with what the scan found plus what it could not give up, or, if a mark failed, with what it kept; the removals that failed are exactly those named; with a kernel that accepts, it owns exactly what the scan found |
| Fanotify.Backend.CloseMarks | watcher_linux_fanotify.go:591-601 | tries to remove every mark and forgets everything; the marks left are exactly those whose removal failed, so none if no removal to come fails |
| Fanotify.Backend.RemoveWatch | watcher_linux_fanotify.go:603-617 | unregisters the root exactly if all it owns was released, as it is if no removal to come fails; else it stays, owning exactly the directories whose mark could not be removed |
| ByteOrder.DecodedEncoded | watcher_linux_fanotify.go:223-246 | a number that fits its width survives encoding, in either byte order |
| ByteOrder.EncodedDecoded | watcher_linux_fanotify.go:223-246 | bytes survive decoding, and decode to a number that fits |
| ByteOrder.ByteAt | watcher_linux_fanotify.go:223-246 | the byte of weight 256 to the k stands at position k from the front in little-endian order, from the back in big-endian order |
| ByteOrder.Limits | watcher_linux_fanotify.go:223-246 | the widths in use hold 16, 32 and 64 bits |
| FanotifyInfo.ParseInfo | watcher_linux_fanotify.go:217-263 | the loop terminates, stays in bounds and computes the parsing function, whatever each resolution in turn answers; if the buffer begins with a record of a named entry in a clean directory, the result is the clean path with the directory's components and one more, which has exactly the bytes of the name |
| FanotifyInfo.TextSpells | watcher_linux_fanotify.go:255-255 | the text of a name has the characters with its bytes as codes, in order |
| FanotifyInfo.AsInt32Congruent | watcher_linux_fanotify.go:246-246 | the kind of a handle is the signed number with the same 32 bits |
| FanotifyInfo.ParseNamed | watcher_linux_fanotify.go:223-256 | the same for a record found there after any others: type 2 in byte 0, length in bytes 2 and 3, file system from byte 4, handle size from byte 12, handle kind from byte 16, handle from byte 20, then the name up to a zero byte |
| FanotifyInfo.FrontDecides | watcher_linux_fanotify.go:219-258 | every other front of a buffer, byte by byte: which error it gives, or how the parse goes on behind it |
| FanotifyInfo.NamedGivesEntry | watcher_linux_fanotify.go:247-256 | a named record behind any list of unnamed ones gives the path of its entry in the directory that its own resolution answers |
| FanotifyInfo.BehindIs | watcher_linux_fanotify.go:249-249 | each record of a known kind asks for one resolution, in order |
| FanotifyInfo.IndexOfZero | watcher_linux_fanotify.go:251-254 | finds the first zero byte, none exactly if there is none |
| FanotifyInfo.ReadEncoded | watcher_linux_fanotify.go:228-258 | reading an encoded record yields its fields, name and padding told apart |
| FanotifyInfo.ParseRecord | watcher_linux_fanotify.go:219-258 | one record in front decides one step, whatever follows it |
| FanotifyInfo.ParseUnnamed | watcher_linux_fanotify.go:259-262 | without a named record the last resolved path is the result, an error if there is none |
| FanotifyInfo.FallbackIsLast | watcher_linux_fanotify.go:257-258 | the fallback is what the last record of a known kind resolves to |
| FanotifyInfo.ParseDecides | watcher_linux_fanotify.go:247-256 | the first named or unresolvable record decides, by the answer its own resolution gets, and nothing behind it is looked at |
| FanotifyInfo.ParseTruncated | watcher_linux_fanotify.go:219-226 | a list cut inside any record is rejected, with the error that fits |
| FanotifyInfo.ParseOfEncoding | watcher_linux_fanotify.go:217-263 | parsing an encoded list gives what the list stands for |
| FanotifyInfo.RecordOf | watcher_linux_fanotify.go:226-258 | a well-delimited stretch of bytes that can be read is the encoding of a well-formed record |
| FanotifyInfo.AcceptedIsEncoded | watcher_linux_fanotify.go:217-263 | every accepted buffer encodes a list of well-formed records that stands for the result |
| Kqueue.TablesAfter | watcher_kqueue.go:398-405 | recording opened paths keeps every path's descriptor known by that path |
| Kqueue.InverseIff | watcher_kqueue.go:398-405 | recording new paths keeps the tables inverse exactly if no path is recorded twice |
| Kqueue.Backend.OpenPath | watcher_kqueue.go:462-474 | takes the first answer of the kernel if that is a descriptor not in use, else, if there is a second mode, the second answer, else nothing; without success nothing stays open |
| Kqueue.Kernel.Register | watcher_kqueue.go:390-390 | one answer of the kernel, and its success |
| Kqueue.Backend.AddSingleWatchLocked | watcher_kqueue.go:452-498 | watches a path unless watched or ignored; fails only if the kernel refuses, and then leaves tables and open descriptors as they were; keeps inverse tables inverse, and loses no descriptor if they are not |
| Kqueue.Backend.OpenEntries | watcher_kqueue.go:348-384 | of the entries neither watched nor ignored, each is opened once on a fresh descriptor or refused by the kernel; if none is refused, those opened are exactly these entries, in order |
| Kqueue.Backend.CloseAll | watcher_kqueue.go:392-394 | closes each of them exactly once |
| Kqueue.Backend.RecordAll | watcher_kqueue.go:399-405 | records them in order |
| Kqueue.DirsExactly | watcher_kqueue.go:402-404 | exactly the directories among what was opened are recorded as such |
| Kqueue.OthersKept | watcher_kqueue.go:399-405 | recording leaves every other descriptor and path alone |
| Kqueue.LastOpenedWins | watcher_kqueue.go:399-405 | a path ends with the descriptor that was opened for it last |
| Kqueue.ServedDistinctIff | watcher_kqueue.go:348-384 | if the kernel refused none, no path was opened twice exactly if no path occurs twice among the usable entries |
| Kqueue.UsableIff | watcher_kqueue.go:349-352 | what a batch is asked to open is every entry neither recorded nor ignored, and nothing else |
| Kqueue.UsableAt | watcher_kqueue.go:348-356 | those entries are asked for in their order and as often as they occur |
| Kqueue.Backend.BatchAddWatchesLocked | watcher_kqueue.go:332-408 | no descriptor is lost and a failed registration undoes all; the tables stay inverse if no path occurs twice among the usable entries, and exactly then if registration succeeds and the kernel refuses none of them |
| Kqueue.RepeatedEntry | watcher_kqueue.go:332-408 | for any entry, a batch that holds it twice leaves the tables not inverse, with every descriptor still tracked |
| Kqueue.Backend.Drop | watcher_kqueue.go:323-326 | closes and forgets one path; loses no descriptor, also after a repeated path |
| Kqueue.Backend.RemoveKqueuePathLocked | watcher_kqueue.go:319-329 | forgets exactly what lies at or under the cleaned path, closing each descriptor once; loses no descriptor, also after a repeated path |
| Kqueue.Backend.RemoveWatch | watcher_kqueue.go:501-515 | forgets exactly what lies at or under the cleaned root and no other root needs; loses no descriptor, also after a repeated path |
| Kqueue.Backend.Cleanup | watcher_kqueue.go:84-102 | every open descriptor is closed exactly once |
| HiddenCache.InvalidationAdvances | filters.go:67-93 | an invalidation makes the stamps it covers strictly later, no stamp earlier, and leaves no answer for what it covers |
| HiddenCache.StoredIsFound | filters.go:45-63 | a stored answer is found; other answers are lost only to a reset |
| HiddenCache.StoredExactly | filters.go:50-62 | an answer is stored exactly if its stamp is the current one; below 8192 entries nothing else changes, at the bound everything else goes |
| HiddenCache.InvalidatedExactly | filters.go:67-93 | below the bound invalidating a path leaves the answers and stamps of all others alone; at the bound everything goes |
| HiddenCache.InvalidatedKeeps | filters.go:67-87 | invalidations keep both maps bounded and no entry stamped later than its path |
| HiddenCache.StoredKeeps | filters.go:50-62 | so does storing |
| HiddenCache.HiddenAttributeCache.Probe | filters.go:30-41 | answers exactly if the entry carries the current stamp of its path |
| HiddenCache.HiddenAttributeCache.Store | filters.go:45-63 | stores exactly if the stamp is still current; below the bounds it adds one entry and changes nothing else, at a bound it starts over with that entry |
| HiddenCache.HiddenAttributeCache.InvalidatePath | filters.go:67-80 | below the bound forgets the one path and advances its generation by one; at the bound starts over |
| HiddenCache.HiddenAttributeCache.InvalidateAll | filters.go:82-87 | advances the cache-wide generation by one, forgets those of paths and keeps the values |
| HiddenCache.HiddenAttributeCache.ResetLocked | filters.go:89-93 | forgets everything under a new generation |
| HiddenCacheRuns.SoundKept | filters.go:29-93 | whatever happens, a lookup under a stamp that is still current began after the last invalidation of its path |
| HiddenCacheRuns.StepKeepsInv | filters.go:29-93 | every action keeps all entries and all lookups under way sound |
| HiddenCacheRuns.RunInv | filters.go:29-93 | so they are sound in every run |
| HiddenCacheRuns.AnswersAreFresh | filters.go:29-64 | every answer in every run comes from a lookup begun after the last covering invalidation, and is right if nothing changed since that invalidation |
| HiddenCacheRuns.CacheIsBounded | filters.go:50-62 | both maps stay within 8192 entries in every run |
| HiddenCacheRuns.StampsOnlyGrow | filters.go:67-93 | in every run stamps never fall back and rise at every covering invalidation |
| ScanQueue.QueueKeepsAntichain | watcher.go:664-672 | queueing keeps pending paths an antichain |
| ScanQueue.QueueCovers | watcher.go:664-672 | queueing covers the new path and loses nothing covered before |
| ScanQueue.NothingBetween | watcher.go:664-671 | a path covered by a pending one covers none itself, so returning in the middle of the loop loses nothing |
| ScanQueue.Queue.QueueScan | watcher.go:655-677 | the loop that deletes while it ranges and may return early: unless shut down or covered by a pending path, the path is added and exactly the pending ones inside it go; a worker starts exactly if a path was queued and none runs |
| ScanQueue.Queue.TakeNext | watcher.go:681-693 | takes some pending path; the empty string ends the worker |
| ScanQueueRuns.StepKeepsInv | watcher.go:655-697 | every section of callers, worker and shutdown keeps the invariant |
| ScanQueueRuns.RunInv | watcher.go:655-697 | it holds in every run |
| ScanQueueRuns.AcceptedStaysCovered | watcher.go:664-672 | every accepted absolute path stays covered by a pending one until a scan of it or of a path above it starts; so does a relative one unless the empty string was queued |
| ScanQueueRuns.PendingHasWorker | watcher.go:673-692 | unless the empty string was queued, a non-empty queue has a registered worker |
| ScanQueueRuns.StallsIff | watcher.go:682-692 | a worker's step can leave the queue without a worker exactly if the empty string is queued beside another path |
| ScanQueueRuns.EmptyPathStalls | watcher.go:682-692 | a run in which that happens |
| ScanQueueRuns.LosesIff | watcher.go:682-692 | a worker's step can leave a path owed but no longer covered exactly if only the empty string covers it |
| ScanQueueRuns.EmptyPathLoses | watcher.go:682-692 | a run in which that happens; the path is then relative |
| ScanQueueRuns.NoRegistrationAfterBarrier | watcher.go:269-277 | past the barrier no worker is registered again |
| ScanQueueRuns.NothingScansAfterWait | watcher.go:269-277 | once shutdown has waited no worker is left and none comes back |
| ScanQueueRuns.WaitTerminates | watcher.go:269-277 | past the barrier a registered worker can always go on, and every step leaves less to do, so the wait ends |

## Left out

- System calls, event loops, epoll, eventfd, FSEvents and Windows: results are arbitrary, kernels are sets.
- Directory walks, `Stat`, symlinks, pattern filters and the ignore lists: their results are parameters.
- The mount cache of fanotify: the n-th resolution of a handle answers anything.
- Fanotify.Backend.AddDirectoryTree: begins after the hidden-path test and the walk; both only decide whether it is called and with which directories.
- Fanotify.Backend.AddWatch: takes its root and its directories cleaned, as the walk delivers them; so do the other operations on roots.
- Fanotify.Backend.CloseMarks: that the kernel drops remaining marks with the group is not part of the model.
- Fanotify.Kernel: "no such mark" counts as a successful removal, as in the code; other errors are one failure.
- Inotify.Backend.Register: exact agreement of the index needs a number not in use; `RegisterAgreesIff` and `IgnoredAgreesIff` give the exact conditions for single edits.
- Watcher.RootSet.HandlePlatformEvent: the in-place reuse of the slice of types is a new sequence here.
- Intake.Pipeline.HandlePlatformEvent: says what becomes of the cache of hidden attributes in `Watcher.CacheInvalidation` only.
- Intake.Pipeline.AddEvent: the wake token, the timer and where worker and closer stand are held in the protocol state only, not in fields; `run` is a step relation, not a loop.
- HiddenCacheRuns.AnswersAreFresh: an endlessly invalidated path may be looked up for ever; nothing is claimed about that.
- ProtocolProgress.DuePathComesCloser: bounds the worker's own steps; that the scheduler lets it run, and that no merge moves the deadline, is the reader's assumption (`PendingDeadlines` caps the latter).
- ProtocolTheorems.CloseTerminates: counts steps of the awaited parties; fairness of the scheduler is assumed by the reader.
- ProtocolTheorems.AcceptedEventsSplitIntoBlocks: orders takes, not arrivals on a channel, since deliveries run outside the lock.
- Wrap-around of 64-bit sequence numbers, identifiers and generations, and of nanosecond times.
- Statistics rates, logging, options, configuration checks, error texts, backoff and `uniqueEventTypes`.
