# drumlin: models and proofs

drumlin is a C++ framework of threads that exchange events, with a pooled buffer allocator, a cache
that publishes buffers to subscribers, and some text utilities. These Dafny files model five of its
parts and prove what each of them is there to guarantee, over all inputs, all runs and all
interleavings; where the code falls short of a guarantee, the exact condition under which it holds is
proved instead.

- **The pooled heap** (`Heap`, `HeapRuns`, `Capacity`, `HeapObject`). A free-list allocator over one
  malloc'd region. Every run of it refines an abstract pool of live and freed addresses; slots are
  aligned, disjoint and inside the region; the counter, the number of slots carved and the capacity
  are known exactly; `registerUse` always makes a region big enough for its queue.
- **The buffer cache** (`Cache`, `Acceptors`, `BufferCache`). Replay and live publishing together give a
  subscription each block exactly once; an acceptor receives what its own subscriptions are due; clearing erases by value, and exactly when that removes the
  matching entries only is proved.
- **The thread lifecycle** (`Lifecycle`, `Stop`, `LifecycleLimits`, `ThreadsGone`, `Cascade`,
  `CloseDown`, `Application`). A state machine of one application thread, any number of worker threads
  and their users, one step per locked region. Which runs are safe is known exactly, and so is when a
  Close event ends in `exec` returning 0. The class `Application` has the fields and loops of the
  source and records each call as steps of that machine, so what is proved of all runs holds of it.
- **Text** (`StringList`, `Regexen`, `ByteArray`). Splitting, joining, substring splitting through a
  marker, substitution of regular-expression captures, and the NUL-separated codec.
- **The tracer** (`Tracer`). Interning of frame names.

`Words` (machine integers), `CString` (NUL-terminated strings) and `Wrappers` are shared.

Code that updates fields or loops is a class or a method with invariants, proved equal to a function
on values; the theorems are about those functions. Addresses and sizes are natural numbers, and
wrap-around and truncation are written out where the source has them.

`dafny verify dfyconfig.toml` checks everything.

## What the code does differently from what it says or means

- `heap_t::alloc` takes `blocks.back()` of an empty list (allocator.cpp:64); `remaining` is taken to be
  `max` then, and `Heap.Inv` shows that the pointer itself never comes from an empty list. Its
  `do`/`while` returns on the first pass, so `total` bounds nothing. Its comment says that a new slot's
  mark equals the slot's address; the code stores the unrounded pointer.
- The eight spare bytes a slot do not cover every alignment above eight (`Capacity.SixteenStarves`;
  `Capacity.StarvedExactly` says when they do), and a region of 2 GiB or more is stored with a wrong
  size (`Capacity.StoredSizeExact`), which can be negative (`Capacity.OverflowLosesRegion`).
- Registering a user twice makes a second heap that the map does not hold
  (`HeapObject.Allocator.RegisterUse`).
- `removeThread` never erases what `std::remove` leaves behind. With the erase, ThreadsGone is posted at
  the last removal (`ThreadsGone.ErasedFires`); as written, if and only if the thread added last is
  removed last (`ThreadsGone.WrittenFires`). The lifecycle is modelled with the erase.
- `stop` tests `!isStarted()`, which is also true of a thread that has finished or is about to: its
  removal is posted a second time, and it is deleted twice (`LifecycleLimits.NotReadyIsNotUnstarted`)
  or while it is still in its run function (`LifecycleLimits.DeletedInside`). Both readings of the test
  are modelled. Read as "never started", every disciplined run is safe (`Stop.DisciplineSafe`); as
  written, a disciplined run is if and only if `stop` happens to visit only threads that are ready or
  never started (`Stop.WrittenExactly`).
- A disciplined run is one without the following: two Close events delete a never-started thread twice,
  and so does starting a thread again after it finished; a thread started after `stop` passed it by is
  deleted while it runs, and so is one started again between resetting `m_ready` and posting its
  removal; a thread added after ThreadsGone outlives `exec`, and so does any thread when Shutdown is
  posted from outside, as `handleSignal` does (`LifecycleLimits`).
- The loop of `exec` tests `interruption_requested()`, so an interruption that is pending there ends it
  without an exception: `exec` returns 0, removes no thread and posts nothing
  (`LifecycleLimits.InterruptedAtTest`). One that is thrown, before the queue is looked at or while the
  loop sleeps, gives 1 and a Shutdown. The first is a hazard whenever a thread is left.
- A worker that nobody interrupts leaves its loop only when it is told to, and `stop` tells only those whose type is above the
  first one. So a Close event ends in 0, each thread deleted once, if and only if some thread was ever
  added, and every thread that never started, or runs and was not told to leave, has a worker and a type
  that `stop` visits (`CloseDown.CloseCompletes`). Otherwise `exec` never returns
  (`CloseDown.NeverReturns`): a started thread of the first type turns in its loop for ever, and `exec`
  polls for ever with it (`CloseDown.NobodyTells`).
- `clearAllocated` looks for the entries to erase with `operator==`, which ignores the name of the
  source. A filter on that name, such as `SourcesOnly`, can take an entry with it that it does not match
  (`BufferCache.NameErases`); it does not if and only if no unmatched entry equals a matched one
  (`BufferCache.ErasedByValue`).
- `drumlin_regex::replace` takes the tail of the haystack as a C string and loses what follows a NUL
  byte (`Regexen.AtOnceExactly`). Nested captures make `iterate_impl::replace` repeat text
  (`Regexen.UnchangedExactly`).
- The NUL byte cannot be split on (`StringList.NulSplitsNothing`), and without compression the two-byte
  marker shows as an empty token at every delimiter (`StringList.SubstringSplitOff`). The source is taken
  to be UTF-8, so the marker is the bytes C2 AC. The loop that puts it in never ends when the delimiter
  occurs and is empty, one of those bytes, or the marker itself, and ends otherwise
  (`StringList.LoopEndsExactly`). Splitting on the marker looks at single bytes, so text that holds a
  C2 or AC byte, as the section sign (C2 A7) and the euro sign (E2 82 AC) do, is cut inside a character.
  For a delimiter that keeps clear of the marker the pieces are right if and only if none holds such a byte
  (`StringList.SubstringSplit`); one that does not keep clear can be completed by the marker put in, and
  a byte of the text is lost (`StringList.CutsTooMuch`). When no delimiter arises in that way, the same
  holds of any delimiter; and without compression, of one that does not begin with a marker byte, the
  pieces are right only then (`StringList.SubstringSplitOffExactly`).
- `operator+=` and the copying `operator=` of `byte_array` return the object by value, and the copy
  constructor calls that `operator=` (byte_array.cpp:19-23, 68-73, 92-96): after appending, the call
  recurses without end. What is modelled of `+=` is its first statement, the append.
- A trace block that begins with a newline records nothing, and the line loop runs off a block that
  neither begins nor ends with one (`Tracer.RecordedInFull`, `Tracer.LoopStaysInside`).

## Model

| member | source | states |
|---|---|---|
| Heap.RoundUp | allocator.cpp:70 | the least aligned address not below the pointer |
| Heap.StdAlignFits | allocator.cpp:70 | `std::align` gives the lowest aligned address at which the object lies inside the space, and fails only when no aligned address will do |
| Heap.FirstFreed | allocator.cpp:42-51 | the scan stops at the first slot that is free, or at the end if none is |
| Heap.FirstLiveAt | allocator.cpp:97-99 | the scan stops at the first live slot with that address, or at the end |
| Heap.SlotClosedForm | allocator.cpp:58-71 | slot k lies at `memory + k * roundup(size, align)` |
| Heap.Layout | allocator.cpp:58-84 | the invariant means: addresses strictly increase, slots are disjoint, aligned and inside the region, and the unsigned subtraction does not wrap |
| Heap.CarveStep | allocator.cpp:58-84 | with nothing to reuse, `alloc` carves exactly the next slot if it fits, and otherwise returns null and only counts |
| Heap.ReuseStep | allocator.cpp:52-57 | otherwise it returns the lowest freed address and moves just that one from freed to live |
| Heap.AllocKeeps | allocator.cpp:39-89 | `alloc` keeps the invariant |
| Heap.FreeKeeps | allocator.cpp:95-113 | `free` of any address keeps the invariant |
| Heap.FreeAllKeeps | allocator.cpp:122-133 | `freeAll` keeps the invariant and leaves no block live |
| Heap.StepKeeps | allocator.cpp:39-133 | every call keeps the invariant |
| HeapRuns.Exec | allocator.cpp:39-133 | the invariant holds after every run |
| HeapRuns.ReachableLayout | allocator.cpp:58-84 | the layout holds in every reachable state |
| HeapRuns.LiveBlocksDisjoint | allocator.cpp:39-113 | blocks live at the same time never overlap and stay inside the region |
| HeapRuns.RefinesPool | allocator.cpp:39-133 | every call in every reachable state is a step of the abstract pool: no live block is handed out, the lowest freed one comes back first, `free` removes just its argument or nothing |
| HeapRuns.RunRefinesPool | allocator.cpp:39-133 | every run of calls, with its results, is a run of the abstract pool from the empty one |
| HeapRuns.ExactAccounting | allocator.cpp:52-133 | `allocated` = live blocks + failed carves + blocks released by `freeAll` |
| HeapRuns.RestartIsFirst | allocator.cpp:58-59 | when carving sees `!allocated`, no slot was ever carved |
| HeapRuns.SlotsOnlyGrow | allocator.cpp:71-72 | slots are never dropped or moved |
| HeapRuns.HighWaterMark | allocator.cpp:42-72 | the slots ever carved are as many as were ever live at once |
| HeapRuns.RoomSuffices | allocator.cpp:58-84 | with room for n slots, `alloc` succeeds in every run with fewer than n live |
| HeapRuns.RoomNecessary | allocator.cpp:58-84 | without that room a run fails earlier |
| HeapRuns.CapacityExact | allocator.cpp:58-84 | so `alloc` never fails below n live blocks if and only if n slots fit |
| Capacity.MallocSizeBounds | allocator.cpp:192-195 | the page rounding adds more than nothing and at most one page |
| Capacity.MallocSizeIs | allocator.cpp:192-195 | malloc is asked for the product rounded down to a page of 4096 bytes, and a page more, in 64 bits |
| Words.StoredExactly | allocator.cpp:204 | a size stored in an `int` keeps its low 32 bits in two's complement, and its value if and only if it is below two to the 31st |
| Capacity.PaddingPaid | allocator.cpp:194-201 | the rounded size less the start's padding holds n strides, for alignments up to eight |
| Capacity.RegisterUseExactly | allocator.cpp:190-209 | for any alignment, `registerUse` fails exactly when malloc does or the padding leaves no room for a slot, and else stores the space left |
| Capacity.RegisterUseSucceeds | allocator.cpp:198-202 | for alignments up to eight, only malloc can fail |
| Capacity.RegisterUseRoom | allocator.cpp:190-209 | the region made is valid, lies inside the malloc'd block and has room for the whole queue |
| Capacity.QueueNeverStarved | allocator.cpp:192-204 | in every run of such a heap an `alloc` with fewer than n live blocks returns a new block inside the malloc'd memory |
| Capacity.StarvedExactly | allocator.cpp:192-204 | for any alignment, no run starves early if and only if the start's padding, n - 1 strides and a slot fit in what malloc was asked for |
| Capacity.SixteenStarves | allocator.cpp:194-200 | with an alignment of sixteen a run starves early |
| Capacity.OverflowLosesRegion | allocator.cpp:204 | a size past the range of `int` makes a region that is none |
| Capacity.StoredSizeExact | allocator.cpp:204 | the stored size is the real one if and only if it is below two to the 31st |
| HeapObject.HeapT.ScanFreed | allocator.cpp:42-51 | the scanning loop finds the first freed slot |
| HeapObject.HeapT.ScanLive | allocator.cpp:97-99 | the scanning loop finds the live slot of an address |
| HeapObject.HeapT.Alloc | allocator.cpp:39-89 | the method updates counter and marks as the step function says |
| HeapObject.HeapT.Free | allocator.cpp:95-120 | likewise; a block that is not live changes nothing |
| HeapObject.HeapT.FreeAll | allocator.cpp:122-133 | clears every mark, leaves the counter, returns the number of blocks that were live |
| HeapObject.Allocator.RegisterUse | allocator.cpp:190-209 | the errors, the new heap, and a map that keeps a user's first heap |
| Cache.PublishedOnce | buffer_cache.cpp:156-167 | publishing reaches a subscription once if its filter accepts the buffer, else not |
| Cache.AddedExactly | buffer_cache.cpp:46-57 | adding an entry delivers what `findRelevant` would, if and only if its blocks carry an identity the filter treats alike |
| Cache.StaysSubscribed | buffer_cache.cpp:128-148 | a subscription stays, under a ticket of its own, until its acceptor is unsubscribed |
| Cache.AcceptsWhatIsAdded | buffer_cache.cpp:46-167 | whatever is called in between, a subscription accepts the blocks of each matching entry added since and each matching buffer published on its own, in order, and nothing else |
| Cache.ExactlyOnce | buffer_cache.cpp:46-57 | replay and deliveries are, as a multiset, the matching blocks cached at subscription, added later or published later, with the identities memory holds at each call |
| Cache.Conserved | buffer_cache.cpp:46-167 | over every run, what a subscription was given plus what was carved meanwhile is what a query returns now plus what was published on its own or cleared meanwhile |
| Cache.GivenIsCached | buffer_cache.cpp:108-132 | so given and cached agree if and only if what was carved is what was published on its own or cleared |
| Cache.GivenIsRelevant | buffer_cache.cpp:108-132 | with nothing cleared or published on its own, they agree in order too, if and only if no matching cached heap was carved |
| Cache.Unsubscribed | buffer_cache.cpp:134-148 | unsubscribing removes all and only the subscriptions of an acceptor |
| Cache.ClearedRelevant | buffer_cache.cpp:84-121 | after clearing f, a query for any g gives what g-and-not-f gave before |
| Acceptors.PublishCalls | buffer_cache.cpp:156-167 | a publish calls the acceptor of each subscription whose filter accepts the buffer, with that buffer, in order, and nobody else |
| Acceptors.CallsOwners | buffer_cache.cpp:46-167 | over every run, each call of an acceptor is for a subscription of its own |
| Acceptors.DeliveredToMaker | buffer_cache.cpp:128-167 | every delivery for a subscription goes to the acceptor that made it |
| Acceptors.AcceptsWhileItLasts | buffer_cache.cpp:128-167 | a subscription accepts what arrives until its acceptor is unsubscribed, and nothing afterwards |
| Acceptors.ReceivesItsOwn | buffer_cache.cpp:46-167 | over every run an acceptor receives each buffer exactly as often as it arrives for subscriptions of its own while they last |
| BufferCache.ErasedByValue | buffer_cache.cpp:96-99 | erasing by value the entries found leaves exactly the unmatched ones in order, duplicates or not, if and only if no unmatched entry equals a matched one |
| BufferCache.StaysExactly | buffer_cache.cpp:96-99 | field by field: an entry stays if and only if the filter does not match it and no matched entry has its heap, source, tick and specification, whatever the names |
| BufferCache.TickErases | use_ident.cpp:123-133 | a filter on the tick takes no unmatched entry with it |
| BufferCache.SourceErases | use_ident.cpp:123-133 | nor does one on the source |
| BufferCache.SpecificationErases | use_ident.cpp:123-133 | nor does one on the specification |
| BufferCache.RespectfulErases | use_ident.cpp:123-133 | so it does with a filter that treats equal identities alike |
| BufferCache.NameErases | use_ident.cpp:204-208 | a filter on the source's name takes an unmatched entry with it |
| BufferCache.ErasedNodes | buffer_cache.cpp:136-147 | erasing the collected nodes leaves the subscriptions of the other acceptors in order |
| BufferCache.FreedTwice | buffer_cache.cpp:89-94 | releasing a heap a second time releases nothing and changes nothing |
| BufferCache.Buffers.Publish | buffer_cache.cpp:156-167 | the loop calls each accepting subscription once and counts them, and nothing else changes |
| BufferCache.Buffers.Construct | buffer.cpp:10-14 | a buffer constructed in a slot, new or used again, brings its own identity; the cache does not change |
| BufferCache.Buffers.AllocFrom | allocator.cpp:39-89 | an `alloc` on a heap shows in the cache as a carved slot if it carves, and not at all if it reuses one |
| BufferCache.Buffers.AddAllocated | buffer_cache.cpp:46-57 | stores the entry, publishes each of its blocks and counts them |
| BufferCache.Buffers.FindRelevant | buffer_cache.cpp:108-121 | the loops return the blocks of the matching entries in order |
| BufferCache.Buffers.Subscribe | buffer_cache.cpp:128-132 | subscribes and returns the replay |
| BufferCache.Buffers.Unsubscribe | buffer_cache.cpp:134-148 | the two loops remove the acceptor's nodes and return by how many the list got shorter |
| BufferCache.Buffers.ClearAllocated | buffer_cache.cpp:84-101 | for any filter: the entries that stay are those not matched and without a matched one of their heap and fields, all unmatched ones if and only if none equals a matched one; every matching heap is freed and no other, and the number of their live blocks is returned, each counted once |
| Lifecycle.HandledPosted | application.cpp:105-159 | handling an event carries out its removal and posts none |
| Lifecycle.PullPosted | application.cpp:69-80 | taking and handling an event neither loses nor makes a removal |
| Lifecycle.PullRemoveKeeps | application.cpp:35-50 | a removal deletes exactly its thread and keeps the invariant |
| Lifecycle.RefusesRunning | application.cpp:39-43 | the removal of a thread that is ready and was not told to stop is dropped and changes nothing else |
| Lifecycle.RemovesOthers | application.cpp:35-50 | any other thread is taken off the list and deleted, and an empty list is announced |
| Lifecycle.DeletesStopped | application.cpp:35-50 | in every run, hazards or not, only the handling of its removal deletes a thread, and it finds it not ready or told to stop |
| Lifecycle.VisitKeeps | application.cpp:189-197 | a visit of `stop` that is no hazard keeps the invariant |
| Lifecycle.InvStep | application.cpp:19-215 | every step that is no hazard keeps the invariant |
| Lifecycle.InvReachable | application.cpp:19-215 | the invariant holds after every run without a hazard |
| Lifecycle.PostedIsPostings | application.cpp:35-56 | in such a run the removals of a thread, waiting or carried out, are as many as the steps that posted one |
| Lifecycle.Safety | application.cpp:35-98 | in such a run, whatever interruptions it meets, no thread is deleted twice, none is deleted unless unstarted or past all but the posting of its removal, the end is announced at most once, and `exec` returns 0 only when every thread ever added was deleted |
| Stop.StopStep | thread.cpp:154-252 | every step keeps the flags of a thread true to where it is, and the phases of `stop` |
| Stop.PhasedStop | application.cpp:163-200 | `stop` reaches a type only when all selected threads of higher types are quiet, and returns only when all selected ones are |
| Stop.PhaseSelects | application.cpp:169-185 | a phase terminates exactly the listed threads of its type that have a worker |
| Stop.DisciplinedStaysDown | thread.cpp:154-163 | and that assumption of it holds of every disciplined run |
| Stop.DisciplineStep | application.cpp:19-215 | a disciplined step whose visit, if it is one, is clean is no hazard and keeps the discipline invariant |
| Stop.DisciplineSafe | application.cpp:163-200 | a disciplined run with the test meant, or with clean visits only, is safe, and deletes only threads that never started or have returned |
| Stop.WrittenExactly | application.cpp:189-197 | with the test as written, a disciplined run has no hazard and leaves no thread caught between `m_ready = false` and its own posting if and only if every visit found its thread ready or never started |
| LifecycleLimits.FaultIsHazard | thread.cpp:171-239 | hazards can be told from what the steps of the run did before |
| LifecycleLimits.HazardExactly | thread.cpp:171-239 | a step keeps the lifecycle invariant if and only if it is no hazard |
| LifecycleLimits.NoHazardsExactly | application.cpp:19-215 | a run keeps it throughout if and only if no step posts the removal of a thread that a step posted before, starts such a thread or one about to post its own, adds one after the end was announced or `exec` returned 0, posts an event of the lifecycle too early, or finds an interruption at the loop test with a thread left |
| LifecycleLimits.SecondClose | application.cpp:125-130 | two Close events: an unstarted thread deleted twice |
| LifecycleLimits.NotReadyIsNotUnstarted | application.cpp:191-193 | the test as written: a finishing thread deleted twice |
| LifecycleLimits.DeletedInside | application.cpp:191-193 | the test as written, without a hazard: a thread deleted inside its run function |
| LifecycleLimits.StartedTwice | thread.cpp:154-163 | a restarted thread deleted twice |
| LifecycleLimits.StartedLate | thread.cpp:154-163 | a thread deleted while it runs |
| LifecycleLimits.AddedLate | application.cpp:19-29 | `exec` returns 0 with a thread left |
| LifecycleLimits.ShutDownEarly | application.cpp:217-227 | Shutdown posted from outside ends `exec` with a thread left |
| LifecycleLimits.InterruptedAtTest | application.cpp:69 | an interruption pending at the loop test: `exec` returns 0 with a thread left and nothing removed |
| LifecycleLimits.StartedInside | thread.cpp:154-201 | a thread started again before it posts its removal is deleted inside its second run function |
| ThreadsGone.StdRemove | application.cpp:44 | in place, the kept elements and then the old tail; the end of the kept part is returned |
| ThreadsGone.ErasedFires | application.cpp:44-49 | with the tail erased, the end is announced at the last removal and no other, in any order |
| ThreadsGone.TailFires | application.cpp:44-49 | as written, for a vector of remaining threads and then copies of the last one |
| ThreadsGone.WrittenFires | application.cpp:44-49 | as written, it is announced if and only if the thread added last is removed last |
| Cascade.HandledRank | application.cpp:114-153 | handling an event lowers the rank of the queue |
| Cascade.CascadeEnds | application.cpp:69-80 | the loop left to itself handles at most as many events as the rank |
| Cascade.CascadeTerminates | application.cpp:105-159 | it sets `terminated` if and only if the end was queued, announced, or every thread left had its removal queued |
| Cascade.CascadeRemoves | application.cpp:120-124 | it carries out every queued removal, in order |
| Cascade.CascadeRuns | application.cpp:65-80 | it is a run of the machine, and makes no hazard |
| Cascade.DeletedTwiceExactly | application.cpp:35-50 | it deletes a thread twice if and only if some removal was posted twice |
| Cascade.SettledInTime | application.cpp:69-80 | as many turns of the loop as the rank are enough for all of it |
| Cascade.ShutdownCompletes | application.cpp:47-97 | from any safely reached state with every removal queued, `exec` returns 0 after boundedly many events with each thread ever added deleted exactly once |
| CloseDown.AloneDecreases | application.cpp:65-200 | of the steps the application and its threads take by themselves, a turn of a worker's loop changes nothing, and every other lowers a well-founded measure: the Close events queued, then how far `stop` is, then its visits, then what events and threads have left to do; leaving the loop is such a step only for a worker told to |
| CloseDown.ComesToAStop | application.cpp:65-200 | so from any state they come to where nothing is left but turns of the loops of workers not told to leave |
| CloseDown.SelectedIf | application.cpp:169-182 | `stop` at a type tells exactly the listed threads of it with a worker to leave, and a running thread is listed |
| CloseDown.ToldStep | application.cpp:163-200 | once Close is posted, the running threads of the types `stop` has reached were told to leave, and every running thread has its worker |
| CloseDown.ClosingStep | application.cpp:163-200 | once Close is posted, `stop` posts the removals of the never-started threads it passes by and can reach, and of no others; the end stays queued or to come |
| CloseDown.StopMoves | application.cpp:189-197 | `stop` never waits for a thread that it did not tell to leave: with every other step taken it can go on |
| CloseDown.StraysStay | thread.cpp:171-201 | which threads are out of reach, never started or running untold, does not change on the way |
| CloseDown.StuckWhere | application.cpp:65-200 | where they stop, every thread is over, never started, or turns untold in its loop and has a type that `stop` does not visit; and `exec` has returned 0 or polls an empty queue |
| CloseDown.StuckReturned | application.cpp:44-97 | it has returned if and only if a thread was ever added and none is out of reach, and then it deleted them all |
| CloseDown.CloseCompletes | application.cpp:125-200 | from a disciplined state with Close queued, every run left alone until nothing but turns of loops is left has returned 0, each thread deleted once, if and only if a thread was ever added and every one that never started, or runs untold, has a worker and a type that `stop` visits |
| CloseDown.NeverReturns | application.cpp:65-98 | otherwise no run left alone returns, however long |
| CloseDown.NobodyTells | application.cpp:169 | a started thread of the first type: a disciplined run with Close queued, and `exec` never returns |
| Application.SoundReachable | thread.cpp:154-201 | in every run ready threads are in their run function, and removals and visits are of known threads |
| Application.Application.AddThread | application.cpp:19-29 | lists the thread last, with its type and worker, and started if asked; the step Add |
| Application.Application.StartThread | thread.cpp:154-163 | starts a thread that is not ready, and else nothing |
| Application.Application.TerminateThread | thread.cpp:38-47 | sets the flag and nothing else |
| Application.Application.PostEvent | application.cpp:52-56 | appends the event, whichever it is |
| Application.Application.RunThread | thread.cpp:171-201 | from wherever it is a thread reaches its end by steps of the machine, with the flags and the worker that `Ended` says, posts its own removal and changes nothing else |
| Application.Application.Wait | thread.cpp:241-252 | returns at once for a thread that never started or is deleting, and otherwise with the thread over |
| Application.Application.CopyIf | application.cpp:171-173 | the loop selects the listed threads of a type with a worker, in order |
| Application.Application.TerminateEach | application.cpp:180-182 | the loop terminates exactly the selected threads |
| Application.Application.VisitAll | application.cpp:189-197 | the loop visits every selected thread, by steps of the machine |
| Application.Application.Stop | application.cpp:163-200 | a run of the machine from Close back to idle, after which every selected thread is quiet |
| Application.Application.RemoveThread | application.cpp:35-50 | refuses a thread that is ready and was not told to stop, and changes nothing; forgets and deletes any other, and announces an empty list |
| Application.Application.ShutDown | application.cpp:207-215 | posts Shutdown or Restart |
| Application.Application.Quit | application.cpp:202-205 | ends the loop |
| Application.Application.HandleEvent | application.cpp:105-159 | every event but Close changes the fields as the machine's handler does; Close stops the threads by steps of the machine |
| Application.CloseBegan | application.cpp:125-130 | once a Close was taken off the queue, `stop` has begun |
| Application.Application.TryPull | application.cpp:73-79 | a turn that finds the queue not empty takes the front event off and handles it; events are only added at the end, and no Close |
| Application.Application.TakeTurn | application.cpp:69-85 | so does a turn unless it is interrupted before; one interrupted at either point posts Shutdown and returns 1 |
| Application.Application.Exec | application.cpp:65-98 | for any number of turns and any interruptions on them: the events handled are those queued, in order, and then those posted since, one each turn as long as there is one, and a Close among them begins `stop`; it returns 0 only when terminated or interrupted at its test, 1 with Shutdown posted when interrupted elsewhere, and otherwise loops on; undisturbed, and with no Close and no running thread in play, it goes exactly as far along the cascade as the turns allow; when it returns 0 after a run without hazards, every thread ever added is deleted |
| StringList.SplitOffFree | string_list.cpp:36 | tokens contain no delimiter |
| StringList.SplitOffJoin | string_list.cpp:26-36 | splitting a join gives the list back |
| StringList.JoinSplitOff | string_list.cpp:121-141 | joining a split gives the string back |
| StringList.JoinThenSplit | string_list.cpp:26-36 | the first holds if and only if the list is non-empty and free of the delimiter |
| StringList.NulSplitsNothing | string_list.cpp:26-30 | the NUL byte splits nothing |
| StringList.SplitOnJoin | string_list.cpp:36 | with compression, the list without its interior empty strings |
| StringList.Find | string_list.cpp:40 | the leftmost occurrence, or none |
| StringList.ReplacedShrinks | string_list.cpp:40 | a replacement by a marker that the delimiter is no part of leaves fewer bytes outside the marker, or fewer bytes, or less weight |
| StringList.LoopEndsExactly | string_list.cpp:40 | the loop ends if and only if the delimiter does not occur or is no part of the marker, which is to be neither empty, nor one of its bytes, nor itself |
| StringList.MarkFreeEnds | string_list.cpp:40 | in particular it ends on a non-empty delimiter and input free of marker bytes |
| StringList.ReplaceCreatesNone | string_list.cpp:40 | after a replacement the delimiter occurs exactly where it did before, clear of the marker |
| StringList.GreedyJoins | string_list.cpp:38-41 | the reference cuts exactly at delimiters |
| StringList.GreedyPieces | string_list.cpp:38-41 | and leaves none in a piece |
| StringList.ReplaceRest | string_list.cpp:40 | as long as no delimiter arises over a marker put in or before it, the loop puts the marker exactly where the reference cuts |
| StringList.KeepsOffArises | string_list.cpp:40 | and none arises for a delimiter that does not begin with the marker's second byte, end with its first or contain it |
| StringList.MarkedExactly | string_list.cpp:40 | for a delimiter that does not begin with the marker's first byte, the marker is where the reference cuts if and only if none arises |
| StringList.MarkFreePieces | string_list.cpp:40 | input free of marker bytes meets both conditions, on the delimiter and on the pieces |
| StringList.SubstringSplit | string_list.cpp:38-41 | when none arises, substring splitting is greedy leftmost splitting with interior empty pieces dropped if and only if no piece holds a marker byte |
| StringList.SubstringSplitOff | string_list.cpp:38-41 | without compression, with an empty token after every piece but the last, again if and only if no piece holds one |
| StringList.SubstringSplitOffExactly | string_list.cpp:38-41 | for every delimiter that does not begin with a marker byte, that is so if and only if no piece holds a marker byte and no delimiter arises |
| StringList.CutsTooMuch | string_list.cpp:40 | a delimiter that begins with the marker's second byte loses a byte of the text, although no piece holds a marker byte |
| StringList.FromString | string_list.cpp:32-44 | both modes, with the replacing loop, and when the pieces are the reference's |
| StringList.Join | string_list.cpp:121-141 | the loop with its `once` flag joins the list |
| Regexen.UnchangedExactly | regexen.h:139-155 | with nothing substituted the haystack comes back if and only if the captures are ordered and disjoint |
| Regexen.ReplaceOneIs | regexen.h:74-82 | one span replaced, and the tail cut at its first NUL byte |
| Regexen.RightToLeftIs | regexen.h:74-82 | replacing one span at a time from the right, in terms of replacing all at once |
| Regexen.EmitNulFree | regexen.h:139-155 | what is written from a position on has no NUL byte if and only if the texts, and what the captures leave of the haystack, have none |
| Regexen.AtOnceExactly | regexen.h:74-155 | the two agree if and only if no later text, and no byte the captures leave of the haystack after the first, is a NUL byte |
| Regexen.SubstitutedLast | regexen.h:135-138 | after any substitutions a capture has the last text given for it |
| Regexen.SubstituteThenReplace | regexen.h:115-155 | match, substitute in any order, replace: each capture has its last text, and the result is the right-to-left replacement by those texts if and only if no NUL byte is left or put in after the first |
| Regexen.IterateImpl.Call | regexen.h:115-126 | records every span of a match with its text and returns their number |
| Regexen.IterateImpl.Substitute | regexen.h:135-138 | changes one text and nothing else |
| Regexen.IterateImpl.Replace | regexen.h:139-155 | the loop over captures and gaps, with its unsigned wrap-around |
| Tracer.Interned | cursor.cpp:214-226 | interning keeps the table free of duplicates, only appends, adds just the names given, and leaves a stack that reads back |
| Tracer.TraceReadsBack | cursor.cpp:200-230 | after any blocks the table holds exactly the recorded names and every stack reads back as its block's names in order |
| Tracer.RecordedFirst | cursor.cpp:203-213 | a block records the name that its first line shows, if it shows one, and then what the rest records |
| Tracer.RecordedNothing | cursor.cpp:203-206 | a block that begins with a newline, or has nothing in it, records nothing |
| Tracer.StacksShowFrames | cursor.cpp:200-230 | the stack of each block has one index for each of its frame lines, and the table has there the name that line shows; the table holds no other names |
| Tracer.RollOnlyGrows | cursor.cpp:200-230 | later blocks only append to the table and the chain |
| Tracer.TokensBetween | cursor.cpp:203 | compression leaves empty tokens only at the ends, and there only for a delimiter |
| Tracer.LoopStaysInside | cursor.cpp:206-207 | the line loop stays inside the list if and only if the block is empty or begins or ends with a newline |
| Tracer.RecordedInFull | cursor.cpp:203-212 | a terminated block is recorded in full if and only if it does not begin with a newline or has nothing to lose |
| Tracer.Recorder.Intern | cursor.cpp:215-226 | the index of the name, in a table that grows only by a new name |
| Tracer.Recorder.ReadLines | cursor.cpp:206-227 | the loop pops lines up to the first empty one and interns the names before it |
| Tracer.Recorder.AddBlock | cursor.cpp:200-230 | appends the stack of the block to the chain |
| CString.FirstNul | byte_array.cpp:158 | where a C string ends, or the length if it does not |
| ByteArray.ScanInBounds | byte_array.cpp:154-164 | the scan stays inside the buffer if and only if it is empty or ends in NUL |
| ByteArray.EncodeDecoded | byte_array.cpp:154-164 | what is read back has no NUL bytes and encodes to the same bytes |
| ByteArray.RoundTripExactly | byte_array.cpp:119-170 | a list survives if and only if none of its strings contains a NUL byte |
| ByteArray.DecodeConcat | byte_array.cpp:154-187 | two arrays put together decode to their lists put together |
| ByteArray.Bytes.AppendMemory | byte_array.cpp:172-187 | the contents grow by exactly the bytes given |
| ByteArray.Bytes.Append | byte_array.cpp:166-170 | by the string and its terminator |
| ByteArray.Bytes.FromData | byte_array.cpp:119-124 | a new array with the string and its terminator |
| ByteArray.Bytes.PlusAssign | byte_array.cpp:94 | `append(pc.cdata(), pc.length())`: the contents grow by the other array's |
| ByteArray.Bytes.ToStringList | byte_array.cpp:154-164 | the cursor loop reads the list the bytes encode, every byte inside the buffer |
| ByteArray.RoundTrip | byte_array.cpp:119-170 | `fromData` of the first string and `append` of the others converts back to the list |

## Left out

- Logging, streaming, JSON status output, `Tracer::write` and `Cursor::backtrace`: output and foreign calls only.
- Sockets, connections, signals, cryptography, configuration files: wrappers of other libraries. A signal enters the lifecycle as a posted Shutdown.
- `do_unregisterHeap`, `unregisterAll`, `~heap_t` and the destructor of a buffer: raw ownership and object lifetime. What malloc returns is a parameter of `registerUse`.
- `UseIdentFilter` and its kinds, `registry.h`, `work.cpp`, `thread_accessor.cpp`: one-line predicates and map wrappers. A filter is any predicate on identities. Filters are stored by value in the source, which cuts off a derived `operator==`; that is not modelled.
- `boost::split`, `std::remove`, `std::align`, `std::find_if` and `std::string::find` are library code: they have definitions here. Regular-expression matching is a parameter: spans of a match, or a function from a frame line to its name.
- Positions of groups that did not take part in a match (-1, which makes `substr` throw) are not modelled; spans lie inside the haystack.
- `heap_t::allocated` is an unbounded integer here; in the source it can overflow after two to the 31st failed carves.
- HeapObject.HeapT.Alloc: the slot list is a sequence field and the marks are updated in it, so list nodes and iterators do not appear.
- HeapObject.Allocator.RegisterUse: the alignment is a power of two, as `std::align` demands. A heap with an empty slot or a size past an `int` is made, but not valid, and nothing is promised of it.
- ByteArray.Bytes.PlusAssign: the append alone, not the return by value, which does not end. Two different objects only, because `a += a` reads memory the reallocation gave up.
- ByteArray.Bytes.ToStringList: a buffer that does not end in NUL is excluded, since the source then reads past its end; `ByteArray.ScanInBounds` says so exactly.
- Borrowed byte arrays, move assignment, `truncate` and `fromData` of raw memory: pointer ownership outside the codec.
- `attribute_list` and `namesOnly` of `string_list`: the test for `=` does not tell its absence apart.
- StringList.FromString: requires that the replacing loop ends, which `StringList.LoopEndsExactly` characterises.
- Tracer.Recorder.AddBlock: requires an empty line to stop at, which `Tracer.LoopStaysInside` characterises; without one the source reads the front of an empty list.
- Lifecycle: `ThreadShutdown` events, what a worker does in its loop (a turn changes nothing), the per-thread queues, and the mutex in `Thread::run`. A deleted thread's identity is never used again. Exceptions that escape `exec` (return codes 2 and 3) are left out. An interruption of `exec` is the step Interrupt where it is thrown (code 1) and TestInterrupted where the loop test finds it (code 0).
- Lifecycle: a worker may leave its loop at any turn, told to or not, which stands for its interruption; `CloseDown` counts it as a step taken alone only for a worker told to, and takes a turn of a loop to end.
- Application.Application.StartThread: a thread without worker is not started for the first time, since its loop would use a null worker.
- Application.Application.RemoveThread: the form with the erase; `ThreadsGone` has the form as written, on the vector alone.
- Application.Application.PostEvent: a removal is of a thread that was added.
- Lifecycle: `wait` may return as soon as `m_deleting` is set, also once it is joining, which allows more runs than the source has.
- Application.Application.Stop: a thread waited for is run to its end by the call that waits; other interleavings are covered by the state machine.
- Application.Application.Exec: runs for a number of turns that its caller gives, since the source polls for as long as it takes; a turn that finds the queue empty does nothing.
- StringList.SubstringSplit: when a delimiter does arise, a compressed split, or one on a delimiter that begins with a marker byte, can still come out right by chance, and no exact condition is given for that.
