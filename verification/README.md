# OpenDataPlane 1.7: concurrent core, in Dafny

A model of the parts of OpenDataPlane 1.7 on which everything else stands, and proofs of what
they promise: the lock-free ring, the event scheduler with its queues, the timer pool, the
CRC-32C hash, the barrier and the locks, the chained hash table, the transport-mode IPsec
example, and the text form of CPU masks.

`dafny verify dfyconfig.toml` checks all of it.

## How it is modelled

- **Concurrent code** is a system of atomic steps over any number of threads. A module declares
  the state, `Enabled` and `Apply` for each step, `IsRun` for the runs, and an invariant `Inv`
  that `StepInv` carries over a step and `RunInv` over a run of any length; a lemma that asks for
  `Inv` therefore speaks of every reachable state. Counters are machine
  words that wrap; next to them stand positions, logs and depths that no step reads, so that
  properties can speak of the whole history. Every shared access is its own step: the two loads
  before a compare-and-swap, the swap, each copied object, each look at the counter in a spin.
- **Code that updates memory** is imperative: the copy macros of the ring are array loops, a
  queue is a linked list of buffer headers, the timer pool and the hash table are classes over
  arrays, the IPsec stages store into a packet segment. Each method is proved against a function
  of the old state, and the properties are proved of these functions.
- **Where a property is false of the code**, the code is kept as it is, a lemma gives the input,
  and another says exactly when the property holds (`SafeExactly`, `HonestExactly`,
  `ExclusiveExactly`, `ConservedIffPatient`, `ExactIffDelayed`, `HashIsRegister`,
  `FaithfulIffCounted`, `Ipsec.RoundTrip`).

Where code and documentation disagree, the model follows the code:

- `odph_ring_create` asks for a power of two and also lets zero through (`CreateAcceptsExactly`).
- The comment in `odp_barrier_wait` gives the cycle as 0..2n-1; the counter is 2n between the
  increment of the last thread and its subtraction (`CounterBounds`).
- `odp_hash_crc32c` is not the CRC register over the data when the length is no multiple of four:
  the tail is filled up with zero bytes (`HashIsRegister`).
- `odp_timeout_fresh` takes a timeout that expired at tick 0 for fresh after its timer was
  cancelled or given out again, because the inactive marks without their top bit are tick 0
  (`FreshExactly`, `ExactIffDelayed`).
- `odp_queue_lookup` finds a scheduled queue whose creation has not made its command yet, and an
  enqueue through that handle schedules a queue without a command (`EarlyUseBreaks`).
- The comment in `odp_ticketlock_trylock` holds that the current ticket need not be compared
  because it cannot be larger than the next one; the words come round after 2^32 tickets, and
  then both threads are in the lock (`TicketLimits.LapBreaks`, `ExclusiveExactly`).

| files | contents |
|---|---|
| `Options.dfy`, `Sequences.dfy` | optional values, the end of a run |
| `Words.dfy` | 32-bit words, masks, powers of two; sets of threads |
| `RingProtocol.dfy`, `RingTheorems.dfy`, `RingCalls.dfy`, `RingProgress.dfy`, `RingLimits.dfy` | the ring with many producers and consumers, its guarantees, what each call gets, its progress and its limits |
| `Ring.dfy` | the copy macros, and the ring with one producer and one consumer as an object |
| `QueueList.dfy` | the linked list of a queue and its locked sections |
| `Scheduler.dfy`, `SchedulerInvariant.dfy`, `SchedulerTheorems.dfy`, `SchedulerAsked.dfy`, `SchedulerProgress.dfy`, `SchedulerLimits.dfy` | queues, commands and threads of the scheduler, its guarantees, what users get for what they ask, its progress and its limits |
| `Timer.dfy`, `TimerRuns.dfy`, `TimerRequests.dfy`, `TimerFresh.dfy`, `TimerPool.dfy` | timer operations, their runs, what users get for what they ask, what the freshness test says, and the pool over arrays |
| `Crc.dfy`, `Crc32c.dfy` | table-driven CRC over any word algebra, and CRC-32C |
| `Barrier.dfy`, `TicketLock.dfy`, `TicketLimits.dfy`, `RwLock.dfy`, `RecursiveLock.dfy` | synchronisation |
| `HashTable.dfy` | the hash table over a fixed pool of nodes |
| `Ipsec.dfy`, `IpsecPath.dfy` | the IPsec wire format and receiver, and the stages that produce and consume it |
| `CpuMask.dfy` | CPU masks as text |

## Model

| member | source | states |
|---|---|---|
| `RingProtocol.RunInv` | odp/odp1.7/helper/ring.c:220-403 | every run of any number of producers and consumers, in which both sides have one user at a time or nobody asks for zero objects and no swap succeeds after a lap of 2^32, keeps cons.tail <= cons.head <= prod.tail <= prod.head <= cons.tail + mask, reservations that partition both windows, slots that hold what was reserved at their positions, and words that are the positions modulo 2^32 |
| `RingProtocol.HeadIsCurrent` | odp/odp1.7/helper/ring.c:256-262 | when the compare-and-swap succeeds, the loaded head is the current position if and only if fewer than 2^32 positions have passed since it was loaded |
| `RingProtocol.ReservationExact` | odp/odp1.7/helper/ring.c:231-256 | then the wrapping 32-bit subtraction is the true room at the time the opposite tail was loaded, the request is granted up to that room, and that much room is still there |
| `RingProtocol.TurnIsOurs` | odp/odp1.7/helper/ring.c:278-286 | the wait for the tail ends only when every earlier reservation of the side has been published |
| `RingTheorems.RingSafety` | odp/odp1.7/helper/ring.c:220-403 | in every state of every run of a ring used as `SafeExactly` asks, the objects handed out are a prefix of the objects in reservation order: none lost, repeated or read before it is written |
| `RingTheorems.DequeueReturns` | odp/odp1.7/helper/ring.c:345-403 | a dequeue hands out exactly the objects reserved at its positions |
| `RingTheorems.NoSharedSlot` | odp/odp1.7/helper/ring.c:264-286 | no slot is ever in the hands of two threads, whichever sides they are on |
| `RingTheorems.RefusalHonest` | odp/odp1.7/helper/ring.c:240-252 | a call that is refused really found fewer objects or less room than it asked for, and nothing at all if any number would do, if the opposite tail was loaded less than 2^32 ahead of the head or the side has one user |
| `RingCalls.GrantExact` | odp/odp1.7/helper/ring.c:240-286 | in every run of a ring used safely, what a call reserves, until it is published, is all its caller asked for if the request was fixed, else the lesser of that and the room found; an enqueue stores the first objects of its table in order, and the tail moves on by their number |
| `RingCalls.RefusalExact` | odp/odp1.7/helper/ring.c:240-252 | a call about to be refused asked for more than there was, with a fixed request or where there was nothing |
| `RingCalls.EveryRunIsTraced` | odp/odp1.7/helper/ring.c:220-403 | every run is one with the requests kept as history, so none is left out |
| `RingProgress.SoloCall` | odp/odp1.7/helper/ring.c:220-444 | from every reachable state, a call that meets nobody on its side comes to its end and moves all, none or as many objects as there is room for, as asked |
| `RingProgress.NeverStuck` | odp/odp1.7/helper/ring.c:231-286 | a thread in a call always has a step, unless it waits for an earlier reservation of its side |
| `RingProgress.RetryMeansProgress` | odp/odp1.7/helper/ring.c:231-262 | a call tries again only if another call of its side has reserved since it loaded the head |
| `RingProgress.AnyRequest` | odp/odp1.7/helper/ring.c:220-234 | an idle thread may begin any call, on a side with one user if that is free |
| `RingTheorems.AfterCopies` | odp/odp1.7/helper/ring.c:264-266 | the copy steps of one call do to the slots what the copy macro does |
| `RingTheorems.OldestCanMove` | odp/odp1.7/helper/ring.c:278-286 | while a side has reservations in progress, the thread with the oldest can go on |
| `RingTheorems.ObserversExact` | odp/odp1.7/helper/ring.c:487-526 | count and free count add up to the mask, and count, full and empty agree with the positions however often the counters have wrapped |
| `RingTheorems.CreateAcceptsExactly` | odp/odp1.7/helper/ring.c:159-164 | the accepted sizes are zero and the powers of two up to 2^27 |
| `RingLimits.LapBreaks` | odp/odp1.7/helper/ring.c:231-262 | on every ring of two slots or more with a shared side, a run in which no swap succeeds more than 2^32 positions after its load ends out of order, so 2^32 itself is too many |
| `RingLimits.ProducerLap` | odp/odp1.7/helper/ring.c:231-262 | the run for shared producers: the swap succeeds on a full ring |
| `RingLimits.ConsumerLap` | odp/odp1.7/helper/ring.c:357-383 | the run for shared consumers: the swap succeeds on an empty ring |
| `RingLimits.EmptyRequestBreaks` | odp/odp1.7/helper/ring.c:278-286 | on every such ring, a run without any lap in which a request for zero objects puts a tail back: a producer's behind objects already taken, a consumer's behind slots filled again |
| `RingLimits.SafeExactly` | odp/odp1.7/helper/ring.c:220-444 | for every ring and every bound on the positions that pass between a load and its swap: order and first-in, first-out hold in every run if and only if the ring has one slot, or one user per side, or nobody asks for zero objects and the bound is below 2^32 |
| `RingProtocol.StillRun` | odp/odp1.7/helper/ring.c:231-252 | a ring of one slot never holds anything, whatever its callers do |
| `RingLimits.HonestExactly` | odp/odp1.7/helper/ring.c:240-252 | on a ring used safely, every refusal is honest if and only if the ring has one slot, or one user per side, or the opposite tail is loaded less than 2^32 ahead of the head |
| `RingLimits.ProducerDeceived` | odp/odp1.7/helper/ring.c:231-252 | a run in which the consumers go round between a producer's two loads and it is refused on an empty ring |
| `RingLimits.ConsumerDeceived` | odp/odp1.7/helper/ring.c:357-374 | a run in which the producers go round between a consumer's two loads and it is refused with an object in the ring |
| `Words.PowerTest` | odp/odp1.7/helper/ring.c:81-81 | the bit test accepts a positive count if and only if it is a power of two |
| `Words.WrappedMask` | odp/odp1.7/helper/ring.c:86-88 | a wrapped counter masked with 2^k - 1 is the unbounded position modulo 2^k |
| `Ring.EnqueuePtrs` | odp/odp1.7/helper/ring.c:86-110 | the unrolled and the wrapping copy store object i at slot (head + i) & mask and change no other slot |
| `Ring.DequeuePtrs` | odp/odp1.7/helper/ring.c:115-139 | the same for reading, and the rest of the caller's table stays as it is |
| `Ring.StoreLoad` | odp/odp1.7/helper/ring.c:86-139 | reading n objects from where they were stored gives them back, for every head |
| `Ring.Append` | odp/odp1.7/helper/ring.c:292-339 | storing behind the contents appends, whatever the counters |
| `Ring.Drop` | odp/odp1.7/helper/ring.c:408-444 | advancing the consumer drops from the front |
| `Ring.RoomExact` | odp/odp1.7/helper/ring.c:304-310 | the 32-bit differences are the free and used entries across any number of wraps |
| `Ring.RingBuffer.constructor` | odp/odp1.7/helper/ring.c:175-189 | a new ring is empty, with water marking off |
| `Ring.RingBuffer.SetWaterMark` | odp/odp1.7/helper/ring.c:204-215 | a mark not below the size is refused; zero turns water marking off |
| `Ring.RingBuffer.SpDoEnqueue` | odp/odp1.7/helper/ring.c:292-339 | the objects that fit are appended, all or none for a fixed request, with the return code, the quota flag at the water mark included |
| `Ring.RingBuffer.ScDoDequeue` | odp/odp1.7/helper/ring.c:408-444 | the first objects are removed and copied to the front of the table, all or none for a fixed request, with the return code |
| `QueueList.QueueEntry.Enq` | odp/odp1.7/platform/linux-generic/odp_queue.c:418-437 | the buffer is appended to the linked list; the caller must schedule the queue exactly if it was not scheduled; a queue that is free or destroyed refuses |
| `QueueList.QueueEntry.EnqMulti` | odp/odp1.7/platform/linux-generic/odp_queue.c:566-608 | the same for a batch, chained first and appended in order |
| `QueueList.QueueEntry.DeqMulti` | odp/odp1.7/platform/linux-generic/odp_queue.c:696-742 | the first buffers come out in order and unlinked; an empty scheduled queue leaves scheduling; a destroyed queue gives -1 |
| `QueueList.QueueEntry.Destroy` | odp/odp1.7/platform/linux-generic/odp_queue.c:321-361 | only an empty live queue is destroyed, and one still in scheduling stays until its command comes round |
| `QueueList.Chain` | odp/odp1.7/platform/linux-generic/odp_queue.c:566-571 | the buffers of a batch become one null-terminated list |
| `QueueStatus.DestroyCloses` | odp/odp1.7/platform/linux-generic/odp_queue.c:321-361 | exactly an empty live queue is destroyed; it is then closed to every operation, and free at once unless it was scheduled |
| `QueueStatus.EnqueueThenDequeue` | odp/odp1.7/platform/linux-generic/odp_queue.c:418-742 | what was enqueued comes out in order, at most the number asked for, and a queue outside the scheduler never changes its status by it |
| `SchedulerInvariant.RunInv` | odp/odp1.7/platform/linux-generic/odp_schedule.c:432-607 | every interleaving of create, enqueue, schedule, deliver, release and destroy in which no queue is used before its creation has returned keeps one command per scheduled queue, masks and counts in step, order in atomic queues and every event in one place |
| `SchedulerTheorems.TokenConservation` | odp/odp1.7/platform/linux-generic/odp_queue.c:301-438 | in every run in which no queue is used before its creation has returned, a queue's command is in some place exactly while the queue is scheduled or being destroyed, and never in two |
| `SchedulerTheorems.NoLostWakeup` | odp/odp1.7/platform/linux-generic/odp_queue.c:426-434 | in these runs a queue with events is always scheduled and its command is somewhere |
| `SchedulerLimits.EarlyUseBreaks` | odp/odp1.7/platform/linux-generic/odp_queue.c:383-401 | a run in which a queue found between its status and its command is enqueued to, and ends scheduled, with an event, without a command |
| `SchedulerLimits.ConservedIffPatient` | odp/odp1.7/platform/linux-generic/odp_queue.c:255-299 | commands are conserved in every run if and only if no queue is used before its creation has returned |
| `SchedulerProgress.CanBeServed` | odp/odp1.7/platform/linux-generic/odp_schedule.c:432-607 | from every reachable state with a thread, for every queue with events, some thread going on alone, always eligible, comes to dequeue from that queue, whose events are still those it had |
| `SchedulerProgress.Reach` | odp/odp1.7/platform/linux-generic/odp_schedule.c:510-607 | any thread going on alone works off the queues in front of one on its priority queue and takes it |
| `SchedulerProgress.Return` | odp/odp1.7/platform/linux-generic/odp_schedule.c:432-500 | a thread with the command or the atomic context of a queue finishes its call, gives the queue back and takes it again |
| `SchedulerProgress.DestroyTakes` | odp/odp1.7/platform/linux-generic/odp_queue.c:301-361 | destroying an empty queue frees it at once, or leaves it to its command if that is about |
| `SchedulerProgress.DestroyedIsFreed` | odp/odp1.7/platform/linux-generic/odp_schedule.c:558-575 | from every reachable state, some thread going on alone frees a destroyed queue and its command |
| `SchedulerProgress.NotEligibleReturns` | odp/odp1.7/platform/linux-generic/odp_schedule.c:540-551 | a thread that is not in the group of the queue it took puts it back as it was, behind the others |
| `SchedulerProgress.TakesCommand` | odp/odp1.7/platform/linux-generic/odp_schedule.c:432-607 | some thread going on alone takes the command of any queue that is scheduled or destroyed |
| `SchedulerProgress.AnyCall` | odp/odp1.7/platform/linux-generic/odp_queue.c:255-438 | a thread between calls may create any free queue with any synchronisation and priority, enqueue any batch to any live one, which is then at the end of its list, and destroy any |
| `SchedulerProgress.AnyPart` | odp/odp1.7/platform/linux-generic/odp_schedule.c:465-479 | a thread may deliver any part of its batch, from the front |
| `SchedulerTheorems.AtomicExclusive` | odp/odp1.7/platform/linux-generic/odp_schedule.c:593-596 | two threads never hold the context of the same atomic queue |
| `SchedulerTheorems.AtomicEventsHeld` | odp/odp1.7/platform/linux-generic/odp_schedule.c:465-607 | a thread with undelivered events of an atomic queue holds its context, so that no other thread has any |
| `SchedulerTheorems.AtomicDequeueHolds` | odp/odp1.7/platform/linux-generic/odp_schedule.c:558-596 | a thread that takes events of an atomic queue takes its context with them |
| `SchedulerTheorems.FreedUnreachable` | odp/odp1.7/platform/linux-generic/odp_schedule.c:371-379 | a command is freed only when no priority queue and no thread has it and its queue is empty |
| `SchedulerTheorems.AtomicOrder` | odp/odp1.7/platform/linux-generic/odp_schedule.c:432-607 | over every run of an atomic queue, delivered events, then the holder's stash, then the list are exactly the events that came, in order |
| `SchedulerAsked.AskedOrder` | odp/odp1.7/platform/linux-generic/odp_schedule.c:558-607 | in every run, a live queue its creator asked to be atomic delivers in the order of arrival, and every event that arrived is delivered, taken by one thread, or queued |
| `SchedulerAsked.AskedExclusive` | odp/odp1.7/platform/linux-generic/odp_schedule.c:593-596 | the events of a queue asked to be atomic that are taken and not delivered are with one thread, which holds its context |
| `SchedulerAsked.AskedParallel` | odp/odp1.7/platform/linux-generic/odp_schedule.c:593-601 | only a queue asked to be atomic ever has its context held |
| `SchedulerAsked.AskedPriority` | odp/odp1.7/platform/linux-generic/odp_schedule.c:314-322 | a command is only ever on a priority queue of the priority asked for, the one of its queue number |
| `SchedulerAsked.BatchInOrder` | odp/odp1.7/platform/linux-generic/odp_schedule.c:465-479 | what a thread has taken from a queue of any kind it delivers in the order of arrival |
| `SchedulerAsked.EveryRunIsTraced` | odp/odp1.7/platform/linux-generic/odp_schedule.c:432-607 | every run is one with the requests kept as history |
| `SchedulerTheorems.SkippedIsEmpty` | odp/odp1.7/platform/linux-generic/odp_schedule.c:510-533 | a priority queue passed over because its mask bit is clear holds no command |
| `SchedulerInvariant.SetMasks` | odp/odp1.7/platform/linux-generic/odp_schedule.c:314-322 | giving a queue a command keeps every count equal to the number of live queues it stands for, and every bit equal to its count being positive |
| `SchedulerInvariant.ClearMasks` | odp/odp1.7/platform/linux-generic/odp_schedule.c:324-335 | freeing a command keeps the same |
| `Scheduler.BitIs` | odp/odp1.7/platform/linux-generic/odp_schedule.c:314-335 | the bit of a queue of a priority is the one of its number |
| `SchedulerTheorems.EventInOnePlace` | odp/odp1.7/platform/linux-generic/odp_schedule.c:465-479 | an event is in a list or a stash exactly as recorded, and a delivered event is in none |
| `SchedulerTheorems.EventsMoveForward` | odp/odp1.7/platform/linux-generic/odp_schedule.c:465-607 | an event goes only from list to stash to delivered, and a delivered one stays delivered |
| `SchedulerTheorems.StepsAreLockedSections` | odp/odp1.7/platform/linux-generic/odp_queue.c:301-743 | the steps change status and list of a queue exactly as the locked sections over the linked list do |
| `Timer.ScanExact` | odp/odp1.7/platform/linux-generic/odp_timer.c:644-675 | a scan posts every due timer below its bound once, with its own buffer, queue and expiration, disarms it, and touches nothing else |
| `Timer.ArmResetSame` | odp/odp1.7/platform/linux-generic/odp_timer.c:420-446 | resetting by swapping the tick in and back is the same as looking for a buffer first, if and only if the timer is armed exactly when it has a buffer |
| `Timer.FreshWhenPosted` | odp/odp1.7/platform/linux-generic/odp_timer.c:937-949 | a timeout is fresh right after the scan that posts it |
| `Timer.CancelledLooksFresh` | odp/odp1.7/platform/linux-generic/odp_timer.c:937-949 | set for tick 0, expired, cancelled: still fresh |
| `Timer.ReusedLooksFresh` | odp/odp1.7/platform/linux-generic/odp_timer.c:318-375 | set for tick 0, expired, freed: stale; given out to another queue: fresh again |
| `TimerRuns.RunInv` | odp/odp1.7/platform/linux-generic/odp_timer.c:318-705 | every run of the operations keeps the free list, the armed timers not yet due, and every timeout buffer in exactly one place |
| `TimerRuns.AllocationFindsFree` | odp/odp1.7/platform/linux-generic/odp_timer.c:318-349 | allocation succeeds if and only if fewer than the limit are live, and then gives an index not in use |
| `TimerRuns.ScanBoundCovers` | odp/odp1.7/platform/linux-generic/odp_timer.c:644-675 | no armed timer lies beyond the water mark, so the bounded scan misses none |
| `TimerRuns.OnTime` | odp/odp1.7/platform/linux-generic/odp_timer.c:557-705 | a tick posts exactly the timers set for that tick, with that expiration: none early, late or lost |
| `TimerRuns.BufferInOnePlace` | odp/odp1.7/platform/linux-generic/odp_timer.c:382-705 | a timeout buffer is with a user, in one timer, or in one queued timeout, and never in two of them |
| `TimerRequests.PostsAsked` | odp/odp1.7/platform/linux-generic/odp_timer.c:318-705 | in every run, a tick posts exactly the timers whose users asked for that tick, each once: to the queue given at the allocation, in the buffer given last, with the tick asked for, across any number of frees and reallocations |
| `TimerRequests.SetAnswers` | odp/odp1.7/platform/linux-generic/odp_timer.c:873-907 | in every run, setting a timer, absolute or relative, is too early, too late, without event or successful exactly as its limits and buffers say, and gives back the right buffer |
| `TimerRequests.CancelAnswers` | odp/odp1.7/platform/linux-generic/odp_timer.c:518-555 | cancelling and freeing give back the buffer asked with, if its timeout is still to come |
| `TimerRequests.AnyUse` | odp/odp1.7/platform/linux-generic/odp_timer.c:318-555 | any timer in use may be set, cancelled and freed, and any queued timeout received, at any time |
| `TimerRequests.EveryRunIsTraced` | odp/odp1.7/platform/linux-generic/odp_timer.c:318-705 | every run is one with the requests kept as history |
| `TimerFresh.FreshExactly` | odp/odp1.7/platform/linux-generic/odp_timer.c:937-949 | in every run, at any time after a timeout was posted, the test says fresh if and only if its timer was not touched since, or it expired at tick 0 and the timer was last cancelled or given out again |
| `TimerFresh.TraceInv` | odp/odp1.7/platform/linux-generic/odp_timer.c:318-705 | every run with history keeps, for each posted timeout, the tick of its timer as the last operation on it left it: still the posted one, a later one, or an inactive mark |
| `TimerFresh.EveryRunIsTraced` | odp/odp1.7/platform/linux-generic/odp_timer.c:318-705 | every run of the pool is one with history, so none is left out |
| `TimerFresh.CancelUnnoticed` | odp/odp1.7/platform/linux-generic/odp_timer.c:908-921 | in a pool that allows timers for the current tick, whatever its size, a run ends with a cancelled timeout that looks fresh |
| `TimerFresh.ReuseUnnoticed` | odp/odp1.7/platform/linux-generic/odp_timer.c:318-375 | and one with a timeout that looks stale after the free and fresh after the next allocation |
| `TimerFresh.ExactIffDelayed` | odp/odp1.7/platform/linux-generic/odp_timer.c:873-949 | the test is exact in every run if and only if timers cannot be set for the current tick |
| `TimerPool.TimerPool.constructor` | odp/odp1.7/platform/linux-generic/odp_timer.c:246-269 | a new pool has every timer unused and chained into the free list |
| `TimerPool.TimerPool.TimerAlloc` | odp/odp1.7/platform/linux-generic/odp_timer.c:318-349 | takes the first free entry, or fails exactly when all timers are live; the water mark follows |
| `TimerPool.TimerPool.TimerFree` | odp/odp1.7/platform/linux-generic/odp_timer.c:355-375 | gives back the buffer if there is one and puts the entry in front of the free list |
| `TimerPool.TimerPool.TimerReset` | odp/odp1.7/platform/linux-generic/odp_timer.c:382-516 | sets the tick, with a new buffer or the one already there; without either it fails and changes nothing |
| `TimerPool.TimerPool.TimerCancel` | odp/odp1.7/platform/linux-generic/odp_timer.c:518-555 | disarms the timer and returns its buffer |
| `TimerPool.TimerPool.TimerSetAbs` | odp/odp1.7/platform/linux-generic/odp_timer.c:873-889 | checks the tick against the limits, then resets, with the four results |
| `TimerPool.TimerPool.TimerSetRel` | odp/odp1.7/platform/linux-generic/odp_timer.c:891-907 | the same relative to the current tick |
| `TimerPool.TimerPool.PoolExpire` | odp/odp1.7/platform/linux-generic/odp_timer.c:644-675 | the loop with its first unlocked look posts what the scan of the specification posts, and counts it |
| `TimerPool.TimerPool.TimerNotify` | odp/odp1.7/platform/linux-generic/odp_timer.c:677-705 | one tick: the clock advances and the tick that was current is scanned |
| `Crc.U32Is` | odp/odp1.7/platform/linux-generic/odp_hash.c:404-420 | four table lookups are thirty-two single-bit steps of the register |
| `Crc.U64Is` | odp/odp1.7/platform/linux-generic/odp_hash.c:422-443 | eight bytes at once are four bytes and then four more |
| `Crc.RegisterPair` | odp/odp1.7/platform/linux-generic/odp_hash.c:422-455 | one iteration of the loop is eight bytes of the bit-at-a-time definition |
| `Crc.Hash` | odp/odp1.7/platform/linux-generic/odp_hash.c:445-487 | for every length, loop and fall-through switch compute the bit-at-a-time register over the data filled up with zero bytes to a multiple of four |
| `Crc.Tail` | odp/odp1.7/platform/linux-generic/odp_hash.c:457-484 | the switch alone, for the zero to seven bytes left |
| `Crc.PaddingEffect` | odp/odp1.7/platform/linux-generic/odp_hash.c:457-484 | the filling runs the register over the data through that many zero bytes |
| `Crc32c.LawsHold` | odp/odp1.7/platform/linux-generic/odp_hash.c:404-443 | words of 32 bits with the reflected Castagnoli polynomial satisfy the laws the proofs use |
| `Crc32c.HashIsRegister` | odp/odp1.7/platform/linux-generic/odp_hash.c:445-487 | the hash is the CRC-32C register over the data itself if and only if the length is a multiple of four or the register is 0 or 0xFCA42DAF |
| `Crc32c.ByteFails` | odp/odp1.7/platform/linux-generic/odp_hash.c:457-484 | from register 0, the hash of every single byte but 0 differs from the register over it |
| `Crc32c.HashOfOneFails` | odp/odp1.7/platform/linux-generic/odp_hash.c:457-484 | the byte 0x01 from register 0, as the concrete input |
| `Crc32c.OdpHashCrc32c` | odp/odp1.7/platform/linux-generic/odp_hash.c:445-487 | the hash at its polynomial |
| `Barrier.RunInv` | odp/odp1.7/platform/linux-generic/odp_barrier.c:30-50 | in every run of n threads the counter is the base of the current half plus the threads inside, or 2n while the wrap is pending |
| `Barrier.LeavesExactly` | odp/odp1.7/platform/linux-generic/odp_barrier.c:44-46 | a spinning thread leaves if and only if its generation is complete and the counter has wrapped |
| `Barrier.NoneLeavesEarly` | odp/odp1.7/platform/linux-generic/odp_barrier.c:30-50 | no thread leaves a generation before every thread has entered it |
| `Barrier.StragglerIsReleased` | odp/odp1.7/platform/linux-generic/odp_barrier.c:44-46 | a straggler's next look lets it go however often the others have come back, and no later generation completes without it |
| `Barrier.CounterBounds` | odp/odp1.7/platform/linux-generic/odp_barrier.c:37-43 | the counter stays within 0..2n and is 2n exactly while the wrap is pending |
| `Barrier.NoDeadlock` | odp/odp1.7/platform/linux-generic/odp_barrier.c:30-50 | with all n threads inside, one of them can go on |
| `Barrier.CanComplete` | odp/odp1.7/platform/linux-generic/odp_barrier.c:30-50 | from every reachable state, the threads going on can complete the generation in progress |
| `TicketLock.RunInv` | odp/odp1.7/platform/linux-generic/odp_ticketlock.c:18-79 | every run of at most 2^32 threads in which no trylock's swap succeeds after a lap of 2^32 tickets keeps the outstanding tickets the contiguous range from current to next, each with one thread |
| `TicketLock.MutualExclusion` | odp/odp1.7/platform/linux-generic/odp_ticketlock.c:18-79 | at most one thread is in the lock, in every such run |
| `TicketLock.TicketOrder` | odp/odp1.7/platform/linux-generic/odp_ticketlock.c:18-63 | the lock is granted in the order of the tickets, trylock included |
| `TicketLock.SwapFindsFree` | odp/odp1.7/platform/linux-generic/odp_ticketlock.c:37-63 | when trylock's swap succeeds after its two separate loads, nobody has or waits for the lock if and only if fewer than 2^32 tickets were drawn since the first load |
| `TicketLimits.LapBreaks` | odp/odp1.7/platform/linux-generic/odp_ticketlock.c:37-63 | for any number of threads from two on, a run in which no swap succeeds more than 2^32 tickets after its load ends with two threads in the lock, so 2^32 itself is too many |
| `TicketLimits.CrowdBreaks` | odp/odp1.7/platform/linux-generic/odp_ticketlock.c:18-35 | with more than 2^32 threads, a run without any trylock ends with two threads in the lock |
| `TicketLimits.ExclusiveExactly` | odp/odp1.7/platform/linux-generic/odp_ticketlock.c:18-79 | for every number of threads and every bound on the tickets between a trylock's load and its swap: the lock is exclusive in every run if and only if there is at most one thread, or there are at most 2^32 and the bound is below 2^32 |
| `TicketLock.OldestCanMove` | odp/odp1.7/platform/linux-generic/odp_ticketlock.c:18-79 | while tickets are outstanding, the thread of the oldest can go on |
| `TicketLock.LockAlone` | odp/odp1.7/platform/linux-generic/odp_ticketlock.c:18-35 | from every reachable state with the lock free, an idle thread going on alone gets it by lock |
| `TicketLock.TryAlone` | odp/odp1.7/platform/linux-generic/odp_ticketlock.c:37-63 | and by trylock |
| `TicketLock.GivesUpHonestly` | odp/odp1.7/platform/linux-generic/odp_ticketlock.c:37-63 | a trylock gives up only if tickets were outstanding when it looked or one was drawn since its first load |
| `TicketLock.UnlockPasses` | odp/odp1.7/platform/linux-generic/odp_ticketlock.c:65-79 | the holder gives the lock to the next ticket or leaves it free |
| `TicketLock.NeverStuck` | odp/odp1.7/platform/linux-generic/odp_ticketlock.c:18-79 | only a thread that waits for its ticket is ever held up |
| `RwLock.RunInv` | odp/odp1.7/platform/linux-generic/odp_rwlock.c:17-61 | in every run the counter is the number of readers, or all ones with one writer and no reader, for any number of threads |
| `RwLock.Exclusion` | odp/odp1.7/platform/linux-generic/odp_rwlock.c:17-61 | a writer is alone |
| `RwLock.ReaderEnters` | odp/odp1.7/platform/linux-generic/odp_rwlock.c:17-33 | from every reachable state without a writer and with fewer than 2^31 readers, an idle thread going on alone through read_lock gets in beside them |
| `RwLock.WriterEnters` | odp/odp1.7/platform/linux-generic/odp_rwlock.c:42-55 | from every reachable state without readers and writer, one through write_lock gets in |
| `RwLock.ManyReaders` | odp/odp1.7/platform/linux-generic/odp_rwlock.c:17-33 | there are runs with any number of simultaneous readers up to 2^31 |
| `RwLock.Leaves` | odp/odp1.7/platform/linux-generic/odp_rwlock.c:35-61 | a writer that leaves frees the lock, a reader that leaves takes exactly itself off |
| `RwLock.NeverStuck` | odp/odp1.7/platform/linux-generic/odp_rwlock.c:17-61 | a thread always has a step, if only to look again |
| `RwLock.RetryMeansBusy` | odp/odp1.7/platform/linux-generic/odp_rwlock.c:22-55 | a thread looks again only if the counter has changed since, or the lock was not to be had |
| `RecursiveLock.RunInv` | odp/odp1.7/platform/linux-generic/odp_rwlock_recursive.c:21-70 | while no nesting exceeds its counter, a thread has the plain lock exactly while its nesting depth is positive, and the owner fields belong to the writer |
| `RecursiveLock.WriterAlone` | odp/odp1.7/platform/linux-generic/odp_rwlock_recursive.c:47-70 | a thread nested in write locks is alone with the lock |
| `RecursiveLock.FaithfulIffCounted` | odp/odp1.7/platform/linux-generic/include/odp/plat/rwlock_recursive_types.h:25-30 | the wrapper is faithful in every run if and only if no thread nests more than 255 read locks or 2^32 - 1 write locks |
| `RecursiveLock.NestedRead` | odp/odp1.7/platform/linux-generic/odp_rwlock_recursive.c:21-34 | a nested read lock is counted at once, without the plain lock |
| `RecursiveLock.NestedWrite` | odp/odp1.7/platform/linux-generic/odp_rwlock_recursive.c:47-58 | the same for write locks |
| `RecursiveLock.UnnestRead` | odp/odp1.7/platform/linux-generic/odp_rwlock_recursive.c:36-46 | an unlock takes off one level, and the plain lock is given back with the last one and only then |
| `RecursiveLock.UnnestWrite` | odp/odp1.7/platform/linux-generic/odp_rwlock_recursive.c:62-70 | the same for write locks, with the owner cleared before the lock is given back |
| `RecursiveLock.NeverStuck` | odp/odp1.7/platform/linux-generic/odp_rwlock_recursive.c:21-70 | a thread in a call always has a step, in the plain lock or in the wrapper |
| `HashTable.AddKeepsCircle` | odp/odp1.7/helper/odph_list_internal.h:33-46 | adding behind the head keeps the circular list linked both ways, with the node in front |
| `HashTable.DelKeepsCircle` | odp/odp1.7/helper/odph_list_internal.h:54-65 | deleting any node keeps the rest of the circle in order |
| `HashTable.AddNode` | odp/odp1.7/helper/hashtable.c:258-264 | a free node filled and linked for a new key: the table then represents the larger map, with every node free or in the bucket of its key, no key twice, and one free node less |
| `HashTable.DelNode` | odp/odp1.7/helper/hashtable.c:211-221 | a node unlinked and cleared: the table represents the map without its key, with one free node more |
| `HashTable.UpdateValue` | odp/odp1.7/helper/hashtable.c:242-247 | overwriting a value updates the map at that key only |
| `HashTable.Table.constructor` | odp/odp1.7/helper/hashtable.c:91-125 | a new table represents the empty map with all nodes free |
| `HashTable.Table.Find` | odp/odp1.7/helper/odph_list_internal.h:75-78 | the walk of a bucket finds a node with the key if and only if the key is in the map |
| `HashTable.Table.Take` | odp/odp1.7/helper/hashtable.c:184-206 | a free node is found if and only if the map has fewer keys than the pool has nodes |
| `HashTable.Table.ListAdd` | odp/odp1.7/helper/odph_list_internal.h:33-46 | the four stores link the node behind the head |
| `HashTable.Table.Give` | odp/odp1.7/helper/hashtable.c:211-221 | the node is unlinked from its neighbours and cleared |
| `HashTable.Table.Put` | odp/odp1.7/helper/hashtable.c:224-268 | the map gets the key and value; it fails, changing nothing, if and only if an argument is missing or the key is new and the pool is used up |
| `HashTable.Table.Get` | odp/odp1.7/helper/hashtable.c:271-306 | returns the value of the map; fails if and only if the key is missing or absent or the buffer is too small |
| `HashTable.Table.Remove` | odp/odp1.7/helper/hashtable.c:309-336 | the map loses the key, and removing an absent key succeeds and changes nothing |
| `Ipsec.EncodeLenExact` | odp/odp1.7/example/ipsec/odp_ipsec_misc.h:43-43 | the length computed by division is the least number of whole blocks that holds the bytes |
| `Ipsec.WholeBlocks` | odp/odp1.7/example/ipsec/odp_ipsec.c:884-891 | payload, padding and trailer together are a number of whole blocks |
| `Ipsec.AhFields` | odp/odp1.7/example/ipsec/odp_ipsec_misc.h:286-309 | the AH header is found where it was put, and its length byte leads exactly behind it |
| `Ipsec.MaskExact` | odp/odp1.7/example/ipsec/odp_ipsec.c:688-693 | the masked header stays the same exactly under changes of type of service, fragment field, time to live and checksum |
| `Ipsec.WireAh` | odp/odp1.7/example/ipsec/odp_ipsec.c:893-920 | the AH header of a packet sent, field by field at its offsets: next protocol, length, index, sequence number, and a hash over everything with the hash zeroed |
| `Ipsec.WireEsp` | odp/odp1.7/example/ipsec/odp_ipsec.c:868-891 | the ESP header at its offsets, and behind it the ciphered payload with padding, padding length and protocol |
| `Ipsec.Be32Value` | odp/odp1.7/example/ipsec/odp_ipsec.c:963-983 | sequence numbers are written with the most significant byte first |
| `Ipsec.Wrap16Is` | odp/odp1.7/example/ipsec/odp_ipsec.c:931-932 | the length field is 16 bits wide |
| `Ipsec.SkipsExactly` | odp/odp1.7/example/ipsec/odp_ipsec.c:655-686 | a packet is skipped exactly if a header it has is missing in the association or bears another index |
| `Ipsec.ForgeryIsCollision` | odp/odp1.7/example/ipsec/odp_ipsec.c:727-745 | a packet that gets past the receiver with the hash that was sent is the packet sent, with the unchanging header fields as sent, or a collision of the keyed hash |
| `Ipsec.NullIsLawful` | odp/odp1.7/platform/linux-generic/odp_crypto.c:69-74 | the laws asked of cipher and hash can be met: the null cipher and a constant hash meet them |
| `Ipsec.HashAgrees` | odp/odp1.7/example/ipsec/odp_ipsec.c:688-698 | the hash the receiver computes over the masked header and the packet with the hash cleared is the one the sender wrote, whatever happened to the mutable fields on the way |
| `Ipsec.Deciphered` | odp/odp1.7/example/ipsec/odp_ipsec.c:700-705 | the receiver finds the initialisation vector and the ciphered part where the sender put them, and gets payload, padding and trailer back |
| `Ipsec.RoundTrip` | odp/odp1.7/example/ipsec/odp_ipsec.c:820-944 | with AH, ESP or both, the receiver restores payload, protocol and length, and TOS, TTL and fragment field as they arrived, if and only if the protocol is not 4 and not ESP under AH alone |
| `Ipsec.RestoresPacket` | odp/odp1.7/example/ipsec/odp_ipsec.c:727-802 | a packet that arrives as it was sent becomes the packet it was, down to its checksum |
| `IpsecPath.TrailerLen` | odp/odp1.7/example/ipsec/odp_ipsec.c:884-891 | the trailer length by division is that of the wire format |
| `IpsecPath.Packet.OutClassify` | odp/odp1.7/example/ipsec/odp_ipsec.c:820-950 | payload moved, headers and trailer stored, header fields masked, length adjusted, context saved; dropped exactly when the segment has no room |
| `IpsecPath.Packet.OutSeq` | odp/odp1.7/example/ipsec/odp_ipsec.c:963-983 | each header gets the next sequence number of its association and nothing else changes |
| `IpsecPath.SeqsDiffer` | odp/odp1.7/example/ipsec/odp_ipsec.c:963-983 | no sequence number is used twice within 2^32 packets of an association |
| `IpsecPath.Packet.OutCrypto` | odp/odp1.7/platform/linux-generic/odp_crypto.c:743-750 | the body is ciphered in place, then the hash over the ciphered packet is stored |
| `IpsecPath.Packet.OutFinish` | odp/odp1.7/example/ipsec/odp_ipsec.c:1017-1041 | the saved fields come back and the checksum is computed, or the packet is dropped |
| `IpsecPath.Packet.OutComplete` | odp/odp1.7/example/ipsec/odp_ipsec.c:963-1041 | from what classification leaves, the segment becomes the wire format of the original packet |
| `IpsecPath.Packet.Output` | odp/odp1.7/example/ipsec/odp_ipsec.c:820-1041 | the whole output path: the segment holds the wire format of the packet, the header its outer header with checksum, and the association has advanced |
| `IpsecPath.Packet.InClassify` | odp/odp1.7/example/ipsec/odp_ipsec.c:639-698 | the packet is skipped exactly if it has no IPsec header or one the association does not know; else the fields are saved and, with AH, masked |
| `IpsecPath.Packet.InCrypto` | odp/odp1.7/platform/linux-generic/odp_crypto.c:105-140 | the hash is taken out, computed again and compared, then the body is deciphered in place |
| `IpsecPath.Packet.InFinish` | odp/odp1.7/example/ipsec/odp_ipsec.c:727-802 | protocol and padding from the headers, length and saved fields restored, payload moved to the front; dropped on a bad hash |
| `IpsecPath.Packet.Input` | odp/odp1.7/example/ipsec/odp_ipsec.c:639-802 | the whole input path does to header, segment and length what the receiver of the round trip does |
| `IpsecPath.Packet.Arrive` | odp/odp1.7/example/ipsec/odp_ipsec.c:639-802 | the input path on what the output path left accepts it and restores header, payload and length |
| `IpsecPath.Packet.ThereAndBack` | odp/odp1.7/example/ipsec/odp_ipsec.c:639-1041 | classification, sequence numbers, crypto and finish out, then the input path in, over one segment: header, payload and length are what they were |
| `CpuMask.PrintParse` | odp/odp1.7/platform/linux-generic/odp_cpumask.c:22-120 | reading the text of a mask gives the mask back, for every width of whole nibbles |
| `CpuMask.ParsePrint` | odp/odp1.7/platform/linux-generic/odp_cpumask.c:22-120 | writing what was read gives every canonical text back |
| `CpuMask.PrintedIsCanonical` | odp/odp1.7/platform/linux-generic/odp_cpumask.c:67-120 | the text is upper case without leading zeros and fits the mask |
| `CpuMask.FromStr` | odp/odp1.7/platform/linux-generic/odp_cpumask.c:22-65 | bit i of the mask is the bit of its digit; an invalid digit in reach gives the empty mask; digits beyond the mask are not looked at |
| `CpuMask.ToStr` | odp/odp1.7/platform/linux-generic/odp_cpumask.c:67-120 | the text, and its length with the null, or failure exactly when the buffer cannot hold both |
| `CpuMask.Last` | odp/odp1.7/platform/linux-generic/odp_cpumask.c:194-202 | the highest CPU of the mask, or -1 |
| `CpuMask.HexExact` | odp/odp1.7/platform/linux-generic/odp_cpumask.c:46-55 | exactly the sixteen digits, letters in both cases, have a value, each its own |
| `CpuMask.LowerSame` | odp/odp1.7/platform/linux-generic/odp_cpumask.c:46-55 | text in lower case is read as text in upper case |
| `CpuMask.PrefixSkipped` | odp/odp1.7/platform/linux-generic/odp_cpumask.c:33-38 | a prefix with either letter is skipped |
| `CpuMask.BeyondIgnored` | odp/odp1.7/platform/linux-generic/odp_cpumask.c:40-62 | what stands before the digits that have a place in the mask changes nothing |
| `CpuMask.InvalidEmpties` | odp/odp1.7/platform/linux-generic/odp_cpumask.c:46-58 | a character in reach that is no digit empties the mask |

## Left out

- Memory ordering: steps are sequentially consistent; acquire, release and the fences of the source are not modelled.
- Ring: burst and bulk wrappers, lookup and dumps; they call the modelled functions or print.
- RingProtocol.RunInv: over runs with one user per side, or without empty requests and swaps after a lap; SafeExactly shows that these are the right ones, but for rings of one slot.
- RingProtocol.ReservationExact: for a swap within 2^32 positions of its load; beyond that HeadIsCurrent says that the head is not the loaded one.
- RingTheorems.RingSafety: over the runs that SafeExactly shows to be the right ones.
- RingTheorems.RefusalHonest: for an opposite tail loaded less than 2^32 ahead of the head, or a side with one user; HonestExactly shows that this is needed.
- RingProgress.SoloCall: for a call that meets nobody on its side; that contending calls all come to an end needs a fair schedule, which is not modelled.
- RingCalls.GrantExact: over the runs that SafeExactly shows to be the right ones.
- Queues: ordered queues with their reorder lists and locks, and queues bound to packet output.
- Scheduler: packet-input polling and its commands, thread groups (a thread may find itself not eligible at any time), strict priority between levels, pause, and creation that fails because the command pool is empty.
- SchedulerInvariant.RunInv: over runs in which no queue is used before its creation has returned; EarlyUseBreaks shows that this is needed, and what an enqueue without a command does afterwards is not followed.
- SchedulerTheorems.TokenConservation: over the same runs; ConservedIffPatient shows that these are the right ones.
- SchedulerTheorems.NoLostWakeup: over the same runs.
- SchedulerProgress.CanBeServed: the thread looks at the priority queue of the queue in question; the scan from the highest priority on is not modelled, and neither is fairness between threads.
- Timer: operations are whole steps; the interleavings below them (two compare-and-swap words or a lock per timer), handle packing, POSIX timers and the conversion of ticks to nanoseconds are not modelled.
- TimerRuns.OnTime: ticks stay below 2^63, where the inactive marks begin.
- TimerFresh.ExactIffDelayed: for a pool with at least one timer and one timeout buffer whose largest distance leaves room for a tick below 2^63; without a timer or a buffer nothing is ever posted.
- Crc: the tables are defined by their recurrence; that the printed constants are these tables is not part of this model, nor is reading unaligned memory.
- Barrier.RunInv: for 1 <= n < 2^31, so that 2n is a word.
- TicketLock.RunInv: for at most 2^32 threads, and trylocks that swap within 2^32 tickets of their first load; ExclusiveExactly shows that this is needed.
- TicketLock.MutualExclusion: over the same runs.
- TicketLock.TicketOrder: over the same runs.
- RecursiveLock.RunInv: while no nesting exceeds its counter; FaithfulIffCounted shows that this is needed.
- RecursiveLock.WriterAlone: over the same runs.
- RecursiveLock: a thread that mixes read and write locks waits for itself and is not modelled.
- Hash table: the hash function is any function, and the sizes of the memory block are parameters; the per-bucket locks and two threads taking pool nodes at the same time are not modelled, so the operations are whole steps.
- IPsec: tunnel mode (a packet that takes that path ends the model), policy and association databases beyond one association, parsing of keys and addresses, and the asynchronous crypto queue.
- IPsec: a packet with fewer headers than its association, for which the crypto session runs over empty ranges, and packets too short for their headers are outcomes of the receiver that are not followed further.
- IpsecPath.Packet.OutClassify: requires the segment to hold what is stored before the room at the tail is checked.
- IpsecPath.Packet.Output: requires room at the tail; without it OutClassify drops the packet.
- IpsecPath.Packet.InClassify: requires a packet whose IPv4 length is within the segment and, with AH, holds the fixed part of that header, which the source does not check.
- IpsecPath.Packet.InCrypto: requires a packet with the headers of its association and long enough for them.
- IpsecPath.Packet.InFinish: requires a packet long enough for the trailer it announces, which the source does not check.
- IpsecPath.Packet.Input: requires the length of an IPv4 header behind the packet in the segment, because the source moves that much more than the payload, and a packet long enough for the headers and the trailer it announces, which the source does not check.
- Ipsec.RoundTrip: the cipher is any pair that is inverse on whole blocks, the hash and the checksum any functions; hash lengths are multiples of four bytes that the AH length byte can hold, blocks are 1 to 256 bytes, and the new length fits 16 bits.
- Ipsec.SkipsExactly: for packets long enough for the headers they announce, which the source does not check.
- CPU masks: set operations on masks, which are calls of the C library.
- Buffer, packet and thread pools, shared memory, packet I/O and classification.
