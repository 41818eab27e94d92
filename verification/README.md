# Concurrent programs, modelled and proved in Dafny

A model of the lock-free queues, rings, locks and reclamation schemes of the repository, and of
its parallel word count, with proofs of what each of them is for.

**Concurrent components** are step machines. The state is the shared memory plus, for every
thread, a program counter with its locals. Every atomic load, store, exchange, fetch-and-add or
compare-and-swap is one step; what a thread computes from a value it has read belongs to the step
that read it. A run (`Run`) is any finite schedule of steps of any number of threads, and the main
results speak of every reachable state (`Reachable`). Each module proves an invariant that every
step keeps, then the results from it. Memory is sequentially consistent and compare-and-swap does
not fail spuriously. States carry histories (what was enqueued, in which order, by whom); nothing
in the program reads them. Where memory is reclaimed, a freed node stays freed and a flag `bad`
records a touch of a freed node or a second free; the results say that it stays false.

What a caller asked for is told from the schedule alone: `LastCall` (`LastRequest` for timers) is the last call a thread has
begun, with its arguments and the states it has lived through since, and `Given` lists the values
given to the calls.  Results stated with them say what a call answers, that the values that come
out are those that callers put in, and that a call that gives up had a reason.

**Sequential components**, and the functions of the concurrent ones without interference, are
classes and methods with loops over arrays, specified by sequences and counts.

| module | program | what is proved |
|---|---|---|
| `LfRing` | lfring | the ring refines a FIFO log in all four producer/consumer modes; 64-bit indices make the same runs while none that is compared has fallen 2^63 - size behind |
| `Mpmc` | mpmc | tickets pair up values, segments are freed safely, no wake-up is lost |
| `WorkSteal` | work-steal | every item is returned once, across thieves and resizes |
| `LfTimer` | lf-timer | the `earliest` hint never hides a due timer |
| `RcuQueue` | rcu_queue | reclamation is safe exactly when a condition on the caller holds; 32-bit epochs always decide right |
| `Broadcast` | broadcast, pool | elements are conserved, the free stack is free of ABA |
| `RingbufShm` | ringbuf-shm | chunks come out in order and unchanged |
| `Channel`, `FutexMutex` | channel | receives match sends, with 32-bit laps exactly while nobody falls 2^31 rounds behind; mutual exclusion, no lost wake-up |
| `McsLock` | mcslock | mutual exclusion in order of arrival, nodes reusable |
| `Mpsc` | mpsc | FIFO by tail exchange, no pusher refers to a freed node |
| `SeqLock` | seqlock | a read is whole unless a multiple of 2^31 writes overlapped it |
| `Mbus` | mbus | the reference count pins a client |
| `WordCount` | map-reduce | the parallel count is the number of occurrences exactly when the last share has a separator, no word begins with six z's and every word fits its thread's buffer |
| `RingBuffer`, `RingSpsc` | ringbuffer | a bounded FIFO under 32-bit wrap-around, call by call and with producer and consumer interleaved |
| `Modular` | | remainders for the ring-shaped structures |

`dafny verify dfyconfig.toml` verifies the project.

Findings where the code does not do what is promised, each with a run or an input that shows it
and the exact condition under which it does:

- rcu_queue: a pop can overtake a lagging tail. The popped node goes to `qsbr_free` while the
  queue's tail still points to it; a thread that is already past its quiescent point can then
  start a push, read that tail, and follow it once the others' quiescent points have let the node
  be freed. `RcuQueue.SafeExactlyWhenGuarded` shows that reclamation is safe in all runs if and only
  if callers wait until the tail has left the node; `RcuQueue.SafeUnlessTailFreed` that every run of
  the program as written is safe in which no node is given to `qsbr_free` while the tail points to it.
- ringbuf-shm: the assertion `written <= rsvd` does not protect the buffer, because `rsvd` counts
  the header too and, for a contiguous region, is not a multiple of 8.
  `RingbufShm.AdvanceSafeExactly` gives the exact condition, 8 plus the padded size at most `rsvd`;
  `RingbufShm.AssertIsNotEnough` is an input that passes the assertion and loses the chunk.
- seqlock: the counter is 32 bits wide, so 2^31 writes during one read go unnoticed.  A run may
  have any number of writes: a read that fewer than 2^31 of them overlapped is whole
  (`SeqLock.ReadsAreWhole`), and for every w some run has a read that w writes overlapped and that
  is a mix of two versions if and only if w is a positive multiple of 2^31
  (`SeqLock.MixedExactlyAtWraps`).
- word-count: a thread gives up when the last thread's even share of the file has no separator;
  the bucket of a word that begins with six z's is one past the end of the table
  (`WordCount.InTableExactly`, `WordCount.SixZOutside`); and the terminator of a word of 32, 64, 96, ...
  letters is stored one past the end of the word buffer, unless a longer word before it in the slice
  has made the buffer larger (`WordCount.FullBufferOverruns`).  For every file and number of threads
  the program counts all words right if and only if none of the three is the case
  (`WordCount.CountWords`).
- channel: laps are 32 bits wide.  For every capacity and every b, receives match sends in all runs
  in which no thread falls more than b rounds behind between reading a ticket and comparing it, if
  and only if b < 2^31 (`Channel.NarrowExactlyWithinLag`).  A sender that sleeps through 2^31 rounds
  can overwrite a value that has not been received (`Channel.SleeperOverwrites`); one that falls
  2^31 - 1 behind may pass the check of the item's lap, but its compare-and-swap fails.
- ringbuffer: the test for a power of two lets a count of 0 through (`RingBuffer.AcceptedExactly`).
  The ring made is not one: it has no slots and takes any number of objects
  (`RingBuffer.ZeroRingTakesAll`).  Every other accepted count gives an empty ring of that size
  (`RingBuffer.Ring.constructor`).
- lf-timer: a timer that is set after it was freed, or while it is being freed, is ended without
  firing when it is handed out again (`LfTimer.FreedTimerReallocated`).  No other activation ends
  that way (`LfTimer.ReallocatedMeansLoose`).
- work-steal: `take` on a deque to which nothing was ever pushed wraps `bottom` around;
  `WorkSteal.DequeObject.Take` states what happens on either side of that.

## Model

| member | source | states |
|---|---|---|
| `LfRing.FifoRefinement` | lfring/lfring.c:105-221 | in every run head <= tail <= end of log <= head + size, winning dequeues have handed out exactly log[..head] in order, and the ring holds the rest of the log slot by slot, so there is no hole below the shared tail, nor below the tail any thread works with |
| `LfRing.LogGrows` | lfring/lfring.c:105-221 | log and output are only ever extended, so an element keeps its index for ever |
| `LfRing.DequeueReturns` | lfring/lfring.c:188-221 | a dequeue of n that returns k elements and `index` has 0 < k <= n and returns log[index..index+k], which is its own part of the output |
| `LfRing.DequeueAnswers` | lfring/lfring.c:188-221 | in every run a dequeue called for n returns at least 1 and at most n elements, and fewer than n only if they end at the tail the ring had at some moment of the call; it returns none, asked for some, only if at some moment of the call the ring was empty |
| `LfRing.DequeueLosesToAnother` | lfring/lfring.c:194-219 | a dequeue starts over only if another has moved head since it read it |
| `LfRing.EnqueueReturns` | lfring/lfring.c:105-167 | an enqueue that returns k has put exactly its first k elements in the log, in order, all below the released tail |
| `LfRing.EnqueueAnswers` | lfring/lfring.c:105-167 | in every run an enqueue has put in the first elements of those its caller gave, and fewer than all, single producer or not, only if at some moment of the call all places up to the index it stopped at had been given out |
| `LfRing.ShortEnqueueMeansFull` | lfring/lfring.c:114-133 | an enqueue stops short only at an instant when the ring is full |
| `LfRing.EmptyDequeueIsJustified` | lfring/lfring.c:169-205 | a dequeue gives up only at an instant when all elements of returned enqueues are consumed, although the tail may lag |
| `LfRing.TestWin` | lfring/lfring.c:142-163 | a slot that holds the index of one lap back is the next free one, and the winning compare-and-swap appends to the log |
| `LfRing.SingleProducerAssertion` | lfring/lfring.c:120-125 | the assertion in the single producer's loop holds in every run |
| `LfRing.Stable` | lfring/lfring.c:79-221 | what a thread has read or done so far stays true under every step another thread can make |
| `LfRing.StepInv` | lfring/lfring.c:79-221 | every step of every thread keeps the invariant |
| `LfRing.RunInv` | lfring/lfring.c:51-221 | the invariant holds in every state of every run, for all ring sizes, modes and numbers of threads |
| `LfRing.SerialComparison` | lfring/lfring.c:74-77 | for indices at most 2^64 apart, `before` agrees with the true order if and only if they are within 2^63 |
| `LfRing.WrapKeepsSlot` | lfring/lfring.c:139-180 | masking a wrapped index gives the slot of the unbounded one |
| `LfRing.Run64Agrees` | lfring/lfring.c:74-221 | a run with 64-bit indices and the serial comparison, in which no index a thread compares has fallen 2^63 - size behind the end of the log, is the run with indices that never wrap |
| `Mpmc.ReclamationSafe` | mpmc/mpmc.c:253-311 | in every run no freed segment is touched and none freed twice; freed segments are below every registered handle; a listed segment is freed exactly when its id is below the floor and no freeing loop still has it ahead |
| `Mpmc.CellOfTicket` | mpmc/mpmc.c:119-162 | ids on the list are consecutive from 0, and a thread at its cell is in segment i / N, which is not freed |
| `Mpmc.TicketsPairUp` | mpmc/mpmc.c:180-244 | dequeue ticket i delivers exactly the value of enqueue ticket i, by spinning or by the futex, and no two threads share a ticket |
| `Mpmc.TicketsAreFinal` | mpmc/mpmc.c:180-244 | what goes with a ticket and what a ticket delivered never change again |
| `Mpmc.ValuesAreGiven` | mpmc/mpmc.c:180-196 | in every run the values that go with the tickets are those given to the enqueue calls, in the order in which these drew tickets |
| `Mpmc.DeliversInOrder` | mpmc/mpmc.c:180-312 | dequeue ticket i delivers the value given to the i-th enqueue call to draw a ticket |
| `Mpmc.ReturnedCalls` | mpmc/mpmc.c:180-312 | an enqueue that has returned has stored its value in the cell of its ticket, a dequeue that has returned has delivered that of its ticket |
| `Mpmc.NoTicketLost` | mpmc/mpmc.c:180-244 | every ticket drawn has been used or is with a thread on its way to the cell or at it |
| `Mpmc.StoreValue` | mpmc/mpmc.c:195-203 | the enqueuer's exchange finds an empty cell or the address of the thread that waits for this very ticket, never a value |
| `Mpmc.TakeValue` | mpmc/mpmc.c:232-244 | a dequeuer's exchange that finds a value takes it, and the address it leaves is never used |
| `Mpmc.WakeWaiter` | mpmc/mpmc.c:201-202 | the store to the waiter's futex hits a thread that is still waiting for this ticket, and the enqueuer goes on to call futex_wake for it |
| `Mpmc.LinkList` | mpmc/mpmc.c:127-154 | linking a standby segment succeeds only at the end of the list and keeps ids consecutive |
| `Mpmc.Raise` | mpmc/mpmc.c:292-301 | unlocking with a new id keeps the invariant: the segments between the old and the new floor become exactly one thread's to free |
| `Mpmc.FreeOne` | mpmc/mpmc.c:303-307 | a turn of the freeing loop, after the lock was given back, frees a segment nobody freed and nobody else will |
| `Mpmc.HandlesAboveNewFloor` | mpmc/mpmc.c:266-292 | the scan over all handles yields an id that no push or pop handle is below |
| `Mpmc.ReclaimTriedExactly` | mpmc/mpmc.c:253-264 | reclamation is tried exactly by the dequeue of a segment's last ticket, when nobody holds init_id and the segment is at least `threshold` ahead of the first |
| `Mpmc.ReclaimsUpToAHandle` | mpmc/mpmc.c:264-301 | the new first segment is one no handle is behind and one some handle was at during the dequeue; reclamation gives up only if a handle was in the first segment during the dequeue |
| `Mpmc.NoLostWakeUp` | mpmc/mpmc.c:195-244 | in every run a thread the kernel has put to sleep waits for a value nobody has stored, or somebody is about to clear its futex or to call futex_wake for it |
| `Mpmc.WokenStep` | mpmc/mpmc.c:195-244 | a dequeuer that waits although its value is stored has an enqueuer that is about to clear its futex |
| `Mpmc.SleepingStep` | mpmc/mpmc.c:201-238 | a thread asleep on a futex that is no longer 1 has an enqueuer that is about to call futex_wake |
| `Mpmc.StepInv` | mpmc/mpmc.c:119-312 | every step keeps the invariant |
| `Mpmc.RunInv` | mpmc/mpmc.c:63-312 | the invariant and the absence of lost wake-ups in every run |
| `WorkSteal.EveryItemExactlyOnce` | work-steal/work-steal.c:72-158 | in every run each item is in exactly one place: once in one deque, in one hand, or done |
| `WorkSteal.OwnerWorksAtYoungEnd` | work-steal/work-steal.c:101-140 | push adds at the young end and take removes the youngest item; an empty answer means the deque is empty |
| `WorkSteal.ThiefGetsOldest` | work-steal/work-steal.c:142-158 | a thief wins exactly when top is where it read it, and has then read the oldest item, even through an array that resize has replaced; it aborts only after top has moved |
| `WorkSteal.CallsReturn` | work-steal/work-steal.c:101-158 | after a push of w, w was the youngest item of the own deque at some moment of the call; a take without an item has seen the deque empty; a steal without one has seen it empty or down to the item its owner was taking, or top moved during the call |
| `WorkSteal.OwnerStepKeepsThief` | work-steal/work-steal.c:72-140 | no step of the owner, resize included, takes from a thief what it may still win |
| `WorkSteal.ThiefStepInv` | work-steal/work-steal.c:142-158 | a thief's steps keep the deque in order |
| `WorkSteal.ContinuationReleasedOnceAfterAll` | work-steal/work-steal.c:183-189 | the join continuation is released at most once, and exactly when all its items have run |
| `WorkSteal.RunInv` | work-steal/work-steal.c:63-189 | the invariant in every run |
| `WorkSteal.DequeObject.constructor` | work-steal/work-steal.c:63-70 | a new deque is empty |
| `WorkSteal.DequeObject.Resize` | work-steal/work-steal.c:72-99 | the copying loop into an array of twice the size keeps the contents |
| `WorkSteal.DequeObject.Push` | work-steal/work-steal.c:128-140 | contents become old contents plus the item, after a resize when full |
| `WorkSteal.DequeObject.Take` | work-steal/work-steal.c:101-126 | returns and removes the last item exactly when bottom is not 0; otherwise bottom wraps around |
| `WorkSteal.DequeObject.Steal` | work-steal/work-steal.c:142-158 | returns and removes the first item |
| `LfTimer.HintNeverLate` | lf-timer/lf_timer.c:165-207 | in every run, when no setter or expirer is in flight, `earliest` is at most every live expiration, so the fast path skips nothing due |
| `LfTimer.SkipIsJustified` | lf-timer/lf_timer.c:181-207 | a thread that takes the fast path past a due timer leaves it to another thread that is about to lower the hint that far or is in a scan that will meet it |
| `LfTimer.ExpireFiresDue` | lf-timer/lf_timer.c:181-207 | a call of lf_timer_expire that has returned leaves live no activation that had begun before it read the high watermark and is due by the clock it read, unless during the call the hint was later than that clock |
| `LfTimer.ScanFiresDue` | lf-timer/lf_timer.c:104-162 | when a scan ends, every activation that began before it read the high watermark and is due by its clock has ended |
| `LfTimer.UpdatesAnswer` | lf-timer/lf_timer.c:292-344 | set, reset and cancel say yes only having begun and ended the activations asked for, with the given timer and expiration, and no only if the expiration is not valid or during the call the timer was not allocated or not in the state they need |
| `LfTimer.TickAndFreeReturn` | lf-timer/lf_timer.c:209-290 | tick_set leaves the clock no earlier than it asked; free has put the timer on the free list or found it not allocated or active |
| `LfTimer.ActivationsAreTheTable` | lf-timer/lf_timer.c:85-102 | an activation is live exactly while its timer holds its expiration, and none fires before the clock reaches it |
| `LfTimer.EndsOnce` | lf-timer/lf_timer.c:230-344 | what has become of an activation in a run, fired, reset, cancelled or its timer handed out again, is what has become of it in every longer run |
| `LfTimer.EndedBy` | lf-timer/lf_timer.c:85-102 | an activation is ended as fired only by an expire whose clock has reached it, as reset or cancelled only by such a call for its own timer, and otherwise only by an allocation |
| `LfTimer.ReallocatedMeansLoose` | lf-timer/lf_timer.c:230-318 | an activation is ended by an allocation only if its timer was on the free list when it began or a call to free it had found it inactive; otherwise its timer stays off the free list while it is live |
| `LfTimer.AllocEnds` | lf-timer/lf_timer.c:230-260 | an allocation ends an activation if and only if the timer it takes off the free list is the activation's |
| `LfTimer.FreedTimerReallocated` | lf-timer/lf_timer.c:230-318 | for every expiration there is a run in which a freed timer is set and then handed out again |
| `LfTimer.ScanInBounds` | lf-timer/lf_timer.c:104-162 | the scan with its read-ahead never reads beyond the four sentinels and stops at the first of them at the latest |
| `LfTimer.ScanStepCovers` | lf-timer/lf_timer.c:104-162 | each step of the scan keeps answering for the timers it has not passed |
| `LfTimer.AllocInv` | lf-timer/lf_timer.c:230-260 | allocation always finds a timer on a non-empty free list, a freed one or the first never used, takes it off and marks it inactive, and keeps the invariant that entries below the high watermark are initialised |
| `LfTimer.RunInv` | lf-timer/lf_timer.c:54-344 | the invariant in every run |
| `LfTimer.ScanTimers` | lf-timer/lf_timer.c:104-162 | the unrolled loop fires exactly the due timers before the stopping entry and returns the smallest expiration left |
| `RcuQueue.SafeExactlyWhenGuarded` | rcu_queue/rcu_queue.c:86-228 | with two or more threads, no reachable state has touched or twice freed a freed node if and only if nodes are given to qsbr_free only after the tail has left them |
| `RcuQueue.GuardedReclamation` | rcu_queue/rcu_queue.c:86-156 | guarded, no thread holds a pointer to a freed node, and a node that left the queue is in exactly one place on its way out |
| `RcuQueue.QueueIsFifo` | rcu_queue/rcu_queue.c:185-228 | in every run, guarded or not, the pop of node h delivers push number h, and the tail is at most one node behind |
| `RcuQueue.CallsReturn` | rcu_queue/rcu_queue.c:117-228 | in every run a push that has returned has linked a node with the value its caller gave; a pop has delivered the value of the node it took, or the queue was empty at some moment of the call; after qsbr_quiescent the thread's epoch is one the global epoch had during the call |
| `RcuQueue.DeliversInOrder` | rcu_queue/rcu_queue.c:185-228 | the pop of node h delivers the value given to the push that was the h-th to link its node |
| `RcuQueue.PushedAreGiven` | rcu_queue/rcu_queue.c:185-205 | the values in the queue are those the callers gave, in the order of linking |
| `RcuQueue.EachPoppedOnce` | rcu_queue/rcu_queue.c:207-228 | each node the head has left has delivered its value or is with exactly one thread about to: none is popped twice, none passed over |
| `RcuQueue.SafeUnlessTailFreed` | rcu_queue/rcu_queue.c:86-228 | a run of the program as written in which no node is given to qsbr_free while the tail points to it is step for step a guarded run, and safe |
| `RcuQueue.SourceAssertions` | rcu_queue/rcu_queue.c:117-144 | the assertions of qsbr_quiescent hold in every run, guarded or not: the counter is at least 1, there are nodes to free, and the stolen list is not empty |
| `RcuQueue.NarrowEpochsAgree` | rcu_queue/rcu_queue.c:86-156 | in every run, of any number of grace periods and guarded or not, comparing epochs of 32 bits decides as comparing whole ones |
| `RcuQueue.ProtocolRun` | rcu_queue/rcu_queue.c:86-156 | in every run, guarded or not, the counter of a grace period is the number of threads still behind, and no thread is more than one epoch behind |
| `RcuQueue.QuietLastInv` | rcu_queue/rcu_queue.c:117-156 | the last thread through a quiescent point ends the grace period with no pointer left into the first list |
| `RcuQueue.UseAfterFree` | rcu_queue/rcu_queue.c:185-205 | from the end of the grace period, two steps reach a state in which a push has touched a freed node |
| `RcuQueue.ReachLagging` | rcu_queue/rcu_queue.c:185-228 | reachable: a node popped and given to qsbr_free while the tail points to it and a push holds it |
| `RcuQueue.StepInv` | rcu_queue/rcu_queue.c:86-228 | every step keeps the invariant when callers are guarded |
| `RcuQueue.RunInv` | rcu_queue/rcu_queue.c:63-228 | the invariant in every guarded run |
| `Broadcast.ElementsConserved` | broadcast/broadcast.c:60-120 | in every run each element is in exactly one of: free stack, a publisher's hand, the ring's window, a dropper's hand; and there once |
| `Broadcast.RingHoldsTheWindow` | broadcast/broadcast.c:72-120 | the window of a ring made with `depth` slots holds at most `depth` messages, each in its slot under its own index, and the tail is at most one behind |
| `Broadcast.DropsOnlyWhenFull` | broadcast/broadcast.c:60-107 | in every run a message is dropped only when the window holds `depth` messages |
| `Broadcast.PublishEnds` | broadcast/broadcast.c:72-120 | broadcast_pub ends without a message only when it has seen the pool empty, and otherwise after its element was appended under the next index |
| `Broadcast.WindowHoldsGiven` | broadcast/broadcast.c:72-120 | the element of every message in the window holds what its publisher was given, until it is dropped |
| `Broadcast.PublishedInOrder` | broadcast/broadcast.c:60-120 | indices are published one after the other by the appending thread, never taken back, and dropped in order |
| `Broadcast.AcquireTakesTop` | broadcast/pool.c:18-35 | a successful compare-and-swap in pool_acquire takes the top element and leaves the rest, although head and link are read in torn halves |
| `Broadcast.GiveUpMeansEmpty` | broadcast/pool.c:21-23 | pool_acquire gives up only having seen the stack empty |
| `Broadcast.PoolPushed` | broadcast/pool.c:37-53 | a push under a fresh tag is never mistaken for what a reader has seen |
| `Broadcast.PoolPopped` | broadcast/pool.c:28-33 | a pop keeps what other acquirers have read right for as long as it is of use |
| `Broadcast.RingAppended` | broadcast/broadcast.c:83-116 | a slot is overwritten only at the next index, after the message in it was dropped |
| `Broadcast.PlaceDropped` | broadcast/broadcast.c:60-70 | the head's compare-and-swap moves exactly the oldest message into the dropper's hand |
| `Broadcast.InitPoolInv` | broadcast/pool.c:68-87 | the initial stack holds all elements, the first on top, under tags 1 to n |
| `Broadcast.PoolMemInit` | broadcast/pool.c:80-84 | the initialising loop builds that stack in place |
| `Broadcast.RunInv` | broadcast/broadcast.c:60-120 | the invariant in every run |
| `RingbufShm.ChunksInOrder` | ringbuf-shm/ringbuffer.c:83-271 | in every interleaving of producer and consumer, sent == received + unread, and from tail to head memory parses as the unread chunks with at most one gap |
| `RingbufShm.DeliversGiven` | ringbuf-shm/ringbuffer.c:83-271 | what the producer was given is, in order and unchanged, what was received, what is still to be read, and the chunk being written |
| `RingbufShm.AnswersExactly` | ringbuf-shm/ringbuffer.c:83-257 | in every interleaving a request is granted exactly when there is room by the tail it finds, and a read finds a chunk exactly when there is one |
| `RingbufShm.WritesMissUnread` | ringbuf-shm/ringbuffer.c:160-191 | no write of the producer changes a word that is still to be read |
| `RingbufShm.HeadNeverZero` | ringbuf-shm/ringbuffer.c:83-191 | when no write exceeds the requested minimum, head is 0 only before the first chunk |
| `RingbufShm.AdvanceSafeExactly` | ringbuf-shm/ringbuffer.c:83-158 | for every head, tail, size and minimum, a chunk fits without reaching tail or the end of the buffer if and only if 8 plus its padded size is at most rsvd |
| `RingbufShm.AssertIsNotEnough` | ringbuf-shm/ringbuffer.c:164 | an input that passes the assertion and makes the buffer look empty |
| `RingbufShm.GrantedExactly` | ringbuf-shm/ringbuffer.c:83-158 | for every head, tail, size and minimum a request is refused if and only if a chunk of the minimum and one word more fits neither at head nor, behind a gap, at the start |
| `RingbufShm.ParsesAppend` | ringbuf-shm/ringbuffer.c:170-191 | a chunk written at head, with or without a gap before it, extends what parses |
| `RingbufShm.ParsesShift` | ringbuf-shm/ringbuffer.c:194-201 | crossing the end of the buffer does not change what is there to read |
| `RingbufShm.NewHead` | ringbuf-shm/ringbuffer.c:74-81 | the masked new head is just behind the chunk and never on tail |
| `RingbufShm.RunInv` | ringbuf-shm/ringbuffer.c:34-271 | the invariant in every interleaving |
| `RingbufShm.RingBuffer.constructor` | ringbuf-shm/ringbuffer.c:34-48 | a new buffer is empty |
| `RingbufShm.RingBuffer.WriteRequestMax` | ringbuf-shm/ringbuffer.c:83-158 | gives a reservation if and only if the minimum and one word more fits at head or, behind a gap, at the start; whatever fits in it can be written safely; a refused request leaves none |
| `RingbufShm.RingBuffer.WriteAdvance` | ringbuf-shm/ringbuffer.c:160-192 | the queue becomes the old queue plus the chunk |
| `RingbufShm.RingBuffer.ReadRequest` | ringbuf-shm/ringbuffer.c:203-257 | no chunk exactly when the queue is empty, otherwise the oldest, past any gap |
| `RingbufShm.RingBuffer.ReadAdvance` | ringbuf-shm/ringbuffer.c:259-271 | the queue loses its oldest chunk; with a gap at tail, which a read request would have skipped, the call moves past the gap and gives back no chunk |
| `Channel.ReceivesMatchSends` | channel/channel.c:142-236 | for every capacity the k-th winning receive reads the k-th winning send's value; receives never overtake sends, sends are at most the capacity ahead |
| `Channel.OneOwnerPerItem` | channel/channel.c:142-236 | an item never has two owners, and its lap is even exactly while its owner is a sender |
| `Channel.SendGivesUp` | channel/channel.c:152-160 | a send that gives up found that another send has won the place it read, or that a thread is at work on the item, or the channel full; with the tail unmoved its item's lap is of the round before |
| `Channel.ReceiveGivesUp` | channel/channel.c:214-222 | a receive that gives up found that another receive has won the place it read, or that a thread is at work on the item, or the channel empty |
| `Channel.CallsReturn` | channel/channel.c:142-236 | in every run a send has put the value given in the place it won and a receive has read that of its place; a call that won no place gave up because during the call the channel was full (empty), a thread was at work on the item it needed, or another send (receive) won |
| `Channel.SentAreGiven` | channel/channel.c:142-171 | the values sent are those the callers gave, in the order in which their sends won |
| `Channel.DeliversInOrder` | channel/channel.c:142-236 | the k-th winning receive reads the value given to the k-th winning send |
| `Channel.NarrowExactlyWithinLag` | channel/channel.c:142-236 | with 32-bit laps, for every capacity, two or more threads and every b: receives match sends in all runs in which no thread falls more than b rounds behind between reading a ticket and comparing it if and only if b < 2^31 |
| `Channel.NarrowRunsAgree` | channel/channel.c:142-236 | a run that compares 32-bit laps, in which no thread falls 2^31 - 1 rounds behind, is the run that compares whole laps |
| `Channel.SleeperOverwrites` | channel/channel.c:152-171 | for every capacity, a run in which a sender sleeps through 2^31 rounds and a receive does not read what was sent in its place |
| `Channel.SendWins` | channel/channel.c:152-171 | winning the tail keeps the invariant: the item was free for exactly this ticket and now has one owner |
| `Channel.ReceiveWins` | channel/channel.c:214-233 | winning the head keeps the invariant: the item holds exactly this ticket's value and now has one owner |
| `Channel.RunInv` | channel/channel.c:114-236 | the invariant in every run |
| `FutexMutex.MutualExclusion` | channel/channel.c:35-62 | at most one holder; the word is 0 exactly when nobody holds the mutex or is in the middle of giving it back |
| `FutexMutex.TakenExactlyWhenFree` | channel/channel.c:52-62 | an attempt to take the mutex succeeds exactly when no thread holds it or is giving it back |
| `FutexMutex.NoLostWakeup` | channel/channel.c:35-62 | while a thread sleeps the word is 2, or another thread owes a wake-up or is awake on the slow path |
| `FutexMutex.ResponsibilityIsKept` | channel/channel.c:35-62 | such a thread stays so until it has woken a sleeper or left the word at 2 |
| `FutexMutex.RunInv` | channel/channel.c:30-62 | the invariant in every run |
| `McsLock.ExclusiveAndFifo` | mcslock/mcslock.c:31-81 | at most one thread has the lock, and threads get it in the order of their exchanges |
| `McsLock.GrantedExactly` | mcslock/mcslock.c:31-81 | an acquisition succeeds, at once or at the end of its wait, exactly when all that arrived before have released; a release without a successor goes through exactly when nobody arrived behind it |
| `McsLock.ReleaseHasLinker` | mcslock/mcslock.c:71-75 | a releaser that spins for its successor has one between its exchange and its link |
| `McsLock.NodeIsOwn` | mcslock/mcslock.c:31-81 | after release no other thread's step changes the node |
| `McsLock.OnlyFrontProceeds` | mcslock/mcslock.c:39-48 | a waiting thread finds its flag cleared exactly when it is at the front of the queue |
| `McsLock.SignalStep` | mcslock/mcslock.c:78-80 | the wake-up keeps the invariant: it goes to the linked successor, which becomes the front |
| `McsLock.RunInv` | mcslock/mcslock.c:26-81 | the invariant in every run |
| `Mpsc.FifoByExchange` | mpsc/mpsc.c:100-169 | items come out in the order of the tail exchanges, none lost and none twice, no freed node is touched, and queue_front reads the oldest item |
| `Mpsc.PushedAreGiven` | mpsc/mpsc.c:150-169 | of each thread the queue holds exactly the values its pushes were given, in the order in which it pushed them; only the last may be missing, before its exchange |
| `Mpsc.PopDelivers` | mpsc/mpsc.c:100-148 | a pop begins whenever queue_has_front says yes and ends with the oldest item delivered |
| `Mpsc.NoFrontExactlyWhen` | mpsc/mpsc.c:100-104 | between pops queue_has_front says no exactly when the queue is empty or the oldest item's pusher has not linked it |
| `Mpsc.PendingLinksAreLive` | mpsc/mpsc.c:150-169 | a link still to be stored never goes to a popped node |
| `Mpsc.AwaitedLinkComes` | mpsc/mpsc.c:134-143 | the consumer spins only for a link that a pusher is about to store |
| `Mpsc.EmptyInv` | mpsc/mpsc.c:125-133 | both compare-and-swaps on the last node keep the invariant, whoever pushes in between: nothing is lost |
| `Mpsc.RunInv` | mpsc/mpsc.c:88-169 | the invariant in every run |
| `SeqLock.ReadsAreWhole` | seqlock/seqlock.c:56-156 | in every run, of any number of writes, a completed read that fewer than 2^31 writes overlapped returned the whole data of the last write before it |
| `SeqLock.CallsReturn` | seqlock/seqlock.c:142-156 | a write that has returned has made the data its caller gave a version, begun after the call and complete; a read that has returned and fewer than 2^31 writes overlapped gives a version no older than the last one complete when the call began |
| `SeqLock.VersionsAreGiven` | seqlock/seqlock.c:151-156 | the versions are the initial data and what the writers were given, in the order in which they began |
| `SeqLock.MixedExactlyAtWraps` | seqlock/seqlock.c:56-156 | for every w, some run has a completed read that w writes overlapped and that returned no version if and only if w is a positive multiple of 2^31 |
| `SeqLock.AcceptedReadIsWhole` | seqlock/seqlock.c:68-83 | at every moment of every run, a reader whose counter check succeeds with fewer than 2^32 increments in between holds the data as it is, one version as a whole; there is at most one writer at work |
| `SeqLock.CounterAgrees` | seqlock/seqlock.c:75-83 | the 32-bit comparison accepts exactly when the increments in between are a multiple of 2^32 |
| `SeqLock.MixedRead` | seqlock/seqlock.c:142-149 | for every positive multiple of 2^31, a run in which a read that so many writes overlapped returns a mix |
| `SeqLock.BeginInv` | seqlock/seqlock.c:85-101 | making the counter odd keeps the invariant of one writer at a time, even if the counter has gone round since it was read |
| `SeqLock.RunInv` | seqlock/seqlock.c:51-156 | the invariant in every run |
| `SeqLock.AtomicMemcpy` | seqlock/seqlock.c:125-140 | the copy in pieces of 8, 4, 2 and 1 covers exactly the given number of bytes |
| `Mbus.CountIsCallers` | mbus/mbus.c:88-119 | the reference count is the number of senders between their compare-and-swap and their decrement, each calling the callback registered now |
| `Mbus.PinnedWhileCalling` | mbus/mbus.c:65-170 | registration, callback and context change only while no callback is in progress |
| `Mbus.RefusedOnlyWhenGone` | mbus/mbus.c:88-119 | a message is refused only when the client is not registered |
| `Mbus.CallsReturn` | mbus/mbus.c:65-170 | a registration says yes only if the client was then the one it asked for, and no only if there was one already; a send says yes only if it called the callback of a client registered during the call, with its context and the message given, and no only if none was registered during the call, having called nothing; an unregistration says yes only if the client was there and was gone during the call, and no only if it was gone |
| `Mbus.RunInv` | mbus/mbus.c:65-170 | the invariant in every run |
| `WordCount.CountWords` | map-reduce/word-count.c:682-711 | for every file, number of threads and buffer size, the table lists exactly the words of the file, each with the number of times it stands in the text, in small or large letters of the alphabet with no letter before or after it, if and only if there is one thread or a separator in the last even share, no word begins with six z's, and every word of 32, 64, 96, ... letters has a longer one before it in its slice |
| `WordCount.PlainFilesAreCounted` | map-reduce/word-count.c:682-711 | a file that ends in a separator, without words that begin with six z's or have a positive multiple of 32 letters, meets all three conditions for any number of threads |
| `WordCount.LettersAre` | map-reduce/word-count.c:528 | the letters are those of the alphabet written out, small and large |
| `WordCount.LowerIs` | map-reduce/word-count.c:230-292 | a letter becomes k if and only if it is the k-th of the alphabet, small or large |
| `WordCount.OccursExactly` | map-reduce/word-count.c:597-624 | a word stands at a place of the text if and only if the scan finds it there |
| `WordCount.SameWordExactly` | map-reduce/word-count.c:230-317 | two words of the file are counted as one if and only if they have the same length and agree letter by letter up to case |
| `WordCount.SlicesOkExactly` | map-reduce/word-count.c:626-659 | every thread finds the ends of its slice if and only if there is one thread or a separator in the last even share |
| `WordCount.MapReduce` | map-reduce/word-count.c:682-711 | for any file, table size, number of threads and buffer size: the counters of the main table are the counts of the words exactly when every slice's ends are inside the file, every word's bucket is in the table and every word fits its thread's word buffer |
| `WordCount.InTableExactly` | map-reduce/word-count.c:230-263 | for every number of buckets a word's bucket is in the table if and only if it does not begin with six z's |
| `WordCount.SixZOutside` | map-reduce/word-count.c:245-263 | the bucket of "zzzzzz" is n_buckets, one past the last |
| `WordCount.SixZAtExactly` | map-reduce/word-count.c:230-263 | a word begins with six z's if and only if six z's, small or large, stand in the text with no letter before them |
| `WordCount.ScaleMonotone` | map-reduce/word-count.c:252-255 | scaling keeps the order of codes |
| `WordCount.DoubleIsExact` | map-reduce/word-count.c:252-255 | with at most 8192 buckets any quotient within one part in 2^53 truncates to the exact one |
| `WordCount.WordsAreOccurrences` | map-reduce/word-count.c:597-624 | for every file, counting words at separators and at its end counts the longest runs of letters |
| `WordCount.WordsSplit` | map-reduce/word-count.c:636-659 | cutting a slice where there is no letter cuts no word |
| `WordCount.BuffInit` | map-reduce/word-count.c:626-659 | the two loops move the ends of an even slice to the next separators, and fail exactly when one runs off the file |
| `WordCount.SlicesInOrder` | map-reduce/word-count.c:630-659 | slices follow one another and begin at separators |
| `WordCount.BuffProceed` | map-reduce/word-count.c:607-624 | a buffer may begin and end inside a word without changing what is counted |
| `WordCount.AddLetter` | map-reduce/word-count.c:582-595 | the buffer is at all times the smallest multiple of 32 that holds the letters of the longest word so far, without its terminator |
| `WordCount.AddSep` | map-reduce/word-count.c:597-605 | the word read so far is counted once, or its terminator does not fit the buffer, or its bucket is outside the table; each of these exactly when it is so |
| `WordCount.FullBufferOverruns` | map-reduce/word-count.c:582-605 | every file of nothing but letters, a positive multiple of 32 of them, overruns the word buffer |
| `WordCount.MapSlice` | map-reduce/word-count.c:682-698 | a thread's table counts exactly the words of its slice if and only if all of them have a bucket in the table and fit the word buffer behind those before them |
| `WordCount.Find` | map-reduce/word-count.c:109-125 | despite its early exit the search finds a word exactly when it is in the bucket |
| `WordCount.Place` | map-reduce/word-count.c:130-153 | looking only at entries with no smaller code finds the place that keeps the bucket in order |
| `WordCount.Add` | map-reduce/word-count.c:297-317 | one counter goes up by the given amount, all others stay |
| `WordCount.CodeMonotone` | map-reduce/word-count.c:230-243 | the hash code keeps the alphabetic order |
| `WordCount.GetCode` | map-reduce/word-count.c:230-243 | the loop computes that code |
| `WordCount.RangesInOrder` | map-reduce/word-count.c:344-361 | the threads' bucket ranges follow one another from the first bucket to the last |
| `WordCount.MergeBucket` | map-reduce/word-count.c:319-338 | merging a bucket adds its counters to those of the main table |
| `WordCount.MergeResults` | map-reduce/word-count.c:344-372 | a thread adds the totals of all tables for the words of its bucket range and touches no other counter |
| `WordCount.BucketsInOrder` | map-reduce/word-count.c:257-263 | going through the buckets in order gives the words in alphabetic order |
| `RingBuffer.Ring.constructor` | ringbuffer/ringbuffer.c:98-106 | for every count the test accepts, the ring is a valid empty one of that size, with the watermark at its size, if and only if the count is not 0 |
| `RingBuffer.AcceptedExactly` | ringbuffer/ringbuffer.c:53-80 | a 32-bit count is accepted if and only if it is 0 or a power of two up to 2^27 |
| `RingBuffer.ZeroRingTakesAll` | ringbuffer/ringbuffer.c:98-237 | a ring of no slots finds room for any number of objects |
| `RingBuffer.Ring.Enqueue` | ringbuffer/ringbuffer.c:221-248 | appends all objects, or none exactly when they exceed the capacity of size - 1; the quota answer comes exactly above the watermark, never with the default one |
| `RingBuffer.Ring.Dequeue` | ringbuffer/ringbuffer.c:265-289 | returns and removes the n oldest elements, or none exactly when there are fewer |
| `RingBuffer.EnqueuePtrs` | ringbuffer/ringbuffer.c:149-175 | the unrolled and the split copy are the plain copy slot by slot |
| `RingBuffer.DequeuePtrs` | ringbuffer/ringbuffer.c:181-206 | likewise for reading |
| `RingBuffer.SlotAdvances` | ringbuffer/ringbuffer.c:29-35 | advancing an index across the 32-bit wrap advances its slot |
| `RingSpsc.FifoUnderInterleaving` | ringbuffer/ringbuffer.c:221-289 | however one producer and one consumer interleave, what has been put in is what has been handed out followed by what the memory holds between the two tails, at most size - 1 elements |
| `RingSpsc.ProducerRefinesQueue` | ringbuffer/ringbuffer.c:221-248 | an enqueue is refused exactly when the contents leave no room, the store to prod.tail adds exactly its objects, and no other step of it changes the contents |
| `RingSpsc.QuotaAnswer` | ringbuffer/ringbuffer.c:221-248 | an enqueue reports the quota exceeded if and only if the contents found when it began and its objects reach the watermark; without a report the ring is below the watermark when it ends, whatever the consumer did meanwhile; with the default watermark there is none |
| `RingSpsc.ConsumerRefinesQueue` | ringbuffer/ringbuffer.c:265-289 | a dequeue is refused exactly when the contents are too few, the store to cons.tail removes exactly the elements handed out and reports success, and no other step of it changes the contents |
| `RingSpsc.CallsServed` | ringbuffer/ringbuffer.c:221-289 | in every interleaving a call works on the objects, or for the number, its caller gave |
| `RingSpsc.DeliversGiven` | ringbuffer/ringbuffer.c:221-289 | what has been put in is what the successful enqueue calls were given, and a dequeue call that succeeds hands out as many elements as it was asked for |
| `RingSpsc.RunInv` | ringbuffer/ringbuffer.c:98-289 | the invariant in every interleaving |

## Left out

- Weak memory orders, fences, padding, pause hints and the assembly of 16-byte compare-and-swap: memory is sequentially consistent.
- Update in place and aliasing in the concurrent machines: shared memory is a value that each step replaces. Classes and arrays are used for the sequential parts.
- Reuse of freed memory by malloc, allocation failure, futex and thread internals, shared-memory setup, timing, printing and the test programs.
- Progress: results are about safety. Where a thread waits, what is proved is that some other thread is about to end the wait.
- Mpmc.TicketsPairUp: all handles are registered before the first operation and values are not null, as the program asks; the registration loops are not modelled.
- Mpmc.NoLostWakeUp: a thread's futex keeps its address from one call to the next, as a local of the same stack frame does; a late futex_wake on it is then a spurious wake-up, which the waiting loop absorbs.
- LfTimer.AllocInv: allocation is one step, taking a timer off the free list and initialising it together; the counter that protects the free list is not modelled.
- Broadcast.ElementsConserved: what subscribers read is not modelled; a dropped message can be reused while its slot still has its tag, so checking the slot again does not establish the payload.
- Broadcast.WindowHoldsGiven: of a message only the first 16 bytes of its element are modelled, those the free stack uses too.
- RingbufShm.ChunksInOrder: buffers are a whole number of 8-byte words; a buffer of fewer than 8 bytes rejects every request. Chunk sizes are unbounded where the program keeps 32 bits.
- Channel.ReceivesMatchSends: closing, unbuffered channels and the credit counters for blocking are not modelled.
- Channel.NarrowExactlyWithinLag: capacities are below 2^32, so that a position fits its half of a ticket.
- McsLock.ExclusiveAndFifo: each thread uses one node.
- Mbus.PinnedWhileCalling: one client; broadcasting is sending to each in turn. The 24-byte compare-and-swap of a client and the 4-byte decrement of its reference count are atomic to each other here.
- WordCount.MapReduce: threads run one after the other; they read the file, write tables of their own, and merge disjoint bucket ranges. What happens once an index has left the table or a terminator the word buffer is not modelled, nor are file access and freeing.
- RingBuffer.Ring.Enqueue: calls do not overlap here; `RingSpsc` has them interleaved.
- hp_list, list-move, thread-rcu, rcu-list, hashmap, lf-queue, spmc, cmap, qsbr, tpool and refcnt are not part of this model, nor are coro, fiber, preempt_sched, tinync, picosh, redirect and httpd.
