# Event machinery and thread pool: a verified model

This project models, in Dafny, the algorithms at the heart of the repository, and proves what they are for.
Run `dafny verify dfyconfig.toml` in this directory.

| files | what they model |
|---|---|
| TimerHeap, TimerSet, EventLoop, DeadlineOrder, FeedReverse | libev's timers: a 4-ary heap with back-pointers and cached keys, `timers_reify`, and the way of expired timers and periodics from their heaps to their callbacks |
| EventHistory, PendingQueues | libev's pending queues, drained while callbacks feed and clear events |
| Backends, FdWatchers | libev's deferred changes of file descriptors, and the tables of the poll and select backends |
| Wakeup | libev's wakeup of a waiting loop by other threads and signal handlers |
| PeriodicTimes, Periodics, PeriodicLoop | libev's periodic watchers, from their times to their callbacks |
| Chains, EvBuffer, EvBufferMove, EvBufferPullup, EvBufferSearch, EvBufferLines | libevent's evbuffer: a linked list of chains that stands for a byte sequence |
| EvBufferIocp, EvBufferInFlight | overlapped writes from an evbuffer, and what may be called on it while one is under way |
| PoolState, ThreadPool | the thread pool: its ring and counters, and its threads over whole runs |
| Arc4, Arc4Uniform | libevent's random numbers |

What changes fields in place in C is a class or works on an array here: watchers, heaps, queues, chains and
buffers live on the heap, and lists are followed by their `next` fields. The wakeup handshake and the threads of
the pool are step systems over values, in which any participant may take the next step. Invariants are named
predicates (`Valid`, `Inv`); each operation states its whole effect on the value that its object stands for, such
as `Content()` of a buffer. Times are real numbers, event masks are sets of bit numbers, and a pointer to a link is
either the field of a buffer or of a chain (`Link`).

Two predicates carry most of the evbuffer proofs: `Valid` says that the list from `first` to `last` has no empty
chain unless it has only one, that `last_with_datap` is the link to the last chain and that `total_len` is the
length of the content. Every operation modelled keeps it, and the operations on two buffers keep them apart
(`Disjoint`), so the contracts compose over any sequence of operations.

For intervals below MIN_INTERVAL `periodic_recalc` does not always find the next time of a periodic watcher.
`PeriodicTimes.NotForAllFine` gives an example, and `PeriodicTimes.NextIffStartOnGrid` says exactly when it does.

## Model

| member | source | states |
|---|---|---|
| TimerHeap.HParent | 2019_5_15/libev-4.22/ev.c:2234-2237 | The parent of an entry lies before it in the array, except that the root is its own parent, as C division makes it. |
| TimerHeap.Downheap | 2019_5_15/libev-4.22/ev.c:2239-2281 | From a heap whose only fault is an entry that may be due after its children: afterwards it is a heap again, of the same watchers, every `active` is the index of its entry and every cached `at` is that of its watcher; what lies behind the heap in the array is untouched. |
| TimerHeap.MinChild | 2019_5_15/libev-4.22/ev.c:2252-2268 | The unrolled and the plain comparison both find a child that no other child is due before. |
| TimerHeap.SiftUpStep | 2019_5_15/libev-4.22/ev.c:2325-2335 | Moving the hole to its parent keeps the heap order everywhere but above the hole. |
| TimerHeap.SiftDownStep | 2019_5_15/libev-4.22/ev.c:2248-2277 | Moving the hole to its least child keeps the heap order everywhere but below the hole. |
| TimerHeap.Upheap | 2019_5_15/libev-4.22/ev.c:2319-2339 | The same as for downheap, for an entry that may be due before its parent; nothing is assumed of its stored index. |
| TimerHeap.AdjustHeap | 2019_5_15/libev-4.22/ev.c:2341-2349 | An entry whose key changed either way is brought to its place. |
| TimerHeap.Reheap | 2019_5_15/libev-4.22/ev.c:2351-2361 | Any array of distinct watchers with any keys and any stored indices becomes a heap of exactly these watchers with correct back-pointers and caches. |
| TimerHeap.Insert | 2019_5_15/libev-4.22/ev.c:3885-3890 | Exactly the one watcher joins the heap. |
| TimerHeap.Remove | 2019_5_15/libev-4.22/ev.c:3906-3918 | Exactly the one watcher leaves, from any index, and what remains is a heap with correct back-pointers. |
| TimerHeap.Rekey | 2019_5_15/libev-4.22/ev.c:3936-3942 | A watcher with a new deadline finds its place; the members of the heap stay the same. |
| TimerHeap.RootIsEarliest | 2019_5_15/libev-4.22/ev.c:3102-3115 | The edges that ev_verify checks one by one make the root the earliest of all entries. |
| TimerSet.Timers.Stop | 2019_5_15/libev-4.22/ev.c:3906-3922 | A timer leaves the set, its deadline becomes relative again, and the rest is a correct heap. |
| TimerSet.Timers.Reschedule | 2019_5_15/libev-4.22/ev.c:3936-3942 | A running timer gets another deadline and the set stays a correct heap. |
| PendingQueues.Queues.PriAdjust | 2019_5_15/libev-4.22/ev.c:3802-3809 | A priority becomes the nearest in the allowed range; nothing pending is disturbed, because a pending watcher is within the range. |
| PendingQueues.Queues.FeedEvent | 2019_5_15/libev-4.22/ev.c:1985-2002 | The bits are added to what the watcher is owed: to its one slot if it is pending, else in a new slot at the end of its priority; every pending watcher still owns exactly the slot that its `pending` names. |
| PendingQueues.Queues.ClearPending | 2019_5_15/libev-4.22/ev.c:3783-3800 | The watcher is owed nothing any more and its slot belongs to the dummy; the result is exactly the bits fed since its last invocation or clear. |
| PendingQueues.Queues.Pop | 2019_5_15/libev-4.22/ev.c:3284-3286 | The last slot of the highest non-empty queue is taken; unless it was cleared, its watcher is invoked with exactly what it is owed. |
| PendingQueues.Queues.InvokePending | 2019_5_15/libev-4.22/ev.c:3274-3292 | For any callbacks that feed and clear while the queues drain: all queues end empty; the history grows by invocations, each of a watcher in the queue of its priority and followed by what its callback did; whatever was fed, before or by a callback, and not yet answered is answered afterwards by an invocation of its watcher or by a callback that cleared it; with passive callbacks the order is that of Drain. |
| PendingQueues.Queues.EveryInvocationIsExact | 2019_5_15/libev-4.22/ev.c:3274-3292 | In valid queues every invocation there ever was passed exactly the or of the bits fed since the last invocation or clear of its watcher, at a moment when no watcher of a higher priority was owed anything. |
| EventHistory.OwedIsFedSince | 2019_5_15/libev-4.22/ev.c:1985-2002 | What a watcher is owed are exactly the bits of its feeds that no invocation or clear of it came after, and nothing if there are none. |
| PendingQueues.DrainPop | 2019_5_15/libev-4.22/ev.c:3279-3288 | Serving the last slot of the highest queue is the first step of the simple function that lists all invocations. |
| DeadlineOrder.DrainInOrder | 2019_5_15/libev-4.22/ev.c:3279-3288 | Draining queues that were fed a list backwards invokes, by descending priority, first the watchers of the list in its order and then what was in the queue before, the last first. |
| DeadlineOrder.OfPriorityKeepsOrder | 2019_5_15/libev-4.22/ev.c:2011-2017 | The watchers of one priority keep the order of the list, and none is lost or repeated. |
| DeadlineOrder.CollectedBoth | 2019_5_15/libev-4.22/ev.c:3669-3673 | Periodics that are fed after timers come before them in the order of service. |
| DeadlineOrder.ServedInTurn | 2019_5_15/libev-4.22/ev.c:3279-3288 | That order is by descending priority; in each priority the periodics come first, by their times, then the timers, by their deadlines, and then everybody else; nobody is lost or repeated. |
| DeadlineOrder.SlotsOfQueues | 2019_5_15/libev-4.22/ev.c:1985-2002 | In valid queues no watcher has two slots, and the watchers in slots are those that are pending. |
| DeadlineOrder.LateOneLess | 2019_5_15/libev-4.22/ev.c:3325-3350 | Each turn of timers_reify makes one timer fewer due, repeating or not: the measure of its termination. |
| DeadlineOrder.ReifiedOneMore | 2019_5_15/libev-4.22/ev.c:3325-3350 | Each turn takes the earliest timer, once, stops it or restarts it, and moves no other. A restarted timer is due exactly one repeat after it was due, unless that is over already, and then now. |
| DeadlineOrder.DeadlineOrderHolds | 2019_5_15/libev-4.22/ev.c:3319-3355 | Heap order, reverse feed and drain together call every due watcher once, with its event, and everybody else that was pending once, in the order of ServedInTurn. |
| EventLoop.Loop.TimerStart | 2019_5_15/libev-4.22/ev.c:3873-3895 | Starting a running timer does nothing; otherwise it joins the heap, counts as active, has its deadline and a priority in the allowed range. The queues and the heap stay valid. |
| EventLoop.Loop.TimerStop | 2019_5_15/libev-4.22/ev.c:3897-3925 | The pending event is cleared in any case; a running timer leaves the heap with its time made relative. |
| EventLoop.Loop.TimerAgain | 2019_5_15/libev-4.22/ev.c:3927-3952 | All four cases: a repeating timer is due one repeat from now, running or not; any other is stopped, with its time made relative if it was running. The count of active watchers follows. |
| FeedReverse.FeedReverseDone | 2019_5_15/libev-4.22/ev.c:2011-2017 | The collected watchers are fed the last first; when none of them was pending each queue grows by the watchers of its priority, the one that was due first at the end, where it is served first. |
| FeedReverse.InvokeCollected | 2019_5_15/libev-4.22/ev.c:3274-3292 | ev_invoke_pending after that, with passive callbacks: the invocations that there really were, read off the history, are those of DeadlineOrderHolds, each in the queue of its watcher's priority. |
| EventLoop.Loop.TimersReify | 2019_5_15/libev-4.22/ev.c:3319-3355 | It terminates; the due timers, and no others, are fed once each, in reverse of the order in which they came off the heap, with the priorities and repeats they have; one-shot timers are stopped; a repeating one is due one repeat after it was due, or now if that is over already; no timer stays due. |
| EventLoop.Loop.ExpireTimers | 2019_5_15/libev-4.22/ev.c:3319-3355 | timers_reify followed by ev_invoke_pending, when no timer is pending yet and callbacks are passive: the invocations of the history since then are one for each due timer and each watcher that was pending, by descending priority of the watchers, the due timers first and by nondecreasing deadline; the repeating timers are due one repeat later, or now if that is over, the other due ones are stopped, and no other timer has moved. |
| EventLoop.Loop.ExpireEach | 2019_5_15/libev-4.22/ev.c:3336-3338 | No drift: over any sequence of times at which the loop looks at the clock, a repeating timer of which each expiry is handled within one repeat of its deadline ends with exactly its first deadline plus as many repeats as it expired. |
| Backends.Poll.Modify | 2019_5_15/libev-4.22/ev_poll.c:51-86 | Only the entry of the one descriptor changes: POLLIN is asked for just if EV_READ is wanted, POLLOUT just if EV_WRITE is, and nothing else; `pollidxs` stays the inverse of `polls`, also across growth and when the last entry takes the place of a removed one. |
| Backends.Poll.NoDuplicates | 2019_5_15/libev-4.22/ev_poll.c:51-86 | What poll() is given is exactly the map from descriptors to events, each descriptor once, POLLIN for EV_READ and POLLOUT for EV_WRITE. |
| Backends.Poll.Scan | 2019_5_15/libev-4.22/ev_poll.c:108-126 | Every entry with an answer is reported once: as invalid just if POLLNVAL is set, else with EV_READ for POLLIN and with EV_WRITE for POLLOUT, and with both for POLLERR or POLLHUP; nothing else is reported. |
| Backends.Select.Modify | 2019_5_15/libev-4.22/ev_select.c:70-137 | Only the two bits of the one descriptor change, to the new events, also when the vectors have to grow. |
| Backends.SetBitSets | 2019_5_15/libev-4.22/ev_select.c:128-134 | Setting a bit and clearing it again unless it is wanted leaves all other bits of all words alone. |
| Backends.ScanWords | 2019_5_15/libev-4.22/ev_select.c:246-269 | The scan over words and bits reports each ready descriptor exactly once, with the right events, the highest first. |
| FdWatchers.UnionIs | 2019_5_15/libev-4.22/ev.c:2110-2111 | The events computed for a descriptor are the or of the events of its watchers. |
| FdWatchers.Fds.FdChange | 2019_5_15/libev-4.22/ev.c:2124-2137 | A descriptor joins the change list only if it is not in it; the flags are added. |
| FdWatchers.Fds.Start | 2019_5_15/libev-4.22/ev.c:3828-3852 | The watcher becomes the first of its descriptor, which is in the change list once with the right flags; no other descriptor changes, and the backend is not told yet. |
| FdWatchers.Fds.ListDel | 2019_5_15/libev-4.22/ev.c:3759-3772 | Exactly the one watcher is unlinked, wherever it stands; the others keep their order. |
| FdWatchers.Fds.Stop | 2019_5_15/libev-4.22/ev.c:3854-3871 | The watcher leaves its list, and its descriptor is in the change list once with the right flag; no other descriptor changes, and the backend is not told yet. |
| FdWatchers.Fds.ReifyFd | 2019_5_15/libev-4.22/ev.c:2097-2118 | One descriptor gets the or of its watchers' events, and the tables of the backend follow. |
| FdWatchers.Fds.FdReify | 2019_5_15/libev-4.22/ev.c:2064-2122 | Afterwards the backend, poll or select, watches of every descriptor exactly the or of the events of its active watchers, and the change list is empty. |
| FdWatchers.Fds.PolledExactly | 2019_5_15/libev-4.22/ev_poll.c:51-86 | With the poll backend and an empty change list, `polls` has each descriptor with watchers once, with POLLIN just if one of its active watchers wants EV_READ, POLLOUT just if one wants EV_WRITE, and nothing else; `pollidxs` is its inverse. |
| FdWatchers.Fds.SelectedExactly | 2019_5_15/libev-4.22/ev_select.c:106-137 | With the select backend, at any time, the two bits of a descriptor are set if and only if its `events` say so; with an empty change list these are what its watchers ask for. |
| Wakeup.SendKeeps | 2019_5_15/libev-4.22/ev.c:2426-2471 | Every atomic step of any sender keeps the invariant of the handshake. |
| Wakeup.LoopKeeps | 2019_5_15/libev-4.22/ev.c:3602-3664 | Every atomic step of the loop, in the poll, around it and in pipecb, keeps the invariant. |
| Wakeup.NoLostWakeup | 2019_5_15/libev-4.22/ev.c:2426-2471 | Over all interleavings of any number of senders with the loop: if the loop waits in the poll, a flag is raised and no sender is still about to write, then the pipe is readable. |
| Wakeup.SentIsCovered | 2019_5_15/libev-4.22/ev.c:2476-2539 | Every item that is set and whose senders have returned is covered by its flag or by the part of the scan of pipecb still to run. |
| Wakeup.OwedWakesTheLoop | 2019_5_15/libev-4.22/ev.c:4901-4907 | An item that was sent and not fed since makes the pipe readable if the loop waits and the senders have returned. |
| Wakeup.WritesOnlyForAPoll | 2019_5_15/libev-4.22/ev.c:2440-2471 | A sender writes to the pipe just if the loop is between setting pipe_write_wanted and clearing it, and so may wait in the poll; at any other time it returns without. |
| Wakeup.OneIsEnough | 2019_5_15/libev-4.22/ev.c:2431-2434 | As long as a flag stays raised, no sender that came later gets past its test, so none of them touches the pipe. |
| Wakeup.NothingSpurious | 2019_5_15/libev-4.22/ev.c:2505-2539 | Over all interleavings no item is fed more often than it was sent. |
| Wakeup.PollDelivers | 2019_5_15/libev-4.22/ev.c:3654-3664 | When the poll returns and the senders have returned, the loop by itself feeds everything that was sent before it comes to its next turn. |
| Wakeup.GoesToSleep | 2019_5_15/libev-4.22/ev.c:3602-3664 | From every state of every run in which the senders have returned, the loop by itself: every poll waits but for at most the first, and the first too if no write was skipped; each turn takes exactly the up to four bytes that a read takes from the pipe (all that an eventfd counts) and leaves nothing owed and no write skipped; after as many turns as that needs, the loop waits with an empty pipe and nothing owed, and so it does ever after. |
| Wakeup.SleepsIffPipeEmpty | 2019_5_15/libev-4.22/ev.c:3607-3608 | When the senders have returned and the loop waits, nothing is owed if and only if the pipe is empty, and otherwise the poll returns. |
| PeriodicTimes.PeriodicRecalc | 2019_5_15/libev-4.22/ev.c:3359-3381 | For every positive interval it terminates, with the first time after now among its start and whole intervals from there. |
| PeriodicTimes.NextForCoarse | 2019_5_15/libev-4.22/ev.c:3362-3380 | For intervals of at least MIN_INTERVAL that is the least `offset + k * interval` after now. |
| PeriodicTimes.NextIffStartOnGrid | 2019_5_15/libev-4.22/ev.c:3362-3380 | For any positive interval it is that if and only if the time it starts from is itself `offset + k * interval`. |
| PeriodicTimes.NotForAllFine | 2019_5_15/libev-4.22/ev.c:482-482 | With the interval 0.0001, which is below MIN_INTERVAL, an earlier time is missed one MIN_INTERVAL after the offset, whatever the offset is. |
| Periodics.Periodics.Start | 2019_5_15/libev-4.22/ev.c:3960-3989 | A periodic joins the heap with the time that its callback, its interval or its offset gives it and a priority in the allowed range, and counts as active; a running one stays as it is. |
| Periodics.Periodics.Stop | 2019_5_15/libev-4.22/ev.c:3995-4015 | Behind its clear_pending: exactly the one periodic leaves the heap and the count of active watchers. |
| PeriodicLoop.PeriodicStop | 2019_5_15/libev-4.22/ev.c:3991-4016 | The pending event is cleared in any case; a running periodic leaves the heap. |
| Periodics.OneMoreReified | 2019_5_15/libev-4.22/ev.c:3391-3418 | Each turn takes the earliest periodic, moves it to its next time or stops it, moves no other, and leaves one fewer overdue. |
| Periodics.Periodics.PeriodicsReify | 2019_5_15/libev-4.22/ev.c:3385-3419 | Up to feed_reverse_done: it terminates, collects exactly the overdue periodics, each once and in the order of their times, and leaves none overdue. |
| PeriodicLoop.PeriodicsReify | 2019_5_15/libev-4.22/ev.c:3383-3423 | periodics_reify as a whole: the overdue periodics, and no others, are fed once each, in reverse of the order of their times; the repeating ones have their next times, the others are stopped, and no other periodic has moved. |
| PeriodicLoop.ExpirePeriodics | 2019_5_15/libev-4.22/ev.c:3383-3423 | periodics_reify followed by ev_invoke_pending: the same of periodics as ExpireTimers of timers. |
| PeriodicLoop.RunTurn | 2019_5_15/libev-4.22/ev.c:3669-3685 | One turn of ev_run from timers_reify over periodics_reify to EV_INVOKE_PENDING, on the real heaps and queues: in each priority all due periodics are called by their times, then all due timers by their deadlines, then whatever else was pending, each once; the history holds these invocations and no others. |
| PeriodicLoop.BlockingTime | 2019_5_15/libev-4.22/ev.c:3607-3648 | The time that ev_run waits, in the poll and before it: zero if it may not wait; else, beyond the least times that are set, no later than MAX_BLOCKTIME, the deadline of any timer and the time of any periodic, and exactly up to one of these; what it sleeps by itself is within io_blocktime, and leaves the poll at least backend_mintime. |
| Periodics.Periodics.Reschedule | 2019_5_15/libev-4.22/ev.c:3425-3446 | After a jump of the clock every repeating periodic has its next time and the heap is correct again. |
| Chains.Chain.constructor | 2019_5_15/libevent-2.0.21-stable/buffer.c:154-181 | The block is big enough, but never twice as big as needed unless it has the minimum size. |
| Chains.Chain.Align | 2019_5_15/libevent-2.0.21-stable/buffer.c:1694-1702 | The data moves to the start of the block unchanged. |
| Chains.Chain.Free | 2019_5_15/libevent-2.0.21-stable/buffer.c:183-189 | A pinned chain only dangles; any other is freed, which must happen once. |
| EvBuffer.FreeAllChains | 2019_5_15/libevent-2.0.21-stable/buffer.c:229-237 | Every chain of the list is released, each once. |
| EvBuffer.Buffer.ChainInsert | 2019_5_15/libevent-2.0.21-stable/buffer.c:282-311 | The chain comes last, in place of an empty one if there is one, which is freed; the content grows by its data and `last_with_datap` and `total_len` are right. |
| EvBuffer.Buffer.Add | 2019_5_15/libevent-2.0.21-stable/buffer.c:1533-1617 | Appends to the byte sequence unless the end is frozen, and then changes nothing; the list only grows at its end, no chain but the last takes data, and a pinned one does so in place. |
| EvBuffer.Buffer.NewLast | 2019_5_15/libevent-2.0.21-stable/buffer.c:1582-1600 | The chain for data that does not fit has room for all that is added, and at least twice the size of the last one unless that is above half of EVBUFFER_CHAIN_MAX_AUTO_SIZE, and then at least its size. |
| EvBuffer.Buffer.Prepend | 2019_5_15/libevent-2.0.21-stable/buffer.c:1619-1691 | Prepends to the byte sequence, also when the data is split between the old first chain and a new one; changes nothing at all when the start is frozen. |
| EvBuffer.Buffer.Drain | 2019_5_15/libevent-2.0.21-stable/buffer.c:950-1017 | Drops a prefix of any length; a chain leaves if and only if it lies within the bytes dropped, and is released then. Changes nothing at all when the start is frozen. |
| EvBuffer.Buffer.CopyOut | 2019_5_15/libevent-2.0.21-stable/buffer.c:1034-1080 | Gives the first bytes, as many as asked for and present, across chains. |
| EvBuffer.Buffer.Remove | 2019_5_15/libevent-2.0.21-stable/buffer.c:1019-1031 | Gives the first bytes and drops them, or does nothing when the start is frozen. |
| EvBufferMove.AddBuffer | 2019_5_15/libevent-2.0.21-stable/buffer.c:858-902 | Concatenates behind without copying: the chains of the source follow those of the target, all as they were, unless the target was empty, whose empty chain is freed then; the source becomes empty; both buffers stay valid and apart. Refused by a frozen end or a frozen source, it changes nothing at all. |
| EvBufferMove.PrependBuffer | 2019_5_15/libevent-2.0.21-stable/buffer.c:904-948 | The same in front. |
| EvBufferMove.MoveFront | 2019_5_15/libevent-2.0.21-stable/buffer.c:1130-1147 | Whole chains move between lists that stay well formed, with their links repaired. |
| EvBufferMove.RemoveBuffer | 2019_5_15/libevent-2.0.21-stable/buffer.c:1083-1171 | For any length the first bytes move from one buffer to the end of the other: the concatenated content is preserved, both stay valid, with the right `last_with_datap` and `total_len`, and apart. Exactly the chains that lie within the bytes moved change hands, and stand behind the chains that the target had with data; these stay as they are, but the last of all may take more data. Refused, it changes nothing at all. |
| EvBufferPullup.PinnedAhead | 2019_5_15/libevent-2.0.21-stable/buffer.c:1201-1210 | Answers yes if and only if some chain is pinned before which fewer bytes lie than are wanted. |
| EvBufferPullup.Pullup | 2019_5_15/libevent-2.0.21-stable/buffer.c:1173-1283 | The content never changes; unless the size is zero or too big or pinned chains are in the way, the first bytes stand in the first chain, one after the other. Every pinned chain stays in the list with its data in place, every chain that leaves is freed, and when nothing has to be gathered nothing changes at all. |
| EvBufferSearch.PtrSet | 2019_5_15/libevent-2.0.21-stable/buffer.c:2410-2450 | A position is set, absolutely or relatively, if and only if there is a byte at it, and then it names the chain and place of that byte. |
| EvBufferSearch.PtrMemcmp | 2019_5_15/libevent-2.0.21-stable/buffer.c:2456-2488 | Equal if and only if the bytes occur at the position, also across chains. |
| EvBufferSearch.SearchRange | 2019_5_15/libevent-2.0.21-stable/buffer.c:2496-2559 | The least position at or after the start where the pattern occurs, if it ends within the range; -1 otherwise. |
| EvBufferSearch.Search | 2019_5_15/libevent-2.0.21-stable/buffer.c:2490-2494 | The least position at or after the start where the pattern occurs in the concatenated content, also across chains; -1 if and only if there is none. |
| EvBufferLines.FindEolChar | 2019_5_15/libevent-2.0.21-stable/buffer.c:1316-1342 | Looking chunk by chunk finds the same first line end as looking byte by byte. |
| EvBufferLines.SearchEol | 2019_5_15/libevent-2.0.21-stable/buffer.c:1415-1488 | In each of the four styles: the first line end at or after the start and its length, which is what the style calls a line end (see ReadLn), or -1 if and only if there is none. |
| EvBufferLines.ReadLn | 2019_5_15/libevent-2.0.21-stable/buffer.c:1490-1527 | Takes exactly the first line and its line end out of the buffer, or changes nothing when there is none or the start is frozen. What is drained after the line is, for EVBUFFER_EOL_LF an LF; for the strict style CR LF; for EVBUFFER_EOL_CRLF an LF that no CR comes before, or CR LF; for EVBUFFER_EOL_ANY all of the CRs and LFs that stand there. The line holds no line end of the style; if none is read, nor does the content. |
| EvBufferLines.ReadLines | 2019_5_15/libevent-2.0.21-stable/buffer.c:1490-1527 | Called until it finds no line, evbuffer_readln gives the lines of the old content and leaves the remainder, as the function Lines splits them. |
| EvBufferLines.LinesAreLossless | 2019_5_15/libevent-2.0.21-stable/buffer.c:1490-1527 | Reading line after line, in any style: the lines, each with what was drained after it, and the remainder are the content; each line is ended as the style has it, and no line and no remainder holds a line end. |
| EvBufferLines.LinesComeBack | 2019_5_15/libevent-2.0.21-stable/buffer.c:1490-1527 | And conversely: any lines, ended as the style has it, with a remainder that holds no line end, are read back exactly so, with just these line ends drained. |
| EvBufferLines.JoinedComeBack | 2019_5_15/libevent-2.0.21-stable/buffer.c:1443-1469 | Lines joined by one terminator, and a remainder, are read back as they were written: with LF or CR LF in the styles that have only these, and in the style EVBUFFER_EOL_CRLF with CR LF for any lines without LF, with LF for those of them that do not end in CR. |
| EvBufferLines.LinesAreJoined | 2019_5_15/libevent-2.0.21-stable/buffer.c:1490-1527 | In the LF and the strict CRLF style the lines joined by the terminator, and the remainder, are the content. |
| EvBufferIocp.WireShowsBytes | 2019_5_15/libevent-2.0.21-stable/buffer_iocp.c:203-220 | The buffers given to the system show a prefix of the content. |
| EvBufferIocp.Overlapped.WireIsContent | 2019_5_15/libevent-2.0.21-stable/buffer_iocp.c:203-220 | While a write is in flight the system finds the start of the content, as many bytes as the write has. |
| EvBufferIocp.Overlapped.PinChains | 2019_5_15/libevent-2.0.21-stable/buffer_iocp.c:201-222 | As many bytes as asked for are shown, unless that takes more than MAX_WSABUFS chains; exactly these chains are pinned. |
| EvBufferIocp.Overlapped.LaunchWrite | 2019_5_15/libevent-2.0.21-stable/buffer_iocp.c:169-241 | All outcomes: refused, with nothing changed at all, nothing to write, failed and withdrawn, or in flight; the content never changes. |
| EvBufferIocp.Overlapped.PinRelease | 2019_5_15/libevent-2.0.21-stable/buffer_iocp.c:80-93 | All chains of the write are unpinned, those still listed and those that dangle; the latter are freed, each once. |
| EvBufferIocp.Overlapped.CommitWrite | 2019_5_15/libevent-2.0.21-stable/buffer_iocp.c:136-148 | The written bytes leave the front of the content, whatever was appended meanwhile stays; a chain leaves if and only if all of its bytes were written, and is freed then, every other is intact, and nothing is pinned. |
| EvBufferInFlight.AddInFlight | 2019_5_15/libevent-2.0.21-stable/buffer.c:1533-1617 | evbuffer_add while a write is in flight: the system finds the same bytes in the same chains, none of which was freed or moved. |
| EvBufferInFlight.PullupInFlight | 2019_5_15/libevent-2.0.21-stable/buffer.c:1173-1283 | The same of evbuffer_pullup, which gathers only behind a single pinned chain and does nothing when there are more. |
| EvBufferInFlight.AddBufferInFlight | 2019_5_15/libevent-2.0.21-stable/buffer.c:858-902 | The same of evbuffer_add_buffer to the end of the buffer that is being written. |
| EvBufferInFlight.RemoveBufferInFlight | 2019_5_15/libevent-2.0.21-stable/buffer.c:1083-1171 | The same of evbuffer_remove_buffer to the end of that buffer. |
| EvBufferInFlight.FrontInFlight | 2019_5_15/libevent-2.0.21-stable/buffer.c:2968-2978 | What would take from the frozen start or put there (evbuffer_prepend, evbuffer_drain, evbuffer_remove, evbuffer_readln, evbuffer_prepend_buffer, and the buffer as the source of any move) fails, unless it has nothing to do, and changes nothing at all in either buffer. |
| EvBufferInFlight.DoAll | 2019_5_15/libevent-2.0.21-stable/evbuffer-internal.h:178-182 | Over any list of these calls a pinned chain is neither freed nor has its contents moved: the system finds the same bytes from beginning to end, and the content ends as it was plus what the calls added, in their order. No chain of the buffer is lost: each is still listed or was freed. |
| EvBufferInFlight.MovesConserve | 2019_5_15/libevent-2.0.21-stable/buffer.c:1083-1171 | Of the other buffer, any list of calls that only move data loses, repeats or reorders no byte: what arrived and what is left make up what there was. |
| EvBufferInFlight.Write | 2019_5_15/libevent-2.0.21-stable/buffer_iocp.c:136-241 | A write from its launch to its completion, with any list of calls in between: the content ends as it was without its first n bytes, plus what the calls added. The chains that leave on completion are the first of those listed then, beginning with the chains that the write showed; they lie within the n bytes and are freed, and every chain that stays is intact and holds a byte that was not written. No chain that the buffer had is lost. |
| PoolState.Pool.RearIsFree | thread_pool/threadpool.c:141-148 | The slot that an add clears and fills holds no task that waits. |
| PoolState.Pool.Add | thread_pool/threadpool.c:141-150 | The ring is a queue: the task comes last, the others stay as they are. |
| PoolState.Pool.Take | thread_pool/threadpool.c:196-201 | The oldest task is taken, the others stay as they are. |
| PoolState.Pool.WakeUp | thread_pool/threadpool.c:175-186 | A worker that wakes exits if and only if threads are to exit and more than the minimum are alive; the live count goes down exactly then, and never below the minimum; every wakeup uses up one request to exit. |
| PoolState.Pool.CreateThreads | thread_pool/threadpool.c:247-258 | The first free slots of the table, in their order, get new ids, and no other slot changes: DEFAULT_THREAD_VARY of them, or all that are free, or as many as the maximum of threads leaves room for, whichever is least; so many threads more are counted. |
| PoolState.CreatedIs | thread_pool/threadpool.c:250-258 | The number of threads that the manager makes is the least of three: what DEFAULT_THREAD_VARY still allows, what the maximum leaves room for, and the free slots from here on; these are filled in their order, with one new id after the other. |
| ThreadPool.AddOn | thread_pool/threadpool.c:129-153 | On a real pool threadpool_add has the effect of its step in the runs. |
| ThreadPool.WorkOn | thread_pool/threadpool.c:156-222 | And so has the code of a worker from each of its steps to the next. |
| ThreadPool.ManageOn | thread_pool/threadpool.c:224-279 | And that of the manager. |
| ThreadPool.RunKeeps | thread_pool/threadpool.c:129-279 | Every state of every run without shutdown, for any interleaving of adders, workers and the manager, meets the invariant. |
| ThreadPool.FirstInFirstOut | thread_pool/threadpool.c:129-222 | Tasks are taken in the order of their addition; the others wait in the queue in that order. |
| ThreadPool.ExactlyOnce | thread_pool/threadpool.c:129-222 | Every added task waits, or is with one worker, or was finished, as often as it was added. |
| ThreadPool.CountersAreRight | thread_pool/threadpool.c:160-279 | `live_thr_num` is the number of threads that have not exited, within its limits; `busy_thr_num` is the number of those that run a task; each has its id in the table. |
| ThreadPool.EveryTaskGetsDone | thread_pool/threadpool.c:165-222 | In any state of any run, one worker that is at the top of its loop or has a task needs no other: by itself it finishes its task and then all that wait, three of its steps for each. |
| ThreadPool.WakesToWork | thread_pool/threadpool.c:171-201 | A waiting worker that wakes up while tasks wait takes the oldest one, unless exits are asked for and more threads than the minimum live; then it exits and takes none. |
| ThreadPool.ManagerGrows | thread_pool/threadpool.c:236-261 | Over all runs: threads are made just in a step of the manager that has read, earlier in the run, that at least 10 tasks wait and fewer threads live than may; if is_thread_alive tells the truth there are then exactly 10 more, or as many as the maximum lacks. |
| ThreadPool.ManagerTrims | thread_pool/threadpool.c:263-269 | 10 threads are asked to exit just if the manager has read that fewer than half of them were busy and more than the minimum lived; no other step of it changes that number. |
| Arc4.Rs.constructor | 2019_5_15/libevent-2.0.21-stable/arc4random.c:95-104 | The initial state is the identity, a permutation of the bytes. |
| Arc4.Rs.AddRandom | 2019_5_15/libevent-2.0.21-stable/arc4random.c:106-121 | 256 rounds of the key schedule over the data, and j is set to i. |
| Arc4.SeededIndices | 2019_5_15/libevent-2.0.21-stable/arc4random.c:112-120 | Seeding leaves both indices one before where the first one began. |
| Arc4.EachByteMatters | 2019_5_15/libevent-2.0.21-stable/arc4random.c:113-119 | Data of the same length that first differ in byte n give different states after n + 1 rounds, the same i, and j as far apart as the two bytes. |
| Arc4.Rs.GetByte | 2019_5_15/libevent-2.0.21-stable/arc4random.c:408-420 | One round: i goes on by one, j by the byte there, the two bytes change places, and the output is the byte that their sum names. |
| Arc4.RoundsAreInvertible | 2019_5_15/libevent-2.0.21-stable/arc4random.c:408-420 | No two states have the same successor. |
| Arc4.AlwaysAPermutation | 2019_5_15/libevent-2.0.21-stable/arc4random.c:95-121 | Over every run of seeding and output steps the state stays a permutation of 0..255. |
| Arc4Uniform.MinIsRemainder | 2019_5_15/libevent-2.0.21-stable/arc4random.c:513-523 | All three ways to compute `min` give 2^32 modulo the bound, with the wrap-around of 32-bit arithmetic. |
| Arc4Uniform.Uniform | 2019_5_15/libevent-2.0.21-stable/arc4random.c:505-538 | The result is the first number drawn that is not below 2^32 modulo the bound, reduced; 0 without a draw for bounds below 2. |
| Arc4Uniform.NoBias | 2019_5_15/libevent-2.0.21-stable/arc4random.c:494-504 | Every result below the bound comes from exactly equally many accepted 32-bit numbers, and at least one. |
| Arc4Uniform.MostAreAccepted | 2019_5_15/libevent-2.0.21-stable/arc4random.c:525-530 | More than half of all 32-bit numbers are accepted. |

## Left out

- evbuffer: allocation failure, callbacks and their counters (`n_add_for_cb`), locks, reference counts, chains that refer to foreign memory, files or mappings, expanding and reserving space, pinning for reads.
- evbuffer: sizes are unbounded, so the wrap-around of size_t is not modelled; the checks of `len > EV_SSIZE_MAX` go with it.
- evbuffer: branches that the reachable shapes exclude are not written out: in evbuffer_drain the question whether the drained chain is the one `last_with_datap` leads to, in evbuffer_pullup the fallback to the first link.
- EvBufferMove.FreeTrailing: also resets `last`, which the callers of the original do themselves right after it.
- EvBufferSearch.PtrMemcmp: tells equal from different only; the sign of a difference is not used by the code modelled.
- EvBufferLines: evbuffer_strspn is modelled for the one set of bytes that it is called with.
- EvBuffer.Buffer.ChainInsert: a chain without data is only inserted into a buffer without chains, as evbuffer_add and evbuffer_prepend do; the callers that insert one behind others expand or reserve space.
- EvBufferInFlight: the ends stay frozen or not as they are at the launch; a program that unfreezes the start during a write, against the purpose of the freeze, is outside the model.
- EvBufferIocp: overlapped reads; that the system writes the bytes it is shown is outside the model. WSASend is an input that succeeds or fails.
- Timers: array_needsize grows an array to a size that is enough; the rounding to allocation sizes is left out, here and in the tables of descriptors.
- TimerHeap.MinChild: the fourth comparison of the slow path of downheap is left out, since a partial group has at most three children.
- Pending queues: a callback is the list of feeds and clears that it makes; a callback that runs the loop again is left out.
- Pending queues: the priority of a watcher stays the same while it is pending, as the documentation of libev demands.
- FdWatchers.Fds.Stop: the pending event of the watcher is cleared by PendingQueues.Queues.ClearPending, which is not called here; the reference count of the loop and the priority of io watchers are left out.
- Periodics.Periodics.Stop: likewise, but PeriodicLoop.PeriodicStop calls both. Inside periodics_reify nothing is pending that a stop could clear, because it is only modelled when no periodic is pending yet (PeriodicLoop.PeriodicsReify).
- Backends: fd_event is where the reports end; that it passes over descriptors with pending changes is not modelled. What poll() and select() answer is an input. The variants for Windows are left out.
- EventLoop.Loop.ExpireTimers, PeriodicLoop.ExpirePeriodics, PeriodicLoop.RunTurn: no timer or periodic is pending when the turn begins; one that is keeps the slot that it has, so its place in the order is that of its earlier feed. Idle and check watchers, which ev_run queues in between, are left out.
- Wakeup: how long the loop waits is in PeriodicLoop.BlockingTime; EVRUN_NOWAIT, idle watchers and a loop without watchers are the `noWait` of a step.
- Wakeup: the items keep their places; ev_async_start and ev_async_stop during a run are left out, as are signals that belong to another loop. Memory is sequentially consistent, which the fences of the source provide.
- PeriodicTimes.PeriodicRecalc: arithmetic is exact, so an interval always makes a difference and the branch for lost resolution is left out.
- ThreadPool: shutdown. A waiting worker may wake at any time, so signals that come too early or too late are not modelled.
- ThreadPool.ManagerGrows: a thread that has exited may still seem alive; then its slot stays taken and fewer threads are made (PoolState.CreatedIs says how many).
- PoolState.Pool.Add: the memory of the argument that it clears, and whether a task that was taken still uses it, are not modelled.
- Arc4: the sources of seed data, the counter that triggers reseeding and the discarding of early output are left out; bytes are drawn in any order with seeding.
- epoll, kqueue, ports, inotify, signals, child processes and forks in libev, and the other programs of the repository, are not modelled.
