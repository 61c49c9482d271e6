# Verification of the base library's protocols and algorithms

A Dafny model of the hard parts of the C++ library under `base/`, with proofs of what
they are for. `dafny verify dfyconfig.toml` checks all of it.

| file | models |
|---|---|
| `Mutex.dfy` | the mutex with `LockWhen`: lock, conditional wait, signal at unlock |
| `ThreadPool.dfy`, `PoolCalls.dfy` | the worker pool: producer-consumer queue, workers, shutdown by one NULL per worker; what its calls come to |
| `BlockingCounter.dfy` | the counter threads wait on, as a client of the mutex |
| `ConcurrentQueue.dfy` | the unbounded and the bounded blocking queue |
| `QueueTally.dfy`, `QueueStranding.dfy` | the bounded queue in numbers, and when it can strand a thread |
| `SharedPtr.dfy` | shared and weak pointers with their control block |
| `Once.dfy`, `OnceCalls.dfy` | lazy instances, singletons and the exit manager; what calls come to |
| `OnceNested.dfy`, `OnceTeardown.dfy` | constructors that call others: when calls get stuck, and what exit tears down first |
| `Kmp.dfy` | Knuth-Morris-Pratt search |
| `Glob.dfy`, `Whitespace.dfy` | wildcard matching and whitespace collapsing |
| `MessageConverter.dfy` | the text form of string maps |
| `Md5Transform.dfy`, `Md5.dfy`, `Md5Vectors.dfy` | the compression function of RFC 1321, the streaming digest, and two digests in bytes |
| `PickleFormat.dfy`, `PickleTrimming.dfy`, `Pickle.dfy` | the pickle byte format, when trimming is harmless, and the growable buffer object |
| `PathAlgebra.dfy`, `PathRelative.dfy`, `PathExtensions.dfy`, `FilePath.dfy` | what POSIX path operations mean, relative paths, extensions, and the object that performs the operations |

The concurrent components are state machines: a thread is a program counter, a step is
one atomic action, and a run is any interleaving of any number of threads. A signal
wakes at least one waiter, and waiters may also wake for no reason. The others are
methods and classes proved against functions on values; the properties are then proved
of those functions.

Some promises turned out false of the code; each has an input or a run that breaks it,
and its exact condition:

- A pool without workers leaves its closures in the queue (`EmptyPoolKeepsClosures`;
  exactly when: `ShutdownIsComplete`).
- The bounded queue shares one condition variable between producers and consumers and
  can leave one asleep with nothing in its way and nobody awake
  (`BoundedQueueCanLoseAWakeup`, `ConsumerStranded`; exactly when: `StrandingIsExact`,
  a condition on the bound and the number of threads alone).
- The matcher's depth limit goes by wildcards met, and beyond 16 it refuses strings that
  match, for some patterns and not for others (`SeventeenStarsFail`; exactly when:
  `LimitIsHarmless`). `string_util.h` documents a limit of 16 wildcards.
- "./" is not a parent of "./a" (`DotSlashIsNoParent`; exactly when: `ParentExactly`).
- A variable buffer of a pickle may be trimmed after other values were written behind it,
  and then as much is cut off their end while they stay where they are
  (`TrimmingTooLate`; exactly when that is harmless: `TrimmingIsHarmless`, a condition on
  sizes alone).
- A pickle stores its size in 32 bits and loses values that take 2^32 bytes or more
  (`HugeValuesAreLost`; exactly when: `WriteThenRead`).
- Constructors of lazy instances and singletons may call others, and then calls can wait
  for each other for ever (exactly when: `KnotsAreCircles`). And an object that a
  constructor got may be destroyed before the one it constructed, as it can be had
  between its publication and its registration (`UsedObjectTornDownFirst`; which goes
  first: `TornDownInReverse`; when it is registered in time: `GotIsReliedOn`).

In two places the code and what one expects of it differ, and the model follows the
code: the whitespace test also accepts the NUL character, because the search finds the
table's terminator; and `DirName` leaves "//" for a path under exactly two separators
and also for one of the form "///x" (`ThreeSeparators`; exactly when: `AlternateRoot`).

## Model

| member | source | states |
|---|---|---|
| CondMutex.StepKeepsInv | base/mutex.h:74-92 | the wait loop and the signal half of `Unlock` keep: a sleeper implies the signal flag is set, and between signal and release some signalled thread is awake if anyone sleeps |
| CondMutex.RunKeepsInv | base/mutex.h:85-92 | that invariant holds in every state of every run, for any number of threads, with spurious wake-ups and signals that wake one or more |
| CondMutex.RunLosesNoWakeup | base/mutex.h:158-164 | no lost wake-up: with the mutex free, the condition true and a thread asleep, a signalled thread is on its way |
| ThreadPool.StepRefinesMutex | base/thread_pool.h:32-49 | every step of producers and workers is a step of the conditional mutex with the condition "queue not empty", or leaves it alone |
| ThreadPool.StepConserves | base/thread_pool.h:66-73 | taken items followed by the queue are the added items in order, and each taken item is in exactly one hand or was executed |
| ThreadPool.StepKeepsNullsLast | base/thread_pool.cc:16-19 | no closure is ever added behind a NULL |
| ThreadPool.StepKeepsOneNull | base/thread_pool.cc:32-38 | the NULLs a worker has taken are the one in its hand: at most one |
| ThreadPool.StepKeepsPhase | base/thread_pool.cc:16-24 | the destructor has sent as many NULLs as it counts, and every worker joined so far has exited |
| ThreadPool.StepKeepsInv | base/thread_pool.cc:16-41 | all of the pool invariants together survive every atomic step of every thread |
| ThreadPool.RunKeepsInv | base/thread_pool.cc:16-41 | they hold in every state of every interleaving |
| ThreadPool.NullMeansNoClosureLeft | base/thread_pool.cc:32-38 | a worker holds a NULL only once no closure is left in the queue |
| ThreadPool.ShutdownIsComplete | base/thread_pool.cc:16-24 | when the destructor returns every worker exited after exactly one NULL, every closure was executed as often as it was added if there is a worker, and the queue is empty if and only if there is a worker or nothing was added |
| ThreadPool.EmptyPoolKeepsClosures | base/thread_pool.cc:9-14 | a complete run of a pool with no workers that ends with a closure queued and nothing executed |
| ThreadPool.SleeperMeansNullQueued | base/thread_pool.cc:20-23 | while the destructor joins, a sleeping worker implies its NULL is still queued |
| ThreadPool.SleeperMeansWokenOrOwned | base/thread_pool.cc:20-23 | and then the mutex is held or another worker is waking: the wake-up was not lost |
| ThreadPool.NeverStuck | base/thread_pool.cc:16-41 | in every reachable state until the destructor has returned, some thread can take a step that is neither a spurious wake-up nor the beginning of an `Add` |
| ThreadPool.AddCanBegin | base/thread_pool.h:32-38 | while the pool is in use an `Add` of any closure, and of nothing else, can begin whenever the mutex is free |
| ThreadPool.AnyoneMayWake | base/mutex.h:85-92 | any sleeper may wake up, for no reason or alone when a signal is sent; the pool does not choose |
| ThreadPool.StepProgresses | base/thread_pool.cc:16-41 | every step but those two kinds lowers a natural-number measure: a pool to which nothing more is added works off its queue, and with finitely many spurious wake-ups the destructor returns |
| ThreadPool.CanBeDestroyed | base/thread_pool.cc:16-24 | every run, of any number of workers, has a continuation without a new `Add` in which the destructor returns |
| ThreadPool.PoolOfAnySize | base/thread_pool.cc:9-24 | there is a complete run of a pool of any number of workers and callers |
| PoolCalls.CallsHappenInTurn | base/thread_pool.h:32-73 | whatever the interleaving, the queue, the items added and the closures executed are those of a plain queue to which each `Add` appends the argument it was begun with and of which each worker executes what it took |
| PoolCalls.AddsPutOnce | base/thread_pool.h:32-38 | every `Add` puts exactly once and then returns |
| BlockingCounter.RunKeepsInv | base/mutex.h:214-231 | each step of the counter is a step of the conditional mutex, and the count is the initial one less the decrements made |
| BlockingCounter.WaitReturnsAtZero | base/mutex.h:218-226 | `Wait` gets past its loop only at zero, `DecrementCount` answers true exactly for the decrement that reaches zero, and no waiter is left asleep then |
| BlockingCounter.AnyCounter | base/mutex.h:216-217 | a counter may start at any number and be used by any threads |
| BlockingCounter.CallsDoTheirWork | base/mutex.h:218-226 | every `DecrementCount` that returned has decremented once, and every `Wait` that returned has seen the count at zero once |
| BlockingCounter.CallsCanBegin | base/mutex.h:218-226 | whatever the count, both calls can begin exactly when the mutex is free and the thread in no call |
| BlockingCounter.OwnerGoesOn | base/mutex.h:218-226 | and the thread in the mutex can always go on |
| BlockingCounter.AnyoneMayWake | base/mutex.h:85-92 | any sleeper may wake up, for no reason or alone when a signal is sent, and the woken go on when the mutex is free |
| BlockingCounter.ZeroNeverStuck | base/mutex.h:223-226 | with the count at zero and a thread inside a call, some step other than a spurious wake-up or a new call is possible |
| BlockingCounter.ZeroSettles | base/mutex.h:218-222 | at zero as many decrements have been made as the counter was made for, and the count stays there unless the thread in the mutex is in one more |
| BlockingCounter.ZeroProgresses | base/mutex.h:223-226 | once it stays there, every step of the calls in progress, spurious wake-ups included, lowers a natural-number measure: every `Wait` returns |
| BlockingCounter.NoStepMeansAllReturned | base/mutex.h:223-226 | when no step but a new call is left, no thread is inside a call |
| ConcurrentQueue.StepKeepsClaims | base/concurrent_queue.h:19-48 | while a consumer sleeps on a queue that is never full (unbounded, or of negative bound) the items number at most the woken consumers plus the one signal or consumer inside the mutex |
| ConcurrentQueue.StepKeepsOrder | base/concurrent_queue.h:68-85 | the values returned by `Pop` and by `TryPop` when true, followed by the queue, are the pushed ones in order, and a non-negative bound is never exceeded |
| ConcurrentQueue.RunKeepsInv | base/concurrent_queue.h:19-85 | both, with the shape of the waiting sets, over every run of either queue |
| ConcurrentQueue.QueueIsSafe | base/concurrent_queue.h:19-48 | over every run: values are returned in the order they were pushed, the bound holds, and with the mutex free the items of a queue that is never full do not outnumber the signalled consumers while anyone sleeps |
| ConcurrentQueue.AnyQueue | base/concurrent_queue.h:64-66 | a queue of any bound may be used by any number of threads |
| ConcurrentQueue.TryPopTakesFirst | base/concurrent_queue.h:31-39 | `TryPop` is false if and only if the queue is empty at its step; otherwise it gives the first value, which leaves the queue |
| ConcurrentQueue.PopTakesFirst | base/concurrent_queue.h:41-48 | `Pop` gives the first value, which leaves the queue |
| ConcurrentQueue.CallsHappenInTurn | base/concurrent_queue.h:19-48 | whatever the interleaving, the queue, what was pushed and every answer given are those of a plain queue on which each call is carried out at its one step, with the argument it was begun with |
| ConcurrentQueue.CallsTakeOneStep | base/concurrent_queue.h:19-85 | every call takes that step exactly once before it returns; every `Push` signals once and so does the `Pop` of the bounded queue, and no other call |
| ConcurrentQueue.OwnerGoesOn | base/concurrent_queue.h:68-85 | the thread in the mutex can always go on |
| ConcurrentQueue.OthersGoOn | base/concurrent_queue.h:68-85 | with the mutex free a woken thread can, and any idle thread can begin any call, `TryPop` on the unbounded queue only |
| ConcurrentQueue.AnyoneMayWake | base/concurrent_queue.h:23-45 | any sleeper may wake up, for no reason or alone when a signal is sent |
| ConcurrentQueue.CallsEnd | base/concurrent_queue.h:68-85 | every step but a spurious wake-up and a new call lowers a natural-number measure: the calls in progress return or come to sleep |
| QueueTally.MirrorMoves | base/concurrent_queue.h:68-85 | producers and free places move as consumers and items do: the two methods of the bounded queue are each other's mirror |
| QueueTally.MoveKeepsConsumersSafe | base/concurrent_queue.h:77-85 | with few enough threads, no step leaves a consumer asleep beside an item with nobody to see to it |
| QueueTally.MoveKeepsSafe | base/concurrent_queue.h:68-85 | nor a producer asleep beside a free place |
| QueueStranding.StepMoves | base/concurrent_queue.h:68-85 | every step of every thread of the bounded queue is a move of the counts of sleepers, woken threads and items |
| QueueStranding.NoneStranded | base/concurrent_queue.h:68-85 | over every run of an unbounded queue, of a bound without room, of at most bound + 1 threads, or of bound + 2 threads on a bound of two or more: with the mutex free and nobody awake, no thread sleeps with nothing in its way |
| QueueStranding.ConsumerStranded | base/concurrent_queue.h:68-85 | for every positive bound and every number of threads from bound + 3 on, a run that leaves a consumer asleep beside a full queue with nobody awake |
| QueueStranding.BoundedQueueCanLoseAWakeup | base/concurrent_queue.h:68-85 | on a bound of one, three threads are enough: a run that leaves a producer asleep beside the empty queue, and every thread idle or asleep |
| QueueStranding.StrandingIsExact | base/concurrent_queue.h:68-85 | a queue can strand a thread if and only if its bound is positive and there are more than bound + 1 threads, bound + 2 being too many only for a bound of one |
| SharedPtr.OwnerGone | base/shared_ptr.h:129-141 | the first step of a `shared_ptr` destructor keeps the counts exact, whether or not it was the last owner |
| SharedPtr.ObserverGone | base/shared_ptr.h:257-262 | likewise the decrement of a `weak_ptr` destructor |
| SharedPtr.TaskKeepsBlock | base/shared_ptr.h:131-139 | deleting the object, dropping the weak count of the owners and deleting the block keep the counts exact between the atomic steps |
| SharedPtr.NewKeepsInv | base/shared_ptr.h:91-94 | a fresh pointer has one owner and one weak count |
| SharedPtr.CopyKeepsInv | base/shared_ptr.h:190-197 | copying an owner or making an observer keeps the counts exact |
| SharedPtr.SwapKeepsInv | base/shared_ptr.h:156-159 | swapping two pointers changes no count |
| SharedPtr.StepKeepsInv | base/shared_ptr.h:129-141 | `refcount_` is the number of owners and `weak_count_` the observers plus one until the last owner has dropped its share, across every step |
| SharedPtr.RunKeepsInv | base/shared_ptr.h:70-77 | the same in every state of every interleaving |
| SharedPtr.StepTouchesLiveBlock | base/shared_ptr.h:129-141 | whatever runs next reads and writes only undeleted control blocks and deletes only a live object |
| SharedPtr.CountsStaySound | base/shared_ptr.h:131-137 | no object and no block is deleted twice and no count goes below zero |
| SharedPtr.DeadStaysDead | base/shared_ptr.h:190-197 | a reference count that reached zero is zero for the rest of the run |
| SharedPtr.HandlesAreLive | base/shared_ptr.h:292-298 | a pointer variable names a live block, a shared one a live object, and a weak one has expired exactly when no shared one is left |
| SharedPtr.NothingLeaks | base/shared_ptr.h:129-141 | when all pointers are gone and all destructors done, each object and each block has been deleted exactly once |
| SharedPtr.AssignmentMovesOneOwner | base/shared_ptr.h:121-127 | copy, swap and destroy make the target a copy of the source, change no other pointer, and move one owner from the old object to the new |
| SharedPtr.NewObjectIsOwned | base/shared_ptr.h:91-94 | the new variable names the new block, which has one owner and one weak count; nothing else changes |
| SharedPtr.NewEmptyIsEmpty | base/shared_ptr.h:228-228 | an empty pointer names nothing and changes no count |
| SharedPtr.CopyAddsOwner | base/shared_ptr.h:190-197 | the copy names what its source names, whose reference count is then one higher; nothing else changes |
| SharedPtr.ObserveAddsObserver | base/shared_ptr.h:301-306 | a weak pointer made from a shared or weak one names what that names, whose weak count is then one higher; nothing else changes |
| SharedPtr.SwapExchanges | base/shared_ptr.h:156-159 | the two variables exchange what they name; nothing else changes |
| SharedPtr.DestroyDropsOwner | base/shared_ptr.h:129-141 | the variable is gone, the reference count one lower, and the object is to be deleted if and only if that was the last owner |
| SharedPtr.DestroyDropsObserver | base/shared_ptr.h:257-262 | the variable is gone, the weak count one lower, and the block is to be deleted if and only if that was the last |
| SharedPtr.TaskDoes | base/shared_ptr.h:131-139 | what each later step of a destructor does to its block: delete the object, drop the weak count, delete the block if that was the last |
| SharedPtr.TasksEnd | base/shared_ptr.h:129-141 | each such step brings its destructor nearer to its end and touches no variable, no other block and no other destructor |
| SharedPtr.AlwaysUsable | base/shared_ptr.h:86-141 | in every reachable state every operation on every pointer of the right kind is possible, and every destructor can go on |
| SharedPtr.VariablesHold | base/shared_ptr.h:91-197 | after every run each variable holds what the operations carried out, read as operations on plain variables, make it hold |
| SharedPtr.ObserverKeepsNaming | base/shared_ptr.h:292-306 | a weak pointer made from a pointer to a block names that block until it is swapped or destroyed, and has expired exactly when no shared pointer to it is left |
| SharedPtr.ObserverExample | base/shared_ptr.h:129-141 | a run in which an observed object loses its owner: it is deleted, the observer has expired, and the block it names stays |
| Once.StepKeepsInv | base/lazy_instance.cc:15-42 | creation by compare-and-swap, publishing, spinning, registering and exit callbacks keep the invariant of threads, cells, objects, exit stack and results |
| Once.StepKeepsOnce | base/singleton.h:178-229 | no step constructs a second object of a cell in one epoch |
| Once.StepKeepsThreads | base/lazy_instance.h:121-142 | only the winner of the compare-and-swap constructs, and a thread past the check finds the instance there |
| Once.StepKeepsCells | base/singleton.h:190-210 | a cell being created has a creator inside its call; a created one is registered or about to be |
| Once.StepKeepsObjects | base/lazy_instance.h:161-167 | an object is undestroyed exactly while it is the current instance of its cell, and never destroyed twice |
| Once.StepKeepsStack | base/at_exit.cc:38-65 | the registrations of the epoch are the stack followed by the reverse of what was torn down |
| Once.RunKeepsInv | base/singleton.h:178-248 | all this over every interleaving of any number of threads, cells and epochs |
| Once.CallsAgree | base/singleton.h:178-229 | all calls on one cell in one epoch returned the same object, the only one constructed for it |
| Once.CallsReturnLiveObjects | base/lazy_instance.h:121-142 | a call returns only a constructed object that has not been destroyed |
| Once.ExitTearsDownAll | base/at_exit.cc:51-65 | when exit processing ends, registered instances went in reverse order of registration, every object ever made was destroyed exactly once, and all cells are empty |
| Once.CallsNeverStuck | base/singleton.h:219-224 | where constructors make no calls: a spinning thread always has a creator that can move |
| OnceCalls.EveryCallIsAnswered | base/lazy_instance.h:121-142 | over every run, the results of a thread answer its calls one by one, each for the cell it asked for, but for the call it is in |
| OnceCalls.StepAnswers | base/singleton.h:178-229 | a result is recorded by the step that makes its thread idle, and by no other |
| OnceCalls.CallsProgress | base/singleton.h:219-224 | every step of a call lowers a natural-number measure that only a new call raises: calls in progress return |
| OnceCalls.CallCanBegin | base/lazy_instance.h:121-133 | a call for any cell can begin exactly when its thread is idle and no exit is in progress |
| OnceCalls.CallbackDestroys | base/at_exit.cc:57-64 | an exit callback takes the cell registered last off the stack, empties it and destroys its live object, and nothing else |
| OnceCalls.GoesOn | base/at_exit.cc:51-65 | in every reachable state a call in progress can go on, or exit can begin or go on |
| OnceCalls.ExitCanEnd | base/at_exit.cc:51-65 | every run has a continuation without a new call in which exit ends: a new epoch, all cells empty, every object destroyed once, nothing registered |
| OnceNested.NestRunIsRun | base/singleton.h:197-197 | constructors that call other cells, or their own, change nothing in what every run guarantees: the states are those of a run without nesting |
| OnceNested.NestRunKeepsInv | base/lazy_instance.h:126-133 | a call made by a constructor keeps it constructing, and what a constructor relied on was registered before its own cell |
| OnceNested.CallsOneAtATime | base/singleton.h:197-197 | over every run a constructor is in at most one call of its own |
| OnceNested.KnotStays | base/singleton.h:219-224 | calls that wait for each other, as constructor for its call or as spinning call for the creator, never take another step |
| OnceNested.KnotsAreCircles | base/singleton.h:191-224 | some run of some number of threads ties such a knot if and only if constructors call each other in a circle, the shortest being one that calls its own object |
| OnceNested.NestedCallsNeverStuck | base/lazy_instance.cc:15-30 | without circles, in every reachable state with a call in progress some call can take a step |
| OnceTeardown.GotIsReliedOn | base/lazy_instance.cc:32-42 | when a call made by a constructor returns, the constructor has got the object, and it is registered by then if and only if its creator has finished, rather than published it and being about to register it |
| OnceTeardown.ReliedIsTornDownLater | base/at_exit.cc:57-64 | an object that was registered when a constructor got it is torn down after the object constructed |
| OnceTeardown.TornDownInReverse | base/at_exit.cc:57-64 | of any two registered cells the one registered first is torn down last, and conversely |
| OnceTeardown.UsedObjectTornDownFirst | base/singleton.h:203-207 | a run in which a constructor gets an object published but not yet registered, and at exit that object is destroyed while the one constructed is still there |
| Kmp.BorderStep | base/kmp.cc:29-34 | a border of i + 1 characters is a border of i followed by an equal character, and conversely |
| Kmp.BorderOfBorder | base/kmp.cc:31-33 | the shorter borders of a prefix are exactly the borders of its longer border |
| Kmp.CandidateFallsBack | base/kmp.cc:31-33 | a mismatch may go on with the table entry of the failed border without missing a longer one |
| Kmp.CandidateSucceeds | base/kmp.cc:29-34 | when the inner loop stops the entry is the longest proper border |
| Kmp.KMPPattern.FillEntry | base/kmp.cc:30-33 | one turn of the loop appends a right entry in place, at an amortised two comparisons |
| Kmp.KMPPattern.constructor | base/kmp.cc:21-35 | every entry from 1 on is the longest proper border of that prefix, and the table takes at most twice the pattern length in comparisons |
| Kmp.MatchedFallsBack | base/kmp.cc:48-51 | falling back along the longest border skips no occurrence |
| Kmp.MatchedMore | base/kmp.cc:43-47 | an equal character extends the match, and a full one is the first occurrence |
| Kmp.MatchedToTheEnd | base/kmp.cc:42-53 | reaching the end of the text means there is no occurrence |
| Kmp.KMPPattern.Match | base/kmp.cc:37-54 | the least index at which the pattern occurs, or -1 exactly when it occurs nowhere, in at most twice the text length of comparisons; the step back to the same character terminates |
| Glob.EatSameChars | base/string_util.cc:1611-1645 | skipping equal characters and escapes changes no answer, and where it stops before a non-wildcard there is no match |
| Glob.EatWildcard | base/string_util.cc:1648-1654 | reaches the end exactly when the rest of the pattern is wildcards only |
| Glob.RestOfLiteral | base/string_util.cc:1619-1641 | what a plain or escaped character in front asks of the string |
| Glob.RestOfQuestion | base/string_util.cc:1680-1685 | the two recursive calls cover exactly what `?` may stand for |
| Glob.RestOfStar | base/string_util.cc:1688-1703 | the loop over split points, and the check for wildcards at the end, cover exactly what `*` may stand for |
| Glob.MatchPatternT | base/string_util.cc:1657-1706 | for every pattern, string and depth, the answer is the meaning of the pattern cut where the depth limit runs out, and false beyond that depth |
| Glob.MatchPattern | base/string_util.cc:1712-1715 | never accepts a string outside the declared meaning of the pattern; agrees with that meaning for every pattern of at most 16 wildcards, of no match at all, or covered |
| Glob.AffordableIsSound | base/string_util.cc:1658-1660 | cutting the pattern at the depth limit only loses matches |
| Glob.AffordableIsExact | base/string_util.h:661-666 | a pattern of at most 16 wildcards is not cut |
| Glob.LimitIsHarmless | base/string_util.h:661-666 | the depth limit changes no answer, over all strings, if and only if the pattern ends in a lone backslash, has no wildcard too many, or what starts at the first wildcard too many is all wildcards and it, or the run of wildcards it continues, has a star |
| Glob.CoveredLosesNothing | base/string_util.cc:1688-1703 | for such patterns every match survives the cut |
| Glob.SpoiledString | base/string_util.cc:1658-1660 | for every other pattern, a string that matches it and is refused |
| Glob.FewWildcardsAreCovered | base/string_util.h:661-666 | patterns within the documented limit are among the harmless ones |
| Glob.LiteralTailIsRejected | base/string_util.cc:1658-1660 | a pattern of too many wildcards ending in a literal matches nothing at all |
| Glob.SeventeenStarsFail | base/string_util.cc:1658-1660 | seventeen stars and an `a` mean, among others, "a", and the matcher refuses every string |
| Glob.SeventeenStarsRefused | base/string_util.cc:1658-1660 | the matcher itself refuses "a" for seventeen stars and an `a`, and accepts it for sixteen |
| Glob.PatternsMean | base/string_util.cc:1611-1645 | what a pattern with both wildcards, three escaped characters, and one with a lone backslash are read as |
| Whitespace.CollapseWhitespace | base/string_util.cc:550-590 | the words of the text joined by one space, or by nothing over a gap with a line break when asked |
| Whitespace.CollapseChar | base/string_util.cc:562-581 | one turn of the loop: the write cursor stays between 0 and the read position and moves by at most one, only the place at the cursor is written, and the finished output stays what it was going to be |
| Whitespace.ExpectedCopy | base/string_util.cc:575-580 | copying a character leaves the finished output as it was going to be, in every state of the flags |
| Whitespace.ExpectedSpace | base/string_util.cc:563-574 | so does writing one space per gap and taking it back at a line break |
| Whitespace.CollapsedIsNormal | base/string_util.cc:583-589 | the output has no whitespace at its ends and only single spaces inside |
| Whitespace.NormalTailIsFixed | base/string_util.cc:562-590 | what follows inside such a text is copied as it stands |
| Whitespace.NormalIsFixed | base/string_util.cc:550-590 | such a text is left unchanged |
| Whitespace.CollapsingTwiceIsOnce | base/string_util.cc:550-590 | collapsing again, with either flag, changes nothing |
| Whitespace.WhitespaceIsInTable | base/string_util.cc:347-375 | a character is whitespace if and only if it is one of the listed code points or the terminator, and a line break if and only if it is CR or LF |
| Whitespace.TabExample | base/string_util.cc:562-581 | a tab between two words becomes one space, with either flag |
| Whitespace.BreakExample | base/string_util.cc:562-581 | over CR and LF the words are joined by one space, or by nothing when breaks are trimmed |
| MessageConverter.EncodeString | base/message_converter.cc:82-91 | appends the text with a backslash before each comma, colon and backslash |
| MessageConverter.DecodeString | base/message_converter.cc:93-107 | fails exactly on a backslash that precedes none of the three, and otherwise appends the unescaped text |
| MessageConverter.DecodeUndoesEncode | base/message_converter.cc:82-107 | decoding an encoded text succeeds and gives it back |
| MessageConverter.EncodedLength | base/message_converter.cc:82-91 | the encoded text is longer by the number of commas, colons and backslashes in it |
| MessageConverter.PlainIsEncodedAsItself | base/message_converter.cc:82-91 | a text is encoded as itself if and only if it has no comma, no colon and no backslash |
| MessageConverter.EncodedConcat | base/message_converter.cc:82-91 | a concatenation is encoded part by part |
| MessageConverter.ThreeAreEscaped | base/message_converter.cc:82-91 | a comma, a colon and a backslash are each encoded as a backslash and it |
| MessageConverter.OtherEscapesFail | base/message_converter.cc:93-107 | a backslash that is not itself escaped, in front of any other character or of none, makes decoding fail |
| MessageConverter.FindSeparator | base/message_converter.cc:25-34 | both scanning loops stop at the first separator no backslash hides |
| MessageConverter.ScanStopsAtSeparator | base/message_converter.cc:41-51 | behind an encoded text, a scan stops at the separator printed there, or at the end |
| MessageConverter.ScanStopsBehind | base/message_converter.cc:25-34 | behind any part without the separator that does not end in a lone backslash, a scan stops |
| MessageConverter.ScanPassesFree | base/message_converter.cc:25-34 | what a scan passes over has no separator but behind backslashes |
| MessageConverter.StringToMap | base/message_converter.cc:20-68 | the parsing loop accepts, refuses and inserts as the recursive parser does; what that accepts and inserts is said by the rows on AcceptedExactly and its parts |
| MessageConverter.MapToString | base/message_converter.cc:70-80 | the printed entries separated by commas |
| MessageConverter.ParseEntry | base/message_converter.cc:58-64 | parsing at a printed entry inserts its key and value and goes on behind its comma |
| MessageConverter.ParseRaw | base/message_converter.cc:23-64 | parsing at any well-formed entry inserts what it decodes to and goes on behind its comma |
| MessageConverter.SpeltIsParsed | base/message_converter.cc:20-68 | a text of well-formed entries separated by commas, with or without a last one, is accepted and inserted in order |
| MessageConverter.ParsedIsSpelt | base/message_converter.cc:20-68 | what was read of any text is well-formed entries: all of an accepted text, and the front of a refused one, whose entries stay in the map |
| MessageConverter.AcceptedExactly | base/message_converter.cc:20-68 | a text is accepted if and only if it is such entries, keys without unescaped colon and values without unescaped comma, both decodable; and however it is read as such, the map is the same |
| MessageConverter.EntriesAddKeys | base/message_converter.cc:62-62 | the keys afterwards are the old ones and those of the entries, and old values stay |
| MessageConverter.FirstEntryCounts | base/message_converter.cc:62-62 | of several entries with one key the first counts |
| MessageConverter.ParsePrinted | base/message_converter.cc:23-67 | parsing any printed list of entries succeeds and inserts them in order |
| MessageConverter.InsertAllAdds | base/message_converter.cc:62-62 | inserting all entries adds those whose keys are new and replaces none |
| MessageConverter.ParseAddsEntries | base/message_converter.cc:20-80 | printing any map in any order and parsing it into any map adds exactly the new entries |
| MessageConverter.RoundTrip | base/message_converter.cc:20-80 | into an empty map, parsing what was printed gives the map back, empty and special strings included |
| Md5Words.F1Agrees | base/md5.cc:47-48 | the optimised F of the program is that of section 3.4 of RFC 1321 |
| Md5Words.F2Agrees | base/md5.cc:49-49 | its G by exchanged arguments is the defined G |
| Md5Words.AuxiliaryAgrees | base/md5.cc:45-51 | the function of each round is the defined one |
| Md5Words.OperationAgrees | base/md5.cc:54-55 | the step macro computes the defined operation |
| Md5Transform.StepAgrees | base/md5.cc:54-55 | one step with its word, shift and constant is the definition's step of that number |
| Md5Transform.Round1Agrees | base/md5.cc:70-85 | the first sixteen unrolled steps are steps 1 to 16 of the definition |
| Md5Transform.Round2Agrees | base/md5.cc:87-102 | the next are steps 17 to 32 |
| Md5Transform.Round3Agrees | base/md5.cc:104-119 | the next are steps 33 to 48 |
| Md5Transform.Round4Agrees | base/md5.cc:121-136 | the last are steps 49 to 64 |
| Md5Transform.TransformAgrees | base/md5.cc:62-142 | the unrolled transform is the compression function of RFC 1321 |
| Md5.BytesOfWord | base/md5.cc:36-44 | taking a little-endian word apart gives the bytes it was made of |
| Md5.Context.ByteReverse | base/md5.cc:36-44 | on a little-endian host the bytes stay in place |
| Md5.Context.constructor | base/md5.cc:148-156 | the state of the empty message |
| Md5.BitCountAdds | base/md5.cc:169-172 | the two-word addition with its carry test adds eight times the length modulo 2^64 |
| Md5.Context.CountBits | base/md5.cc:167-172 | the two words hold eight times the total length modulo 2^64 |
| Md5.LowWordCounts | base/md5.cc:174-174 | six bits of the low word are the number of buffered bytes, even after the count wrapped |
| Md5.Context.ProcessBlocks | base/md5.cc:193-201 | after the block loop the state is that of all whole blocks and fewer than 64 bytes are left |
| Md5.Context.Update | base/md5.cc:162-206 | for any chunk, the state becomes that of the message so far followed by the chunk: bit count, chaining value of the whole blocks, buffered tail |
| Md5.Context.Pad | base/md5.cc:217-240 | one or two blocks of padding leave what the padded message needs |
| Md5.OneBlockPadding | base/md5.cc:237-240 | with at most 55 buffered bytes the padding completes one block |
| Md5.TwoBlockPadding | base/md5.cc:229-236 | with more it completes one and fills another |
| Md5.Context.Final | base/md5.cc:212-251 | the digest that sections 3.1 to 3.5 of RFC 1321 define for everything fed |
| Md5.DigestOfChunks | base/md5.cc:162-251 | for every way of cutting a message into chunks, empty ones included, the digest is that of the whole message |
| Md5.PaddingFillsBlocks | base/md5.cc:225-240 | the padded message is whole blocks and no shorter padding would make it so |
| Md5.PaddingIsInjective | base/md5.cc:220-245 | different messages have different padded forms |
| Md5.LengthByte | base/md5.cc:244-245 | byte k of the last eight is the length in bits modulo 2^64, divided by 256 to the power k, modulo 256 |
| Md5.ChainedConcat | base/md5.cc:195-201 | compressing a concatenation is compressing the second part from the state of the first |
| Md5Vectors.InitialBytes | base/md5.cc:148-156 | the four initial words are the bytes 01 23 45 67, 89 ab cd ef, fe dc ba 98, 76 54 32 10 of section 3.3 of RFC 1321 |
| Md5Vectors.EmptyTransform | base/md5.cc:62-142 | the compression of the one padded block of the empty message, in numbers |
| Md5Vectors.EmptyDigest | base/md5.cc:212-251 | the digest of the empty message is d41d8cd98f00b204e9800998ecf8427e, as section A.5 of RFC 1321 has it |
| Md5Vectors.AbcTransform | base/md5.cc:62-142 | the compression of the padded block of "abc", in numbers |
| Md5Vectors.AbcDigest | base/md5.cc:212-251 | the digest of "abc" is 900150983cd24fb0d6963f7d28e17f72 |
| PickleFormat.AlignIntIsLeast | base/pickle.h:213-215 | the least multiple of the alignment not below the argument |
| PickleFormat.NumberOfLittleEndian | base/pickle.cc:110-125 | a number that fits its width is read back from its bytes |
| PickleFormat.LittleEndianByte | base/pickle.cc:110-125 | byte k of a number is its quotient by 256 to the power k, modulo 256 |
| PickleFormat.LittleEndianOfNumber | base/pickle.cc:110-125 | bytes read as a number and written again are the same bytes |
| PickleFormat.NumberExamples | base/pickle.cc:110-125 | 0x01020304 is the bytes 4, 3, 2, 1, and -2 is stored as 0xfffffffe |
| PickleFormat.RangesOfTypes | base/pickle.h:89-117 | the values of each type are those of its C++ type, in numbers |
| PickleFormat.LaidSize | base/pickle.cc:379-401 | the exact bytes that items come to, with zeros between them, are as long as the items reach |
| PickleFormat.ExampleBytes | base/pickle.cc:302-340 | a text of three characters, a short number and a negative one, in sixteen bytes |
| PickleFormat.AppendLaysOut | base/pickle.cc:379-394 | one write behind a payload laid out as some items lays out those and the new one |
| PickleFormat.LaidOutSize | base/pickle.cc:379-394 | the items with their fillings fill the payload exactly |
| PickleFormat.LastItemReplaced | base/pickle.cc:342-360 | writing into the reserved buffer changes only the last item |
| PickleFormat.TrimmedLast | base/pickle.cc:362-377 | if the variable buffer is the last item, trimming leaves the items as if only the trimmed data had been written |
| PickleTrimming.TrimmingIsHarmless | base/pickle.cc:362-377 | whatever the buffer holds, trimming it leaves the items in front of it and behind it as they are, if and only if its length stays, or nothing is behind it, or only empty items are and the two lengths agree modulo 4 |
| PickleTrimming.Spoiled | base/pickle.cc:362-377 | in every other case, a buffer and a payload that trimming spoils |
| PickleTrimming.EmptiesKept | base/pickle.cc:374-376 | with nothing or only empty items behind and lengths that agree modulo 4, the trimmed payload is laid out as it should be |
| PickleTrimming.SurvivorsAgree | base/pickle.cc:374-376 | if the layout survives, the lengths agree modulo 4 and the byte the buffer had where the next byte belongs is that byte |
| PickleFormat.ReadsNeedRoom | base/pickle.cc:99-294 | no payload gives back values that take more room than it has |
| PickleFormat.AppendTracks | base/pickle.cc:379-394 | a write whose stored size is cut to 32 bits still lays out the items as long as they take less than 2^32 |
| PickleFormat.TrimmingTooLate | base/pickle.cc:362-377 | if a number was written behind an eight-byte buffer, trimming it to four cuts the number off: what is read back is the trimmed buffer and its own rest as the number |
| PickleFormat.TrimLaysOut | base/pickle.cc:362-377 | shrinking both sizes lays out what writing only the trimmed data would have |
| PickleFormat.ReadsBack | base/pickle.cc:99-294 | each typed read of what its write laid out gives the value and moves to the next |
| PickleFormat.ReadsAllBack | base/pickle.cc:99-294 | any sequence of typed values is read back in order, after which every read of positive length fails |
| PickleFormat.DeducedHeaderIsExact | base/pickle.cc:42-59 | a view keeps its data exactly when the length exceeds the stored payload size by a multiple of 4, and then header and payload add up to the length |
| PickleFormat.FindsEnd | base/pickle.cc:417-433 | a whole pickle in front is found to its last byte |
| PickleFormat.FindsExactly | base/pickle.cc:417-433 | an end is found if and only if what comes before it is a whole pickle |
| PickleFormat.FindsNothingInPrefix | base/pickle.cc:417-433 | on a proper prefix of a pickle nothing is found |
| PickleFormat.CutsAtBoundaries | base/pickle.cc:417-433 | any stream of pickles is cut at their boundaries and an incomplete last one is left alone |
| Pickle.Pickle.constructor | base/pickle.cc:31-40 | an empty pickle: aligned header, a capacity of 64 bytes |
| Pickle.Pickle.HeaderSizeOf | base/pickle.cc:47-54 | the header size deduced in 32-bit arithmetic, for any int length |
| Pickle.Pickle.View | base/pickle.cc:42-59 | drops the data, for a negative length always, or shows all of it in place |
| Pickle.Pickle.Resize | base/pickle.cc:403-414 | grows to a multiple of 64 keeping the content, or leaves everything as it was |
| Pickle.Pickle.BeginWrite | base/pickle.cc:379-394 | succeeds exactly when the doubled or needed size can be had; header, old payload and the bytes up to the next aligned position stay, the new size is stored modulo 2^32, the padding will fit |
| Pickle.Pickle.EndWrite | base/pickle.cc:396-401 | zeros up to the next aligned position and nothing else |
| Pickle.Pickle.WriteBytes | base/pickle.cc:329-340 | appends at the aligned position, the payload being cut where the stored size says, or changes nothing; below 2^32 zeros follow the data, and the bytes between it and the old payload are zero if they were before; header fields behind the size survive |
| Pickle.Pickle.Write | base/pickle.h:89-117 | appends the items of a value of any type, as long as all stay below 2^32; on failure at most a length was appended; with enough memory it does not fail; if the payload was byte by byte what its items come to, it still is |
| Pickle.Pickle.BeginWriteData | base/pickle.cc:342-360 | appends a length and an uninitialised buffer, remembering where, as long as all stay below 2^32; refuses negative lengths; with enough memory it does not fail |
| Pickle.Pickle.Reserve | base/pickle.cc:342-360 | room for bytes at the aligned position, zeros behind it, or nothing changes |
| Pickle.Pickle.FillVariable | base/pickle.h:119-127 | the caller's bytes become the last item |
| Pickle.Pickle.TrimWriteData | base/pickle.cc:362-377 | stores the smaller length and cuts as much off the end of the payload, wherever the buffer is, or refuses a length out of range without effect |
| Pickle.Pickle.FillTrimmed | base/pickle.cc:342-377 | filling the buffer just reserved and trimming it leaves the trimmed data as the last item |
| Pickle.Pickle.IteratorHasRoomFor | base/pickle.h:162-168 | for any position, also before the payload or the header: exactly when it is not before the header, the length is not negative, and the end is within the payload |
| Pickle.Pickle.ReadBytes | base/pickle.cc:280-294 | the bytes at the iterator, NULL standing for the start, which then moves by the aligned length; on failure it stays |
| Pickle.Pickle.ReadString | base/pickle.cc:216-230 | a length, refused if negative, and that many bytes |
| Pickle.Pickle.ReadValue | base/pickle.cc:99-294 | each typed read is the read of the format on the payload |
| Pickle.Pickle.Copy | base/pickle.cc:61-70 | a writable deep copy with the same bytes |
| Pickle.Pickle.Assign | base/pickle.cc:77-97 | the same for assignment, a view ceasing to be one; self-assignment changes nothing; the other is no view of the buffer this one owns, which goes away first |
| Pickle.ViewFindsHeader | base/pickle.cc:42-59 | viewing the bytes of a pickle deduces its own header size |
| Pickle.ViewOf | base/pickle.cc:42-59 | a view of `data()` and `size()` shows the same payload |
| Pickle.WriteAll | base/pickle.cc:302-340 | any values in turn lay out their items as long as they stay below 2^32, and with enough memory none fails; from a new pickle on, the payload is byte by byte what the items come to, zeros in between |
| Pickle.WriteExample | base/pickle.cc:296-340 | the twenty bytes of a pickle of the smallest header with a text, a short number and a negative number in it |
| Pickle.ReadInOrder | base/pickle.cc:99-294 | reads by kind from a NULL iterator |
| Pickle.WriteThenRead | base/pickle.cc:99-340 | across any buffer growths, the values written are read back, and nothing more, if and only if what they take is below 2^32; writing fails only where memory runs out, which it does not if it holds them twice over |
| Pickle.HugeValuesAreLost | base/pickle.cc:392-392 | four times 2^30 bytes are written without failure and not read back |
| Pickle.WriteTrimmed | base/pickle.cc:342-377 | values, a filled and trimmed variable buffer and more values lay out what writing only the trimmed data would have |
| Pickle.WriteTrimmedThenRead | base/pickle.h:129-138 | and it is read back so if and only if what it takes is below 2^32 |
| PathAlgebra.StripTwice | base/file_path.cc:1181-1201 | stripping trailing separators is idempotent |
| PathAlgebra.AppendThenSplit | base/file_path.cc:445-477 | for a non-empty path and a name without separators, the base name of the joined path is the name and its directory the stripped path |
| PathAlgebra.DirNameShrinks | base/file_path.cc:221-226 | going to the directory shortens the path, or turns one character into ".", or changes nothing |
| PathAlgebra.DirNameIsStripped | base/file_path.cc:324-328 | a directory name is not empty and has no separators left to strip |
| PathAlgebra.AlternateRoot | base/file_path.cc:305-322 | the directory is "//" if and only if the stripped path starts with "//" and has no separator behind its third character |
| PathAlgebra.ThreeSeparators | base/file_path.cc:305-322 | it is so for "//x" and for "///x", and "/" for four separators |
| PathAlgebra.ComponentsIgnoreTrailing | base/file_path.cc:208-241 | trailing separators do not change the components, "./" apart |
| PathAlgebra.ComponentsAreRelative | base/file_path.cc:283-287 | only the first component may be absolute, so appending the others is allowed |
| PathAlgebra.ComponentsOfAppended | base/file_path.cc:208-241 | appending something relative adds components behind those of a stripped path |
| PathAlgebra.ParentOfAppended | base/file_path.cc:243-289 | a path whose stripped form is neither empty nor "." is a strict parent of what is appended to it |
| PathAlgebra.ParentExactly | base/file_path.cc:243-289 | for every path and non-empty relative component: parent of the joined path if and only if the path is neither empty nor "." and, should it strip to ".", the stripped component starts with "./" |
| PathAlgebra.ComponentsAfterDot | base/file_path.cc:445-456 | "./" in front leaves a leading "." component only if what follows brings one |
| PathAlgebra.DotSlashIsNoParent | base/file_path.cc:228-231 | "./" has the component "." and "./a" has only "a" |
| PathAlgebra.ExtensionInPrefix | base/file_path.cc:121-160 | the dot found in the whole path is the one found in the base name, whatever dots the directories have |
| PathAlgebra.ExtensionSplits | base/file_path.cc:354-372 | removing the extension and putting it back gives the path if and only if there is none or the path has no separators to strip |
| PathAlgebra.ExtensionHasNoSeparator | base/file_path.cc:354-361 | a path with an extension has a base name free of separators |
| PathRelative.AppendToNothing | base/file_path.cc:445-456 | appending to the empty path or to "." gives the component |
| PathRelative.AppendedName | base/file_path.cc:208-241 | a name appended to a path that is not empty and does not strip to "." is one more component |
| PathRelative.ComponentsAreNames | base/file_path.cc:208-241 | every component but the first is a name: not empty and without separators |
| PathRelative.RelativeLeadsBack | base/file_path.cc:247-289 | what leads from a strict parent to a child, appended to the parent, is a path with the child's components if and only if the parent does not strip to "."; in that case the leading "." is lost |
| PathExtensions.DoubleExtensionsAre | base/file_path.cc:47-47 | the usual second extensions are "z", "gz" and "bz2" in their ten spellings |
| PathExtensions.ExtensionOfTwo | base/file_path.cc:121-160 | of a name with two dots the extension is the last two parts if the last is one of those and the other has one to four characters, else the last part; the rest is what removal leaves |
| PathExtensions.ArchiveExtensions | base/file_path.cc:354-372 | so ".tar.gz" of "a.tar.gz", ".tar.bz2", ".tar.Z", but ".txt" of "a.tar.txt" and ".js" of "a.user.js" |
| FilePath.FilePath.StripTrailingSeparatorsInternal | base/file_path.cc:1181-1201 | the in-place loop removes all trailing separators but a first character, and leaves exactly two alone |
| FilePath.FilePath.DirName | base/file_path.cc:295-329 | the directory as the path algebra has it, with both root cases |
| FilePath.FilePath.BaseName | base/file_path.cc:331-352 | the part behind the last separator of the stripped path, or that path |
| FilePath.FilePath.Append | base/file_path.cc:445-477 | joining with at most one separator, with nothing in front for the current directory |
| FilePath.FilePath.GetComponents | base/file_path.cc:208-241 | the loop ends on every path and collects the base names from the root down |
| FilePath.FilePath.AppendRelativePath | base/file_path.cc:247-289 | true exactly for a strict prefix of components; then the rest is appended to the given path, else that is left alone |
| FilePath.FilePath.IsParent | base/file_path.cc:243-245 | true exactly for a strict prefix of components, the empty path being no parent |
| FilePath.FilePath.ExtensionSeparatorPosition | base/file_path.cc:121-160 | the position of the last dot or, before a common second extension, of the one up to four characters ahead of it |
| FilePath.FilePath.Extension | base/file_path.cc:354-361 | the extension of the base name with its dot |
| FilePath.FilePath.RemoveExtension | base/file_path.cc:363-372 | the path up to the dot, or the path |

## Left out

- Memory ordering: atomic operations are sequentially consistent single steps; barriers and race annotations are not modelled.
- Threads: pthread internals, timeouts (`LockWhenWithTimeout` and the like), reader locks, `TryLock` and `SpinLock`; `TryGet` of the producer-consumer queue, which the pool does not use.
- Fairness: liveness is deadlock freedom and a measure that steps lower.
- The concurrent components are values stepped by functions, not heap classes; aliasing of the mutex, queue and pointer objects is not captured.
- ThreadPool.ShutdownIsComplete: assumes that all workers were started and that no `Add` is in progress or begins once the destructor runs; closures do not themselves add closures after that.
- ConcurrentQueue: `Empty` and `Size`; the base class's `TryPop`, which on the bounded queue would look at a second, hidden queue.
- SharedPtr: `weak_ptr::swap` passes raw pointers to a helper meant for weak pointers; it is modelled as an exchange of both fields. Two owners made from one raw pointer, conversions between pointer types and exceptions are not modelled.
- SharedPtr.AssignmentMovesOneOwner: an assignment without interruption; the invariant covers its steps when other threads come between.
- Once: leaky and static-memory traits, `operator==`, shadowing exit managers, callbacks and destructors that register or call while exit runs, and exit while calls are in progress.
- Kmp: lengths are unbounded integers rather than 32-bit; the `Match` overload that takes a NUL-terminated text.
- Glob: strings are the characters before the terminating NUL.
- Whitespace: elements are wide characters; a narrow character above 127, which sign-extends on its way to the table, is not modelled.
- MessageConverter: logging; lengths are unbounded rather than `int`. The map is printed in any order of its keys, of which the ordered map's is one.
- Md5: big-endian hosts, the wipe of the context after the digest, and the hexadecimal form. A single chunk is shorter than 2^64 bytes.
- Pickle: wide strings; `long` and `size_t` values, which are 8-byte values here; typed header access; releasing memory.
- Pickle.Pickle.Resize: allocation succeeds up to a limit, any number from 64 on; positions are unbounded, as on a host whose `size_t` is wider than 32 bits.
- Pickle.Pickle.Assign: a view of the very buffer this pickle owns, which the source frees or moves before it copies.
- Pickle.WriteTrimmed: what is written up to the end of the untrimmed buffer stays below 2^32, or all memory does; beyond that the source would subtract from a size that was already cut. The same holds for `WriteTrimmedThenRead`.
- Pickle.Pickle.WriteBytes: lengths are not negative.
- Pickle.Pickle.TrimWriteData: the variable buffer still has its length in front and lies within the payload, as the source's comment assumes.
- Pickle.Pickle.IteratorHasRoomFor: positions are numbers, so the guards against pointer wrap-around (here and in `FindNext`) have no counterpart.
- FilePath: drive letters, Windows separators, case folding of other systems, and the operations that insert or replace extensions.
- FilePath.FilePath.Append: the component is relative, as the source asserts.
- The rest of the library: number parsing, UTF conversions, formatting, files, logging, processes and clocks.
