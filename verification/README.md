# Coherence for C++: verified models

Dafny models of the parts of the Coherence C++ client whose correctness is hardest to see from the code, with proofs of what they promise. Objects whose methods change them are classes, loops are loops, and algorithms on arrays work in place; what several threads do at once is a machine whose steps, one for each access to shared memory, are taken in any order.

The sparse array:

- `SparseArrayTree.dfy`, `SparseArray.dfy`: the height-balanced tree behind it. Nodes have mutable `left`, `right`, `parent` and `balance` fields, rotated in place. A ghost `Tree` says which node sits where, `Links` ties it to the heap, and a `Path` is a tree with one subtree cut out: it is what the two fix-up loops climb.
- `SparseArrayCrawler.dfy`: the iterator over that tree, which may remove the node it sits on. `Crawler.Valid()` says that the array is as the crawler left it, so between two calls nobody else changes the array. Without that restriction the exception "the node has already been removed" (AbstractSparseArray.cpp:89-99) can be reached, by removing the crawler's own key from the array directly.

The life cycle of an object that several threads can see:

- `LifeCycleState.dfy`: the member lock and the monitor, which share one atomic word. A thread is where it is in one of the loops, with the value of the word that it saw last; a lock that is held twice is two threads.
- `LifeCycleProgress.dfy`: what threads get by moving alone: the lock, also while others read, the gate, the monitor.
- `LifeCycleRefs.dfy`, `LifeCycleWeak.dfy`: the word with the counts of handles, views and the weak reference. Every reference is a process of its own that attaches, lives and detaches, and knows the weight that it attached with. The first file is about the counts; the second about the weak reference, which is not to keep the object alive. Any reference may copy a handle from a view, as casts do here and there in the client (LocalCache.cpp:327), but not from that of the weak reference.
- `LifeCycleAttach.dfy`, `LifeCycleLeave.dfy`: when an attach succeeds and when it is refused; what follows when a reference leaves, and that it can.
- `LifeCycleRuns.dfy`: runs in which the counting goes wrong, and from where a handle can always be made to come back.
- `Counting.dfy`: counting the threads, or references, that are in a given state.

The queue:

- `ConcurrentQueue.dfy`: one consumer and any number of producers, which may still have the old tail list when the two lists have changed places.
- `QueueAlone.dfy`: one operation of that queue at a time, from every reachable state: moved one after the other they make a sequence.
- `DualQueue.dfy`: the same queue for one thread, as a class that refines a sequence.

Lists and arrays:

- `ObjectArray.dfy`: copying between overlapping ranges.
- `CircularArrayList.dfy`: the list in a ring of slots. `Ring` is the sequence that the slots stand for, and the slots that are not used hold nothing.
- `StableOrder.dfy`, `Arrays.dfy`: what a stable sort is, and the merge sort that swaps its two arrays from level to level.

Octets:

- `Codec.dfy`: the formats of numbers, characters and strings, as functions, and that they can be read back.
- `WriteBuffer.dfy`, `ReadBuffer.dfy`: the growing buffer, and the two writers and two readers (octet by octet, and straight in the array), all proved against those functions.
- `Utf8.dfy`: strings kept as the octets of their characters (section 3 of RFC 3629, and lone surrogate units in the same way).
- `BufferedStreams.dfy`: the buffered streams.
- `Allocator.dfy`: padded blocks of memory and the pool that they return to.

## What does not hold

Eight promises hold only under a condition. For each there is a lemma or method with an input, or a run, for which the promise fails, and one that says for all inputs when it holds:

- A string whose octets are 2^31 or more reads back as NULL, because its length is written with 64 bits and read with 32; and for such a string the two writers write different lengths: `Codec.TextTooLong`, `Codec.TextReadBack`, `Codec.TextCodesAgree`.
- `compareTo` narrows a difference of sizes to 32 bits (String.cpp:1051), so that a string that begins with the other one and its terminating zero, and is longer by 2^31 octets or more, comes before it: `Utf8.NulsBeforeNothing`, `Utf8.CompareTo`.
- `removeNoWait` returns NULL although it has read a counter above zero, when a producer that still has the old tail list adds to it after the consumer has found it empty as its head list (DualQueue.cpp:26-42, 152-157): `ConcurrentQueue.EntryNotSeen`, `ConcurrentQueue.GivesUpExactly`.
- A handle can be attached through a view after the last handle has gone and the object has become immutable, because the count is looked at only before the loop (Object.cpp:752-833). The weak reference does that when it is asked for through a view (Object.cpp:1426-1432): `LifeCycleRuns.HandleRevived`, `LifeCycleRefs.NoRevival`, `LifeCycleRuns.MayRevive`.
- A copy of a handle is refused, although the handle that is copied is there, when that one has come back through a cast of a view while the weak reference has a view: the count of handles is then taken for that of the weak reference (Object.cpp:780-791): `LifeCycleLeave.CopyRefused`, `LifeCycleAttach.CopiesExactly`.
- An object is never destroyed when its last other handle goes while its weak reference is being made, because the flip is decided on only by a handle that detaches after that (Object.cpp:1052-1137, 1393-1463): `LifeCycleRuns.ObjectLeaked`, `LifeCycleWeak.NoLeak`.
- With the number of spins configured as -1, which makes the limit zero (Object.cpp:70-85), a reader that finds the gate open never gets in: `LifeCycleState.NoSpins`, `LifeCycleState.SpinsExactly`.
- The flag "has an embedded NUL" is set for any octet below 16 (String.cpp:314-323), so that a string with a tab is not the same when it is made from octets and when it is made from UTF-16 units: `Utf8.TabTakenForZero`, `Utf8.FlagIsRight`.

## Model

| member | source | states |
|---|---|---|
| SparseArray.AbstractSparseArray.Set | src/coherence/util/AbstractSparseArray.cpp:396-406 | a map update, returning the old value, that keeps links, order, size and stored balances right |
| SparseArray.AbstractSparseArray.Remove | src/coherence/util/AbstractSparseArray.cpp:413-423 | a map deletion, returning the old value, that keeps links, order, size and stored balances right |
| SparseArray.AbstractSparseArray.RemoveNode | src/coherence/util/AbstractSparseArray.cpp:573-638 | the order of the nodes loses exactly the given one, which ends unlinked, whichever of the three splices is taken |
| SparseArray.AbstractSparseArray.BalancedInsertion | src/coherence/util/AbstractSparseArray.cpp:754-830 | the new node stands between those before and after the insertion point, and the walk up ends balanced without reaching the exception |
| SparseArray.AbstractSparseArray.BalancePostRemove | src/coherence/util/AbstractSparseArray.cpp:832-899 | after a subtree has lost one level the walk up ends balanced, with the order unchanged and without reaching the exception |
| SparseArray.AbstractSparseArray.Rotate | src/coherence/util/AbstractSparseArray.cpp:667-680 | a rotation in place relinks exactly the three moved subtrees, below the old parent |
| SparseArray.AbstractSparseArray.DoubleRotateWith | src/coherence/util/AbstractSparseArray.cpp:682-711 | a double rotation with the adjusted balances leaves a balanced tree one level lower than before |
| SparseArray.AbstractSparseArray.FindInsertionPoint | src/coherence/util/AbstractSparseArray.cpp:713-752 | the node with the key, or the only place where a new node keeps the order; at most as many steps as the tree is high |
| SparseArray.AbstractSparseArray.Find | src/coherence/util/AbstractSparseArray.cpp:549-571 | the node with the key if there is one, in at most as many steps as the tree is high |
| SparseArray.AbstractSparseArray.Exists | src/coherence/util/AbstractSparseArray.cpp:408-411 | whether the map has the key |
| SparseArray.AbstractSparseArray.Shallow | src/coherence/util/AbstractSparseArray.cpp:549-571 | the height is logarithmic in the size, so a search of `steps` steps needs at least 2^(steps/2) - 1 keys |
| SparseArray.AbstractSparseArray.SizeCounts | src/coherence/util/AbstractSparseArray.cpp:439-442 | the stored size is the number of keys |
| SparseArrayTree.EnoughNodes | src/coherence/util/AbstractSparseArray.cpp:776-829 | a balanced tree of height h has at least Fib(h + 2) - 1 nodes |
| SparseArrayTree.RotateKeeps | src/coherence/util/AbstractSparseArray.cpp:667-680 | a rotation keeps the nodes and their order |
| SparseArrayCrawler.Crawler.Crawl | src/coherence/util/AbstractSparseArray.cpp:204-295 | from any reachable position, the next node in order, or none exactly when nothing is left |
| SparseArrayCrawler.Crawler.NextNode | src/coherence/util/AbstractSparseArray.cpp:204-295 | the first node still to come, which a peek leaves there and a step moves to the visited ones |
| SparseArrayCrawler.Crawler.Remove | src/coherence/util/AbstractSparseArray.cpp:76-100 | deletes the node last returned, and no other, without changing what is still to come |
| SparseArrayCrawler.IteratorAt | src/coherence/util/AbstractSparseArray.cpp:454-477 | the iterator will visit exactly the keys not below the index |
| SparseArrayCrawler.OrderOfKeys | src/coherence/util/AbstractSparseArray.cpp:204-295 | the order of the nodes lists every key once, in ascending order |
| SparseArrayCrawler.Sweep | src/coherence/util/AbstractSparseArray.cpp:76-160 | a whole run with removals on the way sees every key once, in ascending order, and deletes exactly the chosen ones |
| LifeCycleState.StepInv | src/coherence/lang/Object.cpp:358-494 | every step of any thread, including the monitor's on the same word, keeps: "closed" is exactly one writer and no readers, "closing" exactly one keeper, and the read count the number of readers |
| LifeCycleState.Exclusion | src/coherence/lang/Object.cpp:358-494 | in every run a writer is alone, the word says who is in, the read count stays within its maximum, and no check fails |
| LifeCycleState.Entry | src/coherence/lang/Object.cpp:358-494 | nobody gets in to read unless the gate is open and the count below its maximum, and nobody to write while anybody is in |
| LifeCycleState.NoDeadlock | src/coherence/lang/Object.cpp:358-494 | from every reachable state each thread that wants the lock can still get it: a writer always, a reader unless the number of spins is configured as -1 |
| LifeCycleState.GetsIn | src/coherence/lang/Object.cpp:358-397 | with nobody in its way, who is for a reader only a writer or as many readers as there may be, a thread gets in within three moves of its own, from wherever it is in the loop: the read count is then one more, or the gate closed, and nothing else has changed; a reader unless the number of spins is configured as -1 |
| LifeCycleState.NoSpins | src/coherence/lang/Object.cpp:358-397 | configured as -1, a reader that meets an open gate never gets in, however often it moves |
| LifeCycleState.SpinsExactly | src/coherence/lang/Object.cpp:70-85 | with nobody in its way, some number of its own moves gets a reader in if and only if the configuration is not -1 |
| LifeCycleProgress.Reads | src/coherence/lang/Object.cpp:358-397 | an idle thread reads within four moves of its own, whoever else reads, and the count is one more |
| LifeCycleProgress.TwoReaders | src/coherence/lang/Object.cpp:358-397 | two threads can read at the same time |
| LifeCycleProgress.ReadsExactly | src/coherence/lang/Object.cpp:358-397 | from every reachable state a thread that wants to read gets in by moves of its own if and only if the gate is open, the count below its maximum, and the number of spins not configured as -1 |
| LifeCycleProgress.StaysOut | src/coherence/lang/Object.cpp:358-397 | otherwise it does not get in by any number of its own moves, and changes nothing |
| LifeCycleProgress.Writes | src/coherence/lang/Object.cpp:420-469 | an idle thread writes within four moves of its own, with the gate closed, if nobody is in |
| LifeCycleProgress.ClosesGate | src/coherence/lang/Object.cpp:420-469 | a writer that finds readers in closes the gate within three moves of its own, so that nobody else gets in |
| LifeCycleProgress.NoTrace | src/coherence/lang/Object.cpp:358-494 | getting the lock, to read or to write, and giving it back leaves everything as it was |
| LifeCycleProgress.Yields | src/coherence/lang/Object.cpp:366-394 | a thread with somebody in its way tries exactly as often as it has spins left, and then yields |
| LifeCycleProgress.YieldsAgain | src/coherence/lang/Object.cpp:366-469 | and then tries exactly as often as is configured before it yields again |
| LifeCycleState.Forward | src/coherence/lang/Object.cpp:1334-1391 | the monitor goes from flat through inflating to inflated, never back, and keeps its condition once inflated |
| LifeCycleState.OneCondition | src/coherence/lang/Object.cpp:1334-1391 | at most one condition is ever created, and every thread, at any two times in any run, gets that same one |
| LifeCycleProgress.MonitorAlone | src/coherence/lang/Object.cpp:1334-1391 | a thread that moves alone on an object without a monitor creates the one condition, inflates the monitor and has it, in seven moves |
| LifeCycleProgress.MonitorThere | src/coherence/lang/Object.cpp:1334-1391 | once it is there, one move is enough and changes nothing else |
| LifeCycleProgress.GetsMonitor | src/coherence/lang/Object.cpp:1334-1391 | from every reachable state, every thread on its way to the monitor gets the one condition within nine moves of itself and of the thread that inflates it |
| LifeCycleRefs.StepInv | src/coherence/lang/Object.cpp:752-833 | every attach and detach, won or lost, keeps the counts equal to the weights of the live references, and their sources alive |
| LifeCycleRefs.CountsExact | src/coherence/lang/Object.cpp:917-990 | in every run each count is the sum of the weights of the live references, unless it is at its maximum |
| LifeCycleRefs.DestroyedOnce | src/coherence/lang/Object.cpp:1193-1253 | in every run the object is destroyed at most once, only with nothing attached or attaching, and never when a count is at its maximum |
| LifeCycleRefs.AliveWhileConst | src/coherence/lang/Object.cpp:1052-1137 | while the last handle makes the object immutable it has not been destroyed, and nobody is about to |
| LifeCycleRefs.ConstExactly | src/coherence/lang/Object.cpp:1099-1114 | an object is to become immutable by exactly those steps that take the last handle and leave a view, and then does so once |
| LifeCycleRefs.ImmortalStays | src/coherence/lang/Object.cpp:1052-1137 | a count at its maximum stays there in every run, and the object is not destroyed |
| LifeCycleRefs.CaptureExact | src/coherence/lang/Object.cpp:917-990 | an object is captured only by an attach that leaves exactly two references of weight one: the new one and its source |
| LifeCycleRefs.CapturedExactly | src/coherence/lang/Object.cpp:917-990 | an object becomes captured by exactly those attaches that leave a weight of two, without views if a handle was attached |
| LifeCycleRefs.NoUnderflow | src/coherence/lang/Object.cpp:1052-1253 | no count is ever smaller than what a detach takes from it: a detach fails only if the view that is to keep the object alive is refused |
| LifeCycleRefs.Revival | src/coherence/lang/Object.cpp:752-833 | a handle comes back after all have gone at the last step of an attach that looked before, and the attach is then through a view |
| LifeCycleRefs.NoRevival | src/coherence/lang/Object.cpp:752-833 | in every run in which only the allowed references copy handles from views, nobody else revives one; with none allowed, zero handles stay zero |
| LifeCycleRuns.MayRevive | src/coherence/lang/Object.cpp:752-833 | the other way round: from every reachable state in which a handle is being attached through a view, having looked, the handles that there are may leave, and two more views can be made to let them, some moves revive it |
| LifeCycleRuns.HandleRevived | src/coherence/lang/Object.cpp:1393-1463 | a run in which the weak reference is asked for through a view and gets a handle after the object has become immutable |
| LifeCycleWeak.OnlyOwnRevived | src/coherence/lang/Object.cpp:1426-1432 | if only the weak reference copies its handle from a view, no other handle ever comes back |
| LifeCycleWeak.NoFailure | src/coherence/lang/Object.cpp:1052-1253 | in every run in which no handle comes back but that of the weak reference, no detach fails, and no view is refused that is to keep the object alive |
| LifeCycleWeak.NoLeak | src/coherence/lang/Object.cpp:1393-1463 | in such a run, when only the weak reference is left, the object has been destroyed if and only if the handles were not exactly its own when it was published |
| LifeCycleRuns.ObjectLeaked | src/coherence/lang/Object.cpp:1393-1463 | a run in which only the weak reference is left and the object is never destroyed |
| LifeCycleWeak.OnlyWeakLeft | src/coherence/lang/Object.cpp:776-799 | once one reference of the weak reference's weight is left, no attach succeeds but that of a handle through it as a view |
| LifeCycleWeak.NothingAttaches | src/coherence/lang/Object.cpp:776-799 | in every run, once that one is of the weak reference itself, no attach succeeds at all |
| LifeCycleWeak.HandleThroughView | src/coherence/lang/Object.cpp:752-833 | if it is another view, an attach of a handle through it that has looked before, and has not yet seen this, does succeed by itself |
| LifeCycleAttach.RefusedOnly | src/coherence/lang/Object.cpp:776-799 | unless another handle has come back: an attach that has begun is refused only if it copies the weak reference or casts a view, and nobody but the weak reference holds the object, by a handle if that is what is wanted |
| LifeCycleAttach.AttachEnds | src/coherence/lang/Object.cpp:752-833 | an attach that moves alone ends within two moves, with the counts raised by its weight and nothing else changed, or refused as above |
| LifeCycleAttach.Copies | src/coherence/lang/Object.cpp:752-833 | a copy of any reference but the weak one is there within five moves of its own, from every such state |
| LifeCycleAttach.CopiesWeak | src/coherence/lang/Object.cpp:917-990 | a copy of the weak reference is there, or nobody else holds the object; of handles it is exactly one of the two |
| LifeCycleAttach.CopiesExactly | src/coherence/lang/Object.cpp:752-833 | from every reachable state, whatever has come back: a copy that moves alone is refused if and only if the weight of the weak reference is all that there is, and else is there |
| LifeCycleLeave.CopyRefused | src/coherence/lang/Object.cpp:776-799 | a run in which a copy of an ordinary handle is refused, because that handle had come back through a cast |
| LifeCycleLeave.Leaves | src/coherence/lang/Object.cpp:1052-1137 | a reference that nobody needs leaves within four moves of its own: its count is lowered by its weight, and the last one destroys the object, the last handle makes it immutable, the last but the weak reference flips or clears that |
| LifeCycleLeave.DetachAlone | src/coherence/lang/Object.cpp:1052-1137 | so does one that has begun to, whatever it has seen, within three moves |
| LifeCycleLeave.LeavesWithView | src/coherence/lang/Object.cpp:1052-1137 | the last handles leave with the help of a view that is there afterwards |
| LifeCycleLeave.LeavesImmortal | src/coherence/lang/Object.cpp:1052-1137 | one whose count is at the maximum just goes |
| LifeCycleLeave.WeakComes | src/coherence/lang/Object.cpp:1393-1463 | whoever asks for the weak reference gets it within eight moves, with a handle if there is one and else with a view; it is missed exactly if it is the only handle then |
| LifeCycleLeave.ObjectDestroyed | src/coherence/lang/Object.cpp:1193-1253 | a run in which the weak reference comes, flips to a view when the last other handle goes, and is cleared when all others have gone: the object is destroyed once |
| ConcurrentQueue.NothingLost | src/coherence/util/DualQueue.cpp:71-108 | in every run what has been added is in a list, is held by the consumer, or is what removals have returned, each as often as it was added; the counter is never negative and no check fails |
| ConcurrentQueue.NoEntryExactly | src/coherence/util/DualQueue.cpp:141-175 | a removal gives up exactly when it reads a zero counter, or when the head list that it has found empty is not empty any more |
| ConcurrentQueue.OnlyStaleProducersRefill | src/coherence/util/DualQueue.cpp:71-87 | while the consumer has the head lock its list grows only by a producer that took it for the tail list |
| ConcurrentQueue.RemovalSucceeds | src/coherence/util/DualQueue.cpp:141-175 | in every run from where the head list has an element, or is empty and no producer holds it, the consumer comes back with an element or is still on its way to it |
| ConcurrentQueue.GivesUpExactly | src/coherence/util/DualQueue.cpp:141-175 | a consumer that has found the head list empty gives up in some run if and only if some producer holds that list |
| ConcurrentQueue.EntryNotSeen | src/coherence/util/DualQueue.cpp:141-175 | a run in which a removal finds no entry although the counter is one and both lists have an element |
| QueueAlone.TakesFirst | src/coherence/util/DualQueue.cpp:163-174 | the element that the consumer takes is the first of the head list, and nothing else goes |
| QueueAlone.ComesBack | src/coherence/util/DualQueue.cpp:163-174 | it returns the element that it holds |
| QueueAlone.RemoveAlone | src/coherence/util/DualQueue.cpp:141-175 | from every reachable state with an element counted: a removal that moves alone returns the first element of the sequence, head list before tail list, within ten moves, and changes nothing else, whether the lists change places or not |
| QueueAlone.AddAlone | src/coherence/util/DualQueue.cpp:71-87 | an addition that moves alone puts its element behind all others within nine moves, and announces it as batches of any size want |
| QueueAlone.AddHeadAlone | src/coherence/util/DualQueue.cpp:89-108 | one at the head puts it before all others |
| QueueAlone.FlushAlone | src/coherence/util/AbstractConcurrentQueue.cpp:132-145 | a flush wakes a waiting consumer exactly if one was pending, and leaves it recorded |
| QueueAlone.SwapsAnyway | src/coherence/util/AbstractConcurrentQueue.cpp:157-171 | whoever exchanges the flush state and finds another one than it saw does so all the same at the next try |
| QueueAlone.SetsAnyway | src/coherence/util/AbstractConcurrentQueue.cpp:91-130 | so does one that only sets it |
| QueueAlone.WaitAlone | src/coherence/util/AbstractConcurrentQueue.cpp:60-79 | with nothing counted the consumer comes to wait within five moves if it may, and else comes back with nothing |
| ConcurrentQueue.StepWake | src/coherence/util/AbstractConcurrentQueue.cpp:91-178 | with batches of one, every step keeps: if the consumer sleeps and the counter is positive, some producer is on its way to wake it |
| ConcurrentQueue.WakesUp | src/coherence/util/AbstractConcurrentQueue.cpp:130-178 | that producer alone, by at most eight moves, makes a waiting consumer go on |
| ConcurrentQueue.NoLostWakeup | src/coherence/util/AbstractConcurrentQueue.cpp:60-178 | in every run, a consumer that waits although there is an element can be woken by producers that just go on |
| DualQueue.DualQueue.Add | src/coherence/util/DualQueue.cpp:71-87 | appends to the sequence, and notifies and leaves a flush pending exactly as the batches want; NULL is refused and changes nothing |
| DualQueue.DualQueue.AddHead | src/coherence/util/DualQueue.cpp:89-108 | puts the element before all others, with the same of batches and NULL |
| DualQueue.DualQueue.SwapNoWait | src/coherence/util/DualQueue.cpp:26-42 | changes no contents, and happens exactly when the head list alone is empty |
| DualQueue.DualQueue.PeekNoWait | src/coherence/util/DualQueue.cpp:115-139 | the first element of the sequence, which stays as it is, or none exactly when it is empty |
| DualQueue.DualQueue.RemoveNoWait | src/coherence/util/DualQueue.cpp:141-175 | takes the first element of the sequence whenever there is one |
| DualQueue.DualQueue.OnAddElement | src/coherence/util/AbstractConcurrentQueue.cpp:91-150 | for batches of any size: notifies exactly when a batch is complete while a flush is pending, or for a first element that is a batch, and leaves the flush pending exactly when the batch is not complete |
| DualQueue.Drain | src/coherence/util/DualQueue.cpp:71-175 | draining gives back what was in the queue and what was added, in that order |
| ObjectArray.Copy | src/coherence/lang/Array.cpp:717-772 | also for overlapping ranges, as if all elements moved at once; out of bounds nothing changes |
| CircularArrayList.CircularArrayList.EnsureCapacity | src/coherence/util/CircularArrayList.cpp:350-366 | enough slots, by at least a half more if there are any more, the same sequence; says whether it has grown |
| CircularArrayList.CircularArrayList.TrimToSize | src/coherence/util/CircularArrayList.cpp:336-348 | one free slot, the same sequence |
| CircularArrayList.CircularArrayList.Insert | src/coherence/util/CircularArrayList.cpp:371-422 | an insertion into the sequence at the index, whichever way the slots are shifted, or the error |
| CircularArrayList.CircularArrayList.InsertAll | src/coherence/util/CircularArrayList.cpp:424-506 | an insertion of many, in all four cases of shifting |
| CircularArrayList.CircularArrayList.Add | src/coherence/util/CircularArrayList.cpp:679-692 | appends |
| CircularArrayList.CircularArrayList.AddAll | src/coherence/util/CircularArrayList.cpp:694-721 | appends many |
| CircularArrayList.CircularArrayList.Remove | src/coherence/util/CircularArrayList.cpp:557-599 | takes the element at the index out of the sequence and leaves its slot clean, or the error |
| CircularArrayList.CircularArrayList.RetainAll | src/coherence/util/CircularArrayList.cpp:747-771 | exactly the elements to be kept, in their order; says whether anything changed |
| CircularArrayList.CircularArrayList.Clear | src/coherence/util/CircularArrayList.cpp:773-793 | the empty sequence, in the same slots, all of them clean |
| CircularArrayList.CircularArrayList.Get | src/coherence/util/CircularArrayList.cpp:508-511 | the element at the index, or the error |
| CircularArrayList.CircularArrayList.Set | src/coherence/util/CircularArrayList.cpp:601-609 | replaces the element at the index and returns the old one, or the error |
| CircularArrayList.CircularArrayList.ToArray | src/coherence/util/CircularArrayList.cpp:646-677 | the sequence, in the given array if it fits, with nothing after it and the rest untouched |
| CircularArrayList.ShiftHead | src/coherence/util/CircularArrayList.cpp:371-506 | moving the elements before the index to the left opens the ring there |
| CircularArrayList.ShiftTail | src/coherence/util/CircularArrayList.cpp:371-506 | so does moving those from the index on to the right |
| CircularArrayList.ShiftBoth | src/coherence/util/CircularArrayList.cpp:424-506 | so does moving both, when neither side has enough free slots |
| CircularArrayList.CloseHead | src/coherence/util/CircularArrayList.cpp:557-599 | moving the elements before the index to the right closes the ring over it |
| CircularArrayList.CloseTail | src/coherence/util/CircularArrayList.cpp:557-599 | so does moving those after it to the left |
| CircularArrayList.InsertedRing | src/coherence/util/CircularArrayList.cpp:424-506 | an opened ring with the new elements filled in is the sequence with them inserted |
| CircularArrayList.ClosedRing | src/coherence/util/CircularArrayList.cpp:557-599 | a closed ring is the sequence without the element |
| StableOrder.StableUnique | src/coherence/util/Arrays.cpp:61-183 | for a total preorder there is only one stably sorted form of a sequence |
| StableOrder.StablePermutes | src/coherence/util/Arrays.cpp:61-183 | a stably sorted form has the same elements, each as often |
| Arrays.MergeSort | src/coherence/util/Arrays.cpp:132-183 | given two arrays that agree on the range, it is sorted stably in one of them, and nothing outside it changes in either |
| Arrays.Merge | src/coherence/util/Arrays.cpp:170-182 | two ordered parts merge into the stably sorted form of both |
| Arrays.InsertionSort | src/coherence/util/Arrays.cpp:139-148 | the short range is sorted stably, by swapping neighbours |
| Arrays.Insert | src/coherence/util/Arrays.cpp:141-146 | one round sifts an element into the ordered part before it, behind those that are equal |
| Arrays.Sort | src/coherence/util/Arrays.cpp:204-217 | the array becomes its stably sorted form, a permutation, for every total preorder |
| Codec.IntRoundTrip | src/coherence/io/AbstractReadBuffer.cpp:319-383 | what any width wrote is read by any width that it fits, whatever follows, and only its own octets are consumed |
| Codec.CodeUnique | src/coherence/io/AbstractWriteBuffer.cpp:242-357 | no code is the beginning of the code of another number |
| Codec.CodeFits | src/coherence/io/OctetArrayWriteBuffer.cpp:212-336 | a number needs no more than the 3, 5 or 10 octets that are reserved for its width |
| Codec.CodeLayout | src/coherence/io/AbstractWriteBuffer.cpp:242-357 | where each bit of a number is, by division: six and the sign in the first octet, seven in each other one, low ones first, and which octets are marked as not the last |
| Codec.CodeExamples | src/coherence/io/AbstractWriteBuffer.cpp:242-357 | the octets of 0, 63, 64, 8192, -1, -64 and -65 |
| Codec.CharRoundTrip | src/coherence/io/AbstractReadBuffer.cpp:257-301 | every UTF-16 unit, lone surrogates too, is read back from its one, two or three octets |
| Codec.CharOrder | src/coherence/io/AbstractWriteBuffer.cpp:190-214 | the lexicographic order of the octets is the order of the characters |
| Codec.CharExamples | src/coherence/io/AbstractWriteBuffer.cpp:190-214 | the octets of a character of each length, and of a lone surrogate |
| Codec.ReadCharExactly | src/coherence/io/AbstractReadBuffer.cpp:257-301 | what is read from any octets at all, those that are cut off or malformed included |
| Codec.TextRoundTrip | src/coherence/io/AbstractReadBuffer.cpp:303-317 | a string of less than 2^31 octets, and NULL, are read back |
| Codec.TextTooLong | src/coherence/io/AbstractReadBuffer.cpp:303-317 | a longer one is read as NULL, without its octets |
| Codec.TextReadBack | src/coherence/io/AbstractReadBuffer.cpp:303-317 | a string is read back if and only if it has less than 2^31 octets |
| Codec.TextCodesAgree | src/coherence/io/AbstractWriteBuffer.cpp:216-240 | the writer that takes the length for 32 bits writes the same octets as the other one if and only if there are less than 2^31 |
| Codec.ListRoundTrip | src/coherence/io/OctetArrayWriteBuffer.cpp:149-336 | any list of values is read back, and exactly its octets are consumed |
| WriteBuffer.OctetArrayBufferOutput.WriteNumber | src/coherence/io/OctetArrayWriteBuffer.cpp:212-336 | the raw stores put the code at the offset, inside the array, and leave the rest; it fails exactly when the reserved octets do not fit |
| WriteBuffer.OctetArrayBufferOutput.WriteChar | src/coherence/io/OctetArrayWriteBuffer.cpp:149-185 | the same for a character |
| WriteBuffer.OctetArrayBufferOutput.WriteText | src/coherence/io/OctetArrayWriteBuffer.cpp:187-210 | the same for a string; if only its octets do not fit the length has been written |
| WriteBuffer.AbstractBufferOutput.WriteNumber | src/coherence/io/AbstractWriteBuffer.cpp:242-357 | the same octets by way of the scratch array; it fails exactly when the code itself does not fit |
| WriteBuffer.AbstractBufferOutput.WriteChar | src/coherence/io/AbstractWriteBuffer.cpp:190-214 | the same octets for a character |
| WriteBuffer.AbstractBufferOutput.WriteText | src/coherence/io/AbstractWriteBuffer.cpp:216-240 | the length with 32 bits, then octet by octet as many as there is room for; it fails exactly when not all fit |
| WriteBuffer.OctetArrayWriteBuffer.Grow | src/coherence/io/OctetArrayWriteBuffer.cpp:421-439 | enough room, a kilobyte more and at least half as much again unless the maximum comes before that, and the contents are still there |
| WriteBuffer.OctetArrayWriteBuffer.CheckBounds | src/coherence/io/OctetArrayWriteBuffer.cpp:406-419 | room for the octets exactly unless the maximum is exceeded, and the contents are still there |
| WriteBuffer.OctetArrayWriteBuffer.Write | src/coherence/io/OctetArrayWriteBuffer.cpp:99-105 | the octets of the given part of the source are at the offset, and everything else is as before |
| WriteBuffer.WriteAll | src/coherence/io/OctetArrayWriteBuffer.cpp:149-336 | a list of values becomes the concatenation of their codes, through any number of growths, if and only if each finds the room that is reserved for it |
| ReadBuffer.AbstractBufferInput.ReadNumber | src/coherence/io/AbstractReadBuffer.cpp:319-383 | for codes no longer than the width allows, cut off ones included: the value and the next offset of the format |
| ReadBuffer.AbstractBufferInput.ReadCharacter | src/coherence/io/AbstractReadBuffer.cpp:257-301 | the character and the next offset of the format, malformed ones included |
| ReadBuffer.AbstractBufferInput.ReadString | src/coherence/io/AbstractReadBuffer.cpp:303-317 | the octets of the string; a length that is too large is the end of the stream |
| ReadBuffer.OctetArrayBufferInput.ReadNumber | src/coherence/io/AbstractOctetArrayReadBuffer.cpp:254-381 | for the same codes the same value and offset as the other reader, straight from the array |
| ReadBuffer.OctetArrayBufferInput.ReadCharacter | src/coherence/io/AbstractOctetArrayReadBuffer.cpp:193-252 | a complete character is the one of the other reader; of one that is cut off the rest is taken from the array behind the buffer |
| ReadBuffer.OctetArrayBufferInput.ReadString | src/coherence/io/AbstractReadBuffer.cpp:303-317 | the same string as the other reader, with the length straight from the array |
| ReadBuffer.WriteThenRead | src/coherence/io/OctetArrayWriteBuffer.cpp:149-336 | a list of values is written if and only if each finds the room reserved for it; either input then reads it back, and exactly the octets written are consumed |
| Utf8.Next | src/coherence/lang/String.cpp:51-92 | the character of the format, and the place after it |
| Utf8.Prev | src/coherence/lang/String.cpp:138-172 | undoes that: the character before a place, and where it begins |
| Utf8.Skip | src/coherence/lang/String.cpp:105-125 | the place of the character that is `n` further |
| Utf8.Back | src/coherence/lang/String.cpp:188-200 | undoes that: the place of the character that is `n` before |
| Utf8.SameFirst | src/coherence/lang/String.cpp:814-947 | octets determine characters: the same octets begin with the same characters |
| Utf8.MatchIs | src/coherence/lang/String.cpp:814-839 | comparing octets where a character begins is comparing characters |
| Utf8.SameOctets | src/coherence/lang/String.cpp:829-836 | comparing up to the first difference stays inside the string, even when more octets are asked for than are left |
| Utf8.String.IndexOf | src/coherence/lang/String.cpp:814-839 | the first index, from the given one on, where the characters match, or that there is none |
| Utf8.String.IndexOfChar | src/coherence/lang/String.cpp:841-861 | the first index of the character, or that there is none |
| Utf8.String.LastIndexOf | src/coherence/lang/String.cpp:863-896 | the last index, up to the given one, where the characters match, or that there is none |
| Utf8.String.LastIndexOfChar | src/coherence/lang/String.cpp:898-919 | the last index of the character, or that there is none |
| Utf8.String.Substring | src/coherence/lang/String.cpp:921-947 | the octets of the slice of the characters, or the error exactly when the indexes are out of range |
| Utf8.CompareTo | src/coherence/lang/String.cpp:1026-1052 | the sign is that of the lexicographic order of the units, embedded zeros included, if and only if the sizes are not too far apart |
| Utf8.NulsBeforeNothing | src/coherence/lang/String.cpp:1050-1051 | 2^31 zeros or more come before the empty string |
| Utf8.ValidateUtf16 | src/coherence/lang/String.cpp:348-405 | accepts exactly the units that are not surrogates, counts the octets that they need, and tells whether one is zero |
| Utf8.Utf16ToUtf8 | src/coherence/lang/String.cpp:486-529 | writes exactly the octets that were counted, and what ends them |
| Utf8.ValidateUtf8 | src/coherence/lang/String.cpp:215-333 | accepts exactly what consists of whole characters of up to four octets, and counts them; of an encoded string that is its number of characters; its flag tells whether an octet is below 16 |
| Utf8.SmallOctets | src/coherence/lang/String.cpp:303-323 | an encoded string has an octet below 16 exactly if it has such a character |
| Utf8.FlagIsRight | src/coherence/lang/String.cpp:303-323 | the flag is right exactly if there is a zero, or no character is below 16 |
| Utf8.TabTakenForZero | src/coherence/lang/String.cpp:303-323 | for a tab it is set, while that of the UTF-16 form is not |
| BufferedStreams.BufferedOutputStream.Write | src/coherence/io/BufferedOutputStream.cpp:32-73 | in all four cases, what has gone out and what is buffered is everything written, in order, and the buffer is filled before it goes out |
| BufferedStreams.BufferedOutputStream.WriteOctet | src/coherence/io/BufferedOutputStream.cpp:22-30 | the same for one octet |
| BufferedStreams.BufferedOutputStream.FlushBuffer | src/coherence/io/BufferedOutputStream.cpp:87-94 | everything written has gone out |
| BufferedStreams.BufferedInputStream.ReadInternal | src/coherence/io/BufferedInputStream.cpp:88-144 | what was handed out is in the given slots, in order, and with what is buffered it is all that was taken from the source; the buffer is empty if less than wanted was handed out, nothing is only if the source gave nothing, and the source is left alone if enough was buffered |
| BufferedStreams.BufferedInputStream.Read | src/coherence/io/BufferedInputStream.cpp:60-86 | the same over all rounds, until everything wanted is there or the source gives nothing; nothing outside the given slots changes |
| BufferedStreams.BufferedInputStream.ReadOctet | src/coherence/io/BufferedInputStream.cpp:49-58 | the next octet; the end only when everything has been delivered |
| BufferedStreams.BufferedInputStream.FillBuffer | src/coherence/io/BufferedInputStream.cpp:18-47 | takes from the source only when the buffer is empty, asks it for as much as the buffer holds, and loses nothing |
| BufferedStreams.ReadsMore | src/coherence/io/BufferedInputStream.cpp:60-144 | two deliveries one after the other are one |
| Allocator.PadsAligned | src/coherence/lang/Allocator.cpp:126-216 | for words of four and of eight octets: the data is aligned to eight, there is padding before it if there is any padding or pool, and together with that after it what is configured |
| Allocator.SizeRoundTrip | src/coherence/lang/Allocator.cpp:511-685 | the encoded size is read back |
| Allocator.Pool.Allocate | src/coherence/lang/Allocator.cpp:299-340 | the block that was released last, which the pool then no longer holds; when it is empty, a new one every so many misses; exactly one of hits and misses is raised |
| Allocator.Pool.Release | src/coherence/lang/Allocator.cpp:349-368 | the pool holds the block as well, as the next one to be given out, exactly if there is a free slot |
| Allocator.Allocator.Allocate | src/coherence/lang/Allocator.cpp:511-599 | a block that was not in use, zeroed, with intact padding; from the pool if and only if it fits a slot and the pool has one; as long as was asked for, or as a slot allows |
| Allocator.Allocator.Release | src/coherence/lang/Allocator.cpp:601-685 | refused, with everything as it was, exactly if the sum of the padding before the data or the pattern after it is wrong; in the pool exactly if it is padded, has the size of a slot and the pool has room; erased exactly if there is padding after it |
| Allocator.Reuse | src/coherence/lang/Allocator.cpp:511-685 | a block that is released into the pool is the next one to be given out, and the pool is then as before |
| Allocator.IntactIsChecked | src/coherence/lang/Allocator.cpp:601-685 | release accepts every block whose padding was left alone |
| Allocator.OverwriteNoticed | src/coherence/lang/Allocator.cpp:601-685 | whichever octet of the padding has been changed is noticed |
| Allocator.ZeroNoticed | src/coherence/lang/Allocator.cpp:601-685 | a zero written behind the data is noticed if and only if the pattern has no zero there |
| Allocator.DataIsFree | src/coherence/lang/Allocator.cpp:511-685 | and writing to the data leaves it alone |

## Left out

- `AbstractSparseArray::clear`, `clone`, `getFirstIndex` and `getLastIndex`: easy beside the rest.
- The handles and views of an object that only one thread sees (`_attachCaptured`, `_detachCaptured`), the attachments that change their weight in `onEscape`, and spreading that to members: a captured object takes no more steps here.
- LifeCycleWeak.NoFailure: says nothing of runs in which a handle comes back through a cast of a view outside of Object.cpp.
- LifeCycleWeak.NoLeak: says nothing of them either.
- LifeCycleAttach.Copies: nor do this and the other lemmas on states that are `Good`; what is then left of it is LifeCycleAttach.CopiesExactly.
- The handle on the stack through which the weak reference gets its own (Object.cpp:1429-1432) is one with it.
- The flip of a weak reference is one attachment of a view, after which the first attachment may go; the second, temporary one (WeakReferenceImpl.cpp:73-83) is not modelled.
- Exceptions thrown while a lock is held, and weaker memory orders than one step at a time.
- Liveness is "can still", not "will": no fairness of the threads is assumed. The theorems on wakeups are for batches of one, on the queue they are for one consumer, and a peek does not race with it.
- No order of elements across producers is claimed for the concurrent queue, and `size`, `getStats...` and the time limit of a wait are not modelled.
- `CircularArrayList::removeRange`, `removeAll`, `indexOf`, sublists, iterators and the count of modifications; collections that give fewer elements than their size.
- `Array::copy` with `npos` as a count, and `Arrays::binarySearch`.
- Floating point numbers, and turning the octets that were read into a string object. Bit operations on octets are written as division and remainder.
- ReadBuffer.AbstractBufferInput.ReadNumber: promises nothing for codes with more octets than their width needs, because the code then shifts by more bits than the number has, which C++ leaves undefined; so do ReadString and the readers of values.
- ReadBuffer.OctetArrayBufferInput.ReadNumber: promises nothing for them either.
- ReadBuffer.OctetArrayBufferInput.ReadCharacter: requires that a character which has begun does not go past the end of the array, because the code does not check that.
- Utf8.SameOctets: compares no further than the first difference. The code asks `memcmp` for as many octets as the string that is searched for has (String.cpp:832, 884), which may be more than are left in the array, for example for three characters of three octets each in a string of three letters.
- `String::trim`, `startsWith`, `endsWith`, `regionMatches`, `equals`, hash codes, and input that ends at a zero instead of a given length.
- Utf8.Next: requires a complete character, which every string has.
- Allocator.Allocator.Release: requires that the encoded size has not been written to unless the sum shows it; with a wrong size the code may look anywhere. Allocator.Allocator.Allocate never runs out of memory here.
- The blocks of the allocator are those of machines with words of eight octets; words of four are covered by the sizes of the padding only.
- The pools of several threads, logging, and `npos` counts and exceptions thrown by the source or the sink of a stream.
- Sums of sizes do not wrap around; where the code checks for it, as the allocator does, so does the model.
