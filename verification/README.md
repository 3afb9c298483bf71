# Verified models of libuv's core structures and of a relay

This project models the hard algorithms behind an event-loop networking program and proves what they promise:
the work queue of libuv's thread pool, the intrusive queue, red-black tree, splay tree and binary heap it is built
on, conversion between IP addresses and text, file polling, a store-and-forward relay between two connections, and the
splitting of an escaped subject name. `dafny verify dfyconfig.toml` checks all of it.

| file | what it models |
|---|---|
| `Basics.dfy` | options, octets and powers of two, shared by the others |
| `ThreadPool.dfy` | workers, loop threads, clean-up, two kinds of mutex and a condition variable as a step system |
| `ThreadPoolInvariant.dfy` | what every step keeps |
| `ThreadPoolTheorems.dfy` | what holds over whole runs: places, delivery, cancelling, wakeups, shutdown, no deadlock, coming to rest |
| `ThreadPoolOrder.dfy` | in which order workers take items and loops deliver them |
| `Queue.dfy` | the circular list macros on cells with two pointers |
| `RedBlackShapes.dfy`, `RedBlackTree.dfy` | tree shapes and contexts; the tree macros on nodes with parent pointers |
| `SplayShapes.dfy`, `SplayTree.dfy` | splayed shapes with their two side trees; the tree macros on nodes |
| `SplayCost.dfy` | the amortised cost of splaying |
| `BinaryHeap.dfy` | the heap of linked nodes whose positions are read off the element count |
| `InetText.dfy`, `Inet.dfy` | the grammar of address texts and the parsers; printing and parsing in buffers |
| `InetLaws.dfy` | digits, printed texts and accepted texts in closed form |
| `FsPoll.dfy` | the life of a polling context and what its user is told |
| `RtsBuf.dfy`, `Relay.dfy` | the growing buffer; the relay's cursors and writes |
| `NameSplit.dfy` | splitting `/type=value` subjects into arrays |

## How the program is modelled

- Objects that the program updates are classes (tree and heap nodes, queue cells, poll contexts, streams, buffers), and
  the code that updates them is a method with the program's own loops and assignments. Ghost fields hold the abstract
  value: a tree `shape`, a heap's sequence of nodes in level order, a list's sequence of cells. Each method's contract
  gives the new abstract value.
- A splay tree also counts the rounds of its splaying loops, the operations so far and the largest size it has had, in
  ghost fields; its potential is the product of the sizes of all subtrees, so that the cost needs no logarithms.
- In the trees a position is a subtree and a `Path`, the context around it. `Zip` ties both to the pointers, so a
  rotation or a recolouring is a fact about shapes and a small set of pointer writes.
- The thread pool is a step system. A step is what one thread does from one lock operation to the next, so that any
  interleaving of any number of workers and loops is a sequence of steps: `worker` (lines 64-104 of threadpool.c) is
  `WorkerApply`; `post`, `uv__work_submit`, `uv__work_cancel` and `uv__work_done` (lines 107-113, 180-189, 192-215,
  218-243) are `LoopApply`; `cleanup` (lines 117-138) is `CleanupApply`. A signal wakes some sleeping worker, any one;
  a worker may also wake without a signal. An item's `work` and whether its `wq` links to itself are the program's
  fields, and only they are consulted by the cancel test; `at`, `late`, `starts`, `finishes` and `cancelOk` record
  history.
- A C string is the sequence of its characters before the terminator; bit operations on octets are written as
  arithmetic.

## Assumptions

- Keys are integers and comparison is subtraction: any total order on the finitely many elements of a tree, and any
  strict weak order on those of a heap, is the order of some integers.
- An element to be inserted is in no structure, and one to be removed by pointer is in this one.
- Memory can be had, and system calls that the program aborts on succeed.
- Counters stay below the limits of their types. Where one could grow faster than what it counts, the bound is proved:
  the heap's `path` stays below its target (`PathTo`).
- `uv_cancel` is called on the thread of the item's loop and before the item's `done`.
- In the relay no connection closes or fails. That a read does not reallocate the buffer during a write is not assumed
  of `Receive`: it is the exact condition under which the flow is kept, and a precondition of the read callbacks.

## Findings

- heap-inl.h, lines 189-191: the branch that clears `min` when the last node is removed cannot be taken, as unlinking
  that node through its slot has cleared `min` already.
- inet.c, line 135: the test for a run of seven zero words cannot pass, since word 6 lies inside such a run and is
  skipped before.
- proxy.c: a read that makes the buffer reallocate while a write is under way leaves the write pointing at freed memory;
  the buffer size of line 18 makes this rarer but does not exclude it. `Relay.Receive` gives the exact condition, and
  `Relay.Overrun` runs into it: 5000 bytes, the connection, and 5000 more.
- apps.c: `parse_name` accepts a separator at the end of the subject, and accepts an empty last value only in front of
  one, although an empty value in any other place is accepted. `NameSplit.UnclosedExact` says exactly when a subject
  without that last separator is read back, and `NameSplit.EmptyValue` shows "/a=" rejected and "/a=/" accepted.
- tree.h: `SPLAY_REMOVE` returns its argument, not the element taken out, when the two differ but have equal keys: they
  are the same if and only if the argument is in the tree (`SplayTree.Splay.Remove`).

## Model

| member | source | states |
|---|---|---|
| ThreadPoolInvariant.InitInv | third/libuv/src/threadpool.c:141-177 | A freshly initialised pool satisfies the invariant. |
| ThreadPoolInvariant.WorkerKeeps | third/libuv/src/threadpool.c:64-104 | Every step of a worker, in any state that satisfies it, keeps the whole invariant. |
| ThreadPoolInvariant.LoopKeeps | third/libuv/src/threadpool.c:180-243 | So does every step of a loop thread that submits, cancels or delivers. |
| ThreadPoolInvariant.CleanupKeeps | third/libuv/src/threadpool.c:117-138 | So does every step of the clean-up. |
| ThreadPoolInvariant.StepKeeps | third/libuv/src/threadpool.c:64-243 | The invariant is inductive: queues without duplicates, mutex owners where their code says, sleepers outnumbered by workers on the way when work is queued, item fields as their place demands. |
| ThreadPoolInvariant.PostWakes | third/libuv/src/threadpool.c:107-113 | Signalling only when idle_threads is positive is enough: afterwards, if anyone sleeps, every queued entry has a worker on the way to it. |
| ThreadPoolInvariant.TestedPlace | third/libuv/src/threadpool.c:198-200 | Where an item is when the cancel test passes: in the global queue, or cancelled before and on its loop. |
| ThreadPoolTheorems.RunInv | third/libuv/src/threadpool.c:64-243 | The invariant holds in every state of every run, for any interleaving. |
| ThreadPoolTheorems.OnePlace | third/libuv/src/threadpool.c:64-243 | A submitted item is in exactly one container, once: in a post, the global queue, one worker's hands, a cancel, its loop's queue, the local batch, or among the delivered. |
| ThreadPoolTheorems.DoneOnce | third/libuv/src/threadpool.c:233-242 | done runs at most once an item; with status 0 only if work ran exactly once to its end, with UV_ECANCELED only if it never started. In which order they run is said by ThreadPoolOrder. |
| ThreadPoolTheorems.CancelIsExact | third/libuv/src/threadpool.c:192-215 | The test on the two fields passes if and only if the item is still queued or was cancelled before, and fails if and only if a worker has it or it has run. |
| ThreadPoolTheorems.CancelIsFinal | third/libuv/src/threadpool.c:192-215 | After a cancel that succeeds no worker ever holds the item in any later state of the run, and it never starts. |
| ThreadPoolTheorems.NoAbort | third/libuv/src/threadpool.c:56-58 | The abort in uv__cancelled is unreachable: a worker about to call an item's function finds the caller's. |
| ThreadPoolTheorems.OneMutex | third/libuv/src/threadpool.c:61-63 | A worker never holds the global and a loop mutex together, and a waiting loop thread holds at most the global one. |
| ThreadPoolTheorems.NoLostWakeup | third/libuv/src/threadpool.c:71-84 | With work queued and a worker left, some worker is awake or has been signalled. |
| ThreadPoolTheorems.LateNeverRuns | third/libuv/src/threadpool.c:78-92 | An item posted after the exit message is never taken by a worker. |
| ThreadPoolTheorems.DrainedBeforeExit | third/libuv/src/threadpool.c:78-92 | An item queued ahead of the exit message has left the queue before any worker exits. |
| ThreadPoolTheorems.StuckIsDone | third/libuv/src/threadpool.c:64-243 | No deadlock: where no thread can move by itself all mutexes are free, all loops idle and empty, the workers all asleep beside an empty queue or all exited and joined, and every item delivered except those posted too late. |
| ThreadPoolTheorems.StepSpends | third/libuv/src/threadpool.c:64-243 | Every step a thread takes by itself lowers a measure of the state. |
| ThreadPoolTheorems.PathEnds | third/libuv/src/threadpool.c:64-243 | Without new requests or spurious wakeups, no execution from a reachable state is longer than that measure. |
| ThreadPoolTheorems.Settles | third/libuv/src/threadpool.c:64-243 | From any reachable state the threads come, by their own steps alone, to a state where none can go on, and there every item is delivered but for those posted after the exit message. |
| ThreadPoolOrder.LineStep | third/libuv/src/threadpool.c:94-103 | Of the ids a loop has delivered, then its batch, then its queue: an item joins this line at its end when its work or its cancel is over, one whose cancel succeeds drops out, and no other step of any thread changes it. |
| ThreadPoolOrder.DoneInOrder | third/libuv/src/threadpool.c:218-243 | Who stands before another in that line is delivered before it in every later state of the run, unless one of them is cancelled meanwhile. |
| ThreadPoolOrder.FirstDoneFirstTold | third/libuv/src/threadpool.c:94-103 | Over whole runs: of two items of a loop, done runs first for the one whose work was over first. |
| ThreadPoolOrder.QueueStep | third/libuv/src/threadpool.c:71-92 | The global queue grows at its end only, workers take from its head only, and only a successful cancel takes an entry from elsewhere. |
| ThreadPoolOrder.FirstPostedFirstTaken | third/libuv/src/threadpool.c:71-113 | Over whole runs: an item posted before another is taken by a worker before it, whichever loops and workers take part, unless it is cancelled. |
| Queue.Init | third/libuv/src/queue.h:42-47 | The cell becomes an empty list. |
| Queue.Empty | third/libuv/src/queue.h:36-37 | Self-linked if and only if the list is empty. |
| Queue.InsertHead | third/libuv/src/queue.h:69-76 | The list is the cell followed by the old list. |
| Queue.InsertTail | third/libuv/src/queue.h:78-85 | The list is the old list followed by the cell. |
| Queue.Remove | third/libuv/src/queue.h:87-92 | The list loses exactly that cell, whose own pointers stay and do not make it a list of its own. |
| Queue.Add | third/libuv/src/queue.h:49-56 | The list is the concatenation, also when the second is empty. |
| Queue.Split | third/libuv/src/queue.h:58-67 | The cells before q stay with h, q and the rest go to n, in order. |
| Queue.SplitAndAdd | third/libuv/src/queue.h:49-67 | Splitting and adding back restores every pointer of the list. |
| Queue.Foreach | third/libuv/src/queue.h:33-34 | Visits the cells in order, each once, and ends. |
| Queue.Drain | third/libuv/src/threadpool.c:234-236 | Taking the head off until the list is empty yields all cells in order. |
| RedBlackTree.RbTree.RotateLeft | third/libuv/include/tree.h:342-360 | The pointers, parents included, form the rotated shape in the same place. |
| RedBlackTree.RbTree.RotateRight | third/libuv/include/tree.h:362-380 | The same for the mirrored rotation. |
| RedBlackTree.RbTree.InsertColor | third/libuv/include/tree.h:407-449 | Rebalancing a red leaf yields a red-black tree with the same in-order sequence. |
| RedBlackTree.RbTree.Insert | third/libuv/include/tree.h:598-626 | Keeps search order, links, black root, no red-red and equal black heights; adds exactly elm, or returns the element with its key and changes nothing. |
| RedBlackTree.RbTree.RemoveStepLeft | third/libuv/include/tree.h:455-487 | One round of the recolouring loop on the left: the shortage moves up or is made good, and the order stays. |
| RedBlackTree.RbTree.RemoveStepRight | third/libuv/include/tree.h:488-522 | The mirrored round. |
| RedBlackTree.RbTree.RemoveColor | third/libuv/include/tree.h:451-528 | From a place one black short to a red-black tree with the same in-order sequence. |
| RedBlackTree.RbTree.RemoveOuter | third/libuv/include/tree.h:535-541 | Removal of a node with a missing child. |
| RedBlackTree.RbTree.RemoveInner | third/libuv/include/tree.h:542-572 | Removal of a node with two children: its successor takes its place, colour and links. |
| RedBlackTree.RbTree.Remove | third/libuv/include/tree.h:530-595 | Keeps all that Insert keeps, takes out exactly elm, and returns it. |
| RedBlackTree.RbTree.FindKey | third/libuv/include/tree.h:629-644 | The element with the key, or NULL if and only if there is none. |
| RedBlackTree.RbTree.FindFirst | third/libuv/include/tree.h:647-665 | The least element not below the key, or NULL if and only if all are below. |
| RedBlackTree.RbTree.Next | third/libuv/include/tree.h:668-687 | The next element of the in-order sequence, or NULL after the last. |
| RedBlackTree.RbTree.Prev | third/libuv/include/tree.h:690-709 | The previous element, or NULL before the first. |
| RedBlackShapes.PrevUndoesNext | third/libuv/include/tree.h:668-709 | In a sequence without repeats, y follows x if and only if x precedes y. |
| RedBlackTree.RbTree.MinMax | third/libuv/include/tree.h:711-724 | The first or last element, or NULL for an empty tree. |
| RedBlackTree.RbTree.Foreach | third/libuv/include/tree.h:738-741 | From the minimum on, the successors are all elements once, in ascending order, and then NULL. |
| RedBlackShapes.HeightBound | third/libuv/include/tree.h:53-61 | Two to the height of a red-black tree is at most the square of its size plus one. |
| RedBlackTree.RbTree.HeightPromise | third/libuv/include/tree.h:53-61 | The promised bound 2 lg (n + 1) for every tree the operations can build. |
| RedBlackTree.RbTree.PathPromise | third/libuv/include/tree.h:53-61 | No path from the root of a valid tree has more nodes than that bound. |
| RedBlackShapes.PathsFit | third/libuv/include/tree.h:61 | No path from the root is longer than the height. |
| RedBlackShapes.LongestPath | third/libuv/include/tree.h:61 | One path from the root is as long as the height. |
| RedBlackShapes.BlackPaths | third/libuv/include/tree.h:53-58 | Every search path to a leaf has the same number of black nodes, and a red node has no red parent. |
| SplayTree.Splay.LinkLeft | third/libuv/include/tree.h:100-104 | The root moves to the end of the left side tree. |
| SplayTree.Splay.LinkRight | third/libuv/include/tree.h:106-110 | The root moves to the end of the right side tree. |
| SplayTree.Splay.Assemble | third/libuv/include/tree.h:112-117 | The side trees become the subtrees of the root. |
| SplayTree.Splay.Splay | third/libuv/include/tree.h:210-242 | Terminates with the pointers in the splayed shape of the tree, in as many rounds as that shape takes. |
| SplayShapes.SplayedOrder | third/libuv/include/tree.h:210-242 | Splaying keeps the in-order sequence, whatever the tree and the key. |
| SplayShapes.SplayedSplits | third/libuv/include/tree.h:210-242 | In a search tree it parts the sequence at the key: all left of the new root is below the key, all right of it above. |
| SplayCost.AccessCheap | third/libuv/include/tree.h:49-51 | One splay: two to the number of rounds, times the product of the sizes below the new root, is at most twice the product of all subtree sizes before times the squared size of the tree. |
| SplayShapes.RoundsMeasure | third/libuv/include/tree.h:210-242 | The rounds of a splay are at most the nodes that a search for the key meets, and these at most twice the rounds and one. |
| SplayCost.Balance | third/libuv/include/tree.h:49-51 | Whatever has been paid for is logarithmic: with at most 2^L elements, at most 5 L + 2 rounds an operation. |
| SplayTree.Splay.BalanceTheorem | third/libuv/include/tree.h:49-51 | The Balance Theorem: m operations on an initially empty tree that never holds more than 2^L elements splay for at most m (5 L + 2) rounds in all. |
| SplayShapes.KeyAtTop | third/libuv/include/tree.h:210-242 | After splaying the root has the key if and only if some element has. |
| SplayShapes.NearestAtTop | third/libuv/include/tree.h:210-242 | Otherwise no element lies between the root and the key: the root is the key's neighbour. |
| SplayTree.Splay.SplayMinMax | third/libuv/include/tree.h:247-278 | Brings the first or last element to the root. |
| SplayTree.Splay.Insert | third/libuv/include/tree.h:165-186 | Adds exactly elm, or returns the element with its key; the order is kept and the splaying paid for. |
| SplayShapes.LastHasNoRight | third/libuv/include/tree.h:199-202 | Splaying the left subtree for a key above it leaves its root without a right child. |
| SplayTree.Splay.Remove | third/libuv/include/tree.h:189-207 | Takes out exactly the element with elm's key, which is elm if and only if elm is in the tree, or returns NULL if and only if there is none. |
| SplayTree.Splay.Find | third/libuv/include/tree.h:129-137 | The element with the key, or NULL if and only if there is none. |
| SplayTree.Splay.Next | third/libuv/include/tree.h:140-151 | The next element in order, or NULL. |
| SplayTree.Splay.MinMax | third/libuv/include/tree.h:287-290 | The first or last element, NULL for an empty tree. |
| BinaryHeap.Heap.PathTo | third/libuv/src/heap-inl.h:122-124 | Following the bits collected leads from the root to the target position; they stay below it. |
| BinaryHeap.Heap.Descend | third/libuv/src/heap-inl.h:126-136 | The pointer-to-pointer loop ends at the slot of the target position. |
| BinaryHeap.Heap.Swap | third/libuv/src/heap-inl.h:72-104 | Relinking exchanges two nodes in level order; all other links follow. |
| BinaryHeap.Heap.SiftUp | third/libuv/src/heap-inl.h:143-147 | Ends with the heap ordered, the same elements in it and all links right. |
| BinaryHeap.Heap.SiftDown | third/libuv/src/heap-inl.h:220-229 | Ends with at most the order above the node's last place to restore. |
| BinaryHeap.Heap.Insert | third/libuv/src/heap-inl.h:106-148 | The linked tree stays complete, ordered and parent-consistent; exactly the new node is added. |
| BinaryHeap.Heap.Remove | third/libuv/src/heap-inl.h:150-237 | The same after taking out any member, and only it, which the heap then no longer refers to. |
| BinaryHeap.Heap.Min | third/libuv/src/heap-inl.h:67-69 | An element that none is less than, or NULL if and only if the heap is empty. |
| BinaryHeap.Heap.Dequeue | third/libuv/src/heap-inl.h:239-241 | Takes out exactly a least element. |
| BinaryHeap.Heap.Drain | third/libuv/src/heap-inl.h:239-241 | Dequeueing to the end meets every element once, in non-decreasing order, and leaves the heap without nodes. |
| BinaryHeap.FirstIsLeast | third/libuv/src/heap-inl.h:67-69 | The heap order puts a least element first. |
| InetText.Parse4Exact | third/libuv/src/inet.c:190-226 | Of all strings exactly the printed forms are accepted, each as the bytes printed: printing and parsing IPv4 are inverse. |
| InetText.Parse6Exact | third/libuv/src/inet.c:229-313 | Accepted as address a if and only if the text denotes a in the grammar of section 2.2 of RFC 4291. |
| InetText.OneMeaning | third/libuv/src/inet.c:229-313 | No text denotes two addresses. |
| InetLaws.DigitMeans | third/libuv/src/inet.c:190-226 | A decimal digit is read as its place in "0123456789". |
| InetLaws.HexDigitMeans | third/libuv/src/inet.c:229-231 | A hexadecimal digit of either case is read as its place in the table of that case, and nothing else is one. |
| InetLaws.HexAt | third/libuv/src/inet.c:143 | Each place of a printed word shows the digit that positional notation gives, in lower case. |
| InetLaws.HexShort | third/libuv/src/inet.c:143 | A printed word has no leading zeros, and no digit too few. |
| InetLaws.HexValueCons | third/libuv/src/inet.c:248-254 | Digits are read in positional notation, the most significant first. |
| InetLaws.NetworkOrder | third/libuv/src/inet.c:271-272 | The more significant byte of a group comes first. |
| InetLaws.DecAt | third/libuv/src/inet.c:53-69 | A byte is printed in decimal without leading zeros. |
| Inet.Ntop4 | third/libuv/src/inet.c:53-69 | Succeeds if and only if the size exceeds the text's length; text, then terminators to the end. |
| Inet.LongestZeros | third/libuv/src/inet.c:93-116 | The leftmost among the longest runs of zero words if it has two or more words, otherwise none (section 4.2 of RFC 5952). |
| Inet.Format | third/libuv/src/inet.c:121-149 | The formatting loop prints the canonical text within the 46-byte buffer, and its inner inet_ntop4 succeeds. |
| Inet.Ntop6 | third/libuv/src/inet.c:72-158 | Succeeds if and only if the size exceeds the text's length; the text and a terminator in dst, nothing else changed. |
| InetLaws.TextShape | third/libuv/src/inet.c:121-149 | The printed text in closed form: words in hexadecimal with colons between them, "::" for the run left out, and a dotted tail exactly for embedded IPv4 addresses. |
| InetLaws.NoRun | third/libuv/src/inet.c:93-116 | There is no "::" if and only if no two neighbouring words are zero. |
| InetLaws.LongestRun | third/libuv/src/inet.c:93-116 | The run left out is all zeros, none is longer, and none of its length lies further left. |
| InetLaws.PrintedDocumentation | third/libuv/src/inet.c:72-158 | The bytes 20 01 0d b8, eleven zeros, 01 are printed as 2001:db8::1. |
| InetLaws.PrintedMapped | third/libuv/src/inet.c:72-158 | An IPv4-mapped address is printed as ::ffff:192.0.2.33. |
| Inet.BestRunUnique | third/libuv/src/inet.c:93-116 | There is only one run to compress, so only one text for an address. |
| Inet.TextFits | third/libuv/src/inet.c:82-149 | The text has at most 45 characters, for every address. |
| Inet.PrintedDenotes | third/libuv/src/inet.c:72-158 | What is printed denotes the address, in plain, compressed and mixed form. |
| Inet.RoundTrip6 | third/libuv/src/inet.c:72-313 | Parsing what is printed gives the address back, for every 16 bytes. |
| Inet.Pton4 | third/libuv/src/inet.c:190-226 | Writes the four bytes if and only if the text parses, and otherwise nothing. |
| Inet.ShiftTail | third/libuv/src/inet.c:293-308 | The overlapping shift moves the tail to the end and leaves zeros in the gap. |
| Inet.ReadGroups | third/libuv/src/inet.c:236-292 | The parser's loop reads the groups and remembers where "::" stood. |
| Inet.Pton6 | third/libuv/src/inet.c:229-313 | Writes the sixteen bytes the text denotes, or returns UV_EINVAL and writes nothing. |
| Inet.UvInetPton | third/libuv/src/inet.c:161-187 | Families, null arguments, and the part before '%' of at most 45 characters. |
| InetLaws.Read4Exact | third/libuv/src/inet.c:161-167 | AF_INET: exactly the dotted forms are read, each as its four bytes. |
| InetLaws.Read6Exact | third/libuv/src/inet.c:168-182 | AF_INET6: exactly the texts of the grammar are read, alone or with any zone behind a percent sign. |
| InetLaws.AddressesAreShort | third/libuv/src/inet.c:176-177 | No text of an address has more than 45 characters, so the limit turns none away. |
| Inet.ZoneRoundTrip | third/libuv/src/inet.c:161-187 | A printed address, with or without any zone behind it, is read as that address. |
| FsPoll.Loop.OneContinuation | third/libuv/src/fs-poll.c:56-223 | A live context has exactly one of: a stat under way, an armed timer, poll_cb running, its timer closing; no handle refers to a closing or freed one; and its callbacks are exactly those its results call for. |
| FsPoll.Loop.PollStart | third/libuv/src/fs-poll.c:56-101 | An inactive handle gets a fresh context that polls at the given interval, or one millisecond for none, with a stat under way from now; an active one stays as it is. |
| FsPoll.Loop.PollStop | third/libuv/src/fs-poll.c:104-125 | The handle lets go of its context, whose timer starts to close only if it was armed; closing and freed contexts stay as they are. |
| FsPoll.Loop.TimerCb | third/libuv/src/fs-poll.c:158-168 | Both assertions hold; a stat begins. |
| FsPoll.Loop.PollCb | third/libuv/src/fs-poll.c:171-218 | Whatever the user callback starts or stops, the context closes if it has no handle left and is armed otherwise, for 1 to interval from now and a multiple of the interval after the stat began; freed contexts stay freed, handles that no command names keep theirs, and the callback's commands take effect if and only if the result is news. |
| FsPoll.Loop.UserCallback | third/libuv/src/fs-poll.c:184-202 | Any sequence of starts and stops from inside the callback keeps all contexts right; the one in poll_cb loses its handle exactly if it is stopped, even if it is started again; what every handle polls at afterwards follows from the commands alone; freed contexts stay freed, and handles that no command names keep theirs. |
| FsPoll.Loop.TimerCloseCb | third/libuv/src/fs-poll.c:221-223 | A closing context is freed when no handle refers to it. With the frames of the other callbacks, after which a freed context is freed still, that is at most once. |
| FsPoll.NewsCoded | third/libuv/src/fs-poll.c:184-202 | The busy_polling encoding detects exactly the results that differ from the one before. |
| FsPoll.UserUpToDate | third/libuv/src/fs-poll.c:184-202 | The last callback always tells the latest result; without a callback all results were the same good one. |
| FsPoll.ReportAt | third/libuv/src/fs-poll.c:184-202 | Each piece of news has its own callback, in order, with the last good data before it. |
| FsPoll.LatestGood | third/libuv/src/fs-poll.c:201-202 | Those data are of the latest stat that succeeded, zeros before the first. |
| FsPoll.NoRepeats | third/libuv/src/fs-poll.c:184-202 | No two consecutive callbacks tell the same. |
| FsPoll.StatEqMeans | third/libuv/src/fs-poll.c:226-241 | Results are equal if and only if they agree in all but access time, link count, rdev, block size and blocks. |
| RtsBuf.GrowthBounds | demo/proxy_demo/rts_buf.c:37-65 | After any appends to a fresh buffer: size below capacity, capacity at most max(c0, 2 size + 1), bytes moved by reallocations at most capacity minus c0. |
| RtsBuf.GrowthDoubles | demo/proxy_demo/rts_buf.c:46-60 | A reallocation happens if and only if the bytes and one more do not fit; the new capacity is exactly the larger of twice the old and what is needed; the content is moved once. |
| RtsBuf.Buffer.Append | demo/proxy_demo/rts_buf.c:37-65 | The content is the old one and the new bytes; -1 and no change for NULL; the memory stays the same unless it must grow. |
| Relay.Transfer | demo/proxy_demo/proxy.c:384-428 | No second write while one is under way; otherwise one of everything held. |
| Relay.InitUpstream | demo/proxy_demo/proxy.c:292-340 | Two streams that are each other's peer, the downstream ready and the upstream not yet. |
| Relay.Receive | demo/proxy_demo/proxy.c:224-246 | The flow is kept if and only if the read does not reallocate during a write; nothing is stranded. |
| Relay.Overrun | demo/proxy_demo/proxy.c:18 | A stream of reads, each within the buffer size, after which the write under way points at memory that is no longer the buffer's. |
| Relay.DownstreamRead | demo/proxy_demo/proxy.c:182-253 | The first read links the relay, with the upstream not yet ready; every read keeps the invariant and appends to the input. |
| Relay.UpstreamRead | demo/proxy_demo/proxy.c:429-483 | The same in the other direction. |
| Relay.OnUpstreamConnect | demo/proxy_demo/proxy.c:342-382 | What was read before the connection is then being written. |
| Relay.AfterWrite | demo/proxy_demo/proxy.c:255-290 | The bytes under way come next in the output; later ones are written at once, or the buffer starts again. |
| Relay.AfterDownstreamWrite | demo/proxy_demo/proxy.c:485-527 | The same callback for the other direction keeps the relay's invariant. |
| Relay.InOrder | demo/proxy_demo/proxy.c:182-527 | In each direction the output is a prefix of the input, at most one write is under way and has the bytes that come next, and with none under way to a ready peer everything has been written. |
| NameSplit.ParseWritten | third/openssl/apps/apps.c:2151-2213 | Splitting undoes printing, with any escapes that cover what must be escaped. |
| NameSplit.ParseExact | third/openssl/apps/apps.c:2151-2213 | A subject is accepted as a list of entries if and only if it is a way to write that list. |
| NameSplit.UnclosedExact | third/openssl/apps/apps.c:2180-2213 | A printed subject without a closing separator is read back if and only if it is empty, or its first entry opens a set of its own and its last value is not empty. |
| NameSplit.EmptyValue | third/openssl/apps/apps.c:2180-2185 | "/a=" is rejected, "/a=/" is accepted as an empty value. |
| NameSplit.EscapedSlash | third/openssl/apps/apps.c:2188-2190 | A slash behind a backslash belongs to the value. |
| NameSplit.PlusSeparates | third/openssl/apps/apps.c:2201-2207 | An unescaped plus separates entries that share a relative name, if these are allowed. |
| NameSplit.PlusBelongs | third/openssl/apps/apps.c:2201-2207 | Otherwise it belongs to the value. |
| NameSplit.Collect | third/openssl/apps/apps.c:2163-2209 | An inner loop copies a field without its escapes and stops where it should. |
| NameSplit.SplitSubject | third/openssl/apps/apps.c:2129-2213 | All writes stay within the sizes computed at the start, and the arrays hold the entries. |

## Left out

- Destroying the thread pool's mutexes and condition variable after the join, choosing the number of threads, and thread creation: system calls, and the model starts with any positive number of workers.
- ThreadPoolTheorems.Settles: together with PathEnds this covers executions in which requests pause; fairness between a steady stream of requests and the workers is not modelled.
- Locks and signals are those of a standard mutex and condition variable; memory ordering below that level is not modelled.
- FsPoll.Loop.PollStart: failures of memory, timer and stat are not modelled; uv_fs_poll_getpath only copies a string.
- Relay.DownstreamRead: end of stream, errors and closing are not modelled, as the demo leaves these paths unfinished; the stream and the callback data it owns are one object.
- NameSplit.SplitSubject: the X509 half of parse_name, which looks entries up in a library, is not part of this model.
- BinaryHeap.Heap.Remove: says nothing about the links of the node taken out, which the source leaves dangling.
- Inet.Ntop6: sprintf and snprintf are their results, `Hex` and `Dec`; looking up a zone identifier is a system call, and uv_inet_ntop only dispatches.
- next_protos_parse, uv_ip4_addr, uv_ip6_addr and the rest of uv-common.c would add only easy members.
- RB_AUGMENT, a hook that is empty unless a user defines it, is not part of this model.
- SplayTree.Splay.BalanceTheorem: counts the rounds of the splaying loops; the walk of SPLAY_NEXT down to the leftmost
  element is no splaying and is not covered.
- SPLAY_FOREACH follows from `Next` and `MinMax` as RB_FOREACH does.
- The tunnel program itself (src/) is unfinished: identifiers are missing and its ciphers are empty.
