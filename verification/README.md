# Protocols and data structures of a systems programming workbook, in Dafny

The repository holds C programs written along a book on the Linux programming interface,
and a small library that some of them use. This project models its two families of code
with the most to prove:

- **Protocols**, one module each: the shared memory transfer between a writer and a reader,
  the reaping of child processes by a SIGCHLD handler, the joining of threads in whatever
  order they end, the notification of a message queue reader, and the file server over
  message queues. Each is a transition system whose steps are the single accesses to shared
  state in the C code; a run is any interleaving of them. `Runs.dfy` has the two arguments
  that all of them use: an inductive invariant, and a measure that every productive step
  decreases.
- **Data structures and algorithms**, as classes and methods that change state where the C
  code does: the growable array, the doubly linked list, the heap, the hashmap, merge sort
  and bubble sort, the binary search tree with parent pointers, a parser of semaphore
  operations, and two hashes. Each method is proved against a function on plain values, and
  what the code is for is proved about that function.

`dafny verify dfyconfig.toml` checks everything.

## How to read it

| file | models |
|---|---|
| `Common.dfy` | types and selections that several modules share |
| `Runs.dfy` | runs, invariants, bounded progress |
| `SharedMemoryTransfer.dfy` | `svshm_xfr_writer.c`, `svshm_xfr_reader.c`, `binary_sem.c` |
| `ChildReaping.dfy` | `multi_SIGCHLD.c` |
| `ThreadJoining.dfy` | `thread_multijoin.c` |
| `QueueNotification.dfy` | `mq_notify_sig.c` |
| `FileTransfer.dfy` | `svmsg_file_server.c`, `svmsg_file_client.c` |
| `Darray.dfy`, `LinkedList.dfy` | `darray.c`, `darray.h`, `list.c` |
| `Order.dfy`, `HeapOrder.dfy`, `SiftPaths.dfy`, `Heap.dfy` | `heap.c` |
| `StableSort.dfy`, `BubbleSweeps.dfy`, `Sorting.dfy` | `darray_algo.c`, `list_algo.c` |
| `Chains.dfy`, `Hashmap.dfy` | `hashmap.c` |
| `TreeShape.dfy`, `TreeLinks.dfy`, `BinaryTree.dfy` | `30-2.c` |
| `SemOps.dfy`, `SemOpErrors.dfy` | `parseOps` of `svsem_op.c` |
| `Checksum.dfy` | `adler32_hash` and `djb_hash` of `hash.c` |

## Where the code is not what it says, or what one expects

The model follows the code. Each of these is a theorem about all inputs, with its condition:

- A heap whose type is not 0 promotes the wrong child when it sifts down. The result is
  ordered exactly if `HeapOrder.SiftDownSafe` holds, which for type 0 is always
  (`HeapOrder.SiftDownOrdersIffSafe`); a pop of four elements is enough to see it fail.
- `Darray_set` at the index `end` or beyond stores an element that no count includes
  (`DynamicArray.SetStoresIffInRange`).
- `Hashmap_set` never replaces: a later value for an equal key stays hidden until the earlier
  one is deleted (`Chains.SetNeverReplaces`). When a key is in twice, deleting another key of
  the same bucket can change which of its values a get returns (`Chains.DeleteKeepsOthersIff`, and
  `Chains.DeleteCanChangeOther` where it does).
- On a tie the merge takes the right element, so the merge sort is the stable sort of the
  reversed input.
- The bubble sort swaps equivalent neighbours. Of a list of equivalent elements it moves the
  last to the front (`BubbleSweeps.LastToFront`).
- `find_last` tests a pointer where it means the comparison, so a search for an insertion goes
  right on equal keys. A duplicate is refused exactly if the last entry with its key has no
  right child (`TreeShape.RefusedIff`, `TreeShape.LatestIsLast`).
- `delete_node` of a node with two children drops entries (`TreeShape.DeleteRemovesOneIff`, and
  `TreeShape.DeleteDropsEntry` for a tree of four keys). What is left is an ordered tree with
  consistent pointers, in which the subtree of the smallest entry on the right has replaced that
  of the node (`TreeShape.DeleteLeaves`).
- `mq_notify_sig.c` sleeps for ever if the queue holds a message before the first registration
  (`QueueNotification.NeverStrandedIffEmptyStart`).
- `parseOps` truncates values silently, and accepts `=65536` as `=0` (`SemOps.IsAsWrittenIff`,
  `SemOps.EqualsAcceptedIff`; `SemOps.TruncatesSilently` and `SemOps.Reads65536AsZero` are
  arguments that show it); its usage text allows only `n` after `=0`, the code `u` as well.
- `adler32_hash` adds a signed char, so bytes of 128 or more give another checksum than RFC
  1950 asks for, unless what they cost each half adds up to a multiple of 65521
  (`Checksum.IsRfc1950Iff`), which takes at least 466 of them (`Checksum.IsRfc1950IffAscii`).
- The comments of the transfer's writer speak of standard input; it opens `/dev/urandom`. The
  model lets the input be any finite byte stream.

## Model

| member | source | states |
|---|---|---|
| SharedMemoryTransfer.TurnsAndPrefix | 48-system-v-shared-memory/svshm/svshm_xfr_writer.c:45-71 | At every point of every interleaving: both semaphores plus both held turns make 1 until the writer's cleanup, which starts only after the reader is done; the output is a prefix of the bytes read, at most one block behind, and is the whole input once the reader has seen end of file; no operation ever meets a removed semaphore set. |
| SharedMemoryTransfer.EveryRunDelivers | 48-system-v-shared-memory/svshm/svshm_xfr_reader.c:29-61 | Productive steps are bounded by the input; a run can make no further one exactly if both processes are done, and then the output is the input, both byte counts are its length, both transfer counts are the number of blocks read, and the semaphores are gone, although the writer rereads cnt after giving away its turn. |
| SharedMemoryTransfer.TransfersAreBlocks | 48-system-v-shared-memory/svshm/svshm_xfr_writer.c:45-66 | At every point the writer's transfer count is the number of read() calls that returned a block, less one it has not counted yet. |
| SharedMemoryTransfer.NeverStuck | 48-system-v-shared-memory/svshm/binary_sem.c:34-62 | In every state of the invariant where one side is unfinished, some step other than a retry after EINTR is possible. |
| SharedMemoryTransfer.InvIsInductive | 48-system-v-shared-memory/svshm/svshm_xfr_writer.c:45-83 | The exclusive turns, the contents of the buffer, the counters and the end-of-file handshake hold at first and are kept by every step of either process. |
| SharedMemoryTransfer.ReadKeepsInv | 48-system-v-shared-memory/svshm/svshm_xfr_writer.c:53 | A read of any length between 1 and the buffer size, or of 0 at the end, keeps the invariant. |
| SharedMemoryTransfer.ReaderKeepsInv | 48-system-v-shared-memory/svshm/svshm_xfr_reader.c:29-59 | So does every access of the reader. |
| SharedMemoryTransfer.StepsPay | 48-system-v-shared-memory/svshm/svshm_xfr_writer.c:45-83 | Every step but a retry after EINTR decreases a measure of unread input and program counters. |
| ChildReaping.NoDeathIsMissed | 26-monitoring-child-processes/procexec/multi_SIGCHLD.c:9-100 | In every interleaving, although signals coalesce: when the parent is suspended with no SIGCHLD pending there is no unreaped dead child and some child still runs; numLiveChildren counts the children not yet reaped; no more signals have been counted than children have died. |
| ChildReaping.EveryRunReapsAll | 26-monitoring-child-processes/procexec/multi_SIGCHLD.c:75-108 | Every run is finite and can stop only at the exit; there all children are reaped, numLiveChildren is 0, and sigCnt is the number of signals delivered, which is between 1 and N. |
| ChildReaping.DeliveriesAreCounted | 26-monitoring-child-processes/procexec/multi_SIGCHLD.c:94-100 | At every point sigCnt is the number of signals delivered so far, less the one whose handler runs or has just returned. |
| ChildReaping.InvIsInductive | 26-monitoring-child-processes/procexec/multi_SIGCHLD.c:66-100 | The invariant holds before the forks and is kept by the parent, its handler and every child. |
| ChildReaping.NeverStuck | 26-monitoring-child-processes/procexec/multi_SIGCHLD.c:94-100 | Before the exit some step is always possible: sigsuspend never waits for a signal that cannot come. |
| ChildReaping.StepsPay | 26-monitoring-child-processes/procexec/multi_SIGCHLD.c:22-26 | Every step decreases a measure of the children's states and the pending signal. |
| ThreadJoining.CountersAndWakeups | 30-thread-synchronization/threads/thread_multijoin.c:25-115 | Whenever the mutex is free, numUnjoined counts the terminated threads and numLive the ones not joined; whenever main sleeps with something to join, also while a thread is inside its critical section, some thread has still to send its signal; whom main joins while holding the mutex needs the mutex no more. |
| ThreadJoining.EveryRunJoinsAll | 30-thread-synchronization/threads/thread_multijoin.c:83-117 | For any number of threads and any interleaving, the number of steps is bounded but for spurious wakeups; a run can stop exactly at main's exit, and then both counters are 0 and every thread has been joined exactly once. |
| ThreadJoining.JoinsAreCounted | 30-thread-synchronization/threads/thread_multijoin.c:96-109 | At every point main has called pthread_join once for each thread marked as joined or about to be, and for no other. |
| ThreadJoining.LowestFirst | 30-thread-synchronization/threads/thread_multijoin.c:96-109 | Whenever main calls pthread_join it does so for a terminated thread, and none with a lower number is terminated. |
| ThreadJoining.InvIsInductive | 30-thread-synchronization/threads/thread_multijoin.c:25-115 | Ownership of the mutex, the counters and the thread states fit together at first and after every step. |
| ThreadJoining.NeverStuck | 30-thread-synchronization/threads/thread_multijoin.c:83-115 | No deadlock: before main's exit some step other than a spurious wakeup is possible, also while main joins with the mutex held. |
| ThreadJoining.StepsPay | 30-thread-synchronization/threads/thread_multijoin.c:83-115 | Every such step decreases a measure, which a spurious wakeup raises by at most 2. |
| QueueNotification.NoMessageIsStranded | 52-posix-message-queues/pmsg/mq_notify_sig.c:71-91 | From an empty queue, always exactly one holds of: registered, signal pending, awake and about to re-register; so registering never fails, and asleep without a pending signal means registered with an empty queue and every message received; nothing is lost or duplicated, and while the reader drains the queue no message is more urgent than its first. |
| QueueNotification.MostUrgentFirst | 52-posix-message-queues/pmsg/mq_notify_sig.c:84 | Every read of a queue that holds a message takes one out of it that no other there exceeds in priority, and appends it to what was received. |
| QueueNotification.OldestFirst | 52-posix-message-queues/pmsg/mq_notify_sig.c:84 | At every point and for every priority, what has been received of it followed by what is queued of it is what was sent of it, in order. |
| QueueNotification.EverythingIsRead | 52-posix-message-queues/pmsg/mq_notify_sig.c:84-86 | The reader makes at most 5 steps per message sent, and when it can make none it has received all messages sent. |
| QueueNotification.NeverStrandedIffEmptyStart | 52-posix-message-queues/pmsg/mq_notify_sig.c:62-67 | Over all runs from a first registration, no message is ever missed if and only if the queue was empty then. |
| QueueNotification.NonEmptyStartStrandsAll | 52-posix-message-queues/pmsg/mq_notify_sig.c:62-73 | If it was not, the reader never wakes up, whatever is sent. |
| QueueNotification.EnqueueConserves | 52-posix-message-queues/pmsg/mq_notify_sig.c:84 | Sending adds exactly the one message, wherever its priority puts it. |
| QueueNotification.EnqueueKeepsOrder | 52-posix-message-queues/pmsg/mq_notify_sig.c:84 | The queue stays ordered by priority. |
| QueueNotification.EnqueueAmongEquals | 52-posix-message-queues/pmsg/mq_notify_sig.c:84 | A new message comes behind all of its priority, and moves none of another. |
| FileTransfer.ClientGetsItsFile | 46-system-v-message-queues/svmsg/svmsg_file_client.c:57-81 | For every set of files, every way to split them into blocks and every interleaving of clients: a client only ever has a prefix of its own file, and nothing of a missing one; once it has left its loop its queue is empty and its server child has ended, so nothing is sent to a removed queue; and from then on totBytes is what it received, numMsgs the number of blocks plus 1, and what it received is its file unless the server's read failed. |
| FileTransfer.RefusalSaysWhy | 46-system-v-message-queues/svmsg/svmsg_file_client.c:57-66 | The first response to a client is FAILURE exactly if its file does not exist, and then its text is "Couldn't open" with the terminating null byte. |
| FileTransfer.EveryRunServesAll | 46-system-v-message-queues/svmsg/svmsg_file_server.c:71-95 | Every run is finite; it can stop if and only if each client has removed its queue and its server child has ended; and then each client has received its file with the right figures, up to a failed read, or nothing if there is none. |
| FileTransfer.BlocksAreCounted | 46-system-v-message-queues/svmsg/svmsg_file_server.c:36-40 | The DATA messages sent to a client are the blocks read for it, less one not sent yet. |
| FileTransfer.SameRequests | 46-system-v-message-queues/svmsg/svmsg_file_server.c:83-92 | No step changes which client asked for which file. |
| FileTransfer.FirstComeFirstServed | 46-system-v-message-queues/svmsg/svmsg_file_server.c:71-95 | At every point of every run, the requests that have arrived are those with a server child followed by those in the server's queue, in order. |
| FileTransfer.InvIsInductive | 46-system-v-message-queues/svmsg/svmsg_file_server.c:33-45 | Every queue is a run of DATA messages, followed by END exactly if the server has sent it, or one FAILURE; sent, queued and unread bytes make up the file. |
| FileTransfer.NeverStuck | 46-system-v-message-queues/svmsg/svmsg_file_server.c:71-95 | While some client is unfinished some step is possible, also with full queues. |
| FileTransfer.StepsPay | 46-system-v-message-queues/svmsg/svmsg_file_client.c:72-79 | Every step decreases a measure of the files still to be sent and the program counters. |
| DynamicArray.Darray.constructor | lib/ds/darray.c:6-46 | A new array has no elements, the requested room, and null in every slot. |
| DynamicArray.Darray.Resize | lib/ds/darray.c:80-96 | Resizing keeps the common prefix of the slots. |
| DynamicArray.Darray.Expand | lib/ds/darray.c:99-117 | Expanding keeps every element and nulls the new slots. |
| DynamicArray.Darray.Contract | lib/ds/darray.c:120-133 | Contracting loses no element and leaves room for one more. |
| DynamicArray.Darray.Push | lib/ds/darray.c:156-176 | A push appends one element in bounds, and grows the array just before it would be full. |
| DynamicArray.Darray.Pop | lib/ds/darray.c:179-202 | A pop undoes the last push, gives null on an empty array, and keeps all other elements; it shrinks the array to one slot more than its elements exactly if more than one chunk is in use and not a whole number of them. |
| DynamicArray.Darray.Set | lib/ds/darray.h:63-76 | Exactly one slot changes; in range that is an update of the elements, beyond the end it moves the end to the index. |
| DynamicArray.Darray.Get | lib/ds/darray.h:79-92 | Reads the slot and changes nothing. |
| DynamicArray.Darray.Remove | lib/ds/darray.h:95-106 | Vacates a slot, returns what it held, and leaves all others in place. |
| DynamicArray.Darray.Copy | lib/ds/darray.c:206-227 | The copy is a separate array with the same elements and room. |
| DynamicArray.Darray.Filter | lib/ds/darray.c:230-254 | The elements of the new array are, in order, those at a strictly increasing sequence of indices, which contains an index exactly if its element is not null and accepted. |
| Common.FilteredIsSelection | lib/ds/darray.c:244-249 | The recursive definition behind the loop selects exactly those indices, in order. |
| DynamicArray.Replay | lib/ds/darray.c:156-202 | Any history of pushes, pops and in-range sets gives the elements and the pop results that the same history gives on a plain sequence, across all growing and shrinking. |
| DynamicArray.SetStoresIffInRange | lib/ds/darray.h:69-73 | A stored element can be found among the elements at its index exactly if the index was below the end. |
| LinkedLists.List.RemoveNode | lib/ds/list.c:35-68 | Removing any node, at either end or inside, leaves the chain of all the other nodes in order and returns its value. |
| LinkedLists.List.Unlink | lib/ds/list.c:47-64 | After the four cases of the relinking, the two neighbours bypass the node and nothing else about the chain has changed. |
| LinkedLists.List.Push | lib/ds/list.c:102-126 | One new node joins the end of an otherwise unchanged well-formed chain. |
| LinkedLists.List.Pop | lib/ds/list.c:160-174 | The last node leaves, or null is returned for an empty list. |
| LinkedLists.List.PopLeft | lib/ds/list.c:177-191 | The first node leaves, or null is returned for an empty list. |
| LinkedLists.List.Split | lib/ds/list.c:240-310 | Null exactly if one side would be empty; otherwise both parts are well-formed lists on the same nodes, divided at the index, whichever of the three branches is taken. |
| LinkedLists.List.CutAfterFirst | lib/ds/list.c:260-268 | The branch for index 1 cuts the chain behind the first node and nowhere else. |
| LinkedLists.List.CutBeforeLast | lib/ds/list.c:271-283 | The branch for the last node cuts the chain before it. |
| LinkedLists.List.CutInside | lib/ds/list.c:287-303 | The branch that walks to the index cuts the chain before the node it finds. |
| LinkedLists.List.Join | lib/ds/list.c:315-339 | Two non-empty lists on separate nodes become one well-formed list on the nodes of both, in order; a list joined with itself stays as it is. |
| LinkedLists.List.ToDarray | lib/ds/list.c:342-361 | The array has the values of the list in order. |
| LinkedLists.SplitThenJoin | lib/ds/list.c:240-339 | Splitting anywhere inside and joining restores the same nodes with the same values in the same order. |
| LinkedLists.ChainReaches | lib/ds/list.c:287-293 | Following next from node i, k times, reaches node i + k, or null exactly at the end: a well-formed list is acyclic and complete. |
| LinkedLists.ChainIsUnique | lib/ds/list.c:35-68 | The first node and the pointers determine the list: two well-formed chains from one node agree. |
| Heaps.Heap.constructor | lib/ds/heap.c:192-231 | A new heap is empty and ordered. |
| Heaps.Heap.Push | lib/ds/heap.c:148-156 | For either type the heap stays ordered and has one element more. |
| Heaps.Heap.Pop | lib/ds/heap.c:159-173 | Returns an element that no other outranks and removes exactly that one; what is left is ordered exactly if sifting down was safe, so always for type 0. |
| Heaps.Heap.PopReplace | lib/ds/heap.c:176-189 | The same with one element put in, and the size unchanged. |
| Heaps.Heap.SiftUp | lib/ds/heap.c:19-61 | The loop ends, stays in bounds, and does to the array what the recursive definition does to the sequence of its elements. |
| Heaps.Heap.SiftDown | lib/ds/heap.c:65-145 | Likewise for the way down, for either type. |
| Heaps.FromArray | lib/ds/heap.c:268-287 | An ordered heap of exactly the given elements, for either type. |
| Heaps.FromDarray | lib/ds/heap.c:312-329 | The same from a growable array, which is left as it was. |
| Heaps.FromList | lib/ds/heap.c:290-309 | The same from a linked list. |
| Heaps.Merge | lib/ds/heap.c:335-358 | An ordered heap with the elements of both and the left one's type; both sources are left as they were. |
| Heaps.Drain | lib/ds/heap.c:159-173 | Popping a type 0 heap until it is empty gives all its elements, sorted. |
| Heaps.BuildAndDrain | lib/ds/heap.c:268-287 | Building a type 0 heap from any elements and emptying it sorts them. |
| Heaps.PushedIsHeap | lib/ds/heap.c:148-156 | An element appended to an ordered heap of either type and sifted up gives an ordered heap with just that element more. |
| HeapOrder.SiftUpOrders | lib/ds/heap.c:19-61 | Sifting up repairs a heap that is out of order only above one index, and permutes it. |
| SiftPaths.SiftUpPath | lib/ds/heap.c:19-61 | For either type, sifting up moves the one element along the path to the root as long as it goes above its parent, each element it passes one index down, and nothing else. |
| HeapOrder.SiftDownPermutes | lib/ds/heap.c:86-144 | Sifting down permutes the elements for either type, and before the children of its start changes only the start. |
| SiftPaths.SiftDownPath | lib/ds/heap.c:65-145 | Sifting down moves the one element along the path of compared children, the left one unless the right one comes behind it, as long as the child goes above it; each of those one index up, and nothing else. |
| HeapOrder.SiftDownOrdersIffSafe | lib/ds/heap.c:102-141 | Sifting down repairs a heap that is out of order only below one index, if and only if the type is 0, or the two children are equivalent wherever it swaps and the other child does not come before the sifted element where it stops. |
| HeapOrder.UnsafeSwapStays | lib/ds/heap.c:114-137 | Once the wrong child has been promoted, no later swap repairs the order. |
| HeapOrder.MinHeapPopBreaksOrder | lib/ds/heap.c:114-137 | The pop of an ordered heap of 1, 2, 3, 4 whose type is not 0 leaves 3, 2, 4, which is out of order. |
| HeapOrder.PopEffect | lib/ds/heap.c:159-173 | Moving the last element to the root and sifting it down removes exactly the root, and leaves an ordered heap if and only if the sift was safe. |
| HeapOrder.RootIsExtreme | lib/ds/heap.c:159-173 | In an ordered heap of either type no element outranks the root. |
| StableSort.MergedPermutes | lib/algo/darray_algo.c:35-61 | A merge neither loses nor duplicates elements. |
| StableSort.MergedSorts | lib/algo/darray_algo.c:35-61 | A merge of sorted runs is sorted. |
| StableSort.MergedClass | lib/algo/darray_algo.c:38-46 | Within a class of equivalent elements a merge puts all of the right run before all of the left one. |
| StableSort.MergeSortSorts | lib/algo/darray_algo.c:65-98 | The recursion ends and returns a sorted permutation. |
| StableSort.MergeSortClass | lib/algo/darray_algo.c:65-98 | Equivalent elements come out in the reverse of their order in the input. |
| StableSort.StableSortIsUnique | lib/algo/darray_algo.c:101-105 | Two sorted permutations of each other with the same order within every class of equivalent elements are equal. |
| StableSort.MergeSortIsThatSort | lib/algo/darray_algo.c:101-105 | A sequence is the stable sort of the reversed input if and only if it is what the code returns. |
| Sorting.Mergesort | lib/algo/darray_algo.c:101-105 | The array holds the stable sort of its elements read backwards, in place. |
| Sorting.MergeTopDown | lib/algo/darray_algo.c:65-98 | Dealing, sorting the halves and merging back overwrite the array with the recursive definition's result. |
| Sorting.Merge | lib/algo/darray_algo.c:23-62 | The three loops fill the array with the merge of the runs, in bounds. |
| Sorting.MergeHeads | lib/algo/darray_algo.c:35-47 | At every point of the first loop, what is stored and what is left to merge make up the result. |
| Sorting.MergedFromIsMerged | lib/algo/darray_algo.c:35-61 | Merging by two indices is merging what follows them. |
| Sorting.Halve | lib/algo/darray_algo.c:78-90 | The two new arrays hold the two halves of the elements. |
| Sorting.ListMergesort | lib/algo/list_algo.c:60-88 | The list keeps its nodes, and their values become the stable sort of the reversed input. |
| Sorting.ListBubbleSort | lib/algo/list_algo.c:6-56 | The list keeps its nodes, and their values become a sorted permutation, the result of exactly n - 1 sweeps. |
| Sorting.BubbleArray | lib/algo/list_algo.c:33-47 | At most n - 1 sweeps sort the array, and stopping after a sweep without a swap gives what all of them would. |
| Sorting.Sweep | lib/algo/list_algo.c:34-42 | The in-place sweep; it reports no swap exactly if every neighbour was in order, and then has changed nothing. |
| Sorting.WriteBack | lib/algo/list_algo.c:49-51 | The nodes take the values of the array in order, and the chain is unchanged. |
| BubbleSweeps.SweepPlaces | lib/algo/list_algo.c:35-42 | A sweep that rescans a suffix of k placed elements, and may swap equals there, places one more. |
| BubbleSweeps.BubbleAtBorder | lib/algo/list_algo.c:36-41 | A swap across the border of the placed suffix leaves it placed. |
| BubbleSweeps.SweptPermutes | lib/algo/list_algo.c:35-42 | A sweep permutes the values. |
| BubbleSweeps.NoSwapMeansSorted | lib/algo/list_algo.c:44-46 | If a sweep would swap no neighbours, no two elements at any distance are out of order. |
| BubbleSweeps.EarlyExit | lib/algo/list_algo.c:44-46 | Once a sweep swaps nothing, all later ones leave the values as they are. |
| BubbleSweeps.SweepsSort | lib/algo/list_algo.c:33-47 | n - 1 sweeps leave a sorted permutation of any n values. |
| BubbleSweeps.LastToFront | lib/algo/list_algo.c:33-47 | Of n values that are all equivalent, the sort moves the last one to the front and keeps the order of the others. |
| Chains.SetAddsOne | lib/ds/hashmap.c:167-190 | A set adds exactly one entry, and every node sits in the bucket of its hash. |
| Chains.LookupIffPresent | lib/ds/hashmap.c:209-235 | A get finds an entry if and only if one with an equal key is anywhere in the map, for every lawful pair of callbacks. |
| Chains.DeleteRemovesLookup | lib/ds/hashmap.c:270-309 | A delete removes precisely the entry that a get would have returned, keeps all others, and keeps every node in its bucket across the swap with the last. |
| Chains.SetNeverReplaces | lib/ds/hashmap.c:181-185 | After a set every key that was present is found as before, and only absent equal keys find the new entry. |
| Chains.DeleteKeepsOthersIff | lib/ds/hashmap.c:296-301 | A delete leaves what a get of any other key finds as it was, if and only if the node moved into the gap is not a later entry for that key. |
| Chains.DeleteCanChangeOther | lib/ds/hashmap.c:296-301 | With keys 1, 2 and 2 set into one bucket, deleting 1 changes what a get of 2 finds from its first entry to its second. |
| Chains.VisitSeesAll | lib/ds/hashmap.c:248-262 | A traversing callback that logs what it sees has seen the entries up to the first for which it returned something other than 0, each once and in order, or all of them if there is none. |
| Chains.FlatAt | lib/ds/hashmap.c:248-253 | In the order of a traversal, the entries of a bucket come behind those of all lower buckets and before those of all higher ones. |
| Chains.SetAbsentIsInsert | lib/ds/hashmap.c:167-190 | On a map without equal keys, setting an absent key is finite map insertion. |
| Chains.DeleteIsRemove | lib/ds/hashmap.c:270-309 | On such a map, delete is finite map removal and keeps it such a map. |
| Hashmaps.Hashmap.constructor | lib/ds/hashmap.c:42-78 | A new map is empty, with the requested or the default number of buckets. |
| Hashmaps.Hashmap.FindBucket | lib/ds/hashmap.c:141-164 | The bucket of the key's hash, created on request; no entry changes. |
| Hashmaps.Hashmap.GetNode | lib/ds/hashmap.c:193-206 | The first entry of the bucket with that hash and an equal key, or -1. |
| Hashmaps.Hashmap.Set | lib/ds/hashmap.c:167-190 | The in-place push keeps the map well formed and adds one fresh entry at the end of its chain. |
| Hashmaps.Hashmap.Get | lib/ds/hashmap.c:209-235 | Returns the data of the entry that the multimap lookup finds, and changes no entry. |
| Hashmaps.Hashmap.Delete | lib/ds/hashmap.c:270-309 | Pop and swap keep the map well formed, delete in the multimap sense, and return the data that a get would have returned. |
| Hashmaps.Hashmap.Traverse | lib/ds/hashmap.c:238-267 | For any callback with any state of its own, the nested loops leave the state and return the result of a visit to all entries in order that stops at the first result other than 0. |
| TreeShape.OrderedIsSorted | 30-thread-synchronization/exercises/30-2.c:111-127 | With left keys < node <= right keys everywhere, the in-order sequence is sorted. |
| TreeShape.StrcmpIsLexicographic | 30-thread-synchronization/exercises/30-2.c:82-84 | The comparison of keys is below zero if and only if the first is a proper prefix of the second or has the smaller char where they first differ. |
| TreeShape.LookupIffOccurs | 30-thread-synchronization/exercises/30-2.c:72-100 | A lookup succeeds if and only if the key occurs, and finds an entry with that key. |
| TreeShape.InsertKeepsOrdered | 30-thread-synchronization/exercises/30-2.c:133-184 | An insertion keeps left keys < node <= right keys. |
| TreeShape.InsertIsInOrderInsert | 30-thread-synchronization/exercises/30-2.c:133-184 | It puts one entry into the in-order sequence, behind all keys up to its own. |
| TreeShape.InsertKeepsLookups | 30-thread-synchronization/exercises/30-2.c:133-184 | No key that could be looked up is looked up differently afterwards. |
| TreeShape.RefusedIff | 30-thread-synchronization/exercises/30-2.c:116-171 | A key is refused if and only if the last entry with that key, in order, exists and has no right child. |
| TreeShape.LatestIsLast | 30-thread-synchronization/exercises/30-2.c:111-127 | The entry on which a refusal depends is the last one, in order, with its key. |
| TreeShape.DuplicateAccepted | 30-thread-synchronization/exercises/30-2.c:119 | After "5" and "7", a second "5" is inserted. |
| TreeShape.DeleteRemovesOneIff | 30-thread-synchronization/exercises/30-2.c:262-282 | Deleting a key that occurs removes exactly the entry found from the in-order sequence, if and only if it has at most one child. |
| TreeShape.DeleteDropsEntry | 30-thread-synchronization/exercises/30-2.c:264-282 | After inserting "8", "4", "2" and "6", deleting "4" leaves only "6" and "8". |
| TreeShape.SmallestIsFirst | 30-thread-synchronization/exercises/30-2.c:268-271 | Going left as far as possible ends at the first entry in order; its subtree is a part of the tree and holds a prefix of the entries. |
| TreeShape.DeleteLeaves | 30-thread-synchronization/exercises/30-2.c:264-282 | Deleting a node with two children leaves, in order, the entries before its subtree, those in the subtree of the first entry on its right, and the entries behind its subtree. |
| TreeShape.SpliceRemovesOne | 30-thread-synchronization/exercises/30-2.c:187-224 | A splice removes exactly the entry found and keeps the order of all others. |
| TreeShape.RemoveKeepsOrdered | 30-thread-synchronization/exercises/30-2.c:227-285 | A deletion keeps left keys < node <= right keys, for any number of children. |
| TreeShape.SpliceKeepsLookups | 30-thread-synchronization/exercises/30-2.c:187-224 | Every other key is looked up as before. |
| TreeLinks.LinkInserted | 30-thread-synchronization/exercises/30-2.c:156-175 | The three pointer writes of an insertion spell out the larger tree, with consistent parent pointers. |
| TreeLinks.DeleteLinks | 30-thread-synchronization/exercises/30-2.c:191-279 | The pointer writes of a splice, at the root or below either side of a parent, and those of the branch for two children spell out the tree that is left, with consistent parent pointers. |
| BinaryTrees.Tree.constructor | 30-thread-synchronization/exercises/30-2.c:288-293 | A new tree is empty. |
| BinaryTrees.Tree.LookupKey | 30-thread-synchronization/exercises/30-2.c:72-100 | The loop over the pointers returns the value of the topmost entry with the key, and succeeds if and only if the key occurs. |
| BinaryTrees.Tree.FindLast | 30-thread-synchronization/exercises/30-2.c:103-130 | The loop ends at the last node of a search that goes right on equal keys. |
| BinaryTrees.Tree.AddChild | 30-thread-synchronization/exercises/30-2.c:133-184 | Null exactly if the key is refused, with the tree unchanged; otherwise a fresh node, and the pointers of the whole tree are those of the insertion. |
| BinaryTrees.Tree.Splice | 30-thread-synchronization/exercises/30-2.c:187-224 | The in-place splice of a node with at most one child leaves the tree without that node, with consistent parent pointers. |
| BinaryTrees.Tree.DeleteNode | 30-thread-synchronization/exercises/30-2.c:227-285 | -1 and nothing changed exactly if the key does not occur; otherwise 0, an ordered tree with consistent pointers, and an in-order sequence that has lost exactly the entry found if and only if that had at most one child; with two children, what is left between the entries before and behind its subtree are those in the subtree of the smallest entry on its right. |
| BinaryTrees.Tree.DropInner | 30-thread-synchronization/exercises/30-2.c:264-282 | The loop to the smallest entry on the right and the pointer writes behind it leave the tree in which that entry's subtree has replaced the node's. |
| BinaryTrees.Tree.FindSmallest | 30-thread-synchronization/exercises/30-2.c:268-271 | The loop ends at the first entry, in order, of the subtree. |
| SemOps.AcceptsExactlyTheGrammar | 47-system-v-semaphores/svsem/svsem_op.c:22-86 | An argument parses to a list of operations if and only if it is a comma-separated list of 1 to 1000 well-formed texts that denote them. |
| SemOps.RoundTrip | 47-system-v-semaphores/svsem/svsem_op.c:8-86 | Printing any 1 to 1000 operations in the documented grammar and parsing the result returns the same list. |
| SemOps.ParseComplete | 47-system-v-semaphores/svsem/svsem_op.c:34-83 | Every such list of texts is accepted as what it denotes, with any leading zeros and any run of flags. |
| SemOps.ParseSound | 47-system-v-semaphores/svsem/svsem_op.c:34-83 | Whatever is accepted is such a list. |
| SemOpErrors.ErrorIsFirstBreak | 47-system-v-semaphores/svsem/svsem_op.c:34-76 | An argument is refused with a given error if and only if, behind some well-formed texts and their commas, there are already 1000 of them or the rest leaves the grammar in the way that this error names. |
| SemOpErrors.FailsIffBreaks | 47-system-v-semaphores/svsem/svsem_op.c:39-76 | For one operation: nothing left, no digit at first, digits without a sign behind them, a sign without a digit behind it, a value behind "=" that is not read as zero, or a well-formed text that neither a comma nor the end follows, each with its own error and exactly then. |
| SemOps.CommaIsAtFlags | 47-system-v-semaphores/svsem/svsem_op.c:74-82 | After an accepted operation, the comma looked for from its start is the one at which its flags ended. |
| SemOps.IsAsWrittenIff | 47-system-v-semaphores/svsem/svsem_op.c:47-59 | An accepted operation has the values that were written, if and only if they fit in 16 bits. |
| SemOps.KeepsLast16Bits | 47-system-v-semaphores/svsem/svsem_op.c:47-72 | Each stored value is, modulo 65536 and in the range of its field, the one written, or the greatest long if that is exceeded; each flag is set exactly if it occurs. |
| SemOps.EqualsAcceptedIff | 47-system-v-semaphores/svsem/svsem_op.c:57-63 | A text with "=" is accepted if and only if its value fits in a long and is a multiple of 65536. |
| SemOps.Reads65536AsZero | 47-system-v-semaphores/svsem/svsem_op.c:57-63 | "0=65536" is accepted and read as "0=0". |
| SemOps.TruncatesSilently | 47-system-v-semaphores/svsem/svsem_op.c:47-59 | "65536+65537" is accepted and read as "0+1". |
| SemOps.ParseOps | 47-system-v-semaphores/svsem/svsem_op.c:22-86 | The loop ends, writes only inside sops, and leaves there the operations of the argument, or reports the first error. |
| SemOps.StoreOne | 47-system-v-semaphores/svsem/svsem_op.c:34-82 | One pass moves one operation from the argument to sops and leaves the result of the whole parse what it was. |
| SemOps.ParseOne | 47-system-v-semaphores/svsem/svsem_op.c:43-76 | The checks of one pass accept and reject, with the same error, what the definition by longest runs does. |
| SemOps.ScanFlags | 47-system-v-semaphores/svsem/svsem_op.c:64-72 | The loop stops behind the longest run of flags and sets each flag that occurs in it. |
| Checksum.AsciiIsRfc1950 | lib/hashing/hash.c:22-39 | On bytes below 128 the loop returns the closed form of sections 2.2 and 8.2 of RFC 1950. |
| Checksum.IsRfc1950Iff | lib/hashing/hash.c:22-39 | For all strings, it does if and only if what the negative chars cost either half is a multiple of 65521. |
| Checksum.IsRfc1950IffAscii | lib/hashing/hash.c:22-39 | With fewer than 466 bytes of 128 or more, it does if and only if there are none of them. |
| Checksum.ManyHighBytesMatch | lib/hashing/hash.c:22-39 | The bytes 127 and 129, 65521 times over, have their checksum, so a bound is needed there. |
| Checksum.HighByteDiffers | lib/hashing/hash.c:33-36 | A single byte 128 gives another checksum. |
| Checksum.DriftLaw | lib/hashing/hash.c:33-36 | For all bytes, either half is that of RFC 1950 less what the negative chars have cost it. |
| Checksum.DriftCounts | lib/hashing/hash.c:34 | The low half loses 256 for each negative char, less 225 for each addition that wraps. |
| Checksum.RunningSumsClosedForm | lib/hashing/hash.c:33-36 | The sum of all s1 values of RFC 1950 is the length plus the weighted sum of the bytes. |
| Checksum.AsciiClosedForm | lib/hashing/hash.c:33-36 | From any state of the loop, bytes below 128 add their plain and their weighted sum modulo 65521. |
| Checksum.WrapsIff | lib/hashing/hash.c:34-35 | The second addition never wraps 32 bits; the first one does exactly if a byte of 128 or more takes it below zero. |
| Checksum.PackedHalves | lib/hashing/hash.c:38 | The shifted half and the other one share no bit, so the result fits a word and both can be read off it. |
| Checksum.ConcatenationLaw | lib/hashing/hash.c:22-39 | The checksum of a concatenation follows from those of its parts and the length of the second, if that has only bytes below 128. |
| Checksum.Adler32 | lib/hashing/hash.c:22-39 | The loop computes that hash, and on bytes below 128 the RFC 1950 checksum. |
| Checksum.CommonSuffix | lib/hashing/hash.c:42-55 | For djb_hash two strings collide if and only if they do with the same suffix appended to both. |
| Checksum.OneByteShows | lib/hashing/hash.c:42-55 | Strings that differ in one byte have different djb hashes. |
| Checksum.RoundIsInjective | lib/hashing/hash.c:51 | A round of djb_hash never maps two hashes to one, since 33 is invertible modulo 2 to the power of 32. |
| Checksum.DjbHash | lib/hashing/hash.c:42-55 | The loop returns 5381 * 33^n plus the sum of each char times 33 to the number of chars behind it, modulo 2 to the power of 32. |
| Checksum.RoundsClosedForm | lib/hashing/hash.c:48-52 | From any word, the rounds evaluate that polynomial at 33. |
| Checksum.DjbOfA | lib/hashing/hash.c:48-52 | The hash of "a" is 177670. |

## Left out

- System calls: semaphores, queues, signals, files and memory are the abstract state of the transition systems; argument parsing, printing and the creation of IPC objects are not modelled, and calls that the programs treat as fatal errors are taken to succeed, except EINTR on a semaphore and a failing read() in the file server.
- Integer widths of counters: xfrs, bytes, totBytes, numMsgs, sigCnt, count, end and max are unbounded in the model; the widths of sembuf fields, strtol() and the hashes are modelled.
- Mutexes inside list, darray, heap, hashmap and tree: these are modelled for sequential use. Several early returns of the hashmap and of List_split leave a mutex locked.
- Memory management: free, destroy and clear functions, and ownership of keys and values, are not modelled; allocation succeeds.
- Null arguments: asserted or rejected by the library, and excluded by the types here.
- SharedMemoryTransfer.EveryRunDelivers: a read() error of the writer, on which it exits, is not a step of the model; SEM_UNDO and a non-retrying reserve, which the two programs do not use, are left out.
- ChildReaping.EveryRunReapsAll: a child's death and its SIGCHLD are one step, no other signals are sent, and each sigsuspend returns after one run of the handler.
- ThreadJoining.EveryRunJoinsAll: the bound on a run counts spurious wakeups, since nothing limits them.
- QueueNotification.NoMessageIsStranded: other processes may send anything at any time, but none receives, and no other signal arrives.
- FileTransfer.ClientGetsItsFile: a client whose server child met a read() error stops with a prefix of its file, as the code makes it; the capacity of a queue counts messages, not bytes; the limit on path names is left out.
- LinkedLists.List.Join: two different lists must both be non-empty, since the code follows null pointers otherwise.
- Heaps.Heap.Pop: the heap must not be empty; the code would read a vacated slot.
- Heaps.Heap.PopReplace: the same.
- Heaps.FromArray: the source array is a sequence of values; its null entries, which a push refuses, are excluded.
- Hashmaps.Hashmap.Get: null data stored on purpose cannot be told from a missing key by a C caller; the model's None covers the missing key alone.
- Hashmaps.Hashmap.Traverse: the callback may keep and change any state of its own, but it cannot change the map, whose mutex the traversal holds, or the data of an entry.
- BinaryTrees.Tree.DeleteNode: the root must not be a node with the key and two children, since the code follows its null parent pointer then. The count field and the locks are left out.
- Checksum.IsRfc1950IffAscii: from 466 bytes of 128 or more on, what they cost can add up to a multiple of 65521, and Checksum.ManyHighBytesMatch is a string for which it does; Checksum.IsRfc1950Iff is the condition for all strings.
- SemOps.ParseOps: the argument's end stands for the terminating null byte; fatal errors are results instead of exits.
- Methods without a C function of their own: Unlink, the Cut methods, SwapItems, GreaterChild, MoveLastToRoot, PushAll, Put, CopyRest, MergeHead, MergeHeads, Halve, Deal, CompareAndSwap, NextSweep, NewBucket, PushInto, SwapRemove, RemoveFrom, DeleteIn, TraverseBucket, LinkBelow, Bypass, FindSmallest, Promote, DropInner, ParseOne, ParseAfterNumber, ParseRestOfOne, FindNext and StoreOne are parts of one C function each; HandOver and Settle change ghost state only.
- The variants 48-1 and 49-2 of the transfer: their end-of-file steps do not complete the handshake.
- fnv1a_hash, the hashes inside hashmap.c, Darray_qsort and Darray_heapsort, Heap_meld, List_copy, debug printers: they would add easy members or wrap library calls.
- The remaining programs of the repository: mostly single system call demonstrations.
