# YTL: in-place algorithms, word-wise memory and strings, and the UDP send queue

This project models four parts of the YTL library in Dafny and proves that their fast, in-place
forms do what their simple specifications say.

- **Sorting, selection and heaps** (`algorithm/include/sort.inl`, `heap.inl`). `SortSpec` says what
  sorting is and that its result is unique; `Rearrange` says what an in-place algorithm may do to an
  array; `Sort`, `NthElement`, `HeapOrder`, `Heap`, `PartialSort` model the code; `HeapQueue` runs
  any sequence of pushes and pops against a multiset priority queue. Pointer arithmetic `t + k`
  becomes an offset `lo`. Elements are integers. Every exchange goes through `Compare.Swap` and the
  comparisons whose number is stated through `Compare.Less` and `Compare.AtMost`; each of these enters
  itself in a ghost tally, and the bounds are on the growth of that tally.
- **Sequences, comparison and search** (`sequence.inl`, `compare.inl`, `search.inl`). `Block` is the
  one specification of moving elements, shared by the element copy and the memory routines;
  `Sequence`, `Compare` and `Search` model the code.
- **Memory and strings** (`memory/src/mem_op.cpp`, `string/src/string.cpp`). One byte array is the
  memory and an index is a pointer, so alignment and overlap are real. `Word` has the 64-bit words
  (bit-vectors, least significant byte first), `CString` what a C string is, `MemOp`, `StringOps` and
  `StringSearch` the routines. A read outside the memory is an error, so the preconditions on word
  reads say which bytes after a string a routine touches. The specifications are those of
  ISO/IEC 9899:2011, section 7.24.
- **The UDP send queue** (`network/src/udp.cpp`). `UdpModel` is the pool as a state machine over an
  oracle that says how each socket call ends; `UdpPool` is the class with its fields updated in
  place, proved to do exactly what the state machine does. `UdpRing` shows that the eight-slot ring
  is a queue that drops its oldest packet when the slot is needed; `UdpLedger` keeps the books of
  accepted, sent, waiting, evicted and lost packets; `UdpRuns` proves them true of every run;
  `UdpBuffers` follows the buffers behind the slots; `UdpOutcomes` says what each operation reports
  and does to connections, call by call; `UdpOrder` and `UdpHome` say exactly when packets leave in
  order and on the connection they were handed in for. A slot's address pointer is an index into the address storage, which is sound
  because the storage never grows beyond its reserved capacity (`UdpRuns.RunStaysValid`). 16-bit
  lengths and the 32-bit position counter wrap as in C++.

`dafny verify dfyconfig.toml` checks everything.

## What the proofs found

- In every run each accepted UDP packet is sent once, waiting once, evicted once or lost once
  (`UdpRuns.RunAccounts`). Nothing is lost exactly when every packet that is queued has a length not
  divisible by 65536 and the position counter does not wrap (`UdpRuns.RunClean`).
- A queued packet comes back whole, to the destination asked for, exactly when its payload has 1 to
  65535 bytes, an address given has a positive length, and the position counter does not wrap
  (`UdpRing.QueueFaithfulIff`).
- The order of acceptance is kept by an operation exactly if it is not a `send` or `send_to` whose flush ends
  without a full socket but leaves packets waiting and whose own packet then goes out
  (`UdpOrder.StepInOrderIff`, `UdpOrder.RunInOrder`). `UdpOrder.OvertakingRun` is such a run. It
  takes a refused call (`UdpOrder.NeverRefusedNeverOvertakes`).
- A flush sends every waiting packet on its own connection, whichever connection the packet was
  handed in for. A flush is safe, whatever the sockets do, exactly if all that waits was handed in for
  its connection (`UdpHome.FlushStaysHomeIff`), an update exactly if no other connection is able to
  flush (`UdpHome.UpdateStaysHomeIff`). `UdpHome.StrayRun` is a run in which a packet goes to the
  peer of another connection.
- A send reports the outcome of its last call only. When its flush is refused and its own call succeeds it
  returns OK, although it has put the connection in error (`UdpOutcomes.SendOutcome`,
  `UdpOutcomes.OkInError`).
- The descents of `lower_bound` and `upper_bound` find the bound (`Search.DescentFindsBound`), but
  the shift after them stops at its left child (`Search.ReturnedIndex`). The index `lower_bound` reads
  is that of the bound only if the bound is node n - 1, and that of `upper_bound` never is
  (`Search.ReturnedIndexIff`).
- `strnstr` does not stop at a terminator of the string searched. This shows exactly if `len` goes
  beyond it and the first match does not end before it (`StringSearch.StrNStrSeesStringIff`).

## Model

| member | source | states |
|---|---|---|
| SortSpec.SortOfUnique | algorithm/include/sort.inl:62-66 | a sequence is the result of sorting s exactly when it is ordered and permutes s |
| SortSpec.OrderStatistic | algorithm/include/sort.inl:96-117 | any rearrangement that separates around position k has there the value sorting puts there |
| SortSpec.SortOfSplit | algorithm/include/sort.inl:26-35 | parts already separated into small and large can be sorted separately |
| Compare.Swap | algorithm/include/compare.inl:31-37 | exchanges two elements and changes nothing else |
| Rearrange.CutKept | algorithm/include/sort.inl:96-117 | rearranging one side of a separation keeps the separation |
| Sort.Partition | algorithm/include/sort.inl:7-24 | rearranges only the stretch, splits it around its last element into not larger and larger, uses n - 1 comparisons and i + 1 exchanges, changes nothing on sorted input |
| Sort.PairsSplit | algorithm/include/sort.inl:26-35 | a split into p and q elements never costs more than peeling off one element |
| Sort.QuickSortStep | algorithm/include/sort.inl:26-35 | partitioning and sorting both sides in place sorts the stretch |
| Sort.QuickSort | algorithm/include/sort.inl:26-35 | the stretch becomes its sorted form, the rest is unchanged, with at most n(n-1)/2 comparisons and exactly that many on sorted input |
| Sort.Sort | algorithm/include/sort.inl:62-66 | the first num elements become their sorted form within num(num-1)/2 comparisons, exactly that many if already sorted |
| NthElement.NarrowedStep | algorithm/include/sort.inl:105-116 | each partition finds nth or leaves a smaller stretch around it that is cut off from the rest |
| NthElement.NthElement | algorithm/include/sort.inl:96-117 | for every nth below num the value sort would put at nth is there, nothing before is larger, nothing after smaller, in at most num(num-1)/2 comparisons; otherwise nothing changes |
| HeapOrder.HeapTop | algorithm/include/heap.inl:43-48 | the root of a heap is a maximum |
| HeapOrder.HoleDownStep | algorithm/include/heap.inl:23-39 | swapping with the larger child moves the only violation of heap order to that child |
| HeapOrder.HoleUpStep | algorithm/include/heap.inl:10-17 | swapping with a smaller parent moves the only violation to that parent |
| HeapOrder.SumHeightsHalves | algorithm/include/heap.inl:43-48 | the heights of the inner nodes of a tree reduce to those of a tree half the size |
| HeapOrder.SumHeightsLinear | algorithm/include/heap.inl:43-48 | all node heights of a tree with n nodes add up to at most n - 1 |
| HeapOrder.SettledStep | algorithm/include/heap.inl:65-73 | moving the root behind the heap settles one more element in its sorted place |
| Heap.SiftUp | algorithm/include/heap.inl:7-18 | a heap with one more element at its end becomes a heap of the same elements by at most as many exchanges as the tree is high |
| Heap.SiftDown | algorithm/include/heap.inl:20-40 | heap order below a node is extended to that node by at most its height in exchanges |
| Heap.MakeHeap | algorithm/include/heap.inl:43-48 | builds a heap of the same elements with at most n - 1 exchanges in all |
| Heap.PushHeap | algorithm/include/heap.inl:50-54 | heap order is extended to the new last element, elements conserved, at most as many exchanges as the tree is high |
| Heap.PopHeap | algorithm/include/heap.inl:56-63 | the old root, a maximum, ends up last and the others form a heap, at most one exchange more than the tree is high |
| Heap.SortHeap | algorithm/include/heap.inl:65-73 | a heap becomes the sorted form of its elements by at most (n - 1)(1 + height) exchanges |
| Heap.MakeThenSortHeap | algorithm/include/heap.inl:43-73 | building a heap and sorting it gives exactly the result of sort, by at most (n - 1)(2 + height) exchanges |
| HeapQueue.MaxOf | algorithm/include/heap.inl:56-63 | a non-empty multiset has a maximum, which is what a pop serves |
| HeapQueue.Serve | algorithm/include/heap.inl:50-63 | for any sequence of pushes and pops the popped values are those of a multiset priority queue |
| HeapQueue.DrainSorts | algorithm/include/heap.inl:56-63 | emptying that queue gives the sorted elements in reverse |
| PartialSort.SiftDown | algorithm/include/sort.inl:37-59 | the inclusive-bound variant restores heap order up to and including end by at most the height of the node in exchanges |
| PartialSort.SelectedSifted | algorithm/include/sort.inl:80-87 | exchanging a smaller element with the root keeps the m smallest seen so far in the heap |
| PartialSort.PartialSort | algorithm/include/sort.inl:68-94 | the first min(m, num) elements are the prefix of the sorted array, nothing after is smaller, elements conserved; for m below num by at most m - 1 + (num - 1)(1 + height of a tree of m) exchanges |
| Block.ForwardStep | memory/src/mem_op.cpp:166-190 | copying upwards piece by piece, pieces overlapping or not, is moving the block at once |
| Block.BackwardStep | memory/src/mem_op.cpp:138-165 | the same downwards |
| Block.ForwardUnread | memory/src/mem_op.cpp:166-190 | going up, the source bytes still to be read are never overwritten |
| Block.BackwardUnread | memory/src/mem_op.cpp:138-165 | going down, the source bytes still to be read are never overwritten |
| Sequence.Copy | algorithm/include/sequence.inl:5-18 | for any two stretches the destination gets the source as it was, nothing else changes |
| Sequence.Reverse | algorithm/include/sequence.inl:27-32 | the stretch is reversed by n / 2 exchanges, the rest unchanged |
| Sequence.ReversedAt | algorithm/include/sequence.inl:27-32 | element k of the reversal is element n - 1 - k |
| Sequence.ThreeReversals | algorithm/include/sequence.inl:40-42 | reversing both parts and then the whole exchanges the parts |
| Sequence.Rotate | algorithm/include/sequence.inl:34-45 | a·b with a of length mid becomes b·a in place by at most n exchanges |
| Sequence.RotatedTwice | algorithm/include/sequence.inl:34-45 | rotating by i and then by j is rotating by (i + j) mod n |
| Compare.LexicographicalCompare | algorithm/include/compare.inl:17-29 | decides the lexicographic order |
| Compare.LexLessIsPrecedes | algorithm/include/compare.inl:17-29 | that order is: smaller at the first difference, or a proper prefix |
| Compare.LexLessTotal | algorithm/include/compare.inl:17-29 | the order is irreflexive, asymmetric and total |
| Compare.LexLessTransitive | algorithm/include/compare.inl:17-29 | the order is transitive |
| Search.Trichotomy | algorithm/include/search.inl:8-10 | every node is below k, left of the path to k, or right of it |
| Search.DecidedStep | algorithm/include/search.inl:9-12 | each comparison decides the node and the subtree not entered |
| Search.UndecidedAtExit | algorithm/include/search.inl:9-10 | when the loop ends at most node k is undecided |
| Search.LowerBoundDescent | algorithm/include/search.inl:6-12 | reads only nodes 1 to n, makes at most floor(log2 n) + 1 comparisons, ends with a child of the node where the loop ended, and its path separates the elements less than x from the others exactly |
| Search.UpperBoundDescent | algorithm/include/search.inl:19-24 | the same for the elements less than or equal to x |
| Search.DescendedUnique | algorithm/include/search.inl:6-24 | the tree and x determine the k a descent ends with |
| Search.DescentFindsBound | algorithm/include/search.inl:6-26 | the last left turn inside the tree is the node with the least element not less than x, for upper_bound not less than or equal to x, and there is none if there is no left turn |
| Search.ShiftStopsBelowBound | algorithm/include/search.inl:13-13 | dropping the trailing ones gives twice the index of the last left turn |
| Search.ReturnedIndex | algorithm/include/search.inl:13-26 | the index is twice the node of the bound, replaced by n - 1 in lower_bound if it is n or more; if the path left the tree at n + 1 that node is taken for the bound |
| Search.ReturnedIndexIff | algorithm/include/search.inl:13-26 | when there is a bound, the clamped index of lower_bound is its node exactly if that is node n - 1, and the index of upper_bound never is |
| Word.HasZeroIff | string/src/string.cpp:5-11 | the test is true exactly when some byte of the word is zero |
| Word.BytesOfFrom | string/src/string.cpp:29-31 | eight bytes loaded as a word are the bytes of that word |
| Word.StoreAligned | memory/src/mem_op.cpp:58-62 | storing a word at an aligned address writes its eight bytes and no other |
| MemOp.CopyUp | memory/src/mem_op.cpp:168-189 | bytes up to alignment, aligned word stores, tail: moves the block unless the destination starts inside the source |
| MemOp.CopyDown | memory/src/mem_op.cpp:140-164 | the same from the far end for a destination above the source |
| MemOp.MemMove | memory/src/mem_op.cpp:130-193 | for any two ranges and alignments the destination gets the source as it was, no other byte changes |
| MemOp.MemCpy | memory/src/mem_op.cpp:39-70 | the same unless the destination starts inside the source |
| MemOp.PatternBytes | memory/src/mem_op.cpp:22-23 | all eight bytes of the pattern word are the byte |
| MemOp.MemSet | memory/src/mem_op.cpp:6-37 | each of the n bytes becomes c modulo 256, every other byte keeps its value |
| MemOp.MemCmp | memory/src/mem_op.cpp:72-128 | the unsigned difference at the first differing byte, or 0, for any alignment |
| MemOp.ComparedAt | memory/src/mem_op.cpp:72-128 | the reference comparison is the difference, as unsigned numbers, at the first differing index |
| MemOp.ComparedIsLexicographic | memory/src/mem_op.cpp:72-128 | its sign is the lexicographic order of the bytes, 0 only for equal blocks |
| CString.StrUnique | string/src/string.cpp:16-38 | a stretch without zeros before a zero byte is the string |
| CString.AlignedWordInMemory | string/src/string.cpp:29-31 | a scan needs only the aligned word that holds the terminator |
| CString.StrComparedIsLexicographic | string/src/string.cpp:166-194 | the sign of a string comparison is the lexicographic order, 0 only for equal strings |
| CString.StrNComparedAt | string/src/string.cpp:166-208 | a comparison is the difference, as unsigned numbers, of the first characters that differ below the limit, a terminator counting as 0 |
| CString.StrNComparedNone | string/src/string.cpp:166-208 | it is 0 for equal strings and if the limit comes before a difference |
| CString.StrNComparedMatches | string/src/string.cpp:196-208 | comparing as many characters as the needle has is 0 exactly on a match |
| CString.MatchFromIsFirst | string/src/string.cpp:311-337 | the reference search gives the least index of an occurrence, or none exactly if there is none |
| StringOps.StrLen | string/src/string.cpp:16-38 | the least index of a zero byte, from any alignment |
| StringOps.StrCpy | string/src/string.cpp:51-73 | writes the string and its terminator and nothing else |
| StringOps.StrLCpy | string/src/string.cpp:89-111 | writes as much as fits size bytes and a terminator, nothing for size 0, and returns the source length |
| StringOps.StrLCat | string/src/string.cpp:139-164 | appends as much as fits, leaves an unterminated buffer alone, and returns the length it tried to make |
| StringOps.CopyThenConcat | string/src/string.cpp:89-164 | together they leave the first min(len a + len b, size - 1) bytes of a·b and a terminator, and each returns at least size exactly when it cut something |
| StringOps.StrCmp | string/src/string.cpp:166-194 | the unsigned difference at the first differing character, or 0, for any alignment of both |
| StringSearch.StrNCmp | string/src/string.cpp:196-208 | the same limited to count characters |
| StringSearch.StrNStr | string/src/string.cpp:290-304 | the first occurrence of the needle in exactly len bytes |
| StringSearch.StrNStrSeesStringIff | string/src/string.cpp:290-304 | searching len bytes is searching the string up to its terminator exactly if the first match, if any, ends before the terminator, and always for len up to the string length |
| StringSearch.StrStr | string/src/string.cpp:311-337 | the first occurrence of the needle in the haystack |
| StringSearch.FindBothWays | string/src/string.cpp:290-337 | both searches agree for len = strlen, on the first occurrence |
| UdpModel.QueueValid | network/src/udp.cpp:414-447 | queueing keeps len <= max_len <= buffer and one address entry per slot for any payload and address |
| UdpModel.FlushValid | network/src/udp.cpp:366-412 | so does flushing, however its calls end |
| UdpRing.PendingAtMostEight | network/src/udp.cpp:374-380 | at most eight packets wait |
| UdpRing.FullRing | network/src/udp.cpp:414-418 | in a ring without gaps the slot to be written is still needed exactly when eight packets wait |
| UdpRing.QueueAppends | network/src/udp.cpp:414-447 | without a counter wrap queueing drops the oldest packet if its slot is needed and appends the new one, cut to its length modulo 65536 and not at all if that is 0 |
| UdpRing.QueueKeepsRing | network/src/udp.cpp:414-447 | if the payload length is not divisible by 65536 and the counter does not wrap, slots outside the window stay empty and what waits has no gaps |
| UdpRing.QueueOthers | network/src/udp.cpp:414-447 | writing one slot changes neither payload nor destination of the others |
| UdpRing.QueueFaithfulIff | network/src/udp.cpp:414-447 | a queued packet comes back as handed over exactly for payloads of 1 to 65535 bytes, addresses with a length and no counter wrap |
| UdpRing.WrappedEmpty | network/src/udp.cpp:417-418 | when the position counter wraps, nothing waits any more |
| UdpRing.TryFlushTakes | network/src/udp.cpp:366-412 | a flush makes one successful call for each packet it sends, the oldest waiting in order on its connection, stops only at a call that blocks or is refused, keeps the rest, resets the position counter exactly if nothing is left, and changes no connection unless that call is refused; in error it does nothing |
| UdpRing.FlushKeepsRing | network/src/udp.cpp:366-412 | flushing leaves slots outside the window empty and no gaps |
| UdpRing.UpdateDrains | network/src/udp.cpp:227-238 | with willing sockets and one active connection without error an update empties the queue |
| UdpLedger.FlushedBooked | network/src/udp.cpp:366-412 | sending from the front keeps every packet in exactly one place and keeps the order |
| UdpLedger.EnqueuedBooked | network/src/udp.cpp:414-447 | so does queueing, whether it stores, evicts or loses packets |
| UdpLedger.PassedBooked | network/src/udp.cpp:253-264 | sending directly keeps the places, and the order exactly if nothing waits |
| UdpRuns.RunStaysValid | network/src/udp.cpp:227-447 | in every run lengths fit their buffers, each slot keeps its one address entry for good, and eight entries suffice |
| UdpRuns.ReportedIsAccepted | network/src/udp.cpp:240-296 | a packet is accepted exactly when OK or BUFFERED is returned, and then it is sent last, waiting last or lost last |
| UdpRuns.SendFollows | network/src/udp.cpp:240-296 | a send or send_to keeps the ledger true of the pool, for any payload and outcome |
| UdpRuns.UpdateFollows | network/src/udp.cpp:227-238 | so does an update, which loses nothing and keeps the order |
| UdpRuns.RunAccounts | network/src/udp.cpp:227-447 | in every run, whatever the payloads, outcomes and counter, each accepted packet is sent once, waiting once, evicted once or lost once and never two of these; what is sent or waiting is the packet accepted or its queued form; evicted ones are older than all waiting, at most eight wait |
| UdpRuns.NothingLostIff | network/src/udp.cpp:414-447 | an operation loses nothing exactly if a packet it queues has a length not divisible by 65536 and the counter does not wrap |
| UdpRuns.RunClean | network/src/udp.cpp:227-447 | a run loses nothing exactly if that holds of each operation; then slots outside the window are empty and only packets followed by eight newer ones are evicted |
| UdpRuns.ClientKeepsRunOk | network/src/udp.cpp:227-447 | it holds, whatever the sockets do, if no payload length is divisible by 65536 and there are fewer operations than the counter has room for |
| UdpBuffers.QueueBuffers | network/src/udp.cpp:417-432 | queueing keeps a slot's buffer if its recorded size is enough, else replaces it by one of the packet's size; the recorded size shrinks exactly if 16 bits cut it to less than it was |
| UdpBuffers.FlushBuffers | network/src/udp.cpp:382-410 | flushing changes neither buffers nor addresses, only lengths |
| UdpBuffers.RunBuffers | network/src/udp.cpp:227-447 | in a run with payloads below 65536 bytes no recorded buffer size ever shrinks |
| UdpOutcomes.FlushOutcome | network/src/udp.cpp:366-412 | a flush puts its connection, and no other, in error exactly if one of its calls is refused, and reports a full socket exactly if one would block |
| UdpOutcomes.SendOutcome | network/src/udp.cpp:240-296 | a send changes no other connection and no state; on an active connection without error it reports the outcome of its last call and leaves the error NONE unless one of its calls is refused; otherwise it does nothing and fails |
| UdpOutcomes.SendPackets | network/src/udp.cpp:240-296 | after the packets its flush sends, a send puts its own packet on the wire whole exactly if it reports OK, appends it to the queue exactly if BUFFERED, and else leaves no trace of it |
| UdpOutcomes.OkInError | network/src/udp.cpp:248-264 | a send returns OK and leaves its connection in error exactly if a call of its flush is refused and its own succeeds |
| UdpOutcomes.UpdateOutcome | network/src/udp.cpp:227-238 | an update gives every connection that is active and without error its turn, with a call in it if packets remain, and none to others; refused calls in its turn, and nothing else, put a connection in error |
| UdpOutcomes.RunErrors | network/src/udp.cpp:227-447 | in any run of sends and updates no state changes and no error goes away, and connections are put in error if and only if a call was refused |
| UdpOrder.StepInOrderIff | network/src/udp.cpp:248-264 | an operation keeps the order exactly if it is not a send whose flush leaves packets waiting without a full socket and whose own packet goes out |
| UdpOrder.RunInOrder | network/src/udp.cpp:227-447 | a run is in order after every operation exactly if none overtakes; what was sent followed by what waits is then the accepted packets in order, missing exactly the evicted and lost ones |
| UdpOrder.NeverRefusedNeverOvertakes | network/src/udp.cpp:227-447 | nothing overtakes while every call succeeds or would block |
| UdpOrder.OvertakingRun | network/src/udp.cpp:248-264 | two sends on one connection whose packets leave in the wrong order |
| UdpHome.FlushHome | network/src/udp.cpp:376-408 | what a flush sends leaves on the connection it was handed in for exactly if that is the flushing one |
| UdpHome.FlushStaysHomeIff | network/src/udp.cpp:366-412 | that is so for any sockets exactly if all that waits was handed in for the flushing connection, or the connection is in error |
| UdpHome.UpdateStaysHomeIff | network/src/udp.cpp:227-238 | an update sends no packet on a wrong connection for any sockets exactly if each active connection without error is that of all that waits |
| UdpHome.RunStaysHome | network/src/udp.cpp:227-447 | if every operation of a run finds such a state, every packet leaves on the connection it was handed in for |
| UdpHome.SoleConnectionStaysHome | network/src/udp.cpp:227-447 | so it does if never more than one connection is active and without error |
| UdpHome.StrayRun | network/src/udp.cpp:227-447 | a packet handed in for connection 1 that the next update sends on connection 0 |
| UdpPool.UDPPool.constructor | network/src/udp.cpp:19-28 | the pool starts as the unused queue |
| UdpPool.UDPPool.TryFlushQueue | network/src/udp.cpp:366-412 | the fields after it are those of the state machine's flush, and so is the result |
| UdpPool.UDPPool.QueuePacket | network/src/udp.cpp:414-447 | the same for queueing |
| UdpPool.UDPPool.Offer | network/src/udp.cpp:240-296 | the same for the common body of send and send_to |
| UdpPool.UDPPool.Send | network/src/udp.cpp:240-265 | send is the state machine's send without an address |
| UdpPool.UDPPool.SendTo | network/src/udp.cpp:267-296 | send_to is the state machine's send with the address |
| UdpPool.UDPPool.Update | network/src/udp.cpp:227-238 | flushes on every active connection in turn |
| UdpPool.Drive | network/src/udp.cpp:227-447 | any sequence of calls takes the pool where the run of the state machine leads |

## Left out

- The values `lower_bound` and `upper_bound` return and all of `binary_search`: the index is modelled (`Search.ReturnedIndexIff`), the element read through it is not, since it lies outside the tree in some cases.
- PartialSort.PartialSort: m = 0 with elements present is excluded, because (m - 1) / 2 wraps to an index outside the array.
- Heap.PushHeap: n = 0 is excluded, because n - 1 wraps.
- Element types other than integers, and move costs, for sorting and searching. Copying, reversal and rotation are generic.
- MemOp.MemCpy: a destination that starts inside the source is excluded; the standard leaves every overlap undefined.
- MemOp.CopyUp: the loops written out in both `memcpy` and `memmove` are one method here; likewise `MemOp.CompareBytes`, `StringOps.ScanToEnd`, `StringOps.CountRest`, `StringOps.Append` and `StringSearch.MatchesHere` stand for loops inside their routines.
- Search.ShiftStopsBelowBound: `__builtin_ctz` sees only the low 32 bits of its argument; indices whose low 32 bits are all ones, in trees of 2^31 - 1 nodes or more, are not treated differently here.
- Wrap-around of addresses and `size_t` counters: indices are unbounded and stay inside the memory.
- C++ aliasing rules, the big-endian order of bytes in a word (no result depends on it), and NEON code.
- The value `rotate` returns.
- `strcasecmp`, `strncasecmp` and `strchr`: their character handling has no contract to meet. `strnlen`, `strncpy`, `strcat`, `strncat`, `strrchr`, `strnchr`, `accumulate`, `adjacent_difference`, `find`, `count`, `equal`, `fill`, `min` and `max` would only add single loops.
- UdpModel.QueueValid: allocation in `queue_packet` is taken to succeed.
- UdpOrder.RunInOrder: says nothing about the final order of a run in which a packet overtook another and the one overtaken was evicted later.
- UdpHome.RunStaysHome: its condition is sufficient for a run; it is exact for one flush and one update, for all outcomes of calls together.
- UDP connection set-up and tear-down, receiving, `resolve_host` and `send_oneshot`: in a run they are arbitrary changes of connection state between operations.
- `memory/include/allocator.inl`, `network/src/https.cpp` and `concurrency/`.
