# Verified models of the repository's algorithms

A Dafny model of the list, sorting, packet-accounting and byte-walking programs of the
repository, with proofs of what they compute. `dafny verify dfyconfig.toml` checks it.

| file | models |
|---|---|
| `LinkedList.dfy` | the node type, NULL-terminated lists |
| `Floyd.dfy` | two-pointer cycle search, the cycle's length, building a loop |
| `ListSurgery.dfy` | reverse, rotate, middle, delete the middle, on heap nodes |
| `DigitLists.dfy` | lists of digits as numbers, comparison, overflow |
| `HashTable.dfy`, `DeleteDuplicates.dfy` | the one-slot hash table and both de-duplications |
| `SortSpec.dfy`, `ExchangeSorts.dfy`, `MergeSort.dfy`, `QuickSort.dfy`, `SortAgreement.dfy` | the five sorts and how they agree |
| `Octets.dfy` | the octet type |
| `XdpDropIcmp.dfy` | the XDP program, one packet after the other |
| `SharedCounter.dfy`, `XdpConcurrent.dfy`, `XdpLedger.dfy` | the XDP program on any number of CPUs |
| `InformationElements.dfy` | the SSID walk and its escaping |
| `ScanWait.dfy` | the callbacks and wait loops of a scan request |
| `RouteAttributes.dfy` | the route attribute walk |

Where the code needs a word of explanation:

- Sorting is modelled on records, a key and a payload that travels with it. The programs
  compare keys only; the integer arrays of the source are the keys. The payload makes
  stability observable.
- `do_merge` declares its two temporary arrays with their sizes exchanged
  (sort/merge_sort/merge_sort.c:26-27). The model gives the left copy n1 cells and the right
  copy n2, as the copy loops use them; `MergeSort.DeclaredBuffersFitPowersOfTwo` says for
  which lengths the declared sizes would do.
- The scan to the right in `partition` (sort/quick_sort/quick_sort.c:32) has no bound and
  `main` sorts up to the last cell, so the program may read behind its array: on [2, 1] it
  does, on [1, 2] it does not. The model stops there and reports it. `QuickSort.RunsOff`
  decides from the input alone which runs do; its only ingredient is what a partition leaves
  behind its cut, `QuickSort.RightPart`.
- `find_item` looks at occupancy only, so the exact result of the hash de-duplication is the
  first node per bucket. `hash_func` keeps the sign of a negative value, which is inside the
  table exactly for the multiples of CAPACITY; the table operations take all values that
  have a bucket.
- `reverse` and the sorted `delete_duplicate` read through the head before testing it, and
  `append` with `make_loop` reads three links deep; their models ask for what those reads
  need. `delete_middle` never finds the head, so its model asks for a later node.
- `malloc(sizeof(struct node *))` is taken to allocate a whole node; `free` leaves no trace.
- A `struct node **` parameter that the function reassigns becomes a result.
- Ghost parameters carry the sequence of nodes of a list, or a set closed under `next`; they
  add no condition beyond the list being finite.
- In the concurrent model an action that is not the turn of its CPU changes nothing, so
  every sequence of actions is a run. `bpf_map_lookup_elem` and `bpf_map_update_elem` are
  atomic, and each key has one stable cell.
- `parse_route_attributes` is specified on an area of the length it is given. Its caller
  passes the length of the whole message
  (socket/netlink_socket/rt_netlink/get_route/get_route.c:28, 39), which includes 28 octets
  of headers in front of the attributes. The area is then the attributes and 28 octets
  behind them; `RouteAttributes.PhantomIff` says what becomes of it.
- The SSID element is that of section 9.4.2.2 of IEEE Std 802.11-2016, the IP header that of
  section 3.1 of RFC 791.

## Model

| member | source | states |
|---|---|---|
| Floyd.SearchLoop | linked_list/single_linked_list/search/search_loop_and_count_length/search_loop_using_Floyd_algo_and_count_len.c:42-76 | On every finite node graph it returns the cycle length of a cyclic list (some node comes back after that many links and no node ever comes back sooner), 0 exactly for a non-empty list that ends, -1 exactly for the empty one, after at most as many rounds of the race as there are reachable nodes |
| Floyd.MeasureCycle | linked_list/single_linked_list/search/search_loop_and_count_length/search_loop_using_Floyd_algo_and_count_len.c:69-75 | The second walk, from the meeting point to itself, counts exactly one cycle |
| Floyd.SearchLoopYesNo | linked_list/single_linked_list/search/search_loop/using_Floyd_cycle_finding_aka_two_pointers/search_loop_using_Floyd_algo.c:42-63 | Returns 1 exactly for cyclic lists, that is, exactly when the counting program returns a positive number |
| Floyd.RhoExists | linked_list/single_linked_list/search/search_loop_and_count_length/search_loop_using_Floyd_algo_and_count_len.c:42-76 | Every finite graph seen from one node is a path of distinct nodes whose last link is null or leads back into the path |
| Floyd.RhoAnswers | linked_list/single_linked_list/search/search_loop_and_count_length/search_loop_using_Floyd_algo_and_count_len.c:65-75 | The shape decides both answers: the list is cyclic exactly when the path is re-entered, and the part behind the entry is the cycle |
| Floyd.CycleLengthIsUnique | linked_list/single_linked_list/search/search_loop_and_count_length/search_loop_using_Floyd_algo_and_count_len.c:68-75 | The cycle length is determined by the graph |
| Floyd.MeetingPoints | linked_list/single_linked_list/search/search_loop_and_count_length/search_loop_using_Floyd_algo_and_count_len.c:53-63 | The pointers coincide after t > 0 rounds exactly when t is past the tail and a multiple of the cycle length |
| Floyd.SomeMeeting | linked_list/single_linked_list/search/search_loop_and_count_length/search_loop_using_Floyd_algo_and_count_len.c:53-63 | On a cyclic list the pointers meet within as many rounds as there are reachable nodes |
| Floyd.RevisitedIsOnCycle | linked_list/single_linked_list/search/search_loop_and_count_length/search_loop_using_Floyd_algo_and_count_len.c:68-71 | A node met again lies on the cycle and comes round after exactly one cycle length |
| Floyd.Append | linked_list/single_linked_list/search/search_loop_and_count_length/search_loop_using_Floyd_algo_and_count_len.c:18-40 | Appends a fresh node behind the last one; with make_loop the result is a rho that re-enters at the fourth node |
| Floyd.BuildThenSearch | linked_list/single_linked_list/search/search_loop_and_count_length/search_loop_using_Floyd_algo_and_count_len.c:18-76 | Closing a loop on an acyclic list of n >= 3 nodes and searching it returns n - 2 |
| ListSurgery.Reverse | linked_list/single_linked_list/reverse/iterative/reverse_iterative.c:35-51 | Relinks exactly the nodes of the list into the reverse order, NULL-terminated again |
| ListSurgery.MoveTailToHead | linked_list/single_linked_list/move/move_tail_to_head.c:31-48 | Relinks the nodes so that the last one comes first; empty and one-node lists stay as they are |
| ListSurgery.ReverseTwice | linked_list/single_linked_list/reverse/iterative/reverse_iterative.c:35-51 | Reversing twice restores the head and every link |
| ListSurgery.RotateFullCircle | linked_list/single_linked_list/move/move_tail_to_head.c:31-48 | Rotating a list of n nodes n times restores the head and every link |
| ListSurgery.RotateAndBack | linked_list/single_linked_list/move/move_tail_to_head.c:31-48 | Reverse, rotate, reverse undoes a rotation on the heap |
| ListSurgery.RotatedTimesSplits | linked_list/single_linked_list/move/move_tail_to_head.c:31-48 | Rotating k times brings the last k elements to the front in order |
| ListSurgery.ReverseRotateReverse | linked_list/single_linked_list/move/move_tail_to_head.c:31-48 | Reverse-rotate-reverse is the inverse of rotate, from both sides |
| ListSurgery.FindMiddle | linked_list/single_linked_list/delete/delete_middle/search_middle_using_two_pointers_and_delete.c:36-53 | The two-pointer search stops at index len/2, NULL for the empty list |
| ListSurgery.SearchMiddleTwoPointers | linked_list/single_linked_list/search/search_middle/using_two_pointers/search_middle_using_two_pointers.c:37-54 | Returns the value at index len/2, -1 for the empty list |
| ListSurgery.SearchMiddleByCount | linked_list/single_linked_list/search/search_middle/using_divide_by_2/search_middle.c:37-62 | The counting form returns the same value, so the two-pointer form refines it |
| ListSurgery.DeleteMiddle | linked_list/single_linked_list/delete/delete_middle/search_middle_using_two_pointers_and_delete.c:55-64 | Unlinks exactly the given node, all others keep their order |
| ListSurgery.DeleteFoundMiddle | linked_list/single_linked_list/delete/delete_middle/search_middle_using_two_pointers_and_delete.c:75-79 | For two nodes or more, search and delete remove exactly the node at len/2 |
| DigitLists.CheckLen | linked_list/single_linked_list/calculate/compare_two_list/compare_two_lists.c:34-45 | The number of nodes |
| DigitLists.Compare | linked_list/single_linked_list/calculate/compare_two_list/compare_two_lists.c:47-70 | The shortlex comparison of the two lists, and where it leaves the two heads of the caller: unmoved for different lengths, otherwise at the first difference |
| DigitLists.ShortlexIsTotalOrder | linked_list/single_linked_list/calculate/compare_two_list/compare_two_lists.c:47-70 | compare is a total order: 0 only for equal lists, antisymmetric, transitive, total |
| DigitLists.ShortlexIsNumeric | linked_list/single_linked_list/calculate/compare_two_list/compare_two_lists.c:47-70 | On non-empty digit lists without leading zeros compare is the sign of the difference of the numbers |
| DigitLists.CalcNumber | linked_list/single_linked_list/calculate/minus_two_lists/subtract_two_lists.c:48-56 | The positional value of the first len digits; on digits all powers of ten are finite and no partial sum leaves the int range if and only if the number fits an int and len is at most 309 |
| DigitLists.HornerIsPositional | linked_list/single_linked_list/calculate/minus_two_lists/subtract_two_lists.c:74-84 | The running loop computes the positional value, for any values and lengths |
| DigitLists.ReadBoth | linked_list/single_linked_list/calculate/multiply_two_lists/multiply_two_lists.c:70-80 | Both lists are read to their positional values whatever their relative lengths, both heads end at NULL, and no intermediate value leaves the 32-bit range exactly when no prefix does |
| DigitLists.Subtract | linked_list/single_linked_list/calculate/minus_two_lists/subtract_two_lists.c:74-88 | Prints the distance of the two numbers; on digits nothing overflows if and only if both numbers fit an int |
| DigitLists.Multiply | linked_list/single_linked_list/calculate/multiply_two_lists/multiply_two_lists.c:70-81 | Prints the product; on digits nothing overflows if and only if both numbers and their product fit an int |
| DigitLists.NineDigitsFit | linked_list/single_linked_list/calculate/minus_two_lists/subtract_two_lists.c:74-84 | So up to nine digits, leading zeros or not, every intermediate value fits a 32-bit int |
| DigitLists.FitsIffNumberFits | linked_list/single_linked_list/calculate/minus_two_lists/subtract_two_lists.c:74-84 | The running loop stays inside the int range if and only if the number read does |
| DigitLists.FitsIffNotAboveIntMax | linked_list/single_linked_list/calculate/minus_two_lists/subtract_two_lists.c:74-84 | For a digit list without leading zeros that is so if and only if compare does not put it above 2147483647 |
| DigitLists.FirstListThatOverflows | linked_list/single_linked_list/calculate/minus_two_lists/subtract_two_lists.c:74-84 | 2147483648 overflows |
| DigitLists.ProductFits | linked_list/single_linked_list/calculate/multiply_two_lists/multiply_two_lists.c:81 | The product of lists with at most nine digits in total fits |
| HashTable.HashFunc | linked_list/single_linked_list/delete/delete_duplicate/in_unsorted_list/using_hash/delete_duplicate_in_unsorted_using_hash.c:19-21 | A bucket of the table if and only if the key is non-negative or a multiple of CAPACITY; otherwise a negative number, as in C |
| HashTable.MinusOneIsOutside | linked_list/single_linked_list/delete/delete_duplicate/in_unsorted_list/using_hash/delete_duplicate_in_unsorted_using_hash.c:19-21 | -1 indexes in front of the table, -20 does not |
| HashTable.TwentyBuckets | linked_list/single_linked_list/delete/delete_duplicate/in_unsorted_list/using_hash/delete_duplicate_in_unsorted_using_hash.c:5-21 | The values below 20 have a bucket each, their own number, and 20 further on the buckets repeat |
| HashTable.SameBucketIffCongruent | linked_list/single_linked_list/delete/delete_duplicate/in_unsorted_list/using_hash/delete_duplicate_in_unsorted_using_hash.c:19-21 | Two values that have a bucket share it exactly when they are congruent modulo CAPACITY |
| HashTable.Table.constructor | linked_list/single_linked_list/delete/delete_duplicate/in_unsorted_list/using_hash/delete_duplicate_in_unsorted_using_hash.c:23-30 | All buckets unmarked, the count zero |
| HashTable.Table.Insert | linked_list/single_linked_list/delete/delete_duplicate/in_unsorted_list/using_hash/delete_duplicate_in_unsorted_using_hash.c:39-57 | Stores the value exactly into an unmarked bucket and changes nothing else, whatever an occupied bucket holds; never reports a lack of space; keeps the invariant that size_used counts the marked buckets and each holds a value hashing to it |
| HashTable.Table.Remove | linked_list/single_linked_list/delete/delete_duplicate/in_unsorted_list/using_hash/delete_duplicate_in_unsorted_using_hash.c:59-70 | Clears the bucket exactly when it holds this value; keeps the invariant |
| HashTable.Table.Find | linked_list/single_linked_list/delete/delete_duplicate/in_unsorted_list/using_hash/delete_duplicate_in_unsorted_using_hash.c:72-80 | Says whether the bucket is occupied, by whatever value |
| HashTable.Run | linked_list/single_linked_list/delete/delete_duplicate/in_unsorted_list/using_hash/delete_duplicate_in_unsorted_using_hash.c:39-80 | Over every sequence of operations on values that have a bucket, after init_table, the invariant holds and no insertion reports a lack of space |
| HashTable.OccupantsChange | linked_list/single_linked_list/delete/delete_duplicate/in_unsorted_list/using_hash/delete_duplicate_in_unsorted_using_hash.c:39-80 | A bucket gets a value only when it is free and a value hashing to it is inserted, and loses it only when that very value is removed |
| HashTable.InsertThenRemove | linked_list/single_linked_list/delete/delete_duplicate/in_unsorted_list/using_hash/delete_duplicate_in_unsorted_using_hash.c:39-70 | Removing undoes an insertion into a free bucket |
| HashTable.RunKeepsPlaces | linked_list/single_linked_list/delete/delete_duplicate/in_unsorted_list/using_hash/delete_duplicate_in_unsorted_using_hash.c:39-70 | Over every run each stored value stays in its own bucket |
| HashTable.AtMostCapacity | linked_list/single_linked_list/delete/delete_duplicate/in_unsorted_list/using_hash/delete_duplicate_in_unsorted_using_hash.c:42-45 | There are never more stored values than buckets, so the guard is never true |
| DeleteDuplicates.DeleteDuplicateUsingHash | linked_list/single_linked_list/delete/delete_duplicate/in_unsorted_list/using_hash/delete_duplicate_in_unsorted_using_hash.c:108-128 | What stays, in order, is the head and every node that is the first of a bucket free before; afterwards exactly the buckets of all values are marked in addition |
| DeleteDuplicates.DeleteDuplicateFromFreshTable | linked_list/single_linked_list/delete/delete_duplicate/in_unsorted_list/using_hash/delete_duplicate_in_unsorted_using_hash.c:132-157 | From a fresh table exactly the first node of each bucket stays; of values below 20, exactly the first occurrences |
| DeleteDuplicates.SmallValuesAreExact | linked_list/single_linked_list/delete/delete_duplicate/in_unsorted_list/using_hash/delete_duplicate_in_unsorted_using_hash.c:5-21 | Lists of values below 20 are de-duplicated exactly |
| DeleteDuplicates.FirstOccurrencesSuffice | linked_list/single_linked_list/delete/delete_duplicate/in_unsorted_list/using_hash/delete_duplicate_in_unsorted_using_hash.c:108-128 | First-occurrence de-duplication keeps every value and none of them twice |
| DeleteDuplicates.HashIsExactIffCollisionFree | linked_list/single_linked_list/delete/delete_duplicate/in_unsorted_list/using_hash/delete_duplicate_in_unsorted_using_hash.c:108-128 | This is first-occurrence de-duplication if and only if no two different values of the list share a bucket |
| DeleteDuplicates.CollisionDropsAValue | linked_list/single_linked_list/delete/delete_duplicate/in_unsorted_list/using_hash/delete_duplicate_in_unsorted_using_hash.c:72-80 | Any two different values sharing a bucket make the result differ from first-occurrence de-duplication |
| DeleteDuplicates.CollisionExample | linked_list/single_linked_list/delete/delete_duplicate/in_unsorted_list/using_hash/delete_duplicate_in_unsorted_using_hash.c:72-80 | 5 and 25: one of the two values is lost |
| DeleteDuplicates.DeleteDuplicate | linked_list/single_linked_list/delete/delete_duplicate/in_sorted_list/delete_duplicate.c:34-47 | Keeps, in order, exactly the nodes that differ from their left neighbour in the original list |
| DeleteDuplicates.NeighboursSufficeWhenSorted | linked_list/single_linked_list/delete/delete_duplicate/in_sorted_list/delete_duplicate.c:34-47 | On a sorted list these are the first occurrences |
| DeleteDuplicates.HashAgreesWithSorted | linked_list/single_linked_list/delete/delete_duplicate/in_unsorted_list/using_hash/delete_duplicate_in_unsorted_using_hash.c:108-128 | On sorted lists without collisions both programs keep the same nodes |
| ExchangeSorts.InsertionSort | sort/insertion_sort/insertion_sort.c:23-36 | A stable sort of the array, with exactly as many exchanges as the input has inversions |
| ExchangeSorts.BubbleSort | sort/bubble_sort/bubble_sort.c:23-31 | A stable sort of the array, with exactly as many exchanges as the input has inversions |
| ExchangeSorts.SelectMinimum | sort/selection_sort/selection_sort.c:26-31 | The first index of a least key from i on |
| ExchangeSorts.SelectionSort | sort/selection_sort/selection_sort.c:23-34 | A sorted permutation |
| SortSpec.SwapRemovesOneInversion | sort/bubble_sort/bubble_sort.c:26-28 | Exchanging neighbours in the wrong order removes exactly one inversion |
| SortSpec.SwapIsStable | sort/insertion_sort/insertion_sort.c:29-30 | Exchanging neighbours with different keys keeps the order of equal keys |
| SortSpec.SortedHasNoInversions | sort/insertion_sort/insertion_sort.c:23-36 | A sorted sequence has no inversions |
| SortSpec.StableSortIsUnique | sort/merge_sort/merge_sort.c:65-77 | A stable sorted rearrangement is unique |
| SortSpec.StableIsPermutation | sort/merge_sort/merge_sort.c:65-77 | A stable rearrangement is a permutation |
| SortSpec.SortsShowSameKeys | sort/selection_sort/selection_sort.c:23-34 | Any two sorted permutations of one input show the same integers |
| MergeSort.DoMerge | sort/merge_sort/merge_sort.c:23-63 | The two halves of the segment are replaced by their merge, everything else unchanged |
| MergeSort.MergeIsSorted | sort/merge_sort/merge_sort.c:39-62 | The merge of sorted halves is sorted |
| MergeSort.MergeIsStable | sort/merge_sort/merge_sort.c:42-48 | The merge keeps equal keys in order, those of the left half first |
| MergeSort.Sort | sort/merge_sort/merge_sort.c:65-77 | For every array and bounds, a stable sort of the segment that moves nothing else |
| MergeSort.DeclaredBuffersFitPowersOfTwo | sort/merge_sort/merge_sort.c:26-37 | With the two buffer sizes as declared the copies stay inside if and only if the length is a power of two |
| MergeSort.ThreeRecordsDoNotFit | sort/merge_sort/merge_sort.c:26-37 | Three elements already need one cell more than is declared |
| QuickSort.ScanUp | sort/quick_sort/quick_sort.c:32-33 | Stops at the first greater key, or reports the attempt to read the cell behind the array when there is none |
| QuickSort.ScanDown | sort/quick_sort/quick_sort.c:34-35 | Stops at the last key not above the pivot |
| QuickSort.Partition | sort/quick_sort/quick_sort.c:25-48 | Reads outside the array if and only if no cell behind the pivot has a greater key, and then before moving anything. Otherwise the first sweep reads on to the first greater key, leaving the segment exactly when the pivot is greatest in it, all later reads are inside the segment, nothing outside it moves, and the pivot ends at a cut with nothing greater before it and exactly RightPart of the segment behind it |
| QuickSort.SweepsKeep | sort/quick_sort/quick_sort.c:31-43 | Two sweeps leave unchanged what will stand behind the cut |
| QuickSort.ExchangeKeeps | sort/quick_sort/quick_sort.c:37-42 | So does an exchange |
| QuickSort.Sort | sort/quick_sort/quick_sort.c:50-63 | On every segment of every array: the run reads outside the array if and only if RunsOff of the segment and the cells behind it, a function of the input alone; otherwise it leaves a sorted permutation of the segment and moves nothing else |
| QuickSort.DecidedByPivots | sort/quick_sort/quick_sort.c:50-63 | A segment of two or more that ends the array runs off if and only if a greatest key becomes the pivot of the segment or of a right part in turn, and stays inside if and only if a key with exactly one key above it does |
| QuickSort.AboveKept | sort/quick_sort/quick_sort.c:31-43 | No key above the pivot is lost from the right part |
| QuickSort.GuardedBehind | sort/quick_sort/quick_sort.c:32-33 | A key behind the segment above all its own keeps the run inside |
| QuickSort.GreatestLastStaysInside | sort/quick_sort/quick_sort.c:50-63 | So does a strictly greatest last key |
| QuickSort.OneAboveStaysInside | sort/quick_sort/quick_sort.c:50-63 | So does a first key with exactly one above it |
| QuickSort.GreatestTwiceRunsOff | sort/quick_sort/quick_sort.c:50-63 | A greatest key that occurs twice, with nothing greater behind, makes it read outside |
| QuickSort.LeastFirst | sort/quick_sort/quick_sort.c:50-63 | A first key below all others changes nothing for the rest |
| QuickSort.LeftIsGuarded | sort/quick_sort/quick_sort.c:61 | After a cut that stayed inside, the left part always has a greater key behind it and does not run off |
| QuickSort.LeftStaysInside | sort/quick_sort/quick_sort.c:61 | So the sort of a left part never reads outside |
| QuickSort.RightDecides | sort/quick_sort/quick_sort.c:62 | Whether the run reads outside is then decided by the right part as the sort of the left part leaves it |
| QuickSort.RunOfRight | sort/quick_sort/quick_sort.c:55-62 | The run as a whole goes as that of the right part |
| QuickSort.SortArray | sort/quick_sort/quick_sort.c:81 | The call main makes, with nothing behind the array: a read outside if and only if RunsOff of the array, a sorted permutation otherwise; in particular inside when the last key is strictly greatest, outside when the greatest key stands first before others or occurs twice |
| QuickSort.PairRunsOff | sort/quick_sort/quick_sort.c:81 | Two cells make it read outside unless they are in strictly ascending order |
| QuickSort.RunOffExamples | sort/quick_sort/quick_sort.c:32-33 | [2, 1] and [1, 3, 2] make the program read outside, [1, 2] and [2, 3, 1] do not |
| SortAgreement.AllFiveAgree | sort/quick_sort/quick_sort.c:50-63 | Insertion, bubble and merge sort give the same records, and all five give the same integers, on every input, quick sort being given a greater key behind it; insertion and bubble sort exchange neighbours equally often |
| XdpDropIcmp.ReadsHeaderFields | bpf/xdp_prog.c:30-45 | A frame with any EtherType and IP header is dropped exactly when the EtherType is 0x0800 and the protocol field is 1, and its key is the pair of its addresses |
| XdpDropIcmp.DecidingOctets | bpf/xdp_prog.c:30-45 | The same by offsets in the frame, and exactly which frames are aborted |
| XdpDropIcmp.DropMap.UpdateElem | bpf/include/bpf_helper_defs.h:51-71 | Adds or replaces; a new key is refused when 256 entries exist |
| XdpDropIcmp.DropMap.DropIcmp | bpf/xdp_prog.c:27-75 | The verdict depends on the packet alone; a dropped packet is accounted for, any other leaves the map alone |
| XdpDropIcmp.AccountIsExact | bpf/xdp_prog.c:59-70 | One more drop keeps the map exact |
| XdpDropIcmp.RunIsExact | bpf/xdp_prog.c:59-70 | After any drops the keys are the first 256 distinct pairs and each entry holds the true count and bytes |
| XdpDropIcmp.RoomFor256 | bpf/xdp_prog.c:19-24 | The 256th distinct pair gets an entry and the 257th does not |
| XdpDropIcmp.ExactOnPackets | bpf/xdp_prog.c:56-70 | Each entry holds the number of the packets dropped for its addresses and the sum of their sizes, all headers included |
| XdpDropIcmp.EntriesWereDropped | bpf/xdp_prog.c:59-70 | Every entry stands for at least one drop, and while there is room every dropped key has an entry |
| XdpDropIcmp.CountsAreConserved | bpf/xdp_prog.c:59-70 | The counts in the map add up to all drops but those of refused keys |
| XdpDropIcmp.ProcessAll | bpf/xdp_prog.c:27-75 | All of this for every packet sequence from an empty map: verdicts, keys, the totals of the packets themselves, and conservation |
| SharedCounter.NeverExceeds | bpf/xdp_prog.c:66-67 | With a plain load and store, a counter never exceeds what all its stores were to add |
| SharedCounter.ExactIffNoOverlap | bpf/xdp_prog.c:66-68 | It is exact if and only if no store to the key came between a load and its store |
| SharedCounter.AtomicHasNoOverlap | bpf/xdp_prog.c:68 | Stores that follow their loads at once never overlap |
| XdpConcurrent.LookupEffect | bpf/xdp_prog.c:59-60 | A packet that arrives at an idle CPU is looked up |
| XdpConcurrent.StepEffects | bpf/xdp_prog.c:60-68 | What each further step does in any state: an insertion puts the first values in place, a store puts the loaded value plus the amount in place of whatever is there, an atomic update adds to it, and the CPU goes on |
| XdpConcurrent.NobodyIsStuck | bpf/xdp_prog.c:59-70 | In every reachable state a CPU whose turn it is moves, so that a packet is done after four further steps at most; any other action changes nothing |
| XdpConcurrent.StepKeeps | bpf/xdp_prog.c:59-70 | Every step of every CPU keeps the invariant that ties the map and the pending loads to the access logs |
| XdpConcurrent.StoredNeverExceedsTotals | bpf/xdp_prog.c:59-70 | In every interleaving of any number of CPUs no stored count or byte total exceeds the total over the completed stores |
| XdpConcurrent.StoredExactIffNoOverlap | bpf/xdp_prog.c:59-70 | In every interleaving an entry is exact if and only if no store to it came between another load and store of that field |
| XdpLedger.StepMoves | bpf/xdp_prog.c:59-70 | Every step of every CPU moves what a packet is worth from taken to owed, or from owed to stored or refused, and loses nothing |
| XdpLedger.BooksBalance | bpf/xdp_prog.c:59-70 | After every interleaving, per key and field, the packets taken are those stored, those refused and those on their way |
| XdpLedger.EveryPacketIsAccounted | bpf/xdp_prog.c:59-70 | Moreover a key is refused always or never: no packet of a key in the map was refused, none of any other key is stored, and when all CPUs are done none is on its way |
| XdpLedger.PacketsExactIffNoOverlap | bpf/xdp_prog.c:59-70 | When all CPUs are done an entry holds at most its packets, and exactly all of them if and only if no store to it came between another load and store of that field |
| XdpLedger.AtomicRunsAreExact | bpf/xdp_prog.c:66-68 | With existing entries and atomic updates every interleaving is exact: a field lacks what is on its way at any time, and when all CPUs are done it has counted every packet taken |
| XdpConcurrent.SerialRuns | bpf/xdp_prog.c:59-70 | Whole packets one after the other, on whatever CPUs, give the map of the serial program |
| XdpConcurrent.LostInsertion | bpf/xdp_prog.c:59-64 | Two CPUs that look up a new key before either inserts it: one of two packets is lost |
| XdpConcurrent.LostUpdate | bpf/xdp_prog.c:66 | Two CPUs that both load the bytes of an entry before either stores them, for any entry, sizes and CPUs: the update of the first is lost |
| InformationElements.PrintEscaped | socket/netlink_socket/generic_netlink/scan.c:157-165 | The octets as printed; they are printed as they are if and only if all of them are visible characters but the backslash, or blanks inside |
| InformationElements.EscapeByteExactly | socket/netlink_socket/generic_netlink/scan.c:158-164 | Which octets are printed as they are, and the four characters every other octet becomes |
| InformationElements.PrintedAsItIsIffPlain | socket/netlink_socket/generic_netlink/scan.c:157-165 | Exactly which SSIDs are printed as they are |
| InformationElements.EscapeRoundTrip | socket/netlink_socket/generic_netlink/scan.c:157-165 | A decoder recovers the SSID octets exactly |
| InformationElements.EscapeIsInjective | socket/netlink_socket/generic_netlink/scan.c:157-165 | No two SSIDs are printed alike |
| InformationElements.EscapedTextIsPrintable | socket/netlink_socket/generic_netlink/scan.c:157-165 | The printed text is printable throughout and has no blank at either end |
| InformationElements.PrintSsid | socket/netlink_socket/generic_netlink/scan.c:149-171 | The outcome of the walk, for every buffer |
| InformationElements.WalkFindsFirstSsid | socket/netlink_socket/generic_netlink/scan.c:153-170 | On every well-formed sequence of elements the walk prints the first one with id 0 and length at most 32 and never reads outside |
| InformationElements.FirstElement | socket/netlink_socket/generic_netlink/scan.c:153-170 | An element with identifier 0 is printed up to a length of 32 and skipped beyond; one with any other identifier is skipped |
| InformationElements.OverrunExactly | socket/netlink_socket/generic_netlink/scan.c:153-157 | On any buffer the walk reads outside exactly when complete other elements are followed by an SSID element short of one or two octets at the end |
| InformationElements.OverrunExample | socket/netlink_socket/generic_netlink/scan.c:153-157 | The buffer 0, 1 makes it read outside |
| ScanWait.Scan.Deliver | socket/netlink_socket/generic_netlink/scan.c:25-194 | The handlers leave in err, done and aborted the latest reply and the latest news of the scan |
| ScanWait.ReplyIsLatest | socket/netlink_socket/generic_netlink/scan.c:25-47 | The reply that counts is that of the last callback about the request: 0 for an acknowledgement or the end of a dump, the code of an error |
| ScanWait.NewsIsLatest | socket/netlink_socket/generic_netlink/scan.c:183-191 | The news that counts is that of the last callback about the end of the scan |
| ScanWait.AwaitAnswer | socket/netlink_socket/generic_netlink/scan.c:391-397 | The first loop ends with the first receive after which the latest reply is not positive |
| ScanWait.AwaitEnd | socket/netlink_socket/generic_netlink/scan.c:405 | The second loop ends with the first receive from then on after which the end of the scan is known |
| ScanWait.WaitForScan | socket/netlink_socket/generic_netlink/scan.c:391-416 | For everything the socket may deliver: still waiting exactly when no such reply has come, or no news of the scan; otherwise the negative return value of that receive, or 1 or 0 as the latest news is that the scan was aborted or not |
| ScanWait.OutcomeIsUnique | socket/netlink_socket/generic_netlink/scan.c:391-416 | The outcome is determined by what the socket delivers |
| ScanWait.UsualOutcome | socket/netlink_socket/generic_netlink/scan.c:391-416 | An acknowledgement and the end of the scan in one receive return 0 for results and 1 for an aborted scan |
| ScanWait.ErrorOutcome | socket/netlink_socket/generic_netlink/scan.c:395-405 | An error of the request ends the first wait, with the negative value of that receive or with waiting for the scan |
| ScanWait.EarlyNewsEndsTheWait | socket/netlink_socket/generic_netlink/scan.c:183-191 | News of the scan that comes before the reply is not lost: the wait ends with the reply |
| RouteAttributes.ParseRouteAttributes | socket/netlink_socket/rt_netlink/get_route/get_route.c:16-23 | For every attribute area it terminates, reads only inside, and leaves each entry at the last attribute of that type the walk came across, or untouched |
| RouteAttributes.HostOrders | socket/netlink_socket/rt_netlink/get_route/get_route.c:18-21 | The two octets of a number in either byte order |
| RouteAttributes.Align | socket/netlink_socket/rt_netlink/get_route/get_route.c:21 | The next multiple of four |
| RouteAttributes.VisitsAligned | socket/netlink_socket/rt_netlink/get_route/get_route.c:21 | The walk looks for attributes at multiples of four only |
| RouteAttributes.ShortestAttribute | socket/netlink_socket/rt_netlink/get_route/get_route.c:17 | In four octets exactly a length of 4 passes |
| RouteAttributes.PaddedExample | socket/netlink_socket/rt_netlink/get_route/get_route.c:17-22 | An attribute of length 5 padded to 8 and the one behind it are both met |
| RouteAttributes.VisitsLayout | socket/netlink_socket/rt_netlink/get_route/get_route.c:17-22 | On a laid-out area, the last attribute padded or not, the walk comes across exactly the attributes laid out |
| RouteAttributes.LastAttributeWins | socket/netlink_socket/rt_netlink/get_route/get_route.c:18-20 | The entry of a type is where its last attribute starts |
| RouteAttributes.AbsentTypeUntouched | socket/netlink_socket/rt_netlink/get_route/get_route.c:18-20 | A type that does not occur leaves its entry alone |
| RouteAttributes.ReadsBehind | socket/netlink_socket/rt_netlink/get_route/get_route.c:28-39 | With the length its caller passes the walk reads a length right behind every fully padded area |
| RouteAttributes.VisitsBeyond | socket/netlink_socket/rt_netlink/get_route/get_route.c:17-22 | What the walk comes across is then the attributes laid out and whatever the octets behind them look like |
| RouteAttributes.PhantomIff | socket/netlink_socket/rt_netlink/get_route/get_route.c:28-39 | With the length its caller passes it comes across exactly the attributes if and only if the 16-bit number behind them is below 4 or above 28; otherwise it enters a phantom attribute where they end |
| RouteAttributes.ShortNextMessage | socket/netlink_socket/rt_netlink/get_route/get_route.c:28-39 | In little-endian order, with another message of less than 65536 octets behind: the whole walk is the attributes alone, or, exactly if that message has 4 to 28 octets, the attributes, a phantom of type 0, and what the octets behind that message look like |
| RouteAttributes.DoneMessageBehind | socket/netlink_socket/rt_netlink/get_route/get_route.c:28-39 | With the 20 octets of the message that ends a dump behind, that phantom is the only one if and only if the next eight octets do not start with a length of 4 to 8 |
| RouteAttributes.PhantomsTouchTheirTypes | socket/netlink_socket/rt_netlink/get_route/get_route.c:38-57 | With the length its caller passes, an entry ends as it should if and only if no phantom has its type |
| RouteAttributes.DoneMessageIsHarmless | socket/netlink_socket/rt_netlink/get_route/get_route.c:38-57 | In that case every entry but that of type 0, so every one the caller reads, ends as it should |
| RouteAttributes.AttributeAtStart | socket/netlink_socket/rt_netlink/get_route/get_route.c:16-23 | At each start stands the attribute, all of it inside the area |
| RouteAttributes.AttributeExists | socket/netlink_socket/rt_netlink/get_route/get_route.c:16-23 | Every type and payload, with padding up to the next multiple of four, can be laid out, in either byte order, and reads back |

## Left out

- Sockets, netlink transport, ioctl, processes, files, mmap, kernel modules and C++ demos: calls into code that is not part of this model.
- libnl, `nla_parse` and message building: one call of `nl_recvmsgs` is taken as the callbacks it makes and its return value.
- `bpf/prog_loader.c`: system calls, and a key walk that rests on kernel iteration order.
- Insertion, counting and deletion by value or position in the other list programs: one pass along the list each, which the programs modelled here also make.
- Printing, random filling and `main` functions, except where `main` fixes the order of two calls.
- `free`: an unlinked node is not tracked any further.
- XdpDropIcmp.DropMap.DropIcmp: does not model 64-bit wrap-around of `long`, because 2^63 dropped bytes are out of reach of any run.
- XdpConcurrent.StepKeeps: does not model an update that moves an entry to a new cell while another CPU still holds a pointer to the old one, or user space writing to the map.
- MergeSort.Sort: does not model overflow of `left + right`, because array indices near 2^30 do not occur in the stack arrays of the program.
- DigitLists.CalcNumber: takes finite powers of ten as exact integers, because `pow(10.0, i)` is exact up to 10^22 and a digit other than 0 in a higher place does not fit an int anyway; from 10^309 on the power is infinite, which the contract excludes.
