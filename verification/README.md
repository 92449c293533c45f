# Verification model of the example programs

This project models the parts of the repository that hold real algorithms or protocols, in Dafny, and
proves what they are for. Every file is one module.

* `UnlockQueue.dfy`: the lock-free byte ring of `example_unlockqueue.cpp`. A state machine interleaves one
  producer and one consumer at the level of index samples, single byte copies and index commits; a class
  holds the sequential `Put` and `Get`.
* `ShmQueue.dfy`: the shared-memory message queue of `shmqueue/shm_queue.c`, at the level of bytes. One
  writer (as `shmqueue/shm_queue.h:101` demands) reserves, marks skipped nodes, writes header and payload
  and publishes, in separate steps; any number of readers fetch atomically. A class holds the sequential
  `sq_put` and `sq_get`.
* `Huffman.dfy`: the construction of `example_huffman.cpp`, its optimality, and the printed codes with their
  decoding.
* `PrimeTable.dfy`: the prime table `getMode` of `example_shm_hashtable1.cpp`.
* `MultiHash.dfy`: the multi-level hash of `example_shm_hashtable1.cpp` and `example_shm_hashtable2.cpp`
  as a finite map, and `hash_time33`.
* `BPlusTree.dfy`: the insert path and the search of the first B+ tree of `example_bplus_tree.cpp`.
* `ShellSort.dfy`: `shellSort` of `example_sort.cpp` and the theorem that later passes keep earlier order.
* `Digraph.dfy`: breadth-first shortest path and depth-first printing of `example_digraph.cpp`.
* `Coroutine.dfy`: the shared-stack scheduler of `coroutine.cpp`.
* `BoundedBuffer.dfy`: producers and customers of `example_pthread_cond1.cpp` over one lock and two
  condition variables.
* `LeftistHeap.dfy`, `BinaryHeap.dfy`: the heaps of `example_left_heap.cpp` and `example_heap.cpp`.
* `UndirectedGraph.dfy`: the edge multilist and `isConnected` of `example_graph.cpp`.
* `Trie.dfy`: the counting trie of `example_trie.cpp`.
* `LinearProbing.dfy`: the open-addressing table of `example_hashtable.cpp`.
* `Arithmetic.dfy`, `Unvisited.dfy`: shared facts on words, powers of two, bit masks and flag vectors.

The concurrent programs are state machines: a state, a datatype of actions, `Enabled`, `Step`, and
`Reaches` over arbitrary runs. Their theorems speak of every run from an initial state. Code that changes
things in place is a class or a method over arrays, proved against functions whose properties the lemmas
state.

Where the code does less than its comments promise or its callers expect, the model follows the code:

* `getMode` is said to give the largest primes below `maxLine`, but its own bound is 6*(maxLine/6)+1. A
  filled table holds the largest primes below `maxLine` if and only if not maxLine%6 <= 1 with that bound
  prime (`PrimeTable.BelowLimitIff`); up to and including `maxLine`, it lists maxLine+1 or misses `maxLine`
  in exactly one case each (`PrimeTable.UpToLimitIff`). For 6 it lists 7 (`PrimeTable.SevenForSix`).
* `shortestPath` with equal ends answers the two-element list [0, start], which is no shortest walk; with a
  reachable destination that is its only failure (`Digraph.ShortestPath`).
* The ten entries of the code buffer hold the codes of every optimal tree of n leaves if and only if n is at
  most eleven (`Huffman.BufferSufficesIff`); the weights 1, 2, 4, ..., 2048 need eleven
  (`Huffman.TwelvePowers`).
* Removing the reserved key 0 from the hash makes the entry count wrong (`MultiHash.HashShm.Remove`,
  `MultiHash.RemoveZeroFromNew`).
* `insert` of the B+ tree means to refuse keys that are present, but `getKeyIndex` never answers the number
  of keys, so the search skips the last child of every node (`BPlusTree.LastChildIsNeverSearched`). The
  search is exact and keys stay apart if and only if the tree holds at most thirteen pairs
  (`BPlusTree.RunSearchExactIff`); the run 1, 2, ..., 14 shows the failure (`BPlusTree.FourteenInserts`).
  What always holds is that a key is found right after its insertion (`BPlusTree.InsertedSound`).
* `sq_get` strands a record when it gives up on a slow writer or when its buffer is too short: the head
  passes the record, and its token stays in a node that counts as free. These are the only ways it can
  break the queue (`ShmQueue.GetSafeIff`), and both occur (`ShmQueue.GivingUpHappens`,
  `ShmQueue.ShortBufferHappens`).

## Model

| member | source | states |
|---|---|---|
| `UnlockQueue.HighestBit` | example_unlockqueue.cpp:80-83 | the shifting mask stops at the largest power of two that is not above the value |
| `UnlockQueue.RoundupPowerOfTwo` | example_unlockqueue.cpp:75-86 | up to 2^63 the result is the least power of two not below the argument; 0 and larger arguments give 0 |
| `UnlockQueue.RoundedSize` | example_unlockqueue.cpp:40-51 | a positive request yields the least power of two that holds it, any other an empty ring, through both sign-extending conversions |
| `UnlockQueue.MaskedCounter` | example_unlockqueue.cpp:101-102 | masking the wrapped 32-bit counter gives the slot of the true count |
| `UnlockQueue.AddressIsSlot` | example_unlockqueue.cpp:100-105 | the two memcpy calls together visit the slots that follow the counter, in order |
| `UnlockQueue.SampledLengths` | example_unlockqueue.cpp:92 | the differences of wrapped counters that Put and Get take are the true free space and fill level |
| `UnlockQueue.PutByteSlot` | example_unlockqueue.cpp:100-105 | a byte being put goes to a slot no unread byte and no other byte of the same Put occupies |
| `UnlockQueue.StepPreserves` | example_unlockqueue.cpp:88-146 | every sample, copy and commit step of either thread keeps the ring invariant |
| `UnlockQueue.RunPreserves` | example_unlockqueue.cpp:88-146 | so does every interleaving |
| `UnlockQueue.FifoSafety` | example_unlockqueue.cpp:88-146 | after any interleaving the bytes got are a prefix of the bytes put, the counter difference is the fill level and at most the size, and the bytes still owed lie intact in their slots |
| `UnlockQueue.UnreadNeverOverwritten` | example_unlockqueue.cpp:88-146 | no step changes a committed byte that has not been got |
| `UnlockQueue.CopiesInBounds` | example_unlockqueue.cpp:100-105 | every byte copied by either side lies inside the buffer |
| `UnlockQueue.CallsTransferAllTheyCan` | example_unlockqueue.cpp:92-145 | a Put takes the longest front of its argument there was room for, a Get as much as it asked for or there was, and the commit adds or removes exactly that |
| `UnlockQueue.PutNeverOverfills` | example_unlockqueue.cpp:92-113 | the free space sampled early is still free at the commit |
| `UnlockQueue.GetNeverOverruns` | example_unlockqueue.cpp:122-143 | the bytes sampled early are still there at the commit |
| `UnlockQueue.CopyAppends` | example_unlockqueue.cpp:100-105 | the two-part copy appends to the unread bytes and leaves them alone |
| `UnlockQueue.Queue.constructor` | example_unlockqueue.cpp:40-73 | a valid empty ring of the least sufficient power of two |
| `UnlockQueue.Queue.Put` | example_unlockqueue.cpp:88-116 | appends exactly the front of the argument that fits and returns its length |
| `UnlockQueue.Queue.Get` | example_unlockqueue.cpp:118-146 | removes and returns exactly the front of the contents, and touches no other byte of the caller's buffer |
| `ShmQueue.UsedIsDist` | shmqueue/shm_queue.c:130-134 | used and empty nodes add up to the count, and used is the distance from head to tail |
| `ShmQueue.NodesFit` | shmqueue/shm_queue.c:144 | a record's nodes hold header and payload, and one node less would not |
| `ShmQueue.ReservationShape` | shmqueue/shm_queue.c:658-690 | a reservation is contiguous, ends before the extra node, takes exactly the record's and the skipped nodes and leaves the reserve free unless it wraps |
| `ShmQueue.PendingNodes` | shmqueue/shm_queue.c:692-718 | the nodes of the record being written belong to no published record and to no free node |
| `ShmQueue.StaleReservation` | shmqueue/shm_queue.c:656-690 | a reservation granted for heads read earlier is the one the head at the exchange grants, whatever gets ran in between |
| `ShmQueue.FullIff` | shmqueue/shm_queue.c:664-687 | a put is refused exactly when fewer nodes are free than the record and the reserve take, or the record does not fit before the end of the ring nor, with one node to spare, before the head |
| `ShmQueue.ReservePreserves` | shmqueue/shm_queue.c:656-690 | reserving keeps the queue invariant: nodes outside head..tail carry no token and neither does an unpublished record |
| `ShmQueue.MarkPreserves` | shmqueue/shm_queue.c:692-705 | marking a skipped node keeps it |
| `ShmQueue.HeaderPreserves` | shmqueue/shm_queue.c:708-716 | writing the header keeps it |
| `ShmQueue.CopyPreserves` | shmqueue/shm_queue.c:717 | copying one payload byte keeps it |
| `ShmQueue.PublishPreserves` | shmqueue/shm_queue.c:718 | storing the token keeps it and adds the record to the live ones |
| `ShmQueue.SearchFinds` | shmqueue/shm_queue.c:777-833 | the reader's search passes over skipped nodes and finds the oldest record |
| `ShmQueue.ClearedTokens` | shmqueue/shm_queue.c:858-864 | the closing loop clears the tokens of exactly the consumed nodes |
| `ShmQueue.FetchResult` | shmqueue/shm_queue.c:775-868 | sq_get returns the oldest published message whole, or 0 when there is none, with the conflict count it leaves |
| `ShmQueue.GetPreserves` | shmqueue/shm_queue.c:775-868 | sq_get keeps the invariant if it neither gives up nor lacks room |
| `ShmQueue.SearchPasses` | shmqueue/shm_queue.c:777-834 | the search never ends behind the tail, and waits only while the conflict count is not exhausted |
| `ShmQueue.GivesUpSearch` | shmqueue/shm_queue.c:801-825 | giving up means searching on behind the first node the writer has not finished |
| `ShmQueue.GivingUpStrands` | shmqueue/shm_queue.c:801-835 | giving up moves the head past the first node of the record being written |
| `ShmQueue.StrandedStays` | shmqueue/shm_queue.c:692-868 | until the writer publishes, no step of the writer or of a reader brings that node back between head and tail |
| `ShmQueue.GivingUpStrandsRecord` | shmqueue/shm_queue.c:801-835 | so after a give-up, whatever happens until the writer publishes, the published record lies outside head..tail and its token is in a free node |
| `ShmQueue.ShortBufferStrandsRecord` | shmqueue/shm_queue.c:834-847 | the -2 exit moves the head behind the oldest record without delivering it, and the record's token stays in what is now a free node |
| `ShmQueue.ExclusionsMean` | shmqueue/shm_queue.c:801-847 | a reader gives up exactly when it has met ten conflicts in a row, no published message waits and a put is under way; otherwise its buffer is too short exactly when the oldest waiting message is longer |
| `ShmQueue.GetSafeIff` | shmqueue/shm_queue.c:775-868 | sq_get keeps the queue consistent if and only if it has met fewer than ten conflicts in a row, or a message waits, or no put is under way, and the message that waits fits its buffer |
| `ShmQueue.GivingUpHappens` | shmqueue/shm_queue.c:656-868 | from any fresh queue one reservation and ten gets bring a reader to the point of giving up |
| `ShmQueue.ShortBufferHappens` | shmqueue/shm_queue.c:656-868 | from any fresh queue one put of two bytes brings a reader with a one-byte buffer to the -2 exit |
| `ShmQueue.StepPreserves` | shmqueue/shm_queue.c:656-868 | every allowed step of the writer and the readers keeps the invariant |
| `ShmQueue.RunPreserves` | shmqueue/shm_queue.c:656-868 | so does every interleaving |
| `ShmQueue.ExactlyOnceInOrder` | shmqueue/shm_queue.c:656-868 | after any interleaving the readers together have received a prefix of the published messages, each whole and once, and the ring holds the rest in order |
| `ShmQueue.GetDeliversOldest` | shmqueue/shm_queue.c:775-868 | the next sq_get returns the oldest undelivered message, and 0 only if there is none |
| `ShmQueue.Queue.constructor` | shmqueue/shm_queue.c:416-463 | new memory is an empty queue with the element size rounded up to eight bytes |
| `ShmQueue.Queue.SqPut` | shmqueue/shm_queue.c:641-721 | appends the message unless its length is bad (-1) or the nodes it takes are not free (-2), and then changes nothing |
| `ShmQueue.Queue.SqGet` | shmqueue/shm_queue.c:761-869 | returns and removes the oldest message, 0 on an empty queue, -1 for an empty buffer, -2 for one that is too short, which moves the head right behind the oldest record and changes nothing else; writes no other byte of the buffer |
| `Huffman.DeeperByOne` | example_huffman.cpp:88-99 | sinking a tree one level adds its weight to the weighted path length |
| `Huffman.CostIsInternalSum` | example_huffman.cpp:76-99 | the weighted path length of a merged tree is the sum of its internal nodes |
| `Huffman.CollapseCost` | example_huffman.cpp:88-99 | replacing two sibling leaves by their sum lowers the cost by exactly that sum |
| `Huffman.SwapCost` | example_huffman.cpp:88-99 | exchanging a lighter shallow leaf with a heavier deep one does not raise the cost |
| `Huffman.MoveSmallestToSiblings` | example_huffman.cpp:88-99 | every tree can be rearranged at no cost so that two smallest weights are siblings |
| `Huffman.GreedyChoice` | example_huffman.cpp:62-82 | every tree costs at least as much as merging two smallest weights first and continuing with some tree |
| `Huffman.MergeLosesNothing` | example_huffman.cpp:75-81 | a merge of two smallest roots keeps an optimal tree attainable |
| `Huffman.SelectTwo` | example_huffman.cpp:48-74 | the two scans pick a smallest and a second smallest root of the forest, among equal ones the leftmost |
| `Huffman.MergeRound` | example_huffman.cpp:45-82 | one round keeps the forest's leaves, sums and attainable optimum and removes one tree |
| `Huffman.CreateHuffman` | example_huffman.cpp:34-85 | the leaves are the weights, inner nodes are sums with the lighter child on the left, and no tree over the same weights has a smaller weighted path length |
| `Huffman.HuffManCoding` | example_huffman.cpp:102-123 | the recursion over one shared buffer prints every leaf in order, each with the bits that lead to it (0 to the left, 1 to the right) behind those of the caller, and leaves the caller's part of the buffer as it was |
| `Huffman.CodesExtend` | example_huffman.cpp:102-123 | the printed lines are the leaves in order, each code as long as the leaf is deep |
| `Huffman.CodeLeadsToLeaf` | example_huffman.cpp:115-121 | the bits of every printed line lead from the tree to the leaf of its weight, going left on 0 and right on 1 |
| `Huffman.LeafHasCode` | example_huffman.cpp:115-121 | every such way to a leaf is printed |
| `Huffman.DecodeEncode` | example_huffman.cpp:102-123 | a text encoded with the printed lines is read back weight by weight from the tree alone |
| `Huffman.PrefixFree` | example_huffman.cpp:102-123 | no printed code is a prefix of another |
| `Huffman.CodesRealiseCost` | example_huffman.cpp:88-123 | the text encoded with the printed codes is as long as WeightPathLength says |
| `Huffman.HeightBelowLeaves` | example_huffman.cpp:102-123 | a tree is lower than it has leaves, so n leaves need at most n-1 entries |
| `Huffman.HeavyLeafRises` | example_huffman.cpp:88-99 | a tree is not optimal if a leaf heavier than the other half of the tree is not below the root |
| `Huffman.CombIsBest` | example_huffman.cpp:88-99 | over the weights 1, 2, 4, ... no tree is cheaper than the comb, and one that is as cheap is as high |
| `Huffman.PowersOverflow` | example_huffman.cpp:104-121 | so every optimal tree over more such weights than the buffer has entries plus one overflows it |
| `Huffman.BufferSufficesIff` | example_huffman.cpp:104-121 | the buffer holds the codes of every optimal tree of n leaves if and only if n is at most its size plus one |
| `Huffman.TwelvePowers` | example_huffman.cpp:34-123 | the tree CreateHuffman builds for 1, 2, 4, ..., 2048 has codes of eleven bits |
| `PrimeTable.SmallFactor` | example_shm_hashtable1.cpp:183-199 | a composite number has a prime factor up to its square root |
| `PrimeTable.FactorShape` | example_shm_hashtable1.cpp:183-197 | factors of 6t-1 and 6t+1 have the same form, so only such divisors matter |
| `PrimeTable.FactorRound` | example_shm_hashtable1.cpp:186-189 | no prime divisor is lost to the last-digit rules for divisors |
| `PrimeTable.TriedIsProper` | example_shm_hashtable1.cpp:183-197 | the slack in the loop bound never makes a number be divided by itself |
| `PrimeTable.HitIsComposite` | example_shm_hashtable1.cpp:190-197 | a number one of the trial divisions rejects is composite |
| `PrimeTable.CompositeIsHit` | example_shm_hashtable1.cpp:183-197 | every composite candidate is rejected by some trial division within the bound |
| `PrimeTable.DigitFilters` | example_shm_hashtable1.cpp:181-182 | the tests on the last digit of t reject only composite numbers |
| `PrimeTable.TestPair` | example_shm_hashtable1.cpp:179-199 | the two flags of a round say exactly whether 6t-1 and 6t+1 are prime |
| `PrimeTable.PrimesDownComplete` | example_shm_hashtable1.cpp:177-202 | the list the rounds produce holds every prime from 5 to 6t+1, nothing else, strictly decreasing |
| `PrimeTable.PrefixIsLargest` | example_shm_hashtable1.cpp:200-201 | stopping when the table is full leaves the largest primes |
| `PrimeTable.UpToLimitIff` | example_shm_hashtable1.cpp:53-53 | a filled table exceeds maxLine exactly if maxLine%6 is 0 and maxLine+1 is prime, and holds the largest primes up to maxLine exactly if neither that nor maxLine%6 = 5 with maxLine prime is the case |
| `PrimeTable.BelowLimitIff` | example_shm_hashtable1.cpp:53-53 | a filled table holds the largest primes below maxLine if and only if not maxLine%6 <= 1 with 6*(maxLine/6)+1 prime |
| `PrimeTable.GetMode` | example_shm_hashtable1.cpp:168-203 | the table holds the `lines` largest primes from 5 to 6*(maxLine/6)+1 if and only if there are that many, and the largest ones below maxLine if and only if besides that bound is no prime in the way; otherwise the entry 1 follows the primes there are |
| `PrimeTable.SevenForSix` | example_shm_hashtable1.cpp:168-203 | for the limit 6 the table lists 7 |
| `MultiHash.PositionsDistinct` | example_shm_hashtable1.cpp:205-214 | (row, column) pairs map to different slots inside the memory |
| `MultiHash.CandidateIff` | example_shm_hashtable1.cpp:127-128 | on each level the candidate slot is the column that differs from the 64-bit sum of key and offset by a multiple of the modulus, and no other |
| `MultiHash.SharedSlotIff` | example_shm_hashtable1.cpp:127-128 | two keys meet on a level exactly when they differ by a multiple of its modulus |
| `MultiHash.FoundAtCandidate` | example_shm_hashtable1.cpp:92-108 | a key is in the map if and only if one of its candidate slots holds it, whatever holes removals have left |
| `MultiHash.AddEntry` | example_shm_hashtable1.cpp:126-134 | filling a free candidate slot adds one entry to the map and keeps every key in one slot |
| `MultiHash.ChangeEntry` | example_shm_hashtable2.cpp:430-434 | overwriting a value changes that entry only |
| `MultiHash.DropEntry` | example_shm_hashtable1.cpp:113-117 | clearing a key removes that entry only |
| `MultiHash.HashShm.Find` | example_shm_hashtable2.cpp:317-339 | finds a key exactly when the map has it, and key 0 exactly when one of its slots is free, on the first level that holds it |
| `MultiHash.HashShm.Insert` | example_shm_hashtable1.cpp:121-137 | puts a new key and its value into the candidate slot of the first level where that is free, fails only if there is none, and changes no other slot |
| `MultiHash.HashShm.Remove` | example_shm_hashtable2.cpp:484-497 | clears the key of the slot found and changes no other, so exactly the key is removed; the count stays right if and only if the key is not 0 or none of the candidate slots of key 0 is free |
| `MultiHash.EmptyHasRoom` | example_shm_hashtable1.cpp:92-108 | an empty table with a level has a free candidate slot for every key |
| `MultiHash.InsertApart` | example_shm_hashtable1.cpp:92-137 | keys that differ pairwise modulo the first level all enter an empty table |
| `MultiHash.RemoveZeroFromNew` | example_shm_hashtable2.cpp:484-497 | removing key 0 from any new table succeeds and leaves a wrong count |
| `MultiHash.HashShm.Get` | example_shm_hashtable2.cpp:398-408 | the map's value, or not found |
| `MultiHash.HashShm.Replace` | example_shm_hashtable2.cpp:427-465 | overwrites or adds the entry and fails only when a new key has no free slot |
| `MultiHash.HashShm.Foreach` | example_shm_hashtable2.cpp:516-530 | calls back once for every entry of the map, in the order of the slots, as often as the count says, hands the parameter from call to call, and stores what each call makes of the value it gets by reference |
| `MultiHash.ChangeAll` | example_shm_hashtable2.cpp:523-529 | changing values in place changes the values of the map's entries and nothing else |
| `MultiHash.OccupiedListsOnce` | example_shm_hashtable2.cpp:523-529 | the occupied slots in order are the entries of the map, each once |
| `MultiHash.HashTime33` | example_shm_hashtable2.cpp:632-675 | the unrolled loop with its fall-through switch equals the plain loop of hash*33 + c modulo 2^64 |
| `MultiHash.Time33Append` | example_shm_hashtable2.cpp:649-673 | hashing in pieces equals hashing the whole string |
| `MultiHash.Time33IsPolynomial` | example_shm_hashtable2.cpp:632-675 | the hash is the string read as a number to the base 33 behind the starting value, modulo 2^64 |
| `BPlusTree.KeyIndexFinds` | example_bplus_tree.cpp:103-121 | on keys sorted but for the last the bisection finds the first key that is not smaller, except that it answers the last index when all others are |
| `BPlusTree.GetKeyIndex` | example_bplus_tree.cpp:103-121 | the loop computes that index |
| `BPlusTree.LeafInsert` | example_bplus_tree.cpp:256-267 | shifting in place inserts key and data at the same position of both arrays |
| `BPlusTree.InternalInsert` | example_bplus_tree.cpp:160-174 | shifting in place inserts the key and, right of it, the child |
| `BPlusTree.LeafSplit` | example_bplus_tree.cpp:269-288 | the copying loops produce the two halves of a leaf and its separator, as SplitNode says |
| `BPlusTree.InternalSplit` | example_bplus_tree.cpp:143-158 | the copying loops produce the two halves of an inner node and its separator, as SplitNode says |
| `BPlusTree.LeafStaysSorted` | example_bplus_tree.cpp:256-267 | a sorted leaf stays sorted |
| `BPlusTree.SplitChildShape` | example_bplus_tree.cpp:143-174 | splitting a full child keeps depth and occupancy and gives both halves room |
| `BPlusTree.PreparedOpen` | example_bplus_tree.cpp:730-741 | after the preventive split the child on the path has room and all indices are in bounds |
| `BPlusTree.InsertBelowShape` | example_bplus_tree.cpp:722-744 | inserting below a node keeps all leaves at one depth, 6 to 13 keys per node, one child more than keys, and leaves sorted |
| `BPlusTree.InsertBelowLeaves` | example_bplus_tree.cpp:722-744 | seen from the row of leaves exactly one leaf changes: it takes the pair, or is replaced by its halves one of which does |
| `BPlusTree.OnePairAdded` | example_bplus_tree.cpp:722-744 | such a change adds exactly one pair |
| `BPlusTree.ChainKept` | example_bplus_tree.cpp:269-276 | such a change keeps the right-sibling chain equal to the leaves in order, with the same head |
| `BPlusTree.InsertRootKeeps` | example_bplus_tree.cpp:707-719 | an insertion at the root, full or not, keeps shape and chain and adds exactly one pair |
| `BPlusTree.TreeHoldsMany` | example_bplus_tree.cpp:12-19 | h >= 1 internal levels imply at least 12*7^(h-1) pairs |
| `BPlusTree.InsertBelowKeys` | example_bplus_tree.cpp:722-744 | an insertion writes no key anywhere but its own and ones that were there |
| `BPlusTree.FoundIsHeld` | example_bplus_tree.cpp:762-787 | a key the search finds is stored |
| `BPlusTree.LeafSearchIsExact` | example_bplus_tree.cpp:762-787 | while the root is a leaf the search finds exactly the stored keys |
| `BPlusTree.LastChildIsNeverSearched` | example_bplus_tree.cpp:103-121 | the answer of the search does not depend on the last child of a node |
| `BPlusTree.FirstSplitHidesKeys` | example_bplus_tree.cpp:707-719 | after the first root split the keys of the right half other than the separator are stored but not found |
| `BPlusTree.FirstSplitFinds` | example_bplus_tree.cpp:707-787 | what is found after the first root split is exactly the separator, the keys before it and the new key |
| `BPlusTree.SearchDescends` | example_bplus_tree.cpp:762-787 | at an inner node the search for a key it does not hold answers what the child answers whose neighbouring keys lie around the key |
| `BPlusTree.SplitNodeOrdered` | example_bplus_tree.cpp:143-158 | the halves of an ordered node are ordered, on either side of the separator |
| `BPlusTree.SplitNodeMisses` | example_bplus_tree.cpp:143-158 | a search that misses a full node misses the half on the key's side |
| `BPlusTree.SplitChildOrdered` | example_bplus_tree.cpp:143-174 | splitting a child keeps the order of keys that the search relies on |
| `BPlusTree.PreparedLeads` | example_bplus_tree.cpp:730-741 | the insertion of a key the search misses descends into the child in which the search looks for it, before and after a split |
| `BPlusTree.InsertBelowFound` | example_bplus_tree.cpp:722-787 | a key the search misses below a node is found there once it is inserted, and the order is kept |
| `BPlusTree.InsertRootFound` | example_bplus_tree.cpp:707-787 | the same from the root, full or not |
| `BPlusTree.HiddenNotFound` | example_bplus_tree.cpp:762-787 | a key kept out of the root and of all its children but the last is not found |
| `BPlusTree.FirstSplitHides` | example_bplus_tree.cpp:707-719 | the first root split of a leaf with distinct keys hides a stored key in that way |
| `BPlusTree.HiddenStays` | example_bplus_tree.cpp:707-744 | every accepted insertion of another key leaves a hidden key hidden, with a full root or not |
| `BPlusTree.TrackedAfter` | example_bplus_tree.cpp:694-744 | insertions keep a leaf's keys distinct and, in a taller tree of distinct keys, one stored key hidden |
| `BPlusTree.InsertedSound` | example_bplus_tree.cpp:694-787 | one call of insert keeps the tree sound, adds exactly the pair unless the search finds the key, and leaves the key to be found |
| `BPlusTree.FoundMeansStored` | example_bplus_tree.cpp:694-700 | a found key is stored, and with at most thirteen pairs a stored key is found |
| `BPlusTree.SearchExactIff` | example_bplus_tree.cpp:694-787 | for every sound tree: the search finds exactly the stored keys and none is stored twice if and only if there are at most thirteen pairs |
| `BPlusTree.RunSearchExactIff` | example_bplus_tree.cpp:694-787 | the same after every run of insertions; if the stored keys are distinct, all of them are found if and only if there are at most thirteen |
| `BPlusTree.FourteenInserts` | example_bplus_tree.cpp:694-787 | after 1, 2, ..., 14 the key 8 is stored and not found, and insert stores it a second time |
| `BPlusTree.CBPlusTree.RecursiveInsert` | example_bplus_tree.cpp:722-744 | the recursion with its sibling updates does what InsertBelow says |
| `BPlusTree.CBPlusTree.Insert` | example_bplus_tree.cpp:694-720 | does what Inserted says and keeps the tree valid (shape, chain from m_DataHead, m_MaxKey the maximum); adds exactly the pair unless the search finds the key, which only a stored key can be; up to thirteen pairs it refuses exactly the stored keys; after every call the search finds the key |
| `ShellSort.CountSkip` | example_sort.cpp:24-35 | leaving out d elements of a chain loses at most d small ones |
| `ShellSort.CountShift` | example_sort.cpp:24-35 | in a g-sorted array the chain g further on has no more small elements |
| `ShellSort.RankOnSortedChain` | example_sort.cpp:24-35 | on a sorted chain an element's rank is its position |
| `ShellSort.SortingChainsKeepsOrder` | example_sort.cpp:24-35 | sorting the chains of step h keeps the array g-sorted for every g for which it was |
| `ShellSort.Insert` | example_sort.cpp:26-33 | sinking an element keeps every chain's elements and extends the ordered part |
| `ShellSort.Pass` | example_sort.cpp:25-34 | one pass h-sorts, permutes, and keeps every g-order |
| `ShellSort.OneMorePass` | example_sort.cpp:24-35 | a pass that keeps earlier orders extends the record of the array after each pass |
| `ShellSort.Sort` | example_sort.cpp:21-36 | the result is a sorted permutation of the input; the passes use the halvings of the size, and after each of them the array is sorted for its increment and every earlier one |
| `Digraph.LabelStep` | example_digraph.cpp:91-100 | the successors of an expanded vertex have labels at most one larger |
| `Digraph.LabelsAlongWalk` | example_digraph.cpp:88-101 | along any walk from the start the labels grow by at most one per edge |
| `Digraph.LabelIsDistance` | example_digraph.cpp:88-101 | the label the destination gets is at most the length of any walk to it |
| `Digraph.EmptyQueueReaches` | example_digraph.cpp:88-101 | with an empty queue every reachable vertex is labelled |
| `Digraph.PopKeeps` | example_digraph.cpp:89-92 | the single running counter equals the label of the vertex taken from the queue |
| `Digraph.FinishKeeps` | example_digraph.cpp:93-100 | expanding a vertex keeps the queue's labels nondecreasing and within one of each other |
| `Digraph.LabelHasWalk` | example_digraph.cpp:95-98 | a label is the length of a walk along the predecessors |
| `Digraph.CounterIsEccentricity` | example_digraph.cpp:88-101 | with an empty queue the counter is the distance of the farthest vertex |
| `Digraph.ShortestPath` | example_digraph.cpp:81-112 | for a reachable destination a walk of minimal length if and only if the ends differ; [0, start] for equal ends; for an unreachable one zeros, two more than the distance of the farthest vertex |
| `Digraph.DepthFirstSearchAux` | example_digraph.cpp:70-78 | prints and clears what is reachable through unvisited vertices, in depth-first order: after each vertex comes the first successor still to be printed of the last vertex that has one |
| `Digraph.OrderUnique` | example_digraph.cpp:70-78 | that leaves no choice of the order |
| `Digraph.PrintsReachableOnce` | example_digraph.cpp:70-78 | from all unvisited, exactly the reachable vertices are printed, each once |
| `Coroutine.VisitsAll` | coroutine.cpp:110-111 | the rotation that starts at nco reaches every cell |
| `Coroutine.FreeCellIsFirst` | coroutine.cpp:108-118 | the cell the search ends at is the first free one from cell nco on, round the end |
| `Coroutine.NewTakesFreeCell` | coroutine.cpp:93-121 | coroutine_new takes the first free cell from cell nco on, or doubles the cells when none is free, changes no other cell and never reaches assert(0) |
| `Coroutine.StepPreserves` | coroutine.cpp:93-198 | new, resume, yield and finish keep the scheduler invariant |
| `Coroutine.RunPreserves` | coroutine.cpp:93-198 | so does every run |
| `Coroutine.SchedulerConsistent` | coroutine.cpp:93-208 | in every run nco counts the live coroutines, and RUNNING is exactly the one that `running` names |
| `Coroutine.ResumeRuns` | coroutine.cpp:139-169 | resuming a READY or suspended coroutine makes it the running one, with the shared stack as it was or with its saved bytes at the top of it; no other cell and not nco change, and for a dead one nothing does |
| `Coroutine.YieldSuspends` | coroutine.cpp:172-198 | a yield suspends the running coroutine with the top of the shared stack saved in a copy that grows only if it has to, and changes no other cell |
| `Coroutine.FinishEnds` | coroutine.cpp:125-135 | finishing empties the cell, lowers nco by one and leaves nothing running |
| `Coroutine.FinishClearsOwnCell` | coroutine.cpp:125-135 | mainfunc clears the cell of the coroutine that finishes and no other |
| `Coroutine.SleepsThrough` | coroutine.cpp:139-198 | the saved stack of a suspended coroutine survives every run that does not resume it |
| `Coroutine.StackRestored` | coroutine.cpp:139-198 | a resumed coroutine finds the top of the shared stack as at its last yield, whatever others wrote |
| `Coroutine.Scheduler.New` | coroutine.cpp:93-121 | the code adds a READY coroutine in the first free cell from cell nco on, or in the first new one of twice as many, and returns its number |
| `Coroutine.Scheduler.Resume` | coroutine.cpp:139-169 | the code takes the resume step of the state machine, so that the coroutine runs, with its stack restored |
| `Coroutine.Scheduler.Yield` | coroutine.cpp:172-198 | the code takes the yield step, so that the coroutine is suspended with its stack saved |
| `Coroutine.Scheduler.Finish` | coroutine.cpp:125-135 | the code takes the finishing step |
| `BoundedBuffer.StepPreserves` | example_pthread_cond1.cpp:32-60 | every step of a producer or customer keeps the invariant |
| `BoundedBuffer.RunPreserves` | example_pthread_cond1.cpp:32-60 | so does every interleaving, and none changes pushes less pops |
| `BoundedBuffer.StoreSafe` | example_pthread_cond1.cpp:38-56 | size stays within 0 and the capacity, is pushed minus popped, and nothing is popped twice or invented |
| `BoundedBuffer.PushOnTop` | example_pthread_cond1.cpp:34-42 | a producer's turn puts its next letter on top of the store and changes nothing below |
| `BoundedBuffer.PopTakesTop` | example_pthread_cond1.cpp:54-55 | a customer's turn takes the newest letter of the store and nothing else |
| `BoundedBuffer.StackSteps` | example_pthread_cond1.cpp:32-60 | from any consistent state the lines printed on any run are those of a stack that starts and ends with the letters held |
| `BoundedBuffer.LastInFirstOut` | example_pthread_cond1.cpp:32-60 | on every schedule each POP prints the newest letter pushed and not popped before it, and the store ends with what is left |
| `BoundedBuffer.LettersInOrder` | example_pthread_cond1.cpp:32-60 | every thread has printed one line for each turn taken, and a producer its letters in order from the first |
| `BoundedBuffer.WaitersMatchStore` | example_pthread_cond1.cpp:38-57 | with the lock free a waiting customer implies an empty store and a waiting producer a full one |
| `BoundedBuffer.DeadlockFree` | example_pthread_cond1.cpp:32-60 | if pushes less pops lie between 0 and the capacity, in every reachable state all threads are finished or one can move |
| `BoundedBuffer.StepDecreases` | example_pthread_cond1.cpp:32-60 | every step but a spurious wakeup lowers a measure |
| `BoundedBuffer.RunsTerminate` | example_pthread_cond1.cpp:32-60 | so runs without spurious wakeups are bounded by it |
| `BoundedBuffer.MaximalRunsDeliverAll` | example_pthread_cond1.cpp:32-60 | then a run that cannot go on has finished every thread and left pushes less pops in the store; with as many pops as pushes everything is delivered |
| `BoundedBuffer.SomeRunEnds` | example_pthread_cond1.cpp:32-60 | some run without spurious wakeups goes on until no thread can move |
| `BoundedBuffer.FinishesIff` | example_pthread_cond1.cpp:32-60 | the program finishes on every schedule if and only if pushes less pops lie between 0 and the capacity |
| `LeftistHeap.MergeLeftist` | example_left_heap.cpp:31-52 | merging keeps the leftist property and exact npl fields |
| `LeftistHeap.MergeOrdered` | example_left_heap.cpp:31-52 | merging keeps heap order and the smaller root on top |
| `LeftistHeap.MergeElements` | example_left_heap.cpp:31-52 | merging loses and duplicates nothing |
| `LeftistHeap.CallsAlongSpines` | example_left_heap.cpp:31-52 | there are at most as many recursive merges as the two right spines are long |
| `LeftistHeap.SpineIsShort` | example_left_heap.cpp:42-52 | a leftist heap has at least 2^(npl+1)-1 nodes |
| `LeftistHeap.MergeIsLogarithmic` | example_left_heap.cpp:31-52 | merging heaps of fewer than 2^k nodes takes at most 2k recursive calls |
| `LeftistHeap.DrainSorts` | example_left_heap.cpp:68-78 | deleting minima until empty yields the sorted contents |
| `LeftistHeap.MergeQueues` | example_left_heap.cpp:31-40 | the pointer code merges in place, over exactly the nodes of both heaps, and makes exactly Calls recursive calls |
| `LeftistHeap.Insert` | example_left_heap.cpp:54-66 | adds one element and keeps order and balance |
| `LeftistHeap.DeleteMin` | example_left_heap.cpp:68-78 | removes the minimum, so that the rest drains as before |
| `BinaryHeap.RootIsMinimum` | example_heap.cpp:69-76 | the root of an ordered heap is a minimum |
| `BinaryHeap.HoleUp` | example_heap.cpp:57-58 | moving the hole up keeps the order around it |
| `BinaryHeap.HoleDown` | example_heap.cpp:78-84 | moving the hole to the smaller child keeps the order around it |
| `BinaryHeap.Sink` | example_heap.cpp:78-87 | although slot `size` can be read, the loop ends with an ordered heap of the same elements |
| `BinaryHeap.Heap.Insert` | example_heap.cpp:51-61 | adds the element to an ordered heap unless it is full |
| `BinaryHeap.Heap.DeleteMin` | example_heap.cpp:69-89 | removes and returns a minimum, 0 from an empty heap |
| `UndirectedGraph.ChainIsIncidence` | example_graph.cpp:48-59 | a vertex's chain ends and visits exactly its incident edges, each once, youngest first |
| `UndirectedGraph.EdgeAdded` | example_graph.cpp:52-58 | linking an edge node in front of both chains keeps the multilist, also for a loop edge |
| `UndirectedGraph.Graph.constructor` | example_graph.cpp:38-60 | read builds such a multilist with the given endpoints |
| `UndirectedGraph.ExploredAll` | example_graph.cpp:74-85 | leaving the loop early loses nothing, because then no vertex is left |
| `UndirectedGraph.Graph.DepthFirstSearch` | example_graph.cpp:71-86 | visits what is reachable through unvisited vertices |
| `UndirectedGraph.VisitedIsReachable` | example_graph.cpp:89-93 | nothing is left unvisited if and only if all vertices are reachable from vertex 1 |
| `UndirectedGraph.Graph.IsConnected` | example_graph.cpp:89-93 | true if and only if every vertex is reachable from vertex 1 |
| `Trie.EndsPlusThrough` | example_trie.cpp:48-56 | words ending at a node plus words going on are the words that begin with its path |
| `Trie.NoWordYet` | example_trie.cpp:49 | a missing pointer means that no inserted word goes this way |
| `Trie.PassCounted` | example_trie.cpp:48 | the increment of pass counts the new word at exactly the nodes of its proper prefixes |
| `Trie.LinkedCounted` | example_trie.cpp:49-53 | a new node starts with the right counts |
| `Trie.WordCounted` | example_trie.cpp:56 | after the last increment all counts are right for the extended word list |
| `Trie.Trie.Insert` | example_trie.cpp:35-59 | keeps, for every node, count and pass equal to the number of words that end there and that go on; ignores the empty word |
| `Trie.CStringEnds` | example_trie.cpp:76-77 | the printed string is the buffer up to its terminator |
| `Trie.Traveller.DoTravel` | example_trie.cpp:66-85 | the recursion over one shared buffer prints the report of the node and restores position and buffer |
| `Trie.ReportSorted` | example_trie.cpp:75-83 | the lines come in strict dictionary order, each from a node below |
| `Trie.ReportComplete` | example_trie.cpp:75-83 | no node where words end is left out |
| `Trie.TravelReports` | example_trie.cpp:66-85 | the report lists exactly the distinct inserted words with the number of inserted words that begin with each |
| `Trie.Travel` | example_trie.cpp:114 | for words of at most 128 characters, that is what do_travel prints from the root |
| `LinearProbing.NextSlot` | example_hashtable.cpp:53 | the increment modulo m walks the probe sequence and returns home after m probes |
| `LinearProbing.ProbeIsRemainder` | example_hashtable.cpp:40-54 | the probes of a value are its remainder and the remainders of the numbers that follow it |
| `LinearProbing.PlacingKeepsProbed` | example_hashtable.cpp:50-57 | filling the first free slot keeps every value's probe row unbroken |
| `LinearProbing.MissedIsAbsent` | example_hashtable.cpp:66-72 | reaching a free slot or the home slot again shows that the value is absent |
| `LinearProbing.InsertEndsIff` | example_hashtable.cpp:45-58 | the loop of Insert ends if and only if some slot is free |
| `LinearProbing.HashTable.Insert` | example_hashtable.cpp:45-58 | with a free slot left, terminates and puts the value into the first free one of the slots data%m, (data+1)%m, ..., so into data%m itself when that is free, changing no other |
| `LinearProbing.HashTable.Search` | example_hashtable.cpp:61-76 | terminates with the first of those slots that holds the value if and only if it is stored, also on a full table, and else with -1 |

## Left out

- Put and Get sample both 32-bit indices in one atomic step; the barriers of the source justify sequential consistency, and other memory orders are not modelled.
- Huffman.CreateHuffman: 32-bit overflow of weight sums is not modelled.
- Huffman.HuffManCoding: takes a buffer of any length that holds the codes, where the source has ten entries (see BufferSufficesIff); printing is returned as a sequence.
- PrimeTable.GetMode: what happens after the unsigned counter t has wrapped is not modelled; the floating-point square root is an exact integer comparison.
- The enqueue time `sq_get` can return, signalling, fifos, process registration and file locks of the message queue; a time stamp is eight arbitrary bytes.
- Several writers, and readers finer than one atomic `sq_get`: the code copies and clears after it has advanced the head, which is safe only under timing assumptions.
- `sq_put` reads the head twice and exchanges the tail in one step of the machine, although gets may run in between: StaleReservation shows that a reservation granted for older heads is that step; a put refused because of older heads changes nothing.
- The length field of a record is read as an unsigned number, which matters only for memory the queue did not write.
- Attaching and reattaching shared memory, fill rates, bucket statistics, dump and restore, and the string-key overloads of the hash, which compose hash_time33 with the modelled operations.
- B+ tree nodes are values; array shifts and copies are proved in place on their own, sibling pointers are a table of leaf numbers, and left-sibling pointers, aliasing and the float type of keys (reals here) are not captured.
- B+ tree lookup of data, removal, update and select. An order of all keys from left to right is not kept by the code: getKeyIndex never answers the number of keys, so larger keys descend into the last child but one; Ordered is the order that is kept.
- Merge sort, heap sort and bucket sort of `example_sort.cpp` are not modelled.
- Digraph labels and input reading; adjacency lists are sequences.
- ucontext switching: control transfer is a step, the frame size at a yield is arbitrary, and coroutine records are values.
- Coroutine.Scheduler.Resume: the return without effect for a dead coroutine and the assertions on wrong states are the guard of the step.
- Any number of letters per producer and of turns per customer is allowed, letters are numbered from 0, and a condition variable wakes all its waiters, as the code's broadcasts do.
- Heaps: allocation failure, and freeing of nodes.
- Graph edge nodes are numbered by creation, and pointers are these numbers.
- Trie nodes are numbered by allocation; splitting input lines into words, and freeing, are left out; words are 7-bit.
- LinearProbing.HashTable.Insert: requires a free slot, because on a full table the loop of the source does not end (InsertEndsIff).
- AVL and other binary trees, memory pool, thread pool, quick sort and the remaining hash tables are not modelled.
- All network, process, file and timing examples.
