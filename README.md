# Distributed merge sort, modelled in Dafny

This project models the core of `src/MergeSortMPI.c`, a distributed merge sort
built on MPI. The program runs as a group of P = 2^H processes (ranks). Rank 0
fills an array of N integers and scatters it in P equal blocks. Every rank
then sorts its block with `qsort`, and the ranks merge their runs pairwise up
a binary tree of height H:
- in round r, a rank whose bit r is clear receives the run of rank
  `id | (1 << r)` and merges it behind its own;
- a rank whose bit r is set sends its run to `id & ~(1 << r)` and stops.

After H rounds rank 0 holds the whole array. It sorts a copy of the input with
`qsort` and compares the two element by element.

The model is split into one module per concern:

| file | module | what it holds |
|---|---|---|
| `bits.dfy` | `Bits` | `&`, `\|`, `~`, `1 << k` and `log2` on non-negative `int`s, and `is_power_of_2` |
| `topology.dfy` | `Topology` | parent, peer and role of a rank in each round, and how many rounds a rank receives in |
| `two_way_merge.dfy` | `TwoWayMerge` | `merge` as an array method proved against a functional merge, with its tie-break |
| `local_sort.dfy` | `Sorting` | `ascending_comparator` and the local sort |
| `partition.dfy` | `Partition` | the scatter of rank 0's array into blocks, and its inverse |
| `reduction.dfy` | `Reduction` | `merge_sort` on one rank, and the whole group run sequentially |
| `harness.dfy` | `Harness` | `compare_numbers_array` and `main` |

**Messages and ranks.** Messages become a mailbox: a map from the pair
(sending rank, destination rank) to the run sent. A rank posts its run under
itself and the `parent_id` its send names, and a receive looks up the pair
(`right_child_id`, its own rank), so a run reaches only the rank it was
addressed to. Ranks only receive from higher ranks. So running the ranks
one after another, from rank P-1 down to rank 0, delivers every message before
its receiver reads it.

**Bit operations.** `&`, `|`, `~` and `<<` are written out on natural numbers.
Ranks, group sizes and the masks `1 << r` lie in [0, 2^31). `~(1 << r)` is
negative in C and is modelled by its 32-bit unsigned pattern, which lies in
[2^31, 2^32). On these values the operations agree bit for bit with the C
operations on a 32-bit `int`.

**The local sort.** `qsort` is a library routine. It is modelled by a
functional sort, `LocalSort`, whose result is proved to be the only ascending
permutation of its input. So any correct sort, `qsort` included, produces that
same sequence.

**Exit status.** `main` returns 0 whenever the group size and argument checks
pass, whether or not the final comparison succeeds. A failed comparison only
prints a message and returns from `compare_numbers_array`. The model follows
the code here; a design in which a failed check gives a nonzero exit status
would differ. In the model the comparison is proved always to succeed.

## Model

| member | source | states |
|---|---|---|
| Bits.IsPowerOf2 | src/MergeSortMPI.c:26-28 | the test `is_power_of_2` makes; what it means is stated by `Bits.IsPowerOf2Exactly` |
| Bits.BitAnd | src/MergeSortMPI.c:27 | `&` on non-negative integers, bit by bit; `Bits.ClearBitMask` states its effect under the masks `merge_sort` uses |
| Bits.BitOr | src/MergeSortMPI.c:141 | `\|` on non-negative integers, bit by bit; `Bits.SetBitMask` states its effect |
| Bits.BitNot32 | src/MergeSortMPI.c:138 | `~` on a 32-bit `int`, read as its unsigned bit pattern |
| Bits.Log2 | src/MergeSortMPI.c:255 | the base-2 logarithm rounded down; `Bits.PowerOf2Log2` shows it is exact on the group sizes that pass the power-of-two check |
| Bits.IsPowerOf2Exactly | src/MergeSortMPI.c:26-28 | `x > 0 && !(x & (x - 1))` holds exactly when x is 2^k for some k >= 0 |
| Bits.PowerOf2Log2 | src/MergeSortMPI.c:254-255 | for a power of two, `log2` gives back the exponent: x == 2^log2(x) |
| Bits.ClearBitMask | src/MergeSortMPI.c:138 | masking with `~(1 << r)` clears bit r: subtracts 2^r when bit r is set, leaves x otherwise |
| Bits.SetBitMask | src/MergeSortMPI.c:141 | or-ing with `1 << r` sets bit r: adds 2^r when bit r is clear, leaves x otherwise |
| Topology.Parent | src/MergeSortMPI.c:138 | `parent_id = process_id & ~(1 << height)`; `Topology.ParentClearsBit` states its value |
| Topology.Peer | src/MergeSortMPI.c:141 | `right_child_id = process_id \| (1 << height)`; `Topology.PeerSetsBit` states its value |
| Topology.RoleOf | src/MergeSortMPI.c:140-164 | the branch on `parent_id == process_id`: receive from the peer, or send to the parent |
| Topology.ReceiveRounds | src/MergeSortMPI.c:137-165 | how many rounds a rank receives in before it sends, never more than the tree height |
| Topology.ParentClearsBit | src/MergeSortMPI.c:138 | the parent is the rank with bit r cleared: id - 2^r when bit r is set, id otherwise |
| Topology.PeerSetsBit | src/MergeSortMPI.c:141 | the peer is the rank with bit r set: id + 2^r when bit r is clear, id otherwise |
| Topology.RoleByBit | src/MergeSortMPI.c:138-141 | a rank is its own parent exactly when its bit r is clear; it then receives from id + 2^r, and otherwise sends to id - 2^r |
| Topology.PairingIsOneToOne | src/MergeSortMPI.c:138-141 | in every round of a group of 2^H ranks, each receiver's peer is a rank of the group that sends to it, and each sender's parent receives from it |
| Topology.ReceiverPairsWithSender | src/MergeSortMPI.c:138-141 | the peer of a receiver lies inside the group and names the receiver as its parent |
| Topology.SenderPairsWithReceiver | src/MergeSortMPI.c:138-141 | the parent of a sender is a receiver whose peer is the sender |
| Topology.RankZeroReceives | src/MergeSortMPI.c:138-141 | rank 0 receives, from rank 2^r, in every round r |
| Topology.ReceiveRoundsBits | src/MergeSortMPI.c:137-165 | a rank receives in exactly the rounds before its lowest set bit |
| Topology.RolesOfRank | src/MergeSortMPI.c:137-165 | in the rounds its loop runs, a rank receives from id + 2^r until round ReceiveRounds, where it sends to id - 2^r |
| Topology.OnlyRankZeroSurvives | src/MergeSortMPI.c:137-171 | of the ranks 0 .. 2^H - 1, only rank 0 stays in the loop for all H rounds |
| Topology.PeerSendsInRound | src/MergeSortMPI.c:141-159 | the rank a receiver waits for in round r leaves its own loop by sending in exactly round r |
| Topology.BlockFits | src/MergeSortMPI.c:137-165 | a rank that has received k times owns the ranks id .. id + 2^k - 1, all inside the group |
| Topology.Destination | src/MergeSortMPI.c:159 | the rank a rank other than 0 sends its run to: itself with its lowest set bit cleared, always a lower rank |
| Topology.LowestSetBitBound | src/MergeSortMPI.c:137-165 | every rank other than 0 leaves the loop by sending before round H |
| Topology.ParentReceivesLonger | src/MergeSortMPI.c:137-165 | the rank a sender sends to is still receiving in the round of the send |
| Topology.DestinationReceives | src/MergeSortMPI.c:138-159 | a rank other than 0 sends in round k to `parent_id`, which is its destination, and that rank receives from it in that same round |
| TwoWayMerge.MergeBy | src/MergeSortMPI.c:74-102 | the merge `merge` computes, smaller head first and the first run's head on a tie; it has as many elements as both runs together |
| TwoWayMerge.MergeByPermutes | src/MergeSortMPI.c:74-102 | the merge holds exactly the elements of both runs, as multisets |
| TwoWayMerge.MergeBySorted | src/MergeSortMPI.c:74-102 | merging two ascending runs gives an ascending run |
| TwoWayMerge.MergeTaggedValues | src/MergeSortMPI.c:76-82 | merging elements tagged with their run and dropping the tags gives the `int` merge |
| TwoWayMerge.MergeFavoursFirst | src/MergeSortMPI.c:76 | of two equal values in the merge, one from the first run is never placed after one from the second run |
| TwoWayMerge.TieBreakAt | src/MergeSortMPI.c:76 | if positions p < q of the merge hold equal values and q came from the first run, then p came from the first run too |
| TwoWayMerge.Merge | src/MergeSortMPI.c:70-103 | `merge` fills all 2*size cells of the output with the merge of the two inputs, and leaves both inputs unchanged |
| TwoWayMerge.MergeWhileBothRemain | src/MergeSortMPI.c:74-84 | the first loop keeps ci == ai + bi and writes the merge's first ci elements; it stops when one input is exhausted, and the rest of the merge is then the other input's remainder |
| TwoWayMerge.CopyRemaining | src/MergeSortMPI.c:86-102 | a tail loop copies the rest of one input in order to the end of the output, and does nothing when that input is already exhausted |
| Sorting.AscendingComparator | src/MergeSortMPI.c:40-42 | `*p1 - *p2` is negative, zero or positive exactly when p1 < p2, p1 == p2 or p1 > p2, when the subtraction stays in `int` range |
| Sorting.LocalSort | src/MergeSortMPI.c:134 | the sequence `qsort` leaves behind; `Sorting.LocalSortCorrect` and `Sorting.SortIsUnique` state what it is |
| Sorting.LocalSortCorrect | src/MergeSortMPI.c:134 | the local sort leaves its input ascending and with the same elements |
| Sorting.SortedUnique | src/MergeSortMPI.c:134 | two ascending sequences with the same elements are equal |
| Sorting.SortIsUnique | src/MergeSortMPI.c:280 | any ascending permutation of the input is the local sort of it, so every correct sort agrees with `qsort` |
| Sorting.LocalSortIdempotent | src/MergeSortMPI.c:134 | sorting an ascending sequence leaves it as it is, so sorting twice is sorting once |
| Sorting.SortInPlace | src/MergeSortMPI.c:134 | sorting in place leaves the array holding the local sort of its old contents |
| Partition.BufferOf | src/MergeSortMPI.c:229-232 | a fresh buffer holding a given sequence, as `calloc` followed by a copy or a receive into it gives |
| Partition.Scatter | src/MergeSortMPI.c:241-251 | `MPI_Scatter` of N = size * count elements gives count blocks of size elements each |
| Partition.ScatterBlock | src/MergeSortMPI.c:244-251 | rank i's block is elements i * size .. (i + 1) * size - 1 of rank 0's array |
| Partition.GatherScatter | src/MergeSortMPI.c:244-251 | laying the scattered blocks end to end gives back the input: nothing is lost, duplicated or moved |
| Partition.SpanAppend | src/MergeSortMPI.c:244-251 | the elements of two adjacent runs of ranks are those of the first followed by those of the second |
| Partition.SpanLength | src/MergeSortMPI.c:241-242 | count ranks holding size elements each hold size * count elements together |
| Partition.GatherIsSpan | src/MergeSortMPI.c:244-251 | the elements of all ranks, in rank order, are the blocks laid end to end |
| Reduction.LeafAfter | src/MergeSortMPI.c:137-165 | the run a rank holds after k receive rounds: its sorted shard merged with each run sent to it, its own run first; `Reduction.LeafAfterIsTreeLeaf` states what it is |
| Reduction.TreeLeaf | src/MergeSortMPI.c:137-165 | the run the merge tree builds over a block of 2^k shards; `Reduction.TreeLeafSortsBlock` states what it is |
| Reduction.RunLengthIsProduct | src/MergeSortMPI.c:147-151 | after r doublings a run of size elements has size * 2^r elements |
| Reduction.TreeLeafSortsBlock | src/MergeSortMPI.c:137-165 | the run merged over ranks id .. id + 2^k - 1 is the ascending arrangement of all their elements |
| Reduction.TreeLeafStep | src/MergeSortMPI.c:147-150 | the ascending runs of the two halves of a block merge into the ascending run of the whole block |
| Reduction.MergeOfSortedRuns | src/MergeSortMPI.c:147-150 | merging the sorted forms of x and y gives the sorted form of x + y |
| Reduction.TreeLeafLength | src/MergeSortMPI.c:147-151 | the run over 2^k blocks of size elements has size * 2^k elements |
| Reduction.TreeSortsInput | src/MergeSortMPI.c:244-281 | scattering the input and merging up the whole tree gives what `qsort` gives on the whole input |
| Reduction.LeafAfterIsTreeLeaf | src/MergeSortMPI.c:137-165 | once its peers' runs are delivered, the run a rank holds after k receive rounds is the tree run over its 2^k blocks |
| Reduction.MergeSortRank | src/MergeSortMPI.c:120-172 | `merge_sort` on one rank: the shard is sorted in place. A rank that is not 0 sends its final run to its parent after its receive rounds. Rank 0 sends nothing and returns its final run; the others return `global_numbers_array` unchanged |
| Reduction.MergeRounds | src/MergeSortMPI.c:137-165 | the round loop holds, after the rank's receive rounds, the merge of its sorted shard with each received run in turn; it sends that run to its parent exactly when it stops before round H |
| Reduction.ReceiveAndMerge | src/MergeSortMPI.c:141-150 | a receive round yields a fresh buffer of twice the size holding the merge of the own run with the received one, own run first |
| Reduction.Reduce | src/MergeSortMPI.c:265-269 | running every rank's `merge_sort`, rank 0 ends with the tree run over all blocks and every other rank with NULL |
| Reduction.RunRank | src/MergeSortMPI.c:265-269 | one rank's turn: a rank other than 0 posts its tree run under itself and the destination its send names, which is `Topology.Destination`; rank 0 returns the run over the whole group |
| Reduction.MailboxReady | src/MergeSortMPI.c:145-146 | when a rank runs, every rank it receives from has already sent to it, by name, the tree run over its own blocks, of the expected length |
| Harness.CompareNumbersArray | src/MergeSortMPI.c:181-186 | the check passes exactly when the arrays agree on the first size elements; otherwise it stops at the first index where they differ |
| Harness.Run | src/MergeSortMPI.c:188-293 | `main` exits with COMM_GROUP_ODD_SIZE when the group size is not a power of two and with ARGC_INCORRECT_VALUE when argc != 2. Otherwise it exits with success, rank 0 holds the sorted input, and the check passes |
| Harness.SortAndCheck | src/MergeSortMPI.c:227-287 | past its checks, `main` leaves rank 0 with the input in ascending order and the comparison with the `qsort`ed copy succeeds |

## Left out

- MPI itself is not modelled: `MPI_Init`, `MPI_Comm_size`, `MPI_Comm_rank`, `MPI_Get_processor_name`, `MPI_Bcast`, `MPI_Barrier` and `MPI_Finalize`. The group size is a parameter, and every rank is given rank 0's N (the `Harness.Run: lengths are unbounded` line below says how the source passes it on).
- `MPI_Send`/`MPI_Recv` and the concurrent execution of the ranks: replaced by a mailbox and one sequential schedule, highest rank first. Interleavings, blocking, deadlock freedom and message tags are not modelled.
- `MPI_Recv` into a buffer of `local_numbers_array_size` elements: the model hands over the whole sent run. Its length is proved to equal the receiver's run length, so no truncation can occur.
- `fill_numbers_array`: seeded by the clock and filled by `rand()`, so the input array is a parameter of `Harness.Run`. Its range [0, 100000] is not required by any proof.
- `MPI_Wtime` and the timing line, `print_numbers_array`, the DEBUG output and the `[ERROR]`/`[SUCCESS]` messages: console and clock I/O.
- `log2(comm_group_size)` computed as a `double`: modelled as the exact integer logarithm, which `log2` returns for powers of two.
- `qsort`: modelled by its result, the unique ascending permutation, assigned to the array in one step. Its internal algorithm and its calls of `ascending_comparator` are not modelled.
- Sorting.AscendingComparator: requires that `*p1 - *p2` does not overflow, since C leaves a signed overflow undefined. Inputs drawn from [0, 100000] always meet this.
- Harness.Run: lengths are unbounded integers, but the source narrows them to `int`. `merge` takes an `int size` and is called with a `size_t` (lines 70 and 148). The counts of `MPI_Recv`, `MPI_Send` and `MPI_Scatter` are `int`s (145, 159, 244-251). `MPI_Bcast` sends the `size_t` N as one `MPI_INT` (238), and on ranks other than 0 that variable is never initialised (221), so its upper bytes are undefined there. The results of `Run` and `SortAndCheck` therefore describe the source only when every length fits in an `int` and the upper bytes of N that the broadcast leaves untouched happen to be zero on every rank.
- `malloc`, `calloc` and `free`: buffers are fresh Dafny arrays, and none is freed. The model therefore does not capture three defects in the source's buffer handling. With one rank, `merge_sort` returns `local_numbers_array` itself (168), and `main` frees it twice (286 and 289). In a receive round after the first, the previous merged buffer is never freed (147-154), so it leaks. On rank 0, the `calloc`'d `global_numbers_array` (229) is overwritten by the result of `merge_sort` (266) and is never freed.
- `argv[1]` and `atoi`: N is the length of the input array.
- Harness.Run: requires N to be a multiple of the group size. When it is not, the code drops the last N mod P elements in `N / P` and then compares N elements of a shorter result; this case is not modelled.
- Harness.Run: the exit code for the argument-count check is returned without `MPI_Finalize`; finalisation is not modelled.
- The numeric values of COMM_GROUP_ODD_SIZE and ARGC_INCORRECT_VALUE: `ErrorCodes.h` is not part of this model, so they are the constructors of `ExitCode`.
