/**
 * The merge tree of `merge_sort` in MergeSortMPI.c, run sequentially.
 *
 * Each rank sorts its shard and then, round after round, either receives the
 * sorted run of its peer and merges it into its own, doubling the run, or
 * sends its run to its parent and stops.  `MPI_Send`/`MPI_Recv` become a
 * mailbox: a map from the pair (sender, destination) to the run sent.  A
 * receive names both its source and itself, so it only finds a run that was
 * addressed to it.  A rank only ever
 * receives from higher ranks, so running the ranks from the highest to rank 0
 * delivers every message before it is read.
 */
module Reduction {
  import opened Bits
  import opened Topology
  import opened TwoWayMerge
  import opened Sorting
  import opened Partition

  datatype Option<T> = None | Some(value: T)

  /** An `MPI_Send` of a rank's run to rank `dest`. */
  datatype Message = Message(dest: nat, payload: seq<int>)

  /** The runs in flight, by (sending rank, destination rank). */
  type Mailbox = map<(nat, nat), seq<int>>

  /** The rank that rank id receives from in round r, when it receives: `id | (1 << r)` with bit r clear. */
  function Sender(id: nat, r: nat): (sender: nat)
  {
    id + Pow2(r)
  }

  /** The length of a rank's run after r receive rounds, each doubling it, from a shard of n elements. */
  function RunLength(n: nat, r: nat): (length: nat)
  {
    if r == 0 then n else 2 * RunLength(n, r - 1)
  }

  lemma {:induction false} RunLengthIsProduct(n: nat, r: nat)
    ensures RunLength(n, r) == n * Pow2(r)
  {
    if r > 0 {
      RunLengthIsProduct(n, r - 1);
      assert n * Pow2(r) == 2 * (n * Pow2(r - 1));
    }
  }

  /** What rank `sender` has sent to rank `dest`, or nothing. */
  function Incoming(mailbox: Mailbox, sender: nat, dest: nat): (run: seq<int>)
  {
    if (sender, dest) in mailbox then mailbox[(sender, dest)] else []
  }

  /**
   * The run a rank holds after k receive rounds: it starts with its sorted
   * shard, and in round r merges in what rank id + 2^r sent, its own run first.
   */
  function LeafAfter(start: seq<int>, mailbox: Mailbox, id: nat, k: nat): (run: seq<int>)
  {
    if k == 0 then start
    else MergeBy(LeafAfter(start, mailbox, id, k - 1), Incoming(mailbox, Sender(id, k - 1), id), Id)
  }

  /**
   * The run the merge tree builds over shards id .. id + 2^k - 1: the sorted
   * shard for k = 0, and otherwise the merge of the run over the lower half
   * with the run over the upper half, whose first rank is the one that sends
   * to rank id in round k - 1.
   */
  function TreeLeaf(shards: seq<seq<int>>, id: nat, k: nat): (run: seq<int>)
    requires id + Pow2(k) <= |shards|
    decreases k
  {
    if k == 0 then LocalSort(shards[id])
    else MergeBy(TreeLeaf(shards, id, k - 1), TreeLeaf(shards, Sender(id, k - 1), k - 1), Id)
  }

  /**
   * The run the tree builds over shards id .. id + 2^k - 1 is their elements
   * in ascending order: merging the sorted halves sorts the whole block.
   */
  lemma {:induction false} TreeLeafSortsBlock(shards: seq<seq<int>>, id: nat, k: nat)
    requires id + Pow2(k) <= |shards|
    ensures TreeLeaf(shards, id, k) == LocalSort(Span(shards, id, Pow2(k)))
    decreases k, 1
  {
    if k == 0 {
      TreeLeafBase(shards, id, k);
    } else {
      TreeLeafStep(shards, id, k);
    }
  }

  /** The leaves of the tree: a block of one rank is sorted by the rank's own sort. */
  lemma TreeLeafBase(shards: seq<seq<int>>, id: nat, k: nat)
    requires k == 0 && id < |shards|
    ensures id + Pow2(k) <= |shards|
    ensures TreeLeaf(shards, id, k) == LocalSort(Span(shards, id, Pow2(k)))
  {
    SpanOfOne(shards, id);
  }

  /** The inductive step: the sorted halves of a block merge into the sorted block. */
  lemma {:induction false} TreeLeafStep(shards: seq<seq<int>>, id: nat, k: nat)
    requires k > 0 && id + Pow2(k) <= |shards|
    ensures TreeLeaf(shards, id, k) == LocalSort(Span(shards, id, Pow2(k)))
    decreases k, 0
  {
    TreeLeafSplit(shards, id, k);
    SpanSplit(shards, id, k);
    TreeLeafSortsBlock(shards, id, k - 1);
    TreeLeafSortsBlock(shards, Sender(id, k - 1), k - 1);
    MergeOfSortedRuns(Span(shards, id, Pow2(k - 1)), Span(shards, Sender(id, k - 1), Pow2(k - 1)));
  }

  /** A block of one rank holds that rank's shard. */
  lemma SpanOfOne(shards: seq<seq<int>>, id: nat)
    requires id < |shards|
    ensures Pow2(0) == 1 && Span(shards, id, Pow2(0)) == shards[id]
  {
    assert Span(shards, id, 1) == [] + shards[id];
  }

  /** One level of the tree: the run over a block of 2^k ranks merges the runs over its two halves. */
  lemma TreeLeafSplit(shards: seq<seq<int>>, id: nat, k: nat)
    requires k > 0 && id + Pow2(k) <= |shards|
    ensures id + Pow2(k - 1) <= |shards| && Sender(id, k - 1) + Pow2(k - 1) <= |shards|
    ensures TreeLeaf(shards, id, k) == MergeBy(TreeLeaf(shards, id, k - 1), TreeLeaf(shards, Sender(id, k - 1), k - 1), Id)
  {
  }

  /** The elements of a block of 2^k ranks are those of its lower half followed by those of its upper half. */
  lemma SpanSplit(shards: seq<seq<int>>, id: nat, k: nat)
    requires k > 0 && id + Pow2(k) <= |shards|
    ensures Sender(id, k - 1) + Pow2(k - 1) <= |shards|
    ensures Span(shards, id, Pow2(k)) == Span(shards, id, Pow2(k - 1)) + Span(shards, Sender(id, k - 1), Pow2(k - 1))
  {
    var half := Pow2(k - 1);
    assert Pow2(k) == half + half;
    SpanAppend(shards, id, half, half);
  }

  /** Merging the sorted forms of two sequences gives the sorted form of their concatenation. */
  lemma MergeOfSortedRuns(x: seq<int>, y: seq<int>)
    ensures MergeBy(LocalSort(x), LocalSort(y), Id) == LocalSort(x + y)
  {
    var merged := MergeBy(LocalSort(x), LocalSort(y), Id);
    LocalSortCorrect(x);
    LocalSortCorrect(y);
    MergeBySorted(LocalSort(x), LocalSort(y), Id);
    MergeByPermutes(LocalSort(x), LocalSort(y), Id);
    assert multiset(x + y) == multiset(x) + multiset(y);
    SortIsUnique(x + y, merged);
  }

  /** A run over 2^k shards of `size` elements each has `size * 2^k` elements. */
  lemma TreeLeafLength(shards: seq<seq<int>>, size: nat, id: nat, k: nat)
    requires id + Pow2(k) <= |shards|
    requires forall i :: 0 <= i < |shards| ==> |shards[i]| == size
    ensures |TreeLeaf(shards, id, k)| == size * Pow2(k)
  {
    var block := Span(shards, id, Pow2(k));
    TreeLeafSortsBlock(shards, id, k);
    SpanLength(shards, size, id, Pow2(k));
    LocalSortCorrect(block);
    assert |LocalSort(block)| == |multiset(LocalSort(block))| == |block|;
  }

  /**
   * The whole tree over a scattered input is the input in ascending order:
   * what rank 0 ends up holding is exactly what `qsort` makes of the input.
   */
  lemma TreeSortsInput(input: seq<int>, size: nat, H: nat)
    requires |input| == size * Pow2(H)
    ensures |Scatter(input, size, Pow2(H))| == Pow2(H)
    ensures TreeLeaf(Scatter(input, size, Pow2(H)), 0, H) == LocalSort(input)
  {
    var shards := Scatter(input, size, Pow2(H));
    TreeLeafSortsBlock(shards, 0, H);
    GatherIsSpan(shards);
    GatherScatter(input, size, Pow2(H));
  }

  /** The run rank j sends to its parent: the tree run over the 2^k shards it collected. */
  function SentRun(shards: seq<seq<int>>, H: nat, j: nat): (run: seq<int>)
    requires |shards| == Pow2(H) && j < |shards|
  {
    BlockFits(j, H, ReceiveRounds(j, H));
    TreeLeaf(shards, j, ReceiveRounds(j, H))
  }

  /** Every message rank id reads in its first k rounds was sent to it and is the tree run of its sender. */
  predicate Delivered(shards: seq<seq<int>>, mailbox: Mailbox, id: nat, k: nat)
  {
    forall r {:trigger Sender(id, r)} :: 0 <= r < k ==>
      (Sender(id, r), id) in mailbox && Sender(id, r) + Pow2(r) <= |shards|
      && mailbox[(Sender(id, r), id)] == TreeLeaf(shards, Sender(id, r), r)
  }

  /** When its messages are delivered, the run a rank holds is the tree run over its block of shards. */
  lemma {:induction false} LeafAfterIsTreeLeaf(shards: seq<seq<int>>, mailbox: Mailbox, id: nat, k: nat)
    requires id + Pow2(k) <= |shards|
    requires Delivered(shards, mailbox, id, k)
    ensures LeafAfter(LocalSort(shards[id]), mailbox, id, k) == TreeLeaf(shards, id, k)
  {
    if k > 0 {
      var j := k - 1;
      assert Pow2(k) == 2 * Pow2(j);
      assert Delivered(shards, mailbox, id, j);
      LeafAfterIsTreeLeaf(shards, mailbox, id, j);
      assert Incoming(mailbox, Sender(id, j), id) == TreeLeaf(shards, Sender(id, j), j);
    }
  }

  // ---------------------------------------------------------------------------
  // One rank

  /**
   * `merge_sort` on rank `id` of a group of 2^H ranks: sorts `local` in place,
   * then in each round either merges in the run received from its peer or
   * sends its run to its parent and leaves the loop.  Returns rank 0's final
   * run in place of `global_numbers_array`, and the message the rank sent.
   */
  method MergeSortRank(H: nat, id: nat, local: array<int>, mailbox: Mailbox, global: Option<seq<int>>)
      returns (result: Option<seq<int>>, sent: Option<Message>)
    requires H <= MaxHeight && id < Pow2(H)
    requires forall r {:trigger Sender(id, r)} :: 0 <= r < ReceiveRounds(id, H) ==>
               (Sender(id, r), id) in mailbox && |mailbox[(Sender(id, r), id)]| == RunLength(local.Length, r)
    modifies local
    ensures Pow2(H) < IntLimit
    ensures local[..] == LocalSort(old(local[..]))
    ensures var k := ReceiveRounds(id, H);
            var run := LeafAfter(LocalSort(old(local[..])), mailbox, id, k);
            && sent == (if k < H then Some(Message(Parent(id, k), run)) else None)
            && result == (if id == 0 then Some(run) else global)
  {
    SortInPlace(local);
    var leftLeaf;
    leftLeaf, sent := MergeRounds(H, id, local, mailbox);
    if id == 0 {
      result := Some(leftLeaf[..]);
    } else {
      result := global;
    }
  }

  /**
   * The loop of `merge_sort`, from the sorted shard `leaf`: while the rank's
   * bit for the round is clear it receives from `id | (1 << height)` and
   * merges; at the first set bit it sends its run to `id & ~(1 << height)`
   * and jumps to the end.  Returns the last run held and the message sent.
   */
  method MergeRounds(H: nat, id: nat, leaf: array<int>, mailbox: Mailbox)
      returns (leftLeaf: array<int>, sent: Option<Message>)
    requires H <= MaxHeight && id < Pow2(H)
    requires forall r {:trigger Sender(id, r)} :: 0 <= r < ReceiveRounds(id, H) ==>
               (Sender(id, r), id) in mailbox && |mailbox[(Sender(id, r), id)]| == RunLength(leaf.Length, r)
    ensures Pow2(H) < IntLimit
    ensures var k := ReceiveRounds(id, H);
            var run := LeafAfter(leaf[..], mailbox, id, k);
            && leftLeaf[..] == run
            && sent == (if k < H then Some(Message(Parent(id, k), run)) else None)
  {
    Pow2BelowIntLimit(H);
    Pow2Monotonic(H, MaxHeight + 1);
    ghost var k := ReceiveRounds(id, H);
    ghost var start := leaf[..];
    ghost var base := leaf.Length;

    var height: nat := 0;
    var size: nat := leaf.Length;
    leftLeaf := leaf;
    ghost var rounds: nat := 0;
    sent := None;
    while height < H
      invariant height <= H && rounds <= k
      invariant sent.None? ==> height == rounds
      invariant sent.Some? ==> height == H && rounds == k < H
      invariant sent.Some? ==> sent == Some(Message(Parent(id, k), LeafAfter(start, mailbox, id, k)))
      invariant leftLeaf.Length == size == RunLength(base, rounds)
      invariant leftLeaf[..] == LeafAfter(start, mailbox, id, rounds)
      decreases H - height
    {
      RolesOfRank(id, H, height);
      var parent := Parent(id, height);
      if parent == id {
        var rightChild := Peer(id, height);
        assert rightChild == Sender(id, height);
        leftLeaf := ReceiveAndMerge(leftLeaf, mailbox[(rightChild, id)]);
        size := size * 2;
        height := height + 1;
        rounds := rounds + 1;
      } else {
        sent := Some(Message(parent, leftLeaf[..]));
        height := H;
      }
    }
  }

  /**
   * The receiving half of a round: the peer's run arrives in a fresh buffer of
   * the same size as the rank's own run, and the two are merged, own run
   * first, into a fresh buffer twice that size.
   */
  method ReceiveAndMerge(leftLeaf: array<int>, payload: seq<int>) returns (merged: array<int>)
    requires |payload| == leftLeaf.Length
    ensures fresh(merged)
    ensures merged.Length == 2 * leftLeaf.Length
    ensures merged[..] == MergeBy(leftLeaf[..], payload, Id)
  {
    var size := leftLeaf.Length;
    var rightLeaf := BufferOf(payload);
    merged := new int[size * 2];
    Merge(leftLeaf, rightLeaf, merged, size);
    assert leftLeaf[..size] == leftLeaf[..] && rightLeaf[..size] == rightLeaf[..];
  }

  // ---------------------------------------------------------------------------
  // The whole group

  /**
   * All 2^H ranks of `main`, each calling `merge_sort` on its shard: rank 0
   * with `global` (its `global_numbers_array`), the others with NULL.  The
   * ranks run from the highest down to 0; each message goes to the mailbox
   * under its sender and the destination it names.
   */
  method Reduce(H: nat, shards: seq<seq<int>>, size: nat, global: seq<int>) returns (results: seq<Option<seq<int>>>)
    requires H <= MaxHeight && |shards| == Pow2(H)
    requires forall i :: 0 <= i < |shards| ==> |shards[i]| == size
    ensures |results| == |shards|
    ensures results[0] == Some(TreeLeaf(shards, 0, H))
    ensures forall j :: 0 < j < |results| ==> results[j] == None
  {
    var P := Pow2(H);
    var mailbox: Mailbox := map[];
    results := seq(P, _ => None);
    var id := P;
    while id > 0
      invariant id <= P && |results| == P
      invariant forall j :: id <= j < P && j > 0 ==>
                  (j, Destination(j, H)) in mailbox && mailbox[(j, Destination(j, H))] == SentRun(shards, H, j)
      invariant forall j :: 0 < j < P ==> results[j] == None
      invariant id == 0 ==> results[0] == Some(TreeLeaf(shards, 0, H))
      decreases id
    {
      id := id - 1;
      var result;
      result, mailbox := RunRank(H, shards, size, id, mailbox, global);
      results := results[id := result];
    }
  }

  /**
   * Rank id's turn: it reads the runs its children addressed to it and either
   * posts its own run under itself and the destination its send names or, as
   * rank 0, returns the run of the whole group.
   */
  method RunRank(H: nat, shards: seq<seq<int>>, size: nat, id: nat, mailbox: Mailbox, global: seq<int>)
      returns (result: Option<seq<int>>, mailbox': Mailbox)
    requires H <= MaxHeight && |shards| == Pow2(H) && id < |shards|
    requires forall i :: 0 <= i < |shards| ==> |shards[i]| == size
    requires forall j :: id < j < |shards| && j > 0 ==>
               (j, Destination(j, H)) in mailbox && mailbox[(j, Destination(j, H))] == SentRun(shards, H, j)
    ensures id == 0 ==> result == Some(TreeLeaf(shards, 0, H)) && mailbox' == mailbox
    ensures id > 0 ==> result == None && mailbox' == mailbox[(id, Destination(id, H)) := SentRun(shards, H, id)]
  {
    var k := ReceiveRounds(id, H);
    MailboxReady(shards, size, H, mailbox, id);
    var local := BufferOf(shards[id]);
    var sent;
    result, sent := MergeSortRank(H, id, local, mailbox, if id == 0 then Some(global) else None);
    LeafAfterIsTreeLeaf(shards, mailbox, id, k);
    OnlyRankZeroSurvives(id, H);
    mailbox' := mailbox;
    if sent.Some? {
      DestinationReceives(id, H);
      mailbox' := mailbox[(id, sent.value.dest) := sent.value.payload];
    }
  }

  /**
   * When rank id runs, every rank it receives from has already sent it, by
   * name, the tree run over its own block.
   */
  lemma MailboxReady(shards: seq<seq<int>>, size: nat, H: nat, mailbox: Mailbox, id: nat)
    requires |shards| == Pow2(H) && id < |shards|
    requires forall i :: 0 <= i < |shards| ==> |shards[i]| == size
    requires forall j :: id < j < |shards| && j > 0 ==>
               (j, Destination(j, H)) in mailbox && mailbox[(j, Destination(j, H))] == SentRun(shards, H, j)
    ensures id + Pow2(ReceiveRounds(id, H)) <= |shards|
    ensures Delivered(shards, mailbox, id, ReceiveRounds(id, H))
    ensures forall r {:trigger Sender(id, r)} :: 0 <= r < ReceiveRounds(id, H) ==>
              (Sender(id, r), id) in mailbox && |mailbox[(Sender(id, r), id)]| == RunLength(size, r)
  {
    var k := ReceiveRounds(id, H);
    BlockFits(id, H, k);
    forall r | 0 <= r < k
      ensures (Sender(id, r), id) in mailbox && Sender(id, r) + Pow2(r) <= |shards|
      ensures mailbox[(Sender(id, r), id)] == TreeLeaf(shards, Sender(id, r), r)
      ensures |mailbox[(Sender(id, r), id)]| == RunLength(size, r)
    {
      var peer := id + Pow2(r);
      Pow2Monotonic(r, k);
      Pow2Monotonic(r + 1, k);
      PeerSendsInRound(id, H, r);
      assert Destination(peer, H) == id;
      TreeLeafLength(shards, size, peer, r);
      RunLengthIsProduct(size, r);
    }
  }
}
