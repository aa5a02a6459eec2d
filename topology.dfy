/**
 * The hypercube addressing of the merge tree in `merge_sort`
 * (MergeSortMPI.c): in round r a rank whose bit r is clear receives from
 * `id | (1 << r)`, and a rank whose bit r is set sends to `id & ~(1 << r)`
 * and leaves the reduction.
 */
module Topology {
  import opened Bits

  /** The largest merge-tree height a group size held in an `int` allows (P = 2^H < 2^31). */
  const MaxHeight: nat := 30

  /** `parent_id = process_id & ~(1 << r)`. */
  function Parent(id: nat, r: nat): (parent: nat)
    requires id < IntLimit && r < 31
  {
    Pow2BelowIntLimit(r);
    BitAnd(id, BitNot32(Pow2(r)))
  }

  /** `right_child_id = process_id | (1 << r)`. */
  function Peer(id: nat, r: nat): (peer: nat)
    requires r < 31
  {
    BitOr(id, Pow2(r))
  }

  /** What a rank does in one round of the reduction. */
  datatype Role = Receive(peer: nat) | Send(parent: nat)

  /** The role test of `merge_sort`: a rank that is its own parent receives from its peer. */
  function RoleOf(id: nat, r: nat): (role: Role)
    requires id < IntLimit && r < 31
  {
    var parent := Parent(id, r);
    if parent == id then Receive(Peer(id, r)) else Send(parent)
  }

  /**
   * Number of rounds, out of H, in which rank id receives before it sends:
   * the number of trailing zero bits of id, capped at H.
   */
  function ReceiveRounds(id: nat, H: nat): (k: nat)
    ensures k <= H
  {
    if H == 0 || id % 2 == 1 then 0 else 1 + ReceiveRounds(id / 2, H - 1)
  }

  // ---------------------------------------------------------------------------
  // Parent, peer and role in terms of bit r

  /** The parent is the rank with bit r cleared. */
  lemma ParentClearsBit(id: nat, r: nat)
    requires id < IntLimit && r < 31
    ensures Parent(id, r) == if Bit(id, r) == 1 then id - Pow2(r) else id
  {
    Pow2Int32();
    ClearBitMask(id, 32, r);
  }

  /** The peer is the rank with bit r set. */
  lemma PeerSetsBit(id: nat, r: nat)
    requires r < 31
    ensures Peer(id, r) == if Bit(id, r) == 1 then id else id + Pow2(r)
  {
    SetBitMask(id, r);
  }

  /** A rank receives in round r exactly when its bit r is clear; its peer is then id + 2^r, else its parent is id - 2^r. */
  lemma RoleByBit(id: nat, r: nat)
    requires id < IntLimit && r < 31
    ensures Parent(id, r) == id <==> Bit(id, r) == 0
    ensures Bit(id, r) == 1 ==> Pow2(r) <= id
    ensures RoleOf(id, r) == if Bit(id, r) == 0 then Receive(id + Pow2(r)) else Send(id - Pow2(r))
  {
    ParentClearsBit(id, r);
    PeerSetsBit(id, r);
    if Bit(id, r) == 1 {
      BitSetBound(id, r);
    }
  }

  /** Senders and receivers of one round of a group of 2^H ranks match one to one: each names the other. */
  lemma PairingIsOneToOne(H: nat, id: nat, r: nat)
    requires H <= MaxHeight && id < Pow2(H) && r < H
    ensures Pow2(H) < IntLimit
    ensures RoleOf(id, r).Receive? ==>
              RoleOf(id, r).peer < Pow2(H) && RoleOf(RoleOf(id, r).peer, r) == Send(id)
    ensures RoleOf(id, r).Send? ==>
              RoleOf(id, r).parent < id && RoleOf(RoleOf(id, r).parent, r) == Receive(id)
  {
    Pow2BelowIntLimit(H);
    RoleByBit(id, r);
    if Bit(id, r) == 0 {
      ReceiverPairsWithSender(H, id, r);
    } else {
      SenderPairsWithReceiver(id, r);
    }
  }

  lemma ReceiverPairsWithSender(H: nat, id: nat, r: nat)
    requires H < 31 && id < Pow2(H) && r < H && Bit(id, r) == 0
    ensures id + Pow2(r) < Pow2(H) < IntLimit
    ensures RoleOf(id + Pow2(r), r) == Send(id)
  {
    Pow2BelowIntLimit(H);
    SetBitStaysInGroup(id, H, r);
    PeerOfReceiverSends(id, r);
  }

  lemma PeerOfReceiverSends(id: nat, r: nat)
    requires r < 31 && id + Pow2(r) < IntLimit && Bit(id, r) == 0
    ensures RoleOf(id + Pow2(r), r) == Send(id)
  {
    AddPow2FlipsBit(id, r);
    RoleByBit(id + Pow2(r), r);
  }

  lemma SenderPairsWithReceiver(id: nat, r: nat)
    requires id < IntLimit && r < 31 && Bit(id, r) == 1
    ensures Pow2(r) <= id
    ensures RoleOf(id - Pow2(r), r) == Receive(id)
  {
    BitSetBound(id, r);
    AddPow2FlipsBit(id - Pow2(r), r);
    RoleByBit(id - Pow2(r), r);
  }

  /** Setting a clear bit r < H of a rank of a group of 2^H ranks gives a rank of the group. */
  lemma {:induction false} SetBitStaysInGroup(id: nat, H: nat, r: nat)
    requires id < Pow2(H) && r < H && Bit(id, r) == 0
    ensures id + Pow2(r) < Pow2(H)
  {
    assert Pow2(H) == 2 * Pow2(H - 1);
    if r > 0 {
      assert Pow2(r) == 2 * Pow2(r - 1);
      assert id / 2 < Pow2(H - 1);
      SetBitStaysInGroup(id / 2, H - 1, r - 1);
      assert id + Pow2(r) <= 2 * (id / 2 + Pow2(r - 1)) + 1;
    }
  }

  /** Rank 0 is a receiver in every round. */
  lemma RankZeroReceives(r: nat)
    requires r < 31
    ensures RoleOf(0, r) == Receive(Pow2(r))
  {
    BitOfZero(r);
    RoleByBit(0, r);
  }

  // ---------------------------------------------------------------------------
  // The rounds of one rank

  /** Rank id receives in the first ReceiveRounds(id, H) rounds and sends in the next one. */
  lemma {:induction false} ReceiveRoundsBits(id: nat, H: nat, r: nat)
    requires r < H && r <= ReceiveRounds(id, H)
    ensures r < ReceiveRounds(id, H) <==> Bit(id, r) == 0
  {
    if r > 0 {
      ReceiveRoundsBits(id / 2, H - 1, r - 1);
    }
  }

  /** The role `merge_sort` computes in each round of a rank's loop. */
  lemma RolesOfRank(id: nat, H: nat, r: nat)
    requires H <= MaxHeight && id < Pow2(H)
    requires r < H && r <= ReceiveRounds(id, H)
    ensures Pow2(H) < IntLimit
    ensures r < ReceiveRounds(id, H) ==> RoleOf(id, r) == Receive(id + Pow2(r))
    ensures r == ReceiveRounds(id, H) ==> Pow2(r) <= id && RoleOf(id, r) == Send(id - Pow2(r))
  {
    Pow2BelowIntLimit(H);
    ReceiveRoundsBits(id, H, r);
    RoleByBit(id, r);
  }

  /** Of the ranks 0 .. 2^H - 1, only rank 0 never sends. */
  lemma {:induction false} OnlyRankZeroSurvives(id: nat, H: nat)
    requires id < Pow2(H)
    ensures ReceiveRounds(id, H) == H <==> id == 0
  {
    if H > 0 && id % 2 == 0 {
      OnlyRankZeroSurvives(id / 2, H - 1);
    }
  }

  /** The peer rank id + 2^r of a receiver sends in exactly round r. */
  lemma {:induction false} PeerSendsInRound(id: nat, H: nat, r: nat)
    requires r < ReceiveRounds(id, H)
    ensures ReceiveRounds(id + Pow2(r), H) == r
  {
    if r > 0 {
      assert (id + Pow2(r)) / 2 == id / 2 + Pow2(r - 1);
      PeerSendsInRound(id / 2, H - 1, r - 1);
    }
  }

  /** A rank that survives k rounds owns the block of ranks id .. id + 2^k - 1, inside the group. */
  lemma {:induction false} BlockFits(id: nat, H: nat, k: nat)
    requires id < Pow2(H) && k <= ReceiveRounds(id, H)
    ensures id + Pow2(k) <= Pow2(H)
  {
    if k > 0 {
      BlockFits(id / 2, H - 1, k - 1);
    }
  }

  // ---------------------------------------------------------------------------
  // Where a rank's run goes

  /**
   * The rank that rank id (0 < id < 2^H) sends its run to when it leaves the
   * loop: id with its lowest set bit cleared.
   */
  function Destination(id: nat, H: nat): (dest: nat)
    requires 0 < id < Pow2(H)
    ensures dest < id
  {
    LowestSetBitBound(id, H);
    id - Pow2(ReceiveRounds(id, H))
  }

  /** A rank other than 0 sends before round H, and its lowest set bit is at most the rank itself. */
  lemma {:induction false} LowestSetBitBound(id: nat, H: nat)
    requires 0 < id < Pow2(H)
    ensures ReceiveRounds(id, H) < H && Pow2(ReceiveRounds(id, H)) <= id
  {
    if id % 2 == 0 {
      LowestSetBitBound(id / 2, H - 1);
    }
  }

  /** Clearing the lowest set bit of a rank gives a rank that receives for more rounds. */
  lemma {:induction false} ParentReceivesLonger(id: nat, H: nat)
    requires 0 < id < Pow2(H)
    ensures Pow2(ReceiveRounds(id, H)) <= id
    ensures ReceiveRounds(id, H) < ReceiveRounds(id - Pow2(ReceiveRounds(id, H)), H)
  {
    LowestSetBitBound(id, H);
    if id % 2 == 0 {
      var k := ReceiveRounds(id / 2, H - 1);
      ParentReceivesLonger(id / 2, H - 1);
      assert id - Pow2(k + 1) == 2 * (id / 2 - Pow2(k));
    }
  }

  /**
   * A rank other than 0 leaves its loop in round k = ReceiveRounds(id, H) by
   * sending to its parent, which is Destination(id, H); that rank is still in
   * its own loop in round k and receives from id there.
   */
  lemma DestinationReceives(id: nat, H: nat)
    requires H <= MaxHeight && 0 < id < Pow2(H)
    ensures Pow2(H) < IntLimit && ReceiveRounds(id, H) < H
    ensures RoleOf(id, ReceiveRounds(id, H)) == Send(Destination(id, H))
    ensures ReceiveRounds(id, H) < ReceiveRounds(Destination(id, H), H)
    ensures RoleOf(Destination(id, H), ReceiveRounds(id, H)) == Receive(id)
  {
    var k := ReceiveRounds(id, H);
    var dest := Destination(id, H);
    LowestSetBitBound(id, H);
    RolesOfRank(id, H, k);
    ParentReceivesLonger(id, H);
    RolesOfRank(dest, H, k);
  }
}
