/** The virtqueue of virtio_test.py: one list of descriptors, an avail ring and a used ring. */
module Virtqueue {
  import opened Common
  import opened Rings
  import opened QueueSpec

  const VRING_DESC_F_NEXT := 1

  /** The descriptors are split into the free list, the pending and the consumed ones;
      `skb` marks those that are not free. */
  ghost predicate Owned(next: seq<nat>, head: nat, skb: seq<nat>, free: seq<nat>, pend: seq<nat>, done: seq<nat>) {
    && |skb| == |next|
    && Chain(next, head, free, |next|)
    && Partition(|next|, free, pend, done)
    && forall d: nat :: d < |skb| ==> skb[d] == if d in free then 0 else 1
  }

  ghost predicate InRange(n: nat, s: seq<nat>) {
    forall i :: 0 <= i < |s| ==> s[i] < n
  }

  ghost function Contents(addr: seq<Packet>, s: seq<nat>): (r: seq<Packet>)
    requires InRange(|addr|, s)
    ensures |r| == |s| && forall i :: 0 <= i < |s| ==> r[i] == addr[s[i]]
  {
    seq(|s|, i requires 0 <= i < |s| => addr[s[i]])
  }

  lemma InRangeUpdate(n: nat, s: seq<nat>, k: nat, d: nat)
    requires InRange(n, s) && k < |s| && d < n
    ensures InRange(n, s[k := d])
  {
  }

  lemma InRangeAt(n: nat, s: seq<nat>)
    requires InRange(n, s)
    ensures forall i :: 0 <= i < |s| ==> s[i] < n
  {
  }

  /** What `count` entries of the ring, starting at the index `from`, refer to. */
  ghost function Copied(addr: seq<Packet>, ring: seq<nat>, from: int, count: nat): (r: seq<Packet>)
    requires |ring| > 0 && InRange(|addr|, ring)
    ensures |r| == count
  {
    seq(count, i requires 0 <= i => addr[ring[Slot(from, i, |ring|)]])
  }

  lemma CopiedNext(addr: seq<Packet>, ring: seq<nat>, from: int, i: nat)
    requires |ring| > 0 && InRange(|addr|, ring)
    ensures ring[Slot(from, i, |ring|)] < |addr|
    ensures Copied(addr, ring, from, i + 1) == Copied(addr, ring, from, i) + [addr[ring[Slot(from, i, |ring|)]]]
    ensures Copied(addr, ring, from, 0) == []
  {
  }

  lemma CopiedHeld(addr: seq<Packet>, ring: seq<nat>, from: int, s: seq<nat>)
    requires |ring| > 0 && InRange(|addr|, ring) && InRange(|addr|, s) && Holds(ring, from, s)
    ensures Copied(addr, ring, from, |s|) == Contents(addr, s)
  {
    forall i | 0 <= i < |s|
      ensures Copied(addr, ring, from, |s|)[i] == Contents(addr, s)[i]
    {
      HoldsAt(ring, from, s, i);
    }
  }

  lemma ContentsAdd(addr: seq<Packet>, s: seq<nat>, d: nat, pkt: Packet)
    requires InRange(|addr|, s) && d < |addr| && d !in s
    ensures InRange(|addr|, s + [d]) && Contents(addr[d := pkt], s + [d]) == Contents(addr, s) + [pkt]
  {
  }

  lemma OwnedParts(next: seq<nat>, head: nat, skb: seq<nat>, free: seq<nat>, pend: seq<nat>, done: seq<nat>)
    requires Owned(next, head, skb, free, pend, done)
    ensures InRange(|next|, pend) && InRange(|next|, done) && |free| + |pend| + |done| == |next|
  {
    PartitionCount(|next|, free, pend, done);
    forall i | 0 <= i < |pend|
      ensures pend[i] < |next|
    {
      PartitionOnce(|next|, free, pend, done, pend[i]);
    }
    forall i | 0 <= i < |done|
      ensures done[i] < |next|
    {
      PartitionOnce(|next|, free, pend, done, done[i]);
    }
  }

  /** The first free descriptor becomes pending. */
  lemma Take(next: seq<nat>, head: nat, skb: seq<nat>, free: seq<nat>, pend: seq<nat>, done: seq<nat>)
    requires Owned(next, head, skb, free, pend, done) && free != []
    ensures head == free[0] && head < |next| && head !in pend
    ensures Owned(next, next[head], skb[head := 1], free[1..], pend + [head], done)
  {
    ChainPop(next, head, free, |next|);
    PartitionOnce(|next|, free, pend, done, head);
    MoveFirst(free, pend);
    forall d: nat
      ensures d in free[1..] <==> d in free && d != head
    {
      TailWithout(free, d);
    }
  }

  /** The first pending descriptor becomes a consumed one. */
  lemma Hand(next: seq<nat>, head: nat, skb: seq<nat>, free: seq<nat>, pend: seq<nat>, done: seq<nat>)
    requires Owned(next, head, skb, free, pend, done) && pend != []
    ensures Owned(next, head, skb, free, pend[1..], done + [pend[0]])
  {
    MoveFirst(pend, done);
    assert multiset(free) + (multiset(pend) + multiset(done)) == All(|next|);
    assert multiset(free) + (multiset(pend[1..]) + multiset(done + [pend[0]])) == All(|next|);
  }

  /** The first consumed descriptor goes to the front of the free list. */
  lemma Return(next: seq<nat>, head: nat, skb: seq<nat>, free: seq<nat>, pend: seq<nat>, done: seq<nat>)
    requires Owned(next, head, skb, free, pend, done) && done != []
    ensures done[0] < |next|
    ensures Owned(next[done[0] := head], done[0], skb[done[0] := 0], [done[0]] + free, pend, done[1..])
  {
    PartitionOnce(|next|, free, pend, done, done[0]);
    ChainPush(next, head, free, |next|, done[0]);
    MoveFront(done, free);
    assert (multiset(done) + multiset(free)) + multiset(pend) == All(|next|);
    assert (multiset(done[1..]) + multiset([done[0]] + free)) + multiset(pend) == All(|next|);
  }

  lemma NewRing(next: seq<nat>, skb: seq<nat>)
    requires |skb| == |next| > 0 && forall k :: 0 <= k < |next| ==> next[k] == k + 1 && skb[k] == 0
    ensures Owned(next, 0, skb, Upto(0, |next|), [], [])
  {
    UptoChain(next, 0, |next|, |next|);
    UptoAll(|next|);
    forall d: nat | d < |next|
      ensures d in Upto(0, |next|)
    {
      assert Upto(0, |next|)[d] == d;
    }
  }

  class Vring {
    const ringSize: nat
    var addr: seq<Packet>
    var next: seq<nat>
    var flag: seq<nat>
    var skbData: seq<nat>
    var availRing: seq<nat>
    var usedRing: seq<nat>
    var availIdx: nat
    var usedIdx: nat
    var loopFlag: bool
    var freeNum: nat
    var freeHead: nat
    var lastAvailIdx: nat
    var lastUsedIndex: nat
    var dropCount: nat
    var putCount: nat
    var getCount: nat
    /** The free descriptors in list order, the pending ones and the consumed ones in ring order. */
    ghost var free: seq<nat>
    ghost var pend: seq<nat>
    ghost var done: seq<nat>

    /** What holds between any two calls, whoever makes them. */
    ghost predicate Intact()
      reads this
    {
      && ringSize > 0 && |addr| == |next| == |flag| == |skbData| == |availRing| == |usedRing| == ringSize
      && (forall d :: 0 <= d < ringSize ==> flag[d] == 0)
      && Owned(next, freeHead, skbData, free, pend, done) && InRange(ringSize, pend) && InRange(ringSize, done)
      && InRange(ringSize, availRing) && |free| + |pend| + |done| == ringSize
      && freeNum == |free| && availIdx == lastAvailIdx + |pend|
      && Holds(availRing, lastAvailIdx, pend)
      && Holds(usedRing, lastUsedIndex, done)
      && usedIdx == Slot(lastUsedIndex, |done|, ringSize) && lastUsedIndex < ringSize
    }

    /** The flag marks exactly the full ring. */
    ghost predicate FlagRight()
      reads this
    {
      loopFlag <==> |pend| == ringSize
    }

    ghost predicate Valid()
      reads this
    {
      Intact() && FlagRight()
    }

    /** The flag is never missing on a full ring. */
    ghost predicate Raised()
      reads this
    {
      |pend| == ringSize ==> loopFlag
    }

    /** The packets in the avail ring that are not consumed yet. */
    ghost function Pending(): seq<Packet>
      requires Intact()
      reads this
    {
      Contents(addr, pend)
    }

    /** The packets that the next round of the consumer copies out. */
    ghost function Delivery(): (r: seq<Packet>)
      requires Intact()
      reads this
    {
      Copied(addr, availRing, lastAvailIdx, ReadCount(ringSize, availIdx, lastAvailIdx, loopFlag))
    }

    /** If the flag is right, that is what is pending. */
    lemma DeliversPending()
      requires Valid()
      ensures ReadCount(ringSize, availIdx, lastAvailIdx, loopFlag) == |pend| && Delivery() == Pending()
    {
      hide Owned, Copied, Contents, InRange, Holds;
      ReadsAllIff(ringSize, availIdx, lastAvailIdx, loopFlag);
      CopiedHeld(addr, availRing, lastAvailIdx, pend);
    }

    constructor (n: nat)
      requires n > 0
      ensures Valid() && ringSize == n && Pending() == [] && putCount == 0 && getCount == 0 && dropCount == 0
      ensures free == Upto(0, n) && pend == [] && done == [] && availIdx == 0 && lastAvailIdx == 0 && !loopFlag
    {
      hide Owned, Upto;
      ringSize := n;
      var zeros := seq(n, i => 0);
      addr, next := seq(n, i => ""), seq(n, i requires 0 <= i => i + 1);
      flag, skbData, availRing, usedRing := zeros, zeros, zeros, zeros;
      availIdx, usedIdx, loopFlag, freeNum, freeHead, lastAvailIdx, lastUsedIndex := 0, 0, false, n, 0, 0, 0;
      dropCount, putCount, getCount := 0, 0, 0;
      free, pend, done := Upto(0, n), [], [];
      new;
      NewRing(next, skbData);
      OwnedParts(next, freeHead, skbData, free, pend, done);
      ModUnique(0, n, 0, 0);
    }

    /** The accepting part of put_ring, up to the update of the loop flag. */
    method AddBuf(pkt: Packet)
      requires Intact() && free != []
      modifies this`addr, this`skbData, this`availRing, this`availIdx, this`freeNum, this`putCount, this`freeHead,
        this`free, this`pend
      ensures Intact() && Pending() == old(Pending()) + [pkt] && putCount == old(putCount) + 1
      ensures free == old(free)[1..] && pend == old(pend) + [old(free)[0]]
      ensures old(free)[0] < ringSize && addr == old(addr)[old(free)[0] := pkt] && availIdx == old(availIdx) + 1
      ensures availRing == old(availRing)[Slot(old(availIdx), 0, ringSize) := old(free)[0]]
    {
      hide Owned, Holds, Slot, InRange, Contents;
      var buffIndex := freeHead;
      Take(next, freeHead, skbData, free, pend, done);
      RingPush(availRing, lastAvailIdx, pend, buffIndex);
      SlotStart(lastAvailIdx, |pend|, ringSize);
      ContentsAdd(addr, pend, buffIndex, pkt);
      InRangeUpdate(ringSize, availRing, Slot(availIdx, 0, ringSize), buffIndex);
      addr := addr[buffIndex := pkt];
      skbData := skbData[buffIndex := 1];
      availRing := availRing[Slot(availIdx, 0, ringSize) := buffIndex];
      availIdx := availIdx + 1;
      freeNum := freeNum - 1;
      putCount := putCount + 1;
      freeHead := next[buffIndex];
      pend, free := pend + [free[0]], free[1..];
    }

    /** A packet is accepted if there is a free descriptor and the flag is off. Afterwards the flag
        is right again, unless the last free descriptor was taken while consumed ones were not reclaimed. */
    method PutRing(pkt: Packet)
      requires Intact()
      modifies this`addr, this`skbData, this`availRing, this`availIdx, this`freeNum, this`putCount, this`freeHead,
        this`free, this`pend, this`loopFlag, this`dropCount
      ensures Intact()
      ensures old(free) != [] && !old(loopFlag) ==>
        && Pending() == old(Pending()) + [pkt] && putCount == old(putCount) + 1 && dropCount == old(dropCount)
        && free == old(free)[1..] && pend == old(pend) + [old(free)[0]]
        && old(free)[0] < ringSize && addr == old(addr)[old(free)[0] := pkt] && availIdx == old(availIdx) + 1
        && availRing == old(availRing)[Slot(old(availIdx), 0, ringSize) := old(free)[0]]
      ensures old(free) == [] || old(loopFlag) ==>
        && Pending() == old(Pending()) && putCount == old(putCount) && dropCount == old(dropCount) + 1
        && free == old(free) && pend == old(pend)
      ensures loopFlag <==> old(loopFlag) || |old(free)| == 1
      ensures old(FlagRight()) ==> (FlagRight() <==> !(!old(loopFlag) && |old(free)| == 1 && old(done) != []))
    {
      hide Owned, Holds, Slot, InRange, Contents;
      if freeNum > 0 && !loopFlag {
        AddBuf(pkt);
        if freeNum == 0 {
          loopFlag := true;
        }
      } else {
        dropCount := dropCount + 1;
      }
    }

    /** What the loop of get_ring keeps as long as it reads pending descriptors. */
    ghost predicate Using()
      requires ringSize > 0
      reads this
    {
      && Owned(next, freeHead, skbData, free, pend, done)
      && Holds(usedRing, lastUsedIndex, done) && usedIdx == Slot(lastUsedIndex, |done|, ringSize)
    }

    /** One turn of the loop in get_ring; `good` says that the descriptor is the first pending one. */
    method UseBuf(buffIndex: nat, ghost good: bool)
      requires |usedRing| == ringSize > 0
      requires good ==> pend != [] && pend[0] == buffIndex && ringSize > |done| && Using()
      modifies this`usedRing, this`usedIdx, this`pend, this`done, this`getCount
      ensures |usedRing| == ringSize && getCount == old(getCount) + 1
      ensures good ==> Using() && pend == old(pend)[1..] && done == old(done) + [buffIndex]
    {
      hide Owned, Holds, Slot;
      getCount := getCount + 1;
      if good {
        Hand(next, freeHead, skbData, free, pend, done);
        RingPush(usedRing, lastUsedIndex, done, buffIndex);
        SlotNext(lastUsedIndex, |done|, 0, ringSize);
        SlotNext(lastUsedIndex, |done|, 1, ringSize);
        pend, done := pend[1..], done + [buffIndex];
      }
      usedRing := usedRing[Slot(usedIdx, 0, ringSize) := buffIndex];
      usedIdx := Slot(usedIdx, 1, ringSize);
    }

    /** The loop in get_ring: `count` packets are copied out, and their descriptors become used. */
    method UseAll(count: nat) returns (out: seq<Packet>)
      requires Intact() && count == ReadCount(ringSize, availIdx, lastAvailIdx, loopFlag)
      modifies this`usedRing, this`usedIdx, this`pend, this`done, this`getCount
      ensures out == old(Delivery()) && getCount == old(getCount) + count && |usedRing| == ringSize
      ensures old(FlagRight()) ==> Using() && pend == [] && done == old(done) + old(pend)
    {
      hide Owned, Holds, Slot, InRange, Contents, Copied;
      ghost var p, d, good, from := pend, done, FlagRight(), lastAvailIdx;
      if good { DeliversPending(); }
      out := [];
      CopiedNext(addr, availRing, from, 0);
      for i := 0 to count
        invariant getCount == old(getCount) + i && |usedRing| == ringSize && out == Copied(addr, availRing, from, i)
        invariant good ==> Using() && done == d + p[..i] && pend == p[i..]
      {
        CopiedNext(addr, availRing, from, i);
        var buffIndex := availRing[Slot(lastAvailIdx, i, ringSize)];
        out := out + [addr[buffIndex]];
        if good { HoldsAt(availRing, from, p, i); }
        UseBuf(buffIndex, good);
      }
      assert p[..|p|] == p;
    }

    /** The consumer takes what the flag and the indices tell it to; if the flag is right, that is
        everything that is pending. */
    method GetRing() returns (pkts: Option<seq<Packet>>)
      requires Intact()
      modifies this`usedRing, this`usedIdx, this`pend, this`done, this`getCount, this`lastAvailIdx, this`loopFlag
      ensures pkts == if |free| < ringSize then Some(old(Delivery())) else None
      ensures getCount == old(getCount) + if |free| < ringSize then |old(Delivery())| else 0
      ensures |free| < ringSize ==> lastAvailIdx == availIdx
      ensures old(FlagRight()) ==> Valid() && pend == [] && done == old(done) + old(pend)
      ensures old(FlagRight()) ==> old(Delivery()) == old(Pending())
      ensures |free| < ringSize ==> (old(Delivery()) == old(Pending()) <==> old(FlagRight()))
    {
      hide Owned, Holds, Slot, InRange, Contents;
      var last := availIdx;
      ghost var good := FlagRight();
      if good { DeliversPending(); }
      if freeNum >= ringSize {
        return None;
      }
      var count := ReadCount(ringSize, last, lastAvailIdx, loopFlag);
      var out := UseAll(count);
      lastAvailIdx := last;
      if loopFlag {
        loopFlag := false;
      }
      HoldsNone(availRing, lastAvailIdx);
      if good { OwnedParts(next, freeHead, skbData, free, pend, done); }
      pkts := Some(out);
    }

    method DetachBuf(head: nat)
      requires head < |skbData| == |flag| == |next| && (flag[head] == VRING_DESC_F_NEXT ==> next[head] < |next|)
      modifies this`skbData, this`next, this`freeNum, this`freeHead
      ensures skbData == old(skbData)[head := 0] && freeHead == head
      ensures flag[head] == VRING_DESC_F_NEXT ==>
        freeNum == old(freeNum) + 2 && next == old(next)[old(next[head]) := old(freeHead)]
      ensures flag[head] != VRING_DESC_F_NEXT ==>
        freeNum == old(freeNum) + 1 && next == old(next)[head := old(freeHead)]
    {
      var i := head;
      skbData := skbData[head := 0];
      if flag[head] == VRING_DESC_F_NEXT {
        i := next[head];
        freeNum := freeNum + 1;
      }
      next := next[i := freeHead];
      freeNum := freeNum + 1;
      freeHead := head;
    }

    /** The loop of free_used_index: the first `count` entries of the used ring go back to the free list. */
    method DetachUsed(count: nat)
      requires Owned(next, freeHead, skbData, free, pend, done) && Holds(usedRing, lastUsedIndex, done)
      requires count <= |done|
      requires |next| == |skbData| == |flag| == |usedRing| == ringSize > 0 && freeNum == |free|
      requires InRange(ringSize, done)
      requires forall d :: 0 <= d < ringSize ==> flag[d] == 0
      modifies this`skbData, this`next, this`freeNum, this`freeHead, this`free, this`done
      ensures Owned(next, freeHead, skbData, free, pend, done) && freeNum == |free| && |next| == |skbData| == ringSize
      ensures done == old(done)[count..] && free == Reversed(old(done)[..count]) + old(free)
    {
      hide Owned, Holds, Slot, InRange;
      InRangeAt(ringSize, done);
      ghost var d := done;
      for i := 0 to count
        invariant done == d[i..] && free == Reversed(d[..i]) + old(free)
        invariant Owned(next, freeHead, skbData, free, pend, done) && freeNum == |free|
        invariant |next| == |skbData| == ringSize
      {
        HoldsAt(usedRing, lastUsedIndex, d, i);
        var buffIndex := usedRing[Slot(lastUsedIndex, i, ringSize)];
        Return(next, freeHead, skbData, free, pend, done);
        DetachBuf(buffIndex);
        ReversedNext(d, i, free, old(free));
        free, done := [done[0]] + free, done[1..];
      }
    }

    /** The producer takes back every consumed descriptor, whether there are none or a full ring of them. Only under
        a wrong flag does it take a full ring for an empty one. */
    method FreeUsedIndex()
      requires Intact() && Raised()
      modifies this`skbData, this`next, this`freeNum, this`freeHead, this`free, this`done, this`lastUsedIndex
      ensures Intact() && Raised() && Pending() == old(Pending())
      ensures if loopFlag && |old(done)| == ringSize then done == old(done) && free == old(free)
        else done == [] && free == Reversed(old(done)) + old(free)
      ensures old(FlagRight()) ==> Valid() && done == [] && free == Reversed(old(done)) + old(free)
    {
      hide Owned, Holds, Slot, InRange, Reversed, Contents;
      var usedIndex := usedIdx;
      SlotDistance(lastUsedIndex, |done|, ringSize);
      SlotSame(lastUsedIndex, |done|, ringSize);
      ghost var d, f := done, free;
      assert d[..|d|] == d && d[|d|..] == [];
      if freeNum == 0 && usedIndex == lastUsedIndex && !loopFlag {
        DetachUsed(ringSize);
        HoldsNone(usedRing, lastUsedIndex);
        OwnedParts(next, freeHead, skbData, free, pend, done);
      }
      var freeIndex := Slot(usedIndex, 0 - lastUsedIndex, ringSize);
      DetachUsed(freeIndex);
      lastUsedIndex := usedIndex;
      HoldsNone(usedRing, lastUsedIndex);
      OwnedParts(next, freeHead, skbData, free, pend, done);
      SlotSame(usedIndex, 0, ringSize);
    }

    /** One round of the producer thread. */
    method Produce(pkt: Packet)
      requires Valid()
      modifies this
      ensures Valid() && getCount == old(getCount)
      ensures |old(Pending())| < ringSize ==>
        Pending() == old(Pending()) + [pkt] && putCount == old(putCount) + 1 && dropCount == old(dropCount)
      ensures |old(Pending())| == ringSize ==>
        Pending() == old(Pending()) && putCount == old(putCount) && dropCount == old(dropCount) + 1
    {
      hide Owned, Holds, Slot, InRange, Reversed, Contents;
      FreeUsedIndex();
      PutRing(pkt);
    }

    /** No descriptor is twice in the chain of the free ones. */
    lemma ChainDistinct(i: nat, j: nat)
      requires Intact() && i < j < |free|
      ensures free[i] != free[j]
    {
      PartitionOnce(ringSize, free, pend, done, free[i]);
      CountDistinct(free, i, j);
    }

    /** The chain from the free head is exactly the free list, and no descriptor has two owners. */
    lemma OneOwner(d: nat)
      requires Intact() && d < ringSize
      ensures Chain(next, freeHead, free, ringSize) && |free| == freeNum
      ensures multiset(free)[d] + multiset(pend)[d] + multiset(done)[d] == 1
      ensures skbData[d] == 0 <==> d in free
    {
      PartitionOnce(ringSize, free, pend, done, d);
    }
  }

  /** Any interleaving of rounds of the two threads on a new ring of `n` descriptors. */
  method Interleave(n: nat, ops: seq<Op>) returns (v: Vring, out: seq<Packet>)
    requires n > 0
    ensures fresh(v) && v.Valid() && v.ringSize == n
    ensures out == Run(n, EMPTY, ops).delivered && v.Pending() == Run(n, EMPTY, ops).pending
    ensures out + v.Pending() == Run(n, EMPTY, ops).accepted
    ensures v.putCount == |Run(n, EMPTY, ops).accepted| && v.dropCount == Run(n, EMPTY, ops).dropped
    ensures v.getCount == |out|
  {
    hide Run, Owned, Holds, Slot, InRange, Reversed, Contents;
    v := new Vring(n);
    out := [];
    RunNone(n, EMPTY);
    ghost var q := EMPTY;
    for i := 0 to |ops|
      invariant fresh(v) && v.Valid() && v.ringSize == n && q == Run(n, EMPTY, ops[..i])
      invariant out == q.delivered && v.Pending() == q.pending && |q.pending| <= n
      invariant v.putCount == |q.accepted| && v.dropCount == q.dropped && v.getCount == |out|
    {
      RunSplit(n, EMPTY, ops[..i], ops[i]);
      assert ops[..i + 1] == ops[..i] + [ops[i]];
      q := Step(n, q, ops[i]);
      match ops[i]
      case Produce(pkt) => v.Produce(pkt);
      case Consume =>
        var pkts := v.GetRing();
        if pkts.Some? {
          out := out + pkts.value;
        }
    }
    assert ops[..|ops|] == ops;
    ExactlyOnceInOrder(n, EMPTY, ops);
  }

  /** The ring is in the state `h`. */
  ghost predicate Follows(v: Vring, h: Half)
    reads v
  {
    && v.Intact() && v.Raised() && v.Pending() == h.pending && |v.done| == h.used && v.loopFlag == h.flag
    && v.putCount == |h.accepted| && v.dropCount == h.dropped && v.getCount == |h.delivered|
  }

  /** One step of a careful run. */
  method HalfRound(v: Vring, ghost h: Half, op: HalfOp) returns (out: seq<Packet>)
    requires Follows(v, h) && HalfInv(v.ringSize, h) && (op.Fetch? ==> Right(v.ringSize, h))
    modifies v
    ensures Follows(v, HalfStep(v.ringSize, h, op)) && h.delivered + out == HalfStep(v.ringSize, h, op).delivered
  {
    hide Owned, Holds, Slot, InRange, Reversed, Contents;
    out := [];
    match op
    case Reclaim => v.FreeUsedIndex();
    case Put(pkt) => v.PutRing(pkt);
    case Fetch =>
      var pkts := v.GetRing();
      if pkts.Some? {
        out := pkts.value;
      }
  }

  /** Any careful interleaving of half rounds on a new ring, and one more round of the consumer: what came out, and
      what is pending, is what was accepted, in order; and the last round delivers what is pending if and only if no
      put was hasty. */
  method HalfRounds(n: nat, ops: seq<HalfOp>) returns (v: Vring, out: seq<Packet>, last: Option<seq<Packet>>)
    requires n > 0 && Careful(n, NEW_HALF, ops)
    ensures fresh(v) && v.ringSize == n
    ensures var h := HalfRun(n, NEW_HALF, ops);
      && out == h.delivered && out + h.pending == h.accepted
      && (last.Some? ==> (last.value == h.pending <==> Patient(n, NEW_HALF, ops)))
      && (last.None? ==> h.pending == [])
  {
    hide Owned, Holds, Slot, InRange, Reversed, Contents, HalfStep, HalfRun, Careful, Patient;
    v := new Vring(n);
    out := [];
    NewFollows(v);
    HalfNone(n, NEW_HALF);
    for i := 0 to |ops|
      invariant fresh(v) && v.ringSize == n && Follows(v, HalfRun(n, NEW_HALF, ops[..i]))
      invariant HalfInv(n, HalfRun(n, NEW_HALF, ops[..i])) && out == HalfRun(n, NEW_HALF, ops[..i]).delivered
    {
      ghost var h := HalfRun(n, NEW_HALF, ops[..i]);
      CarefulAt(n, NEW_HALF, ops, i);
      HalfSplit(n, NEW_HALF, ops[..i], ops[i]);
      assert ops[..i + 1] == ops[..i] + [ops[i]];
      if Right(n, h) { HalfStepRight(n, h, ops[i]); } else { WrongStep(n, h, ops[i]); }
      var more := HalfRound(v, h, ops[i]);
      out := out + more;
    }
    assert ops[..|ops|] == ops;
    PatientIff(n, NEW_HALF, ops);
    FlagIsRight(v, HalfRun(n, NEW_HALF, ops));
    last := v.GetRing();
  }

  lemma NewFollows(v: Vring)
    requires v.Valid() && v.Pending() == [] && v.pend == [] && v.done == [] && !v.loopFlag
    requires v.putCount == 0 && v.getCount == 0 && v.dropCount == 0
    ensures Follows(v, NEW_HALF) && HalfInv(v.ringSize, NEW_HALF) && Right(v.ringSize, NEW_HALF)
  {
  }

  lemma FlagIsRight(v: Vring, h: Half)
    requires Follows(v, h)
    ensures v.FlagRight() <==> Right(v.ringSize, h)
  {
  }

  /** A ring of two has delivered its first packet. */
  method FirstDelivery(a: Packet) returns (v: Vring, first: Option<seq<Packet>>)
    ensures fresh(v) && v.Valid() && v.ringSize == 2 && first == Some([a]) && !v.loopFlag
    ensures v.free == [1] && v.pend == [] && v.done == [0] && v.availIdx == 1 && v.lastAvailIdx == 1
    ensures v.addr[0] == a && v.availRing[Slot(0, 0, 2)] == 0
    ensures v.putCount == 1 && v.getCount == 1 && v.dropCount == 0
  {
    hide Owned, Holds, InRange, Reversed, Contents, Copied, Slot, Upto, Chain, Partition, ReadCount;
    hide Vring.Intact, Vring.Delivery, Vring.Pending;
    v := new Vring(2);
    UptoTwo();
    Lengths(v);
    v.PutRing(a);
    ReversedNone(v.free);
    v.FreeUsedIndex();
    assert v.Pending() == [a];
    first := v.GetRing();
  }

  lemma Lengths(v: Vring)
    requires v.Intact()
    ensures |v.addr| == |v.availRing| == v.ringSize
  {
  }

  lemma UptoTwo()
    ensures Upto(0, 2) == [0, 1]
  {
  }

  lemma ReversedNone(s: seq<nat>)
    ensures Reversed([]) + s == s
  {
  }

  /** The two halves of a producer round must not be torn apart: a consumer round in between makes the
      producer raise the flag over a ring of two that holds one packet, and the next consumer round
      delivers the packet of before a second time. */
  method TornRound(a: Packet, b: Packet)
    returns (v: Vring, first: Option<seq<Packet>>, second: Option<seq<Packet>>)
    ensures fresh(v) && v.putCount == 2 && v.dropCount == 0 && v.getCount == 3
    ensures first == Some([a]) && second == Some([b, a])
  {
    hide Owned, Holds, InRange, Reversed, Contents, Copied, Slot, Upto, Chain, Partition;
    v, first := FirstDelivery(a);
    TwoSlots();
    v.PutRing(b);
    Torn(v.addr, v.availRing, a, b);
    second := v.GetRing();
  }

  lemma TwoSlots()
    ensures Slot(0, 0, 2) == 0 && Slot(1, 0, 2) == 1 && Slot(1, 1, 2) == 0
  {
  }

  lemma Torn(addr: seq<Packet>, ring: seq<nat>, a: Packet, b: Packet)
    requires addr == [a, b] && InRange(2, ring) && |ring| == 2
    requires ring[Slot(0, 0, 2)] == 0 && ring[Slot(1, 0, 2)] == 1
    ensures Copied(addr, ring, 1, 2) == [b, a]
  {
    hide Slot, Copied;
    TwoSlots();
    CopiedNext(addr, ring, 1, 0);
    CopiedNext(addr, ring, 1, 1);
    assert [] + [b] + [a] == [b, a];
  }
}
