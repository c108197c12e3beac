/** vring.c: the shared rings, the client that puts and reclaims, and the server that handles packets. */
module VringC {
  import opened Common
  import opened Rings
  import opened VringModel
  import opened TxSpec

  /** The memory both sides see: struct vhost_vring with the packet buffers behind it. */
  class VhostVring {
    const num: nat
    const desc: array<Desc>
    const avail: array<nat>
    const used: array<UsedElem>
    const bufs: array<seq<Byte>>
    var availIdx: nat
    var usedIdx: nat
    ghost var free: seq<nat>
    ghost var pend: seq<nat>
    ghost var done: seq<nat>
    /** The packets in the pending descriptors. */
    ghost var sent: seq<seq<Byte>>

    ghost predicate Sized()
    {
      && GoodNum(num) && desc.Length == avail.Length == used.Length == num && bufs.Length == num + 1
    }

    ghost predicate Packets()
      reads this, desc, bufs
    {
      Backed(desc[..], bufs[..]) && Packed(desc[..], bufs[..], pend, sent) && |sent| == |pend|
    }

    constructor (n: nat)
      requires GoodNum(n)
      ensures Sized() && num == n && fresh(desc) && fresh(avail) && fresh(used) && fresh(bufs)
      ensures Packets() && Threaded(desc[..], 0, free, pend) && Partition(n, free, pend, done)
      ensures free == Upto(0, n) && pend == [] && done == [] && sent == [] && availIdx == 0 && usedIdx == 0
      ensures forall k :: 0 <= k < n ==> used[k].id == 0
      ensures forall d :: 0 <= d <= n ==> bufs[d] == seq(BUFFER_SIZE, k => 0)
    {
      num := n;
      desc := new Desc[n](i requires 0 <= i =>
        Desc(i, BUFFER_SIZE, false, true, if i == n - 1 then VRING_IDX_NONE else i + 1));
      avail := new nat[n](i => 0);
      used := new UsedElem[n](i => UsedElem(0, 0));
      bufs := new seq<Byte>[n + 1](i => seq(BUFFER_SIZE, k => 0));
      availIdx, usedIdx := 0, 0;
      free, pend, done, sent := Upto(0, n), [], [], [];
      new;
      UptoChain(Nexts(desc[..]), 0, n, VRING_IDX_NONE);
      UptoAll(n);
    }
  }

  /** One side's view of a ring. For the client `lastAvailIdx` is the head of the free list. */
  class Vring {
    const shm: VhostVring
    var lastAvailIdx: nat
    var lastUsedIdx: nat

    constructor (m: VhostVring)
      ensures shm == m && lastAvailIdx == 0 && lastUsedIdx == 0
    {
      shm, lastAvailIdx, lastUsedIdx := m, 0, 0;
    }

    /** What every packet of a serve keeps, before the used index is published. */
    ghost predicate Kept()
      reads this, shm, shm.desc, shm.used, shm.bufs
    {
      && shm.Sized() && shm.Packets()
      && Threaded(shm.desc[..], lastAvailIdx, shm.free, shm.pend)
      && |shm.free| + |shm.pend| + |shm.done| == shm.num
      && Holds(Ids(shm.used[..]), lastUsedIdx, shm.done) && Below(Ids(shm.used[..]), shm.num)
    }

    /** What holds on the client's side after any puts and serves, whatever was handled. */
    ghost predicate Wired()
      reads this, shm, shm.desc, shm.used, shm.bufs
    {
      Kept() && lastUsedIdx < shm.num && shm.usedIdx == lastUsedIdx + |shm.done|
    }

    /** The client's invariant: besides, every descriptor has one owner. */
    ghost predicate Client()
      reads this, shm, shm.desc, shm.used, shm.bufs
    {
      Wired() && Partition(shm.num, shm.free, shm.pend, shm.done)
    }

    /** There is a free list of all descriptors that are not pending. */
    ghost predicate Restored()
      reads this, shm, shm.desc
    {
      exists f :: Threaded(shm.desc[..], lastAvailIdx, f, shm.pend) && Partition(shm.desc.Length, f, shm.pend, [])
    }

    /** The server's invariant. */
    ghost predicate Server()
      reads this, shm, shm.avail
    {
      && shm.Sized()
      && Holds(shm.avail[..], lastAvailIdx, shm.pend)
      && lastAvailIdx < TWO16 && shm.availIdx == Idx16(lastAvailIdx + |shm.pend|)
      && lastUsedIdx == shm.usedIdx < TWO16
    }

    /** Each descriptor is in exactly one of the free list, the avail part and the used part. */
    lemma OneOwner(d: nat)
      requires Client() && d < shm.num
      ensures multiset(shm.free)[d] + multiset(shm.pend)[d] + multiset(shm.done)[d] == 1
      ensures d in shm.free ==> shm.desc[d].len == BUFFER_SIZE
    {
      PartitionOnce(shm.desc.Length, shm.free, shm.pend, shm.done, d);
    }

    // ---- the client ----

    method PutVring(data: seq<Byte>, s: Vring) returns (r: int)
      requires Wired() && s.Server() && s.shm == shm && s != this && shm.free != []
      modifies this`lastAvailIdx, shm, shm.desc, shm.avail, shm.bufs
      ensures Wired() && s.Server() && shm.done == old(shm.done) && shm.usedIdx == old(shm.usedIdx)
      ensures Client() <==> old(Client())
      ensures |data| > BUFFER_SIZE ==>
        && r == -1 && shm.sent == old(shm.sent) && shm.pend == old(shm.pend) && shm.free == old(shm.free)
        && shm.desc[..] == old(shm.desc[..]) && shm.bufs[..] == old(shm.bufs[..]) && lastAvailIdx == old(lastAvailIdx)
      ensures |data| <= BUFFER_SIZE ==>
        && r == 0 && shm.sent == old(shm.sent) + [data]
        && shm.pend == old(shm.pend) + [old(lastAvailIdx)] && shm.free == old(shm.free)[1..]
      ensures var d, x := old(lastAvailIdx), old(shm.desc[..]); |data| <= BUFFER_SIZE ==>
        && d < shm.num && d == old(shm.free)[0] && lastAvailIdx == x[d].next
        && shm.desc[..] == x[d := Desc(x[d].addr, HDR_LEN + |data|, false, false, VRING_IDX_NONE)]
        && shm.bufs.Length == shm.num + 1 && |old(shm.bufs[..])[d]| == |old(shm.bufs[..])[d + 1]| == BUFFER_SIZE
        && shm.bufs[..] == PutInto(old(shm.bufs[..]), d, data)
      ensures var b, k := old(lastAvailIdx), if |data| <= 1518 then |data| else 1518;
        |data| <= BUFFER_SIZE ==>
          && b < shm.bufs.Length && |shm.bufs[b]| == 1528
          && (forall i :: 0 <= i < 10 ==> shm.bufs[b][i] == 0) && shm.bufs[b][10..10 + k] == data[..k]
    {
      hide Threaded, Partition, Holds, Slot, Packed, Backed, Chain, PutInto, Idx16, Below, Ids;
      var m, aIdx := shm, lastAvailIdx;
      Head(m.desc[..], aIdx, m.free, m.pend);
      if |data| > m.desc[aIdx].len {
        return -1;
      }
      ghost var d0, b0, a0 := m.desc[..], m.bufs[..], m.avail[..];
      var x := m.desc[aIdx].(len := HDR_LEN + |data|, chained := false, write := false, next := VRING_IDX_NONE);
      TakeThreaded(d0, aIdx, m.free, m.pend, x);
      TakePartition(m.num, m.free, m.pend, m.done);
      PutBacked(d0, b0, aIdx, x, data);
      PutBytes(b0, aIdx, data);
      TakePacked(d0, b0, m.pend, m.sent, aIdx, x, data);
      RingPush(a0, s.lastAvailIdx, m.pend, aIdx);
      PutSlot(s.lastAvailIdx, |m.pend|, m.num);
      lastAvailIdx := m.desc[aIdx].next;
      WriteBuffer(aIdx, data);
      m.desc[aIdx] := x;
      m.avail[Slot(m.availIdx, 0, m.num)] := aIdx;
      m.availIdx := Idx16(m.availIdx + 1);
      m.free, m.pend, m.sent := m.free[1..], m.pend + [aIdx], m.sent + [data];
      assert m.desc[..] == d0[aIdx := x] && m.bufs[..][aIdx] == m.bufs[aIdx];
      r := 0;
    }

    /** An empty header and the packet, from the address of the buffer on. */
    method WriteBuffer(d: nat, data: seq<Byte>)
      requires d + 1 < shm.bufs.Length && |shm.bufs[d]| == |shm.bufs[d + 1]| == BUFFER_SIZE && |data| <= BUFFER_SIZE
      modifies shm.bufs
      ensures shm.bufs[..] == PutInto(old(shm.bufs[..]), d, data)
    {
      var all := Zeros() + data;
      if |all| <= BUFFER_SIZE {
        shm.bufs[d] := all + shm.bufs[d][|all|..];
      } else {
        shm.bufs[d] := all[..BUFFER_SIZE];
        shm.bufs[d + 1] := all[BUFFER_SIZE..] + shm.bufs[d + 1][|all| - BUFFER_SIZE..];
      }
    }

    method FreeVring(dIdx: nat)
      requires dIdx < shm.desc.Length <= VHOST_VRING_SIZE
      modifies this`lastAvailIdx, shm.desc
      ensures shm.desc[..] ==
        old(shm.desc[..])[dIdx := old(shm.desc[dIdx]).(len := BUFFER_SIZE, write := true, next := old(lastAvailIdx))]
      ensures lastAvailIdx == dIdx
    {
      var fIdx := lastAvailIdx;
      shm.desc[dIdx] := shm.desc[dIdx].(len := BUFFER_SIZE);
      shm.desc[dIdx] := shm.desc[dIdx].(write := true);
      shm.desc[dIdx] := shm.desc[dIdx].(next := fIdx);
      lastAvailIdx := dIdx;
    }

    /** Every used entry is freed, in order, provided the used index has not reached the ring size
        (otherwise the loop does not end). There is a proper free list afterwards if and only if every
        descriptor had one owner before. */
    method ProcessUsedVring(s: Vring) returns (r: int)
      requires Wired() && s.Server() && s.shm == shm && s != this && shm.usedIdx < shm.num
      modifies this, shm`free, shm`done, shm.desc
      ensures s.Server() && r == 0 && lastUsedIdx == shm.usedIdx && Below(old(shm.done), shm.desc.Length)
      ensures (shm.desc[..], lastAvailIdx) == FreeAll(old(shm.desc[..]), old(lastAvailIdx), old(shm.done))
      ensures shm.done == [] && shm.free == Reversed(old(shm.done)) + old(shm.free)
      ensures old(Client()) ==> Client()
      ensures Restored() <==> old(Client())
    {
      hide Threaded, Partition, Holds, Slot, Packed, Backed, Ids, Below, Reversed, FreeAll;
      var m, uIdx := shm, lastUsedIdx;
      ghost var d, f, k, h0, d0 := m.done, m.free, 0, lastAvailIdx, m.desc[..];
      ghost var good := Partition(m.num, m.free, m.pend, m.done);
      UsedBelow(Ids(m.used[..]), uIdx, d, m.num);
      ReclaimRestoresIff(d0, h0, f, m.pend, d);
      NoneReversed(d, f);
      while uIdx != m.usedIdx
        invariant k <= |d| && uIdx == lastUsedIdx + k && lastUsedIdx + |d| == m.usedIdx < m.num
        invariant m.done == d[k..] && m.free == Reversed(d[..k]) + f && Below(m.done, m.num)
        invariant FreeAll(m.desc[..], lastAvailIdx, m.done) == FreeAll(d0, h0, d)
        invariant good ==> m.Packets() && Threaded(m.desc[..], lastAvailIdx, m.free, m.pend)
        invariant good ==> Partition(m.num, m.free, m.pend, m.done)
        decreases |d| - k
      {
        UsedAt(m.used[..], lastUsedIdx, d, k, m.num);
        var id := m.used[uIdx].id;
        FreeNext(m.desc[..], lastAvailIdx, m.done);
        ghost var x := Freed(m.desc[id], lastAvailIdx);
        if good {
          ReturnOwned(m.desc[..], lastAvailIdx, m.free, m.pend, m.done);
          ReturnPacked(m.desc[..], m.bufs[..], m.pend, m.sent, id, x);
        }
        FreeVring(id);
        ReversedNext(d, k, m.free, f);
        m.free, m.done := [id] + m.free, m.done[1..];
        k := k + 1;
        uIdx := Slot(uIdx, 1, m.num);
      }
      FreeNone(m.desc[..], lastAvailIdx);
      lastUsedIdx := uIdx;
      HoldsNone(Ids(m.used[..]), lastUsedIdx);
      assert d[..|d|] == d;
      if good { PartitionCount(m.num, m.free, m.pend, m.done); }
      r := 0;
    }

    // ---- the server ----

    /** One packet: what the chain `c` of descriptors holds goes to the handler, without the header. Its length is
        that of these bytes if there is a whole header in front of them, and wraps round if not. `clean` says
        that the header is all zero; otherwise the code complains, and goes on. */
    method ProcessDesc(aIdx: nat, ghost c: seq<nat>)
      returns (r: int, handed: Option<seq<Byte>>, size: nat, clean: bool)
      requires shm.Sized() && aIdx < shm.num && Backed(shm.desc[..], shm.bufs[..])
      requires Linked(shm.desc[..], shm.avail[aIdx], c) && forall k :: 0 <= k < |c| ==> c[k] < shm.num
      modifies shm.used
      ensures Gather(shm.desc[..], shm.bufs[..], c, []) == [] ==>
        r == -1 && handed == None && shm.used[..] == old(shm.used[..])
      ensures var g := Gather(shm.desc[..], shm.bufs[..], c, []);
        g != [] ==>
          && r == 0 && handed == Some(if |g| >= 10 then g[10..] else [])
          && (size == if |g| >= 10 then |g| - 10 else 0x1_0000_0000_0000_0000 + |g| - 10)
          && (clean <==> |g| >= 10 && forall i :: 0 <= i < 10 ==> g[i] == 0)
          && shm.used[..] == old(shm.used[..])[Slot(lastUsedIdx, 0, shm.num) := UsedElem(shm.avail[aIdx], |g|)]
    {
      hide Slot, BehindSize;
      var m := shm;
      var uIdx, dIdx := Slot(lastUsedIdx, 0, m.num), m.avail[aIdx];
      var i, buf: seq<Byte> := dIdx, [];
      ghost var g, k := Gather(m.desc[..], m.bufs[..], c, []), 0;
      GatherShort(m.desc[..], m.bufs[..], c, []);
      while true
        invariant k < |c| && Linked(m.desc[..], i, c[k..]) && g == Gather(m.desc[..], m.bufs[..], c[k..], buf)
        invariant forall j :: 0 <= j < |c[k..]| ==> c[k..][j] < m.num
        decreases |c| - k
      {
        var curLen := m.desc[i].len;
        if |buf| + curLen < ETH_PACKET_SIZE {
          buf := buf + m.bufs[i][..curLen];
        } else {
          break;
        }
        if m.desc[i].chained {
          i := m.desc[i].next;
          k := k + 1;
        } else {
          break;
        }
      }
      if |buf| == 0 {
        return -1, None, 0, false;
      }
      m.used[uIdx] := UsedElem(dIdx, |buf|);
      BehindSizeIs(buf);
      clean := |buf| >= HDR_LEN && Blank(buf[..HDR_LEN]);
      return 0, Some(Behind(buf)), BehindSize(buf), clean;
    }

    /** For a client: the used descriptors and the used ring as they will be when all pending ones are handled. */
    ghost function Outcome(): (seq<nat>, seq<nat>)
      requires Kept()
      reads this, shm, shm.desc, shm.used, shm.bufs
    {
      var ids, from := Ids(shm.used[..]), lastUsedIdx + |shm.done|;
      (Cat(shm.done, Marked(ids, from, shm.pend, shm.sent)), WrittenAll(ids, from, shm.pend, shm.sent))
    }

    /** process_desc for the first pending descriptor, which counts as used even if nothing was written there. */
    method HandleNext(aIdx: nat, c: Vring) returns (h: Option<seq<Byte>>, clean: bool)
      requires c.Kept() && c.shm == shm && shm.pend != []
      requires aIdx < shm.num && shm.avail[aIdx] == shm.pend[0]
      requires Slot(lastUsedIdx, 0, shm.num) == Slot(c.lastUsedIdx, |shm.done|, shm.num)
      modifies shm`pend, shm`done, shm`sent, shm.used
      ensures c.Kept() && shm.pend == old(shm.pend)[1..] && shm.sent == old(shm.sent)[1..]
      ensures h == if Fits(old(shm.sent)[0]) then Some(old(shm.sent)[0]) else None
      ensures h.Some? ==> old(shm.pend)[0] < shm.bufs.Length && clean == Blank(Heads(shm.bufs[..])[old(shm.pend)[0]])
      ensures |shm.done| == |old(shm.done)| + 1 && c.Outcome() == old(c.Outcome())
    {
      hide Threaded, Holds, Slot, Packed, Backed, Ids, Linked, Gather, Below, Marked, WrittenAll, Cat;
      var m := shm;
      ghost var d, x, e0, b0, u0 := m.pend[0], m.sent[0], m.desc[..], m.bufs[..], m.used[..];
      ghost var k, e := Slot(lastUsedIdx, 0, m.num), UsedElem(d, HDR_LEN + |x|);
      GatherPacked(e0, b0, m.pend, m.sent);
      LinkedRange(e0, d, [d]);
      IdsUpdate(u0, k, e);
      WrittenHolds(Ids(u0), c.lastUsedIdx, m.done, d, x, m.num);
      MarkedStep(Ids(u0), c.lastUsedIdx, m.done, c.lastUsedIdx + |m.done|, m.pend, m.sent);
      HandThreaded(e0, c.lastAvailIdx, m.free, m.pend);
      HandPacked(e0, b0, m.pend, m.sent);
      var r, size;
      r, h, size, clean := ProcessDesc(aIdx, [d]);
      assert m.desc[..] == e0 && m.bufs[..] == b0 && m.used[..] == if Fits(x) then u0[k := e] else u0;
      m.pend, m.done, m.sent := m.pend[1..], m.done + [Entry(Ids(u0), k, d, x)], m.sent[1..];
    }

    /** Everything that is available is taken, in put order; what passes the length test is handed on, with the outcome
        of the check of its header, and the used index, published at the end, counts the rest as well. Every
        descriptor still has one owner if and only if the used entries name the descriptors taken. */
    method ProcessAvailVring(c: Vring) returns (count: nat, handed: seq<seq<Byte>>, checks: seq<bool>)
      requires Server() && c.Wired() && c.shm == shm && c != this
      modifies this, shm`usedIdx, shm`pend, shm`done, shm`sent, shm.used
      ensures Server() && c.Wired() && shm.pend == [] && shm.sent == []
      ensures handed == Fitting(old(shm.sent)) && count == |old(shm.pend)|
      ensures checks == Checks(Heads(shm.bufs[..]), old(shm.pend), old(shm.sent))
      ensures Ids(shm.used[..]) ==
        WrittenAll(Ids(old(shm.used[..])), old(shm.usedIdx), old(shm.pend), old(shm.sent))
      ensures var w := Marked(Ids(old(shm.used[..])), old(shm.usedIdx), old(shm.pend), old(shm.sent));
        shm.done == old(shm.done) + w && (old(c.Client()) ==> (c.Client() <==> multiset(w) == multiset(old(shm.pend))))
    {
      hide Threaded, Holds, Slot, Packed, Backed, Ids, Idx16, GoodNum, Cat, Below, Fitting, Marked, Partition;
      hide WrittenAll, Vring.Outcome, Checks, Heads, Blank;
      var m := shm;
      ghost var hd := Heads(m.bufs[..]);
      OutcomeIs(c);
      NumRange(m.num);
      var aIdx := Slot(lastAvailIdx, 0, m.num);
      ghost var a, u, p, q, d := lastAvailIdx, lastUsedIdx, m.pend, m.sent, m.done;
      ghost var w, v := Marked(Ids(m.used[..]), u, p, q), WrittenAll(Ids(m.used[..]), u, p, q);
      Same16(a, 0, |p|);
      Small16(a);
      Small16(u);
      if Partition(m.num, m.free, p, d) { RoundKeepsIff(m.num, m.free, p, d, w); }
      count, handed, checks := 0, [], [];
      while lastAvailIdx != m.availIdx
        invariant count + |m.pend| == |p| && lastAvailIdx == Idx16(a + count) && lastUsedIdx == Idx16(u + count)
        invariant aIdx == Slot(a, count, m.num) && m.availIdx == Idx16(a + |p|)
        invariant Holds(m.avail[..], a + count, m.pend) && c.Kept() && |m.done| == |d| + count
        invariant c.Outcome() == (Cat(d, w), v)
        invariant Cat(handed, Fitting(m.sent)) == Cat([], Fitting(q))
        invariant Cat(checks, Checks(hd, m.pend, m.sent)) == Cat([], Checks(hd, p, q))
        invariant lastAvailIdx == m.availIdx <==> m.pend == []
        decreases |p| - count
      {
        TurnAt(m.avail[..], a, m.pend, count, |p|, c.lastUsedIdx, |m.done|, m.num);
        FittingStep(handed, m.sent);
        ChecksStep(checks, hd, m.pend, m.sent);
        var h, clean := HandleNext(aIdx, c);
        handed := if h.Some? then handed + [h.value] else handed;
        checks := if h.Some? then checks + [clean] else checks;
        aIdx := Slot(aIdx, 1, m.num);
        lastAvailIdx := Idx16(lastAvailIdx + 1);
        lastUsedIdx := Idx16(lastUsedIdx + 1);
        count := count + 1;
      }
      Small16(u + count);
      Small16(lastAvailIdx);
      HoldsNone(m.avail[..], lastAvailIdx);
      OutcomeIs(c);
      CatAll(m.done, Marked(Ids(m.used[..]), u + count, m.pend, m.sent), d, w);
      NoneFitting(handed, q);
      NoneChecked(checks, hd, p, q);
      NoneWritten(Ids(m.used[..]), u + count);
      m.usedIdx := lastUsedIdx;
    }
  }

  lemma OutcomeIs(c: Vring)
    requires c.Kept()
    ensures var m, from := c.shm, c.lastUsedIdx + |c.shm.done|;
      && |m.pend| == |m.sent| && |Ids(m.used[..])| > 0
      && c.Outcome() == (Cat(m.done, Marked(Ids(m.used[..]), from, m.pend, m.sent)),
        WrittenAll(Ids(m.used[..]), from, m.pend, m.sent))
  {
    hide Marked, WrittenAll, Threaded, Holds, Cat;
  }

  /** One packet of the round moves from the rest of it to the used part. */
  lemma MarkedStep(ids: seq<nat>, last: nat, done: seq<nat>, from: nat, p: seq<nat>, q: seq<seq<Byte>>)
    requires 0 < |p| == |q| <= |ids| && from == last + |done|
    ensures var k := Slot(last, |done|, |ids|);
      Cat(done + [Entry(ids, k, p[0], q[0])], Marked(Written(ids, k, p[0], q[0]), from + 1, p[1..], q[1..])) ==
      Cat(done, Marked(ids, from, p, q))
    ensures var k := Slot(last, |done|, |ids|);
      WrittenAll(Written(ids, k, p[0], q[0]), from + 1, p[1..], q[1..]) == WrittenAll(ids, from, p, q)
  {
    hide Marked, Entry, Written, WrittenAll;
    SlotStart(last, |done|, |ids|);
    MarkedNext(ids, from, p, q);
    WrittenNext(ids, from, p, q);
  }

  lemma NoneWritten(ids: seq<nat>, from: int)
    requires |ids| > 0
    ensures WrittenAll(ids, from, [], []) == ids
  {
  }

  lemma FittingStep(x: seq<seq<Byte>>, q: seq<seq<Byte>>)
    requires q != []
    ensures Cat(if Fits(q[0]) then x + [q[0]] else x, Fitting(q[1..])) == Cat(x, Fitting(q))
  {
  }

  lemma ChecksStep(x: seq<bool>, heads: seq<seq<Byte>>, p: seq<nat>, q: seq<seq<Byte>>)
    requires 0 < |p| == |q|
    ensures !Fits(q[0]) ==> Cat(x, Checks(heads, p[1..], q[1..])) == Cat(x, Checks(heads, p, q))
    ensures Fits(q[0]) ==>
      Cat(x + [p[0] < |heads| && Blank(heads[p[0]])], Checks(heads, p[1..], q[1..])) == Cat(x, Checks(heads, p, q))
  {
    hide Blank, Checks;
    var rest := Checks(heads, p[1..], q[1..]);
    ChecksNext(heads, p, q);
    assert [] + rest == rest;
    Assoc(x, [p[0] < |heads| && Blank(heads[p[0]])], rest);
  }

  lemma ChecksNext(heads: seq<seq<Byte>>, p: seq<nat>, q: seq<seq<Byte>>)
    requires 0 < |p| == |q|
    ensures Checks(heads, p, q) ==
      (if Fits(q[0]) then [p[0] < |heads| && Blank(heads[p[0]])] else []) + Checks(heads, p[1..], q[1..])
  {
    hide Blank;
  }

  lemma NoneChecked(x: seq<bool>, heads: seq<seq<Byte>>, p: seq<nat>, q: seq<seq<Byte>>)
    requires |p| == |q| && Cat(x, Checks(heads, [], [])) == Cat([], Checks(heads, p, q))
    ensures x == Checks(heads, p, q)
  {
    assert x + [] == x;
  }

  lemma NoneFitting(x: seq<seq<Byte>>, q: seq<seq<Byte>>)
    requires Cat(x, Fitting([])) == Cat([], Fitting(q))
    ensures x == Fitting(q)
  {
    assert x + [] == x;
  }

  lemma FreeNext(desc: seq<Desc>, head: nat, ds: seq<nat>)
    requires Below(ds, |desc|) && ds != []
    ensures Below(ds[1..], |desc|) && ds[0] < |desc|
    ensures FreeAll(desc, head, ds) == FreeAll(desc[ds[0] := Freed(desc[ds[0]], head)], ds[0], ds[1..])
  {
  }

  lemma FreeNone(desc: seq<Desc>, head: nat)
    ensures Below([], |desc|) && FreeAll(desc, head, []) == (desc, head)
  {
  }

  lemma NoneReversed(d: seq<nat>, f: seq<nat>)
    ensures d[..0] == [] && Reversed(d[..0]) + f == f
  {
  }

  lemma UsedBelow(ids: seq<nat>, last: nat, done: seq<nat>, n: nat)
    requires Holds(ids, last, done) && Below(ids, n)
    ensures Below(done, n)
  {
    forall i | 0 <= i < |done|
      ensures done[i] < n
    {
      HoldsAt(ids, last, done, i);
    }
  }

  lemma UsedAt(used: seq<UsedElem>, last: nat, done: seq<nat>, k: nat, num: nat)
    requires |used| == num && k < |done| && last + |done| < num && Holds(Ids(used), last, done)
    ensures used[last + k].id == done[k] && Slot(last + k, 1, num) == last + k + 1
  {
    HoldsAt(Ids(used), last, done, k);
    ModUnique(last + k, num, 0, last + k);
    ModUnique(last + k + 1, num, 0, last + k + 1);
  }

  /** Where the server finds the next available descriptor. */
  lemma ServeAt(avail: seq<nat>, a: nat, p: seq<nat>, k: nat)
    requires Holds(avail, a + k, p) && p != []
    ensures avail[Slot(a, k, |avail|)] == p[0] && Slot(Slot(a, k, |avail|), 1, |avail|) == Slot(a, k + 1, |avail|)
    ensures Holds(avail, a + k + 1, p[1..])
  {
    HoldsAt(avail, a + k, p, 0);
    SlotStart(a, k, |avail|);
    SlotNext(a, k, 1, |avail|);
    RingDrop(avail, a + k, p, 1);
  }

  /** Where the server puts the used one. */
  lemma UseAt(u: nat, k: nat, num: nat)
    requires GoodNum(num)
    ensures Slot(Idx16(u + k), 0, num) == Slot(u, k, num)
  {
    Wrap16(u + k, 0, num);
  }

  /** The indices of one turn. */
  lemma TurnAt(avail: seq<nat>, a: nat, p: seq<nat>, k: nat, n: nat, last: nat, done: nat, num: nat)
    requires GoodNum(num) && |avail| == num && k < n < TWO16 && Holds(avail, a + k, p) && p != []
    ensures avail[Slot(a, k, num)] == p[0] && Slot(Slot(a, k, num), 1, num) == Slot(a, k + 1, num)
    ensures Holds(avail, a + k + 1, p[1..]) && Slot(Idx16(last + done), 0, num) == Slot(last, done, num)
    ensures Idx16(Idx16(a + k) + 1) == Idx16(a + k + 1) && Idx16(Idx16(last + done) + 1) == Idx16(last + done + 1)
    ensures Idx16(a + k + 1) == Idx16(a + n) <==> k + 1 == n
  {
    hide Holds, Slot, Idx16, GoodNum;
    ServeAt(avail, a, p, k);
    UseAt(last, done, num);
    Next16(a + k);
    Next16(last + done);
    Same16(a, k + 1, n);
  }

  ghost function Cat<T>(x: seq<T>, y: seq<T>): seq<T> {
    x + y
  }

  lemma CatAll<T>(x: seq<T>, y: seq<T>, d: seq<T>, p: seq<T>)
    requires Cat(x, y) == Cat(d, p) && y == []
    ensures x == d + p
  {
  }

  lemma PutSlot(last: nat, k: nat, num: nat)
    requires GoodNum(num)
    ensures Slot(Idx16(last + k), 0, num) == Slot(last, k, num)
    ensures Idx16(Idx16(last + k) + 1) == Idx16(last + k + 1)
  {
    Wrap16(last + k, 0, num);
  }

  /** The rings are in the state `tx` of the pipeline. */
  ghost predicate Follows(num: nat, tx: Tx, client: Vring, server: Vring)
    requires client.shm == server.shm
    reads client, server, client.shm, client.shm.desc, client.shm.avail, client.shm.used, client.shm.bufs
  {
    var m := client.shm;
    && client != server && m.num == num && client.Wired() && server.Server() && Inv(num, tx)
    && m.sent == tx.pending && m.free == tx.free && m.pend == tx.pend && m.done == tx.done
    && Ids(m.used[..]) == tx.ids && client.lastUsedIdx == tx.reclaimed && Heads(m.bufs[..]) == tx.heads
  }

  method Perform(num: nat, ghost tx: Tx, op: Op, client: Vring, server: Vring)
    returns (handed: seq<seq<Byte>>, checks: seq<bool>)
    requires client.shm == server.shm && Follows(num, tx, client, server) && Legal(num, tx, op)
    modifies client, server, client.shm, client.shm.desc, client.shm.avail, client.shm.used, client.shm.bufs
    ensures Follows(num, Step(tx, op), client, server)
    ensures tx.handled + handed == Step(tx, op).handled && tx.checks + checks == Step(tx, op).checks
  {
    hide Legal, Owned, Threaded, Partition, Holds, Slot, Packed, Backed, Ids, Idx16, GoodNum, Reversed, Inv;
    hide Below, Fitting, Marked, WrittenAll, Vring.Wired, Vring.Server, PutInto, Heads, PutHead, Checks;
    Allowed(num, tx, op, client.shm, client);
    StepInv(num, tx, op);
    handed, checks := [], [];
    match op
    case Put(data) =>
      ghost var b, d := client.shm.bufs[..], client.lastAvailIdx;
      var _ := client.PutVring(data, server);
      if |data| <= BUFFER_SIZE { HeadsPut(b, d, data); }
    case Serve =>
      var count;
      count, handed, checks := server.ProcessAvailVring(client);
    case Reclaim =>
      var _ := client.ProcessUsedVring(server);
  }

  /** Any legal interleaving of puts, server rounds and reclaims on a new ring: the handler has seen
      exactly the packets put that pass the length test, in put order, except those still pending; free,
      pending and used descriptors are those of the model, so that each has one owner exactly when it says so; and
      for each packet the check of its header comes out as there, so that it passes if no put was too long. */
  method Transmit(num: nat, ops: seq<Op>)
    returns (m: VhostVring, client: Vring, server: Vring, out: seq<seq<Byte>>, checks: seq<bool>)
    requires GoodNum(num) && LegalRun(num, NewTx(num), ops)
    ensures client.shm == m && server.shm == m && client.Wired() && server.Server()
    ensures var tx := Run(NewTx(num), ops);
      && out == tx.handled && m.sent == tx.pending && out + Fitting(m.sent) == Fitting(tx.accepted)
      && m.free == tx.free && m.pend == tx.pend && m.done == tx.done && (client.Client() <==> Owned(num, tx))
      && (|out| == tx.served ==> client.Client())
      && checks == tx.checks && |checks| == |out| && Heads(m.bufs[..]) == tx.heads
    ensures AllShort(ops) ==> forall i :: 0 <= i < |checks| ==> checks[i]
  {
    hide Run, LegalRun, Legal, Fitting, Vring.Wired, Vring.Server, Threaded, Partition, GoodNum, NewTx, Ids;
    hide Heads, AllBlank, AllShort;
    NumRange(num);
    NewInv(num);
    ghost var t0 := NewTx(num);
    m := new VhostVring(num);
    client := new Vring(m);
    server := new Vring(m);
    out, checks := [], [];
    Start(m, client, server);
    StartsNew(m);
    RunNone(t0);
    if AllShort(ops) { ChecksClean(num, t0, ops); }
    for i := 0 to |ops|
      invariant fresh(m) && fresh(m.desc) && fresh(m.avail) && fresh(m.used) && fresh(m.bufs)
      invariant fresh(client) && fresh(server) && client.shm == m && server.shm == m
      invariant Follows(num, Run(t0, ops[..i]), client, server)
      invariant out == Run(t0, ops[..i]).handled && checks == Run(t0, ops[..i]).checks
    {
      LegalAt(num, t0, ops, i);
      RunSplit(t0, ops[..i], ops[i]);
      assert ops[..i + 1] == ops[..i] + [ops[i]];
      var handed, more := Perform(num, Run(t0, ops[..i]), ops[i], client, server);
      out, checks := out + handed, checks + more;
    }
    assert ops[..|ops|] == ops;
  }

  lemma StartsNew(m: VhostVring)
    requires m.Sized() && m.free == Upto(0, m.num) && m.pend == [] && m.done == [] && m.sent == []
    requires forall k :: 0 <= k < m.num ==> m.used[k].id == 0
    requires forall d :: 0 <= d <= m.num ==> m.bufs[d] == seq(BUFFER_SIZE, k => 0)
    ensures Heads(m.bufs[..]) == NewTx(m.num).heads && NewTx(m.num).checks == []
    ensures Ids(m.used[..]) == NewTx(m.num).ids && m.free == NewTx(m.num).free
    ensures NewTx(m.num).pending == [] && NewTx(m.num).pend == [] && NewTx(m.num).done == []
    ensures NewTx(m.num).reclaimed == 0 && NewTx(m.num).handled == []
  {
    var blank: seq<Byte>, b: seq<Byte> := [0, 0, 0, 0, 0, 0, 0, 0, 0, 0], seq(BUFFER_SIZE, k => 0);
    assert b[..10] == blank;
    forall i | 0 <= i <= m.num
      ensures Heads(m.bufs[..])[i] == blank
    {
      assert m.bufs[..][i] == b;
    }
    assert Heads(m.bufs[..]) == NewTx(m.num).heads;
  }

  lemma Start(m: VhostVring, client: Vring, server: Vring)
    requires client.shm == m && server.shm == m && m.Sized() && m.Packets()
    requires client.lastAvailIdx == client.lastUsedIdx == server.lastAvailIdx == server.lastUsedIdx == 0
    requires m.availIdx == m.usedIdx == 0 && forall k :: 0 <= k < m.num ==> m.used[k].id == 0
    requires Threaded(m.desc[..], 0, m.free, m.pend) && Partition(m.num, m.free, m.pend, m.done)
    requires m.pend == [] && m.done == []
    ensures client.Client() && server.Server()
  {
    PartitionCount(m.num, m.free, m.pend, m.done);
  }

  /** What a legal step means for the state of the rings. */
  lemma Allowed(num: nat, tx: Tx, op: Op, m: VhostVring, client: Vring)
    requires Inv(num, tx) && Legal(num, tx, op) && client.shm == m && client.Wired() && m.num == num
    requires m.free == tx.free && m.pend == tx.pend && m.done == tx.done && client.lastUsedIdx == tx.reclaimed
    ensures m.usedIdx == tx.served && (op.Put? ==> m.free != [])
    ensures op.Reclaim? ==> m.usedIdx < num && client.Client()
  {
    StepInv(num, tx, op);
  }
}
