/** The shared memory of vring.c as values: descriptors, buffers and who owns them. */
module VringModel {
  import opened Common
  import opened Rings

  const VHOST_VRING_SIZE := 32 * 1024
  const VRING_IDX_NONE := 0xFFFF
  const TWO16 := 0x1_0000
  const ETH_PACKET_SIZE := 1518
  /** sizeof(struct virtio_net_hdr) */
  const HDR_LEN := 10
  const BUFFER_SIZE := HDR_LEN + ETH_PACKET_SIZE

  /** A descriptor; `chained` and `write` are its flags VIRTIO_DESC_F_NEXT and VIRTIO_DESC_F_WRITE. */
  datatype Desc = Desc(addr: nat, len: nat, chained: bool, write: bool, next: nat)
  datatype UsedElem = UsedElem(id: nat, len: nat)

  ghost predicate GoodNum(num: nat) {
    0 < num <= VHOST_VRING_SIZE && TWO16 % num == 0
  }

  lemma NumRange(num: nat)
    requires GoodNum(num)
    ensures 0 < num <= VHOST_VRING_SIZE
  {
  }

  function Zeros(): seq<Byte> {
    [0, 0, 0, 0, 0, 0, 0, 0, 0, 0]
  }

  /** Conversion to uint16_t. */
  function Idx16(x: nat): (r: nat)
    ensures r < TWO16
  {
    x % TWO16
  }

  lemma Small16(x: nat)
    requires x < TWO16
    ensures Idx16(x) == x
  {
  }

  lemma Next16(x: nat)
    ensures Idx16(Idx16(x) + 1) == Idx16(x + 1)
  {
  }

  /** Indices less than 65536 apart are equal only if they are the same. */
  lemma Same16(a: nat, i: nat, k: nat)
    requires i <= k < i + TWO16
    ensures Idx16(a + i) == Idx16(a + k) <==> i == k
  {
  }

  /** A 16-bit index points to the same slot as the unbounded one. */
  lemma Wrap16(x: nat, k: nat, num: nat)
    requires GoodNum(num)
    ensures Slot(Idx16(x), k, num) == Slot(x, k, num) && Idx16(x) % num == x % num
  {
    var q, t := x / TWO16, TWO16 / num;
    assert x == q * TWO16 + x % TWO16 && TWO16 == t * num;
    assert q * (t * num) == (q * t) * num;
    Turns(x % TWO16, q * t, k, num);
    Turns(x % TWO16, q * t, 0, num);
  }

  lemma Turns(x: int, q: int, k: int, n: int)
    requires n > 0
    ensures Slot(x + q * n, k, n) == Slot(x, k, n)
  {
    var p, r := (x + k) / n, (x + k) % n;
    assert x + q * n + k == (p + q) * n + r by {
      assert (p + q) * n == p * n + q * n;
    }
    ModUnique(x + q * n + k, n, p + q, r);
  }

  ghost function Nexts(desc: seq<Desc>): (r: seq<nat>)
    ensures |r| == |desc| && forall i :: 0 <= i < |r| ==> r[i] == desc[i].next
  {
    seq(|desc|, i requires 0 <= i < |desc| => desc[i].next)
  }

  ghost function Ids(used: seq<UsedElem>): (r: seq<nat>)
    ensures |r| == |used| && forall i :: 0 <= i < |r| ==> r[i] == used[i].id
  {
    seq(|used|, i requires 0 <= i < |used| => used[i].id)
  }

  lemma NextsUpdate(desc: seq<Desc>, d: nat, x: Desc)
    requires d < |desc|
    ensures Nexts(desc[d := x]) == Nexts(desc)[d := x.next]
  {
  }

  lemma IdsUpdate(used: seq<UsedElem>, k: nat, x: UsedElem)
    requires k < |used|
    ensures Ids(used[k := x]) == Ids(used)[k := x.id]
  {
  }

  // ---- ownership ----

  ghost predicate AreFree(desc: seq<Desc>, free: seq<nat>) {
    forall d :: d in free && d < |desc| ==> desc[d].len == BUFFER_SIZE && desc[d].write
  }

  /** The free list is threaded through the descriptors; free and pending ones are all different. */
  ghost predicate Threaded(desc: seq<Desc>, head: nat, free: seq<nat>, pend: seq<nat>) {
    && Chain(Nexts(desc), head, free, VRING_IDX_NONE)
    && multiset(free) + multiset(pend) <= All(|desc|)
    && AreFree(desc, free)
  }

  predicate Below(s: seq<nat>, n: nat) {
    forall i :: 0 <= i < |s| ==> s[i] < n
  }

  /** The packet, with its header, passes the server's length test. */
  predicate Fits(p: seq<Byte>) {
    HDR_LEN + |p| < ETH_PACKET_SIZE
  }

  function Fitting(q: seq<seq<Byte>>): seq<seq<Byte>> {
    if q == [] then [] else if Fits(q[0]) then [q[0]] + Fitting(q[1..]) else Fitting(q[1..])
  }

  predicate AllFit(q: seq<seq<Byte>>) {
    forall i :: 0 <= i < |q| ==> Fits(q[i])
  }

  lemma {:induction false} FittingCount(q: seq<seq<Byte>>)
    ensures |Fitting(q)| <= |q| && (|Fitting(q)| == |q| <==> AllFit(q))
  {
    if q != [] { FittingCount(q[1..]); }
  }

  lemma {:induction false} FittingJoin(q: seq<seq<Byte>>, r: seq<seq<Byte>>)
    ensures Fitting(q + r) == Fitting(q) + Fitting(r)
  {
    if q == [] {
      assert q + r == r;
    } else {
      FittingJoin(q[1..], r);
      assert (q + r)[1..] == q[1..] + r;
      Assoc([q[0]], Fitting(q[1..]), Fitting(r));
    }
  }

  /** The buffers in the order of their addresses. The last entry is not a buffer but the room that the region
      leaves behind the last one. */
  ghost predicate Backed(desc: seq<Desc>, bufs: seq<seq<Byte>>) {
    |bufs| == |desc| + 1 && forall d :: 0 <= d < |bufs| ==> |bufs[d]| == BUFFER_SIZE
  }

  /** The descriptor `d` is not chained and holds the packet `x`, up to the end of its buffer, behind a header.
      (Whether the header is still empty is not said: see PutInto.) */
  ghost predicate Carries(desc: seq<Desc>, bufs: seq<seq<Byte>>, d: nat, x: seq<Byte>) {
    && d < |desc| && d < |bufs| && !desc[d].chained && desc[d].len == HDR_LEN + |x|
    && |bufs[d]| == BUFFER_SIZE && Body(bufs[d], |x|) == Body(Zeros() + x, |x|)
  }

  /** The first `n` bytes behind a header, but none behind the end of a buffer. */
  function Body(b: seq<Byte>, n: nat): seq<Byte>
    requires HDR_LEN + n <= |b| || BUFFER_SIZE <= |b|
  {
    b[HDR_LEN..if HDR_LEN + n <= BUFFER_SIZE then HDR_LEN + n else BUFFER_SIZE]
  }

  ghost predicate Packed(desc: seq<Desc>, bufs: seq<seq<Byte>>, pend: seq<nat>, sent: seq<seq<Byte>>) {
    |sent| == |pend| && forall i :: 0 <= i < |pend| ==> Carries(desc, bufs, pend[i], sent[i])
  }

  /** put_vring writes an empty header and the packet to the address of the buffer `d`. What is longer than the
      buffer, at most as much as a header, goes to the front of what follows it. */
  function PutInto(bufs: seq<seq<Byte>>, d: nat, data: seq<Byte>): seq<seq<Byte>>
    requires d + 1 < |bufs| && |bufs[d]| == |bufs[d + 1]| == BUFFER_SIZE && |data| <= BUFFER_SIZE
  {
    var all := Zeros() + data;
    if |all| <= BUFFER_SIZE then bufs[d := all + bufs[d][|all|..]]
    else bufs[d := all[..BUFFER_SIZE]][d + 1 := all[BUFFER_SIZE..] + bufs[d + 1][|all| - BUFFER_SIZE..]]
  }

  /** The ten bytes of the header are 0, and the packet is behind them, up to the end of the buffer. */
  lemma PutBytes(bufs: seq<seq<Byte>>, d: nat, data: seq<Byte>)
    requires d + 1 < |bufs| && |bufs[d]| == |bufs[d + 1]| == BUFFER_SIZE && |data| <= BUFFER_SIZE
    ensures var b, k := PutInto(bufs, d, data)[d], if |data| <= 1518 then |data| else 1518;
      |b| == 1528 && (forall i :: 0 <= i < 10 ==> b[i] == 0) && b[10..10 + k] == data[..k]
  {
    var b, all := PutInto(bufs, d, data)[d], Zeros() + data;
    var k := if |data| <= 1518 then |data| else 1518;
    assert forall i :: 0 <= i < 10 + k ==> b[i] == all[i];
    assert b[10..10 + k] == data[..k];
  }

  // ---- headers ----

  /** The bytes where a header is, in front of each buffer's packet. */
  ghost function Heads(bufs: seq<seq<Byte>>): (r: seq<seq<Byte>>)
    ensures |r| == |bufs|
  {
    seq(|bufs|, i requires 0 <= i < |bufs| => if |bufs[i]| >= 10 then bufs[i][..10] else [])
  }

  predicate Blank(h: seq<Byte>) {
    forall i :: 0 <= i < |h| ==> h[i] == 0
  }

  /** A put clears its own header, and what is longer than the buffer covers the front of the next one. */
  ghost function PutHead(heads: seq<seq<Byte>>, d: nat, data: seq<Byte>): (r: seq<seq<Byte>>)
    ensures |r| == |heads|
  {
    if d + 1 >= |heads| || |heads[d + 1]| != 10 || |data| > 1528 then heads
    else
      var h := heads[d := [0, 0, 0, 0, 0, 0, 0, 0, 0, 0]];
      if |data| > 1518 then h[d + 1 := data[1518..] + heads[d + 1][|data| - 1518..]] else h
  }

  lemma HeadsPut(bufs: seq<seq<Byte>>, d: nat, data: seq<Byte>)
    requires d + 1 < |bufs| && |bufs[d]| == |bufs[d + 1]| == BUFFER_SIZE && |data| <= BUFFER_SIZE
    ensures Heads(PutInto(bufs, d, data)) == PutHead(Heads(bufs), d, data)
  {
    var all, b := Zeros() + data, PutInto(bufs, d, data);
    var g, h := Heads(b), PutHead(Heads(bufs), d, data);
    assert b[d][..10] == [0, 0, 0, 0, 0, 0, 0, 0, 0, 0];
    if |data| > 1518 {
      var k := |data| - 1518;
      assert all[BUFFER_SIZE..] == data[1518..];
      assert b[d + 1][..10] == data[1518..] + bufs[d + 1][k..][..10 - k];
      assert bufs[d + 1][k..][..10 - k] == bufs[d + 1][..10][k..];
    }
    forall i | 0 <= i < |bufs|
      ensures g[i] == h[i]
    {
    }
  }

  /** For each packet that passes the length test, whether its header is all zero as it is handled. */
  ghost function Checks(heads: seq<seq<Byte>>, p: seq<nat>, q: seq<seq<Byte>>): seq<bool>
    requires |p| == |q|
    decreases |p|
  {
    if p == [] then []
    else
      (if Fits(q[0]) then [p[0] < |heads| && Blank(heads[p[0]])] else []) + Checks(heads, p[1..], q[1..])
  }

  lemma {:induction false} ChecksCount(heads: seq<seq<Byte>>, p: seq<nat>, q: seq<seq<Byte>>)
    requires |p| == |q|
    ensures |Checks(heads, p, q)| == |Fitting(q)|
    decreases |p|
  {
    if p != [] { ChecksCount(heads, p[1..], q[1..]); }
  }

  /** All of them pass if all headers are blank. */
  lemma {:induction false} ChecksPass(heads: seq<seq<Byte>>, p: seq<nat>, q: seq<seq<Byte>>)
    requires |p| == |q| && forall i :: 0 <= i < |p| ==> p[i] < |heads| && Blank(heads[p[i]])
    ensures forall i :: 0 <= i < |Checks(heads, p, q)| ==> Checks(heads, p, q)[i]
    decreases |p|
  {
    if p != [] { ChecksPass(heads, p[1..], q[1..]); }
  }

  lemma PutBacked(desc: seq<Desc>, bufs: seq<seq<Byte>>, d: nat, x: Desc, data: seq<Byte>)
    requires Backed(desc, bufs) && d < |desc| && |data| <= BUFFER_SIZE
    ensures |bufs[d]| == |bufs[d + 1]| == BUFFER_SIZE && Backed(desc[d := x], PutInto(bufs, d, data))
  {
  }

  /** The buffer `d` holds the packet, and no other one loses anything but its header. */
  lemma PutBody(bufs: seq<seq<Byte>>, d: nat, data: seq<Byte>, e: nat, n: nat)
    requires d + 1 < |bufs| && |bufs[d]| == |bufs[d + 1]| == BUFFER_SIZE && |data| <= BUFFER_SIZE
    requires e < |bufs| && |bufs[e]| == BUFFER_SIZE
    ensures var b := PutInto(bufs, d, data);
      && |b| == |bufs| && |b[e]| == BUFFER_SIZE
      && Body(b[e], if e == d then |data| else n) ==
        if e == d then Body(Zeros() + data, |data|) else Body(bufs[e], n)
  {
    var all, b := Zeros() + data, PutInto(bufs, d, data);
    var m := if HDR_LEN + n <= BUFFER_SIZE then HDR_LEN + n else BUFFER_SIZE;
    if e == d {
      var k := if |all| <= BUFFER_SIZE then |all| else BUFFER_SIZE;
      assert b[d][..k] == all[..k];
      assert b[d][HDR_LEN..k] == b[d][..k][HDR_LEN..] == all[HDR_LEN..k];
    } else if e == d + 1 && |all| > BUFFER_SIZE {
      assert forall i :: HDR_LEN <= i < m ==> b[e][i] == bufs[e][i];
      assert b[e][HDR_LEN..m] == bufs[e][HDR_LEN..m];
    }
  }

  /** A put leaves all other buffers as they are if and only if the packet fits with its header, or what is longer is
      what stood there. */
  lemma PutKeepsIff(bufs: seq<seq<Byte>>, d: nat, data: seq<Byte>)
    requires d + 1 < |bufs| && |bufs[d]| == |bufs[d + 1]| == BUFFER_SIZE && |data| <= BUFFER_SIZE
    ensures var b, all := PutInto(bufs, d, data), Zeros() + data;
      (forall e :: 0 <= e < |bufs| && e != d ==> b[e] == bufs[e]) <==>
        |all| <= BUFFER_SIZE || bufs[d + 1][..|all| - BUFFER_SIZE] == all[BUFFER_SIZE..]
  {
    var b, all := PutInto(bufs, d, data), Zeros() + data;
    if |all| > BUFFER_SIZE {
      var k := |all| - BUFFER_SIZE;
      assert b[d + 1][..k] == all[BUFFER_SIZE..] && b[d + 1][k..] == bufs[d + 1][k..];
      assert bufs[d + 1] == bufs[d + 1][..k] + bufs[d + 1][k..];
    }
  }

  lemma Head(desc: seq<Desc>, head: nat, free: seq<nat>, pend: seq<nat>)
    requires Threaded(desc, head, free, pend) && free != []
    ensures head == free[0] && head < |desc| && head !in pend && desc[head].len == BUFFER_SIZE
  {
    ChainPop(Nexts(desc), head, free, VRING_IDX_NONE);
    DifferentOnes(|desc|, free, pend, head);
  }

  /** put_vring takes the first free descriptor and appends it to the pending ones. */
  lemma TakeThreaded(desc: seq<Desc>, head: nat, free: seq<nat>, pend: seq<nat>, x: Desc)
    requires Threaded(desc, head, free, pend) && free != [] && head < |desc|
    ensures Threaded(desc[head := x], desc[head].next, free[1..], pend + [head])
  {
    var next, next' := Nexts(desc), Nexts(desc[head := x]);
    ChainPop(next, head, free, VRING_IDX_NONE);
    DifferentOnes(|desc|, free, pend, head);
    forall d: nat
      ensures d in free[1..] <==> d in free && d != head
    {
      TailWithout(free, d);
    }
    ChainFrame(next, next', next[head], free[1..], VRING_IDX_NONE);
    MoveFirst(free, pend);
  }

  lemma TakePacked(desc: seq<Desc>, bufs: seq<seq<Byte>>, pend: seq<nat>, sent: seq<seq<Byte>>, d: nat, x: Desc,
        data: seq<Byte>)
    requires Packed(desc, bufs, pend, sent) && Backed(desc, bufs) && d < |desc| && d !in pend
    requires |data| <= BUFFER_SIZE && x.len == HDR_LEN + |data| && !x.chained
    ensures |bufs[d]| == |bufs[d + 1]| == BUFFER_SIZE
    ensures Packed(desc[d := x], PutInto(bufs, d, data), pend + [d], sent + [data])
  {
    hide PutInto, Body;
    var p, q, e, b := pend + [d], sent + [data], desc[d := x], PutInto(bufs, d, data);
    forall i | 0 <= i < |p|
      ensures Carries(e, b, p[i], q[i])
    {
      assert i < |pend| ==> Carries(desc, bufs, pend[i], sent[i]) && pend[i] in pend;
      PutBody(bufs, d, data, p[i], |q[i]|);
    }
  }

  /** The first pending descriptor is no longer pending. */
  lemma HandThreaded(desc: seq<Desc>, head: nat, free: seq<nat>, pend: seq<nat>)
    requires Threaded(desc, head, free, pend) && pend != []
    ensures Threaded(desc, head, free, pend[1..]) && pend[0] < |desc|
  {
    DifferentOnes(|desc|, free, pend, pend[0]);
    assert pend == [pend[0]] + pend[1..];
    assert multiset(pend[1..]) <= multiset(pend);
  }

  lemma HandPacked(desc: seq<Desc>, bufs: seq<seq<Byte>>, pend: seq<nat>, sent: seq<seq<Byte>>)
    requires Packed(desc, bufs, pend, sent) && pend != []
    ensures Packed(desc, bufs, pend[1..], sent[1..])
  {
  }

  /** free_vring */
  function Freed(x: Desc, head: nat): Desc {
    x.(len := BUFFER_SIZE, write := true, next := head)
  }

  lemma TakePartition(n: nat, free: seq<nat>, pend: seq<nat>, done: seq<nat>)
    requires free != []
    ensures Partition(n, free[1..], pend + [free[0]], done) <==> Partition(n, free, pend, done)
  {
    MoveFirst(free, pend);
  }

  /** The first used descriptor becomes the head of the free list. */
  lemma ReturnOwned(desc: seq<Desc>, head: nat, free: seq<nat>, pend: seq<nat>, done: seq<nat>)
    requires Threaded(desc, head, free, pend) && Partition(|desc|, free, pend, done) && done != []
    ensures done[0] < |desc| && done[0] !in pend
    ensures Threaded(desc[done[0] := Freed(desc[done[0]], head)], done[0], [done[0]] + free, pend)
    ensures Partition(|desc|, [done[0]] + free, pend, done[1..])
  {
    PartitionOnce(|desc|, free, pend, done, done[0]);
    ChainPush(Nexts(desc), head, free, VRING_IDX_NONE, done[0]);
    NextsUpdate(desc, done[0], Freed(desc[done[0]], head));
    MoveFront(done, free);
    assert (multiset(done) + multiset(free)) + multiset(pend) == All(|desc|);
    assert (multiset(done[1..]) + multiset([done[0]] + free)) + multiset(pend) == All(|desc|);
  }

  lemma ReturnPacked(desc: seq<Desc>, bufs: seq<seq<Byte>>, pend: seq<nat>, sent: seq<seq<Byte>>, d: nat, x: Desc)
    requires Packed(desc, bufs, pend, sent) && d < |desc| && d !in pend
    ensures Packed(desc[d := x], bufs, pend, sent) && (Backed(desc, bufs) ==> Backed(desc[d := x], bufs))
  {
  }

  // ---- the packet in a chain of descriptors ----

  /** The descriptors `c` are linked, starting at `i`, and the last one is not chained further. */
  ghost predicate Linked(desc: seq<Desc>, i: nat, c: seq<nat>)
    decreases |c|
  {
    && c != [] && c[0] == i && i < |desc|
    && if desc[i].chained then Linked(desc, desc[i].next, c[1..]) else |c| == 1
  }

  /** The bytes of the buffers along `c`, up to the first one that does not fit any more. */
  ghost function Gather(desc: seq<Desc>, bufs: seq<seq<Byte>>, c: seq<nat>, got: seq<Byte>): seq<Byte>
    requires Backed(desc, bufs) && forall i :: 0 <= i < |c| ==> c[i] < |desc|
    decreases |c|
  {
    if c == [] || |got| + desc[c[0]].len >= ETH_PACKET_SIZE then got
    else Gather(desc, bufs, c[1..], got + bufs[c[0]][..desc[c[0]].len])
  }

  /** The lengths of the descriptors. */
  function Total(desc: seq<Desc>, c: seq<nat>): nat
    requires forall i :: 0 <= i < |c| ==> c[i] < |desc|
    decreases |c|
  {
    if c == [] then 0 else desc[c[0]].len + Total(desc, c[1..])
  }

  /** The bytes of the buffers, one behind the other. */
  ghost function Along(desc: seq<Desc>, bufs: seq<seq<Byte>>, c: seq<nat>): seq<Byte>
    requires Backed(desc, bufs) && forall i :: 0 <= i < |c| ==> c[i] < |desc|
    decreases |c|
  {
    if c == [] then []
    else
      var b, n := bufs[c[0]], desc[c[0]].len;
      (if n <= |b| then b[..n] else b) + Along(desc, bufs, c[1..])
  }

  /** What is gathered is the concatenation of the longest part of the chain that stays below an Ethernet packet. */
  lemma {:induction false} GatherIs(desc: seq<Desc>, bufs: seq<seq<Byte>>, c: seq<nat>, got: seq<Byte>) returns (k: nat)
    requires Backed(desc, bufs) && (forall i :: 0 <= i < |c| ==> c[i] < |desc|) && |got| < 1518
    ensures k <= |c| && |got| + Total(desc, c[..k]) < 1518
    ensures k < |c| ==> |got| + Total(desc, c[..k + 1]) >= 1518
    ensures Gather(desc, bufs, c, got) == got + Along(desc, bufs, c[..k])
    decreases |c|
  {
    hide Backed;
    k := 0;
    assert got + [] == got;
    if c != [] {
      SizeAt(desc, bufs, c[0]);
      var n := desc[c[0]].len;
      if |got| + n < ETH_PACKET_SIZE {
        var b := bufs[c[0]][..n];
        k := GatherIs(desc, bufs, c[1..], got + b);
        assert c[..k + 1][1..] == c[1..][..k];
        assert k + 1 < |c| ==> c[..k + 2][1..] == c[1..][..k + 1];
        Assoc(got, b, Along(desc, bufs, c[1..][..k]));
        k := k + 1;
      } else {
        assert c[..1][1..] == [];
      }
    }
  }

  lemma SizeAt(desc: seq<Desc>, bufs: seq<seq<Byte>>, d: nat)
    requires Backed(desc, bufs) && d < |desc|
    ensures d < |bufs| && |bufs[d]| == BUFFER_SIZE
  {
  }

  lemma {:induction false} LinkedRange(desc: seq<Desc>, i: nat, c: seq<nat>)
    requires Linked(desc, i, c)
    ensures forall k :: 0 <= k < |c| ==> c[k] < |desc|
    decreases |c|
  {
    if desc[i].chained { LinkedRange(desc, desc[i].next, c[1..]); }
  }

  lemma {:induction false} GatherShort(desc: seq<Desc>, bufs: seq<seq<Byte>>, c: seq<nat>, got: seq<Byte>)
    requires Backed(desc, bufs) && (forall i :: 0 <= i < |c| ==> c[i] < |desc|) && |got| < ETH_PACKET_SIZE
    ensures |Gather(desc, bufs, c, got)| < ETH_PACKET_SIZE
    decreases |c|
  {
    if c != [] && |got| + desc[c[0]].len < ETH_PACKET_SIZE {
      GatherShort(desc, bufs, c[1..], got + bufs[c[0]][..desc[c[0]].len]);
    }
  }

  /** What is behind the header in the server's buffer, and its length as a size_t: less than a header wraps round. */
  function Behind(g: seq<Byte>): seq<Byte> {
    if |g| >= HDR_LEN then g[HDR_LEN..] else []
  }

  function BehindSize(g: seq<Byte>): (n: nat)
    ensures |g| < TWO64 ==> (n == |Behind(g)| <==> HDR_LEN <= |g|)
  {
    (|g| - HDR_LEN) % TWO64
  }

  lemma BehindSizeIs(g: seq<Byte>)
    requires 0 < |g| < ETH_PACKET_SIZE
    ensures BehindSize(g) == if |g| >= 10 then |g| - 10 else 0x1_0000_0000_0000_0000 + |g| - 10
  {
  }

  /** A pending descriptor is a chain of its own. What is gathered there is a header and the packet,
      or nothing if the packet does not pass the length test. */
  lemma {:induction false} GatherPacked(desc: seq<Desc>, bufs: seq<seq<Byte>>, pend: seq<nat>, sent: seq<seq<Byte>>)
    requires Packed(desc, bufs, pend, sent) && pend != [] && Backed(desc, bufs)
    ensures Linked(desc, pend[0], [pend[0]])
    ensures var g := Gather(desc, bufs, [pend[0]], []);
      if Fits(sent[0]) then
        && |g| == HDR_LEN + |sent[0]| && Behind(g) == sent[0]
        && pend[0] < |bufs| && g[..10] == Heads(bufs)[pend[0]]
      else g == []
  {
    var d, x := pend[0], sent[0];
    assert Carries(desc, bufs, d, x);
    assert [d][1..] == [];
    if Fits(x) {
      var g := bufs[d][..desc[d].len];
      assert [] + g == g;
      assert Behind(g) == Body(bufs[d], |x|) == Body(Zeros() + x, |x|) == x;
      assert g[..10] == bufs[d][..10];
    }
  }

  // ---- what a round of the server leaves on the used ring ----

  /** The used entry of a packet: one that does not pass the length test leaves the old entry where it is. */
  ghost function Entry(ids: seq<nat>, k: nat, d: nat, x: seq<Byte>): nat
    requires k < |ids|
  {
    if Fits(x) then d else ids[k]
  }

  ghost function Written(ids: seq<nat>, k: nat, d: nat, x: seq<Byte>): seq<nat>
    requires k < |ids|
  {
    if Fits(x) then ids[k := d] else ids
  }

  /** What one packet does to the used ring. */
  lemma WrittenHolds(ids: seq<nat>, last: nat, done: seq<nat>, d: nat, x: seq<Byte>, n: nat)
    requires |done| < |ids| && Holds(ids, last, done) && Below(ids, n) && d < n
    ensures var k := Slot(last, |done|, |ids|);
      Holds(Written(ids, k, d, x), last, done + [Entry(ids, k, d, x)]) && Below(Written(ids, k, d, x), n)
  {
    var k := Slot(last, |done|, |ids|);
    RingPush(ids, last, done, Entry(ids, k, d, x));
    assert ids[k := ids[k]] == ids;
  }

  /** The used ring after the server has handled the descriptors `p` with the packets `q`. */
  ghost function WrittenAll(ids: seq<nat>, from: int, p: seq<nat>, q: seq<seq<Byte>>): (r: seq<nat>)
    requires |p| == |q| && |ids| > 0
    ensures |r| == |ids|
    decreases |p|
  {
    if p == [] then ids
    else WrittenAll(Written(ids, Slot(from, 0, |ids|), p[0], q[0]), from + 1, p[1..], q[1..])
  }

  ghost function Zeroed(n: nat): seq<nat> {
    seq(n, i => 0)
  }

  /** The entries behind `from` after the server has handled the descriptors `p` with the packets `q`. */
  ghost function Marked(ids: seq<nat>, from: int, p: seq<nat>, q: seq<seq<Byte>>): (r: seq<nat>)
    requires |p| == |q| && |ids| > 0
    ensures |r| == |p|
    decreases |p|
  {
    if p == [] then []
    else [Entry(ids, Slot(from, 0, |ids|), p[0], q[0])] + Marked(ids, from + 1, p[1..], q[1..])
  }

  lemma WrittenNext(ids: seq<nat>, from: int, p: seq<nat>, q: seq<seq<Byte>>)
    requires 0 < |p| == |q| && |ids| > 0
    ensures var k, n := Slot(from, 0, |ids|), from + 1;
      WrittenAll(ids, from, p, q) == WrittenAll(Written(ids, k, p[0], q[0]), n, p[1..], q[1..])
  {
  }

  lemma {:induction false} MarkedAll(ids: seq<nat>, from: int, p: seq<nat>, q: seq<seq<Byte>>)
    requires |p| == |q| && |ids| > 0 && AllFit(q)
    ensures Marked(ids, from, p, q) == p
    decreases |p|
  {
    if p != [] { MarkedAll(ids, from + 1, p[1..], q[1..]); }
  }

  /** The slot `k` is none of the `m` slots behind `from`. */
  ghost predicate Outside(k: nat, from: int, m: nat, n: nat) {
    n > 0 && forall i :: 0 <= i < m ==> Slot(from, i, n) != k
  }

  lemma OutsideNext(k: nat, from: int, m: nat, n: nat)
    requires m > 0 && Outside(k, from, m, n)
    ensures Outside(k, from + 1, m - 1, n)
  {
    var f := from + 1;
    forall i | 0 <= i < m - 1
      ensures Slot(f, i, n) != k
    {
      assert Slot(f, i, n) == Slot(from, i + 1, n);
    }
  }

  /** Entries outside the window do not matter. */
  lemma {:induction false} MarkedFrame(ids: seq<nat>, from: int, p: seq<nat>, q: seq<seq<Byte>>, k: nat, x: nat)
    requires |p| == |q| && k < |ids| && Outside(k, from, |p|, |ids|)
    ensures Marked(ids[k := x], from, p, q) == Marked(ids, from, p, q)
    decreases |p|
  {
    if p != [] {
      assert k != Slot(from, 0, |ids|);
      OutsideNext(k, from, |p|, |ids|);
      MarkedFrame(ids, from + 1, p[1..], q[1..], k, x);
    }
  }

  /** One packet of the round. */
  lemma MarkedNext(ids: seq<nat>, from: int, p: seq<nat>, q: seq<seq<Byte>>)
    requires 0 < |p| == |q| <= |ids|
    ensures var k, n := Slot(from, 0, |ids|), from + 1;
      Marked(ids, from, p, q) ==
        [Entry(ids, k, p[0], q[0])] + Marked(Written(ids, k, p[0], q[0]), n, p[1..], q[1..])
  {
    var k, f := Slot(from, 0, |ids|), from + 1;
    forall i | 0 <= i < |p| - 1
      ensures Slot(f, i, |ids|) != k
    {
      assert Slot(f, i, |ids|) == Slot(from, i + 1, |ids|);
      if Slot(f, i, |ids|) == k { SlotApart(from, 0, i + 1, |ids|); }
    }
    MarkedFrame(ids, f, p[1..], q[1..], k, p[0]);
  }

  lemma {:induction false} WrittenBelow(ids: seq<nat>, from: int, p: seq<nat>, q: seq<seq<Byte>>, n: nat)
    requires |p| == |q| && |ids| > 0 && Below(ids, n) && Below(p, n)
    ensures Below(WrittenAll(ids, from, p, q), n) && Below(Marked(ids, from, p, q), n)
    decreases |p|
  {
    if p != [] {
      WrittenBelow(ids, from + 1, p[1..], q[1..], n);
      WrittenBelow(Written(ids, Slot(from, 0, |ids|), p[0], q[0]), from + 1, p[1..], q[1..], n);
    }
  }

  /** Ownership survives the round if and only if the entries name exactly the descriptors handled. */
  lemma RoundKeepsIff(n: nat, free: seq<nat>, p: seq<nat>, done: seq<nat>, w: seq<nat>)
    requires Partition(n, free, p, done)
    ensures Partition(n, free, [], done + w) <==> multiset(w) == multiset(p)
  {
    var x, y := multiset(free) + multiset(done), multiset(free) + multiset([]) + multiset(done + w);
    assert x + multiset(p) == All(n) && y == x + multiset(w);
    if x + multiset(w) == x + multiset(p) {
      forall d: nat
        ensures multiset(w)[d] == multiset(p)[d]
      {
        assert (x + multiset(w))[d] == (x + multiset(p))[d];
      }
    }
  }

  /** For one packet: if it fits, or if the entry left over from before happens to name its descriptor. */
  lemma OneMarkedIff(ids: seq<nat>, from: int, d: nat, x: seq<Byte>)
    requires |ids| > 0
    ensures Marked(ids, from, [d], [x]) == [Entry(ids, Slot(from, 0, |ids|), d, x)]
    ensures multiset(Marked(ids, from, [d], [x])) == multiset([d]) <==> Fits(x) || ids[Slot(from, 0, |ids|)] == d
  {
    var w := Marked(ids, from, [d], [x]);
    assert [d][1..] == [] && [x][1..] == [];
    assert w == [w[0]];
    assert multiset([d])[d] == 1 && multiset([w[0]])[w[0]] == 1;
    assert w[0] != d ==> multiset([w[0]])[d] == 0;
  }

  // ---- what a reclaim does with them ----

  /** process_used_vring on the used descriptors `ds`. */
  function FreeAll(desc: seq<Desc>, head: nat, ds: seq<nat>): (r: (seq<Desc>, nat))
    requires Below(ds, |desc|)
    ensures |r.0| == |desc|
    decreases |ds|
  {
    if ds == [] then (desc, head) else FreeAll(desc[ds[0] := Freed(desc[ds[0]], head)], ds[0], ds[1..])
  }

  /** The links from `head` do not lead out of `s`. */
  ghost predicate Closed(desc: seq<Desc>, head: nat, s: set<nat>) {
    (head < |desc| ==> head in s) && forall d :: d in s && d < |desc| && desc[d].next < |desc| ==> desc[d].next in s
  }

  lemma {:induction false} ChainClosed(desc: seq<Desc>, head: nat, list: seq<nat>, s: set<nat>)
    requires Chain(Nexts(desc), head, list, VRING_IDX_NONE) && Closed(desc, head, s)
    ensures forall d :: d in list ==> d in s
    decreases |list|
  {
    if list != [] { ChainClosed(desc, desc[head].next, list[1..], s); }
  }

  lemma {:induction false} ListClosed(desc: seq<Desc>, head: nat, list: seq<nat>, s: set<nat>)
    requires Chain(Nexts(desc), head, list, VRING_IDX_NONE) && |desc| <= VRING_IDX_NONE
    requires (forall d :: d in list ==> d in s) && forall d :: d in s && d < |desc| ==> d in list
    ensures Closed(desc, head, s)
  {
    forall d | d in s && d < |desc| && desc[d].next < |desc|
      ensures desc[d].next in s
    {
      NextInside(desc, head, list, d);
    }
  }

  lemma {:induction false} NextInside(desc: seq<Desc>, head: nat, list: seq<nat>, d: nat)
    requires Chain(Nexts(desc), head, list, VRING_IDX_NONE) && |desc| <= VRING_IDX_NONE
    requires d in list && d < |desc| && desc[d].next < |desc|
    ensures desc[d].next in list
    decreases |list|
  {
    if head == d {
      assert list[1..] != [];
      assert list[1] == desc[d].next;
    } else {
      assert d in list[1..];
      NextInside(desc, desc[head].next, list[1..], d);
      assert forall x :: x in list[1..] ==> x in list;
    }
  }

  lemma {:induction false} FreeAllClosed(desc: seq<Desc>, head: nat, ds: seq<nat>, s: set<nat>)
    requires Below(ds, |desc|) && Closed(desc, head, s)
    ensures var r := FreeAll(desc, head, ds); Closed(r.0, r.1, s + set d | d in ds)
    decreases |ds|
  {
    if ds == [] {
      assert s + (set d | d in ds) == s;
    } else {
      FreeAllClosed(desc[ds[0] := Freed(desc[ds[0]], head)], ds[0], ds[1..], s + {ds[0]});
      assert s + (set d | d in ds) == s + {ds[0]} + set d | d in ds[1..];
    }
  }

  lemma {:induction false} FreeAllOwned(desc: seq<Desc>, head: nat, free: seq<nat>, pend: seq<nat>, ds: seq<nat>)
    requires Threaded(desc, head, free, pend) && Partition(|desc|, free, pend, ds) && Below(ds, |desc|)
    ensures var r := FreeAll(desc, head, ds);
      exists f :: Threaded(r.0, r.1, f, pend) && Partition(|desc|, f, pend, [])
    decreases |ds|
  {
    hide Threaded, Partition, Freed;
    if ds != [] {
      ReturnOwned(desc, head, free, pend, ds);
      FreeAllOwned(desc[ds[0] := Freed(desc[ds[0]], head)], ds[0], [ds[0]] + free, pend, ds[1..]);
    }
  }

  lemma FullIsAll(n: nat, all: multiset<nat>)
    requires |all| == n && forall d: nat :: d < n ==> d in all
    ensures all == All(n)
  {
    AllOnce(n);
    assert All(n) <= all;
    assert all == All(n) + (all - All(n));
  }

  /** Lists of the right length over the right range that do not hold every descriptor once miss one of them. */
  lemma Missing(n: nat, a: seq<nat>, b: seq<nat>, c: seq<nat>) returns (m: nat)
    requires |a| + |b| + |c| == n && !Partition(n, a, b, c)
    ensures m < n && m !in a && m !in b && m !in c
  {
    var all := multiset(a) + multiset(b) + multiset(c);
    if forall d: nat :: d < n ==> d in all { FullIsAll(n, all); }
    m :| m < n && m !in all;
    assert m in a ==> m in multiset(a);
    assert m in b ==> m in multiset(b);
    assert m in c ==> m in multiset(c);
  }

  lemma Present(n: nat, a: seq<nat>, b: seq<nat>, m: nat)
    requires Partition(n, a, b, []) && m < n
    ensures m in a || m in b
  {
    PartitionOnce(n, a, b, [], m);
  }

  /** After a reclaim there is a proper free list again if and only if the used entries completed the partition.
      Otherwise some descriptor is lost for good, whatever list one tries to follow. */
  lemma ReclaimRestoresIff(desc: seq<Desc>, head: nat, free: seq<nat>, pend: seq<nat>, ds: seq<nat>)
    requires Threaded(desc, head, free, pend) && Below(ds, |desc|) && |free| + |pend| + |ds| == |desc| <= VRING_IDX_NONE
    ensures var r := FreeAll(desc, head, ds);
      (exists f :: Threaded(r.0, r.1, f, pend) && Partition(|desc|, f, pend, [])) <==> Partition(|desc|, free, pend, ds)
  {
    hide Partition, Freed;
    var r := FreeAll(desc, head, ds);
    if Partition(|desc|, free, pend, ds) {
      FreeAllOwned(desc, head, free, pend, ds);
    } else if f :| Threaded(r.0, r.1, f, pend) && Partition(|desc|, f, pend, []) {
      var m := Missing(|desc|, free, pend, ds);
      var s := set d | d in free;
      ListClosed(desc, head, free, s);
      FreeAllClosed(desc, head, ds, s);
      ChainClosed(r.0, r.1, f, s + set d | d in ds);
      Present(|desc|, f, pend, m);
    }
  }

  // ---- layout ----

  /** Rounds up to a multiple of `b`. */
  function Align(v: nat, b: nat): (r: nat)
    requires b > 0
    ensures r % b == 0 && v <= r < v + b
  {
    AlignFacts(v + b - 1, b);
    (v + b - 1) / b * b
  }

  lemma AlignFacts(x: nat, b: nat)
    requires b > 0
    ensures (x / b * b) % b == 0 && x - b < x / b * b <= x
  {
    ModUnique(x / b * b, b, x / b, 0);
  }
}
