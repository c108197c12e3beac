/** The transmit direction of vring.c as a three-stage pipeline: put, handle, reclaim. */
module TxSpec {
  import opened Common
  import opened VringModel
  import opened Rings

  datatype Op = Put(data: seq<Byte>) | Serve | Reclaim

  /** The packets, and who owns which descriptor: the free list, the pending and the used ones, each in order, and the
      identifiers that stand on the used ring; and the headers of all buffers, with the outcome of the check for each
      packet handled. */
  datatype Tx = Tx(pending: seq<seq<Byte>>, handled: seq<seq<Byte>>, accepted: seq<seq<Byte>>,
    served: nat, reclaimed: nat, free: seq<nat>, pend: seq<nat>, done: seq<nat>, ids: seq<nat>,
    heads: seq<seq<Byte>>, checks: seq<bool>)

  ghost function NewTx(num: nat): Tx {
    Tx([], [], [], 0, 0, Upto(0, num), [], [], Zeroed(num),
      seq(num + 1, i => [0, 0, 0, 0, 0, 0, 0, 0, 0, 0]), [])
  }

  ghost predicate Shaped(tx: Tx) {
    |tx.pend| == |tx.pending| && tx.ids != []
  }

  /** A packet that does not pass the server's length test is counted as served but not handled, and leaves its
      entry on the used ring as it was. */
  ghost function Step(tx: Tx, op: Op): (r: Tx)
    requires Shaped(tx)
    ensures Shaped(r)
  {
    match op
    case Put(data) =>
      if |data| > BUFFER_SIZE || tx.free == [] then tx
      else
        tx.(pending := tx.pending + [data], accepted := tx.accepted + [data],
          pend := tx.pend + [tx.free[0]], free := tx.free[1..], heads := PutHead(tx.heads, tx.free[0], data))
    case Serve =>
      tx.(pending := [], handled := tx.handled + Fitting(tx.pending), served := tx.served + |tx.pending|, pend := [],
        done := tx.done + Marked(tx.ids, tx.served, tx.pend, tx.pending),
        ids := WrittenAll(tx.ids, tx.served, tx.pend, tx.pending),
        checks := tx.checks + Checks(tx.heads, tx.pend, tx.pending))
    case Reclaim => tx.(reclaimed := tx.served, free := Reversed(tx.done) + tx.free, done := [])
  }

  /** Every descriptor has exactly one owner. */
  ghost predicate Owned(num: nat, tx: Tx) {
    Partition(num, tx.free, tx.pend, tx.done)
  }

  /** What the code demands of its callers: a free descriptor for every packet, and a reclaim only while the used index
      is below the ring size and every descriptor still has one owner, so that no dropped packet has cost one. */
  ghost predicate Legal(num: nat, tx: Tx, op: Op) {
    match op
    case Put(data) => tx.free != []
    case Serve => true
    case Reclaim => tx.served % TWO16 < num && Owned(num, tx)
  }

  ghost function Run(tx: Tx, ops: seq<Op>): (r: Tx)
    requires Shaped(tx)
    ensures Shaped(r)
    decreases |ops|
  {
    if ops == [] then tx else Run(Step(tx, ops[0]), ops[1..])
  }

  ghost predicate LegalRun(num: nat, tx: Tx, ops: seq<Op>)
    requires Shaped(tx)
    decreases |ops|
  {
    ops != [] ==> Legal(num, tx, ops[0]) && LegalRun(num, Step(tx, ops[0]), ops[1..])
  }

  ghost predicate Inv(num: nat, tx: Tx) {
    && GoodNum(num) && Shaped(tx) && |tx.ids| == num
    && tx.handled + Fitting(tx.pending) == Fitting(tx.accepted) && |tx.accepted| == tx.served + |tx.pending|
    && tx.reclaimed < num && |tx.done| == tx.served - tx.reclaimed && |tx.handled| <= tx.served
    && |tx.free| + |tx.pend| + |tx.done| == num && |tx.checks| == |tx.handled|
    && |tx.heads| == num + 1 && (forall i :: 0 <= i < |tx.heads| ==> |tx.heads[i]| == 10)
    && Below(tx.free, num) && Below(tx.pend, num) && Below(tx.done, num) && Below(tx.ids, num)
    && (|tx.handled| == tx.served ==> Owned(num, tx))
  }

  lemma PutInv(num: nat, tx: Tx, data: seq<Byte>)
    requires Inv(num, tx) && Legal(num, tx, Put(data))
    ensures Inv(num, Step(tx, Put(data)))
  {
    hide Partition;
    FittingJoin(tx.pending, [data]);
    FittingJoin(tx.accepted, [data]);
    assert tx.handled + (Fitting(tx.pending) + Fitting([data])) ==
      (tx.handled + Fitting(tx.pending)) + Fitting([data]);
    TakePartition(num, tx.free, tx.pend, tx.done);
  }

  /** Every descriptor keeps one owner over a serve if and only if the used entries name the descriptors taken; this
      is so if all packets pass the length test. */
  lemma ServeKeepsIff(num: nat, tx: Tx)
    requires Shaped(tx) && Owned(num, tx)
    ensures Owned(num, Step(tx, Serve)) <==>
      multiset(Marked(tx.ids, tx.served, tx.pend, tx.pending)) == multiset(tx.pend)
    ensures AllFit(tx.pending) ==> Owned(num, Step(tx, Serve))
  {
    hide Partition, Marked, AllFit;
    RoundKeepsIff(num, tx.free, tx.pend, tx.done, Marked(tx.ids, tx.served, tx.pend, tx.pending));
    if AllFit(tx.pending) { MarkedAll(tx.ids, tx.served, tx.pend, tx.pending); }
  }

  lemma ServeInv(num: nat, tx: Tx)
    requires Inv(num, tx)
    ensures Inv(num, Step(tx, Serve))
  {
    hide Partition, Marked, AllFit, WrittenAll, Checks;
    FittingCount(tx.pending);
    ChecksCount(tx.heads, tx.pend, tx.pending);
    WrittenBelow(tx.ids, tx.served, tx.pend, tx.pending, num);
    assert tx.handled + Fitting(tx.pending) + [] == tx.handled + Fitting(tx.pending);
    if |tx.handled| == tx.served { ServeKeepsIff(num, tx); }
  }

  /** A legal reclaim leaves one owner each. */
  lemma ReclaimOwned(num: nat, tx: Tx)
    requires Shaped(tx) && Owned(num, tx)
    ensures Owned(num, Step(tx, Reclaim)) && |Reversed(tx.done) + tx.free| == |tx.done| + |tx.free|
  {
    ReversedSame(tx.done);
    var a, b, c := multiset(tx.free), multiset(tx.pend), multiset(tx.done);
    assert multiset(Reversed(tx.done) + tx.free) == c + a;
    assert (c + a) + b + multiset([]) == a + b + c;
  }

  lemma StepInv(num: nat, tx: Tx, op: Op)
    requires Inv(num, tx) && Legal(num, tx, op)
    ensures Inv(num, Step(tx, op)) && tx.served < TWO16
  {
    hide Partition, Step, Fitting;
    match op
    case Put(data) => PutInv(num, tx, data);
    case Serve => ServeInv(num, tx);
    case Reclaim =>
      ReclaimOwned(num, tx);
      ReclaimInv(num, tx);
  }

  lemma ReclaimInv(num: nat, tx: Tx)
    requires Inv(num, tx) && Legal(num, tx, Reclaim) && Owned(num, Step(tx, Reclaim))
    ensures Inv(num, Step(tx, Reclaim))
  {
    hide Partition;
    ReversedBelow(tx.done, num);
  }

  lemma {:induction false} ReversedBelow(s: seq<nat>, n: nat)
    requires Below(s, n)
    ensures Below(Reversed(s), n)
  {
    if s != [] { ReversedBelow(s[1..], n); }
  }

  // ---- headers ----

  /** Every pending packet has a header of zeros. */
  ghost predicate AllBlank(tx: Tx) {
    forall i :: 0 <= i < |tx.pend| ==> tx.pend[i] < |tx.heads| && Blank(tx.heads[tx.pend[i]])
  }

  /** A put gives its packet a header of zeros. The header of the pending packet behind it stays so if and only if the
      put is short enough, or what covers it, and what it leaves, is zero; all others stay as they are. */
  lemma PutHeadIff(num: nat, tx: Tx, data: seq<Byte>, d: nat)
    requires Inv(num, tx) && tx.free != [] && |data| <= 1528 && d < num
    ensures var e, h := tx.free[0], Step(tx, Put(data)).heads;
      && |h| == num + 1
      && (d == e ==> Blank(h[d]))
      && (d != e && d != e + 1 ==> h[d] == tx.heads[d])
      && (d == e + 1 ==> (Blank(h[d]) <==>
        if |data| <= 1518 then Blank(tx.heads[d])
        else Blank(data[1518..]) && Blank(tx.heads[d][|data| - 1518..])))
  {
    var e, h := tx.free[0], Step(tx, Put(data)).heads;
    assert h == PutHead(tx.heads, e, data);
    if d == e + 1 && |data| > 1518 { BlankBoth(data[1518..], tx.heads[d][|data| - 1518..]); }
  }

  lemma BlankBoth(a: seq<Byte>, b: seq<Byte>)
    ensures Blank(a + b) <==> Blank(a) && Blank(b)
  {
    assert forall i :: 0 <= i < |a| ==> (a + b)[i] == a[i];
    assert forall i :: 0 <= i < |b| ==> (a + b)[|a| + i] == b[i];
  }

  /** No packet is longer than its buffer with the header. */
  predicate AllShort(ops: seq<Op>) {
    forall op :: op in ops && op.Put? ==> |op.data| <= 1518 || |op.data| > 1528
  }

  lemma PutBlank(num: nat, tx: Tx, data: seq<Byte>)
    requires Inv(num, tx) && AllBlank(tx) && tx.free != [] && (|data| <= 1518 || |data| > 1528)
    ensures AllBlank(Step(tx, Put(data)))
  {
    if |data| <= 1518 {
      var t := Step(tx, Put(data));
      forall i | 0 <= i < |t.pend|
        ensures t.pend[i] < |t.heads| && Blank(t.heads[t.pend[i]])
      {
        PutHeadIff(num, tx, data, t.pend[i]);
      }
    }
  }

  /** Over a run without such packets every check of a header passes. */
  lemma {:induction false} ChecksClean(num: nat, tx: Tx, ops: seq<Op>)
    requires Inv(num, tx) && LegalRun(num, tx, ops) && AllShort(ops) && AllBlank(tx)
    ensures tx.checks <= Run(tx, ops).checks
    ensures forall i :: |tx.checks| <= i < |Run(tx, ops).checks| ==> Run(tx, ops).checks[i]
    decreases |ops|
  {
    hide Inv, Legal, Partition, AllBlank;
    InvShaped(num, tx);
    if ops != [] {
      var op, t := ops[0], Step(tx, ops[0]);
      StepInv(num, tx, op);
      assert op in ops && forall x :: x in ops[1..] ==> x in ops;
      StepClean(num, tx, op);
      ChecksClean(num, t, ops[1..]);
    }
  }

  lemma InvShaped(num: nat, tx: Tx)
    requires Inv(num, tx)
    ensures Shaped(tx)
  {
  }

  lemma StepClean(num: nat, tx: Tx, op: Op)
    requires Inv(num, tx) && Legal(num, tx, op) && AllBlank(tx)
    requires op.Put? ==> |op.data| <= 1518 || |op.data| > 1528
    ensures AllBlank(Step(tx, op)) && tx.checks <= Step(tx, op).checks
    ensures forall i :: |tx.checks| <= i < |Step(tx, op).checks| ==> Step(tx, op).checks[i]
  {
    hide Partition, Checks;
    match op
    case Put(data) => PutBlank(num, tx, data);
    case Serve => ChecksPass(tx.heads, tx.pend, tx.pending);
    case Reclaim =>
  }

  /** Exactly once and in put order, over every legal run: the handler has seen the packets that pass the
      length test. The ring never carries as many as two ring sizes of packets, because a reclaim must
      come before the used index reaches the ring size. */
  lemma {:induction false} PipelineInOrder(num: nat, tx: Tx, ops: seq<Op>)
    requires Inv(num, tx) && LegalRun(num, tx, ops)
    ensures Inv(num, Run(tx, ops)) && |Run(tx, ops).accepted| < 2 * num
    decreases |ops|
  {
    hide Step, Legal, Partition;
    if ops != [] {
      StepInv(num, tx, ops[0]);
      PipelineInOrder(num, Step(tx, ops[0]), ops[1..]);
    }
  }

  lemma RunNone(tx: Tx)
    requires Shaped(tx)
    ensures Run(tx, []) == tx
  {
  }

  lemma {:induction false} RunSplit(tx: Tx, ops: seq<Op>, op: Op)
    requires Shaped(tx)
    ensures Run(tx, ops + [op]) == Step(Run(tx, ops), op)
    decreases |ops|
  {
    if ops == [] {
      assert ([op])[1..] == [];
    } else {
      RunSplit(Step(tx, ops[0]), ops[1..], op);
      assert (ops + [op])[1..] == ops[1..] + [op];
    }
  }

  lemma {:induction false} LegalAt(num: nat, tx: Tx, ops: seq<Op>, i: nat)
    requires i < |ops| && Shaped(tx) && LegalRun(num, tx, ops)
    ensures Legal(num, Run(tx, ops[..i]), ops[i])
    decreases |ops|
  {
    if i == 0 {
      RunNone(tx);
      assert ops[..0] == [];
    } else {
      LegalAt(num, Step(tx, ops[0]), ops[1..], i - 1);
      assert ops[..i][1..] == ops[1..][..i - 1];
    }
  }

  // ---- the end of the reclaim loop ----

  /** After `k` turns the loop of process_used_vring finds the used index. */
  ghost predicate Reached(last: nat, k: nat, usedIdx: nat, num: nat)
    requires num > 0
  {
    Slot(last, k, num) == usedIdx
  }

  /** The loop ends if and only if the used index is below the ring size. */
  lemma ReclaimEndsIff(last: nat, usedIdx: nat, num: nat)
    requires last < num
    ensures (exists k: nat :: Reached(last, k, usedIdx, num)) <==> usedIdx < num
  {
    if usedIdx < num {
      var k := if usedIdx >= last then usedIdx - last else usedIdx - last + num;
      ModUnique(last + k, num, if usedIdx >= last then 0 else 1, usedIdx);
      assert Reached(last, k, usedIdx, num);
    }
  }

  /** `n` puts of the same packet and a serve. */
  function Round(x: seq<Byte>, n: nat): seq<Op> {
    if n == 0 then [Serve] else [Put(x)] + Round(x, n - 1)
  }

  lemma {:induction false} RoundRuns(num: nat, tx: Tx, x: seq<Byte>, n: nat)
    requires Fits(x) && AllFit(tx.pending) && Shaped(tx) && n <= |tx.free| && Owned(num, tx)
    ensures LegalRun(num, tx, Round(x, n))
    ensures var r := Run(tx, Round(x, n)); r.served == tx.served + |tx.pending| + n && Owned(num, r)
    decreases n
  {
    hide Partition, Marked, WrittenAll, Fitting;
    if n == 0 {
      RunNone(Step(tx, Serve));
      ServeKeepsIff(num, tx);
      assert Run(tx, [Serve]) == Run(Step(tx, Serve), [Serve][1..]);
    } else {
      TakePartition(num, tx.free, tx.pend, tx.done);
      RoundRuns(num, Step(tx, Put(x)), x, n - 1);
      assert Round(x, n)[1..] == Round(x, n - 1);
    }
  }

  lemma NewInv(num: nat)
    requires GoodNum(num)
    ensures Inv(num, NewTx(num)) && Owned(num, NewTx(num)) && AllBlank(NewTx(num))
  {
    UptoAll(num);
  }

  lemma NewSize(num: nat)
    requires num > 0
    ensures var t := NewTx(num); Shaped(t) && |t.free| == num && t.pending == [] && t.served == 0
  {
  }

  /** On a new ring, `n` packets that are put before the first reclaim can be reclaimed after the serve
      if and only if they are fewer than the ring size: a ring filled once is never reclaimed, because
      the loop does not end. */
  lemma FilledOnce(num: nat, x: seq<Byte>, n: nat)
    requires GoodNum(num) && Fits(x) && n <= num
    ensures Shaped(NewTx(num)) && LegalRun(num, NewTx(num), Round(x, n))
    ensures Legal(num, Run(NewTx(num), Round(x, n)), Reclaim) <==> n < num
    ensures (exists k: nat :: Reached(0, k, Run(NewTx(num), Round(x, n)).served, num)) <==> n < num
  {
    hide Owned, Run, LegalRun, Round, Reached, Upto, Zeroed, Inv;
    NewInv(num);
    NumRange(num);
    NewSize(num);
    RoundRuns(num, NewTx(num), x, n);
    ReclaimEndsIff(0, n, num);
    Small16(n);
  }
}
