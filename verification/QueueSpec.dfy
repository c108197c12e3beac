/** What the virtqueue of virtio_test.py is for: a bounded first-in first-out queue. */
module QueueSpec {
  type Packet = string

  /** One round of the producer thread or of the consumer thread. */
  datatype Op = Produce(pkt: Packet) | Consume

  datatype Queue = Queue(pending: seq<Packet>, delivered: seq<Packet>, accepted: seq<Packet>, dropped: nat)

  const EMPTY := Queue([], [], [], 0)

  function Step(n: nat, q: Queue, op: Op): Queue {
    match op
    case Produce(pkt) =>
      if |q.pending| < n then q.(pending := q.pending + [pkt], accepted := q.accepted + [pkt])
      else q.(dropped := q.dropped + 1)
    case Consume => q.(pending := [], delivered := q.delivered + q.pending)
  }

  /** The steps of a run, oldest first. */
  function Run(n: nat, q: Queue, ops: seq<Op>): Queue
    decreases |ops|
  {
    if ops == [] then q else Run(n, Step(n, q, ops[0]), ops[1..])
  }

  function Offered(ops: seq<Op>): seq<Packet> {
    if ops == [] then [] else if ops[0].Produce? then [ops[0].pkt] + Offered(ops[1..]) else Offered(ops[1..])
  }

  /** `s` comes out of `t` by leaving entries out. */
  ghost predicate Thinned(s: seq<Packet>, t: seq<Packet>) {
    if t == [] then s == []
    else (s != [] && s[0] == t[0] && Thinned(s[1..], t[1..])) || Thinned(s, t[1..])
  }

  /** Exactly once and in order: whatever was accepted is delivered or still pending. */
  lemma {:induction false} ExactlyOnceInOrder(n: nat, q: Queue, ops: seq<Op>)
    requires q.delivered + q.pending == q.accepted && |q.pending| <= n
    ensures var r := Run(n, q, ops);
      && r.delivered + r.pending == r.accepted && |r.pending| <= n
      && q.accepted <= r.accepted && q.delivered <= r.delivered
    decreases |ops|
  {
    if ops != [] {
      var s := Step(n, q, ops[0]);
      if ops[0].Produce? {
        assert q.delivered + (q.pending + [ops[0].pkt]) == q.accepted + [ops[0].pkt];
      }
      ExactlyOnceInOrder(n, s, ops[1..]);
    }
  }

  lemma {:induction false} AcceptedPart(n: nat, q: Queue, ops: seq<Op>) returns (more: seq<Packet>)
    ensures var r := Run(n, q, ops);
      && r.accepted == q.accepted + more && Thinned(more, Offered(ops))
      && |more| + (r.dropped - q.dropped) == |Offered(ops)|
    decreases |ops|
  {
    more := [];
    if ops != [] {
      var s := Step(n, q, ops[0]);
      more := AcceptedPart(n, s, ops[1..]);
      if s.accepted != q.accepted {
        var w := [ops[0].pkt] + more;
        assert w[1..] == more && Offered(ops)[1..] == Offered(ops[1..]);
        assert s.accepted + more == q.accepted + w;
        more := w;
      } else if ops[0].Produce? {
        assert Offered(ops)[1..] == Offered(ops[1..]);
      }
    }
  }

  /** Packets produced since the last round of the consumer, never more than `m` at any time. */
  ghost predicate AtMost(m: int, ops: seq<Op>, since: nat) {
    since <= m && (ops != [] ==> AtMost(m, ops[1..], if ops[0].Produce? then since + 1 else 0))
  }

  /** Nothing is dropped as long as the consumer runs at least once in `n` packets, and only then. */
  lemma {:induction false} NoDropIff(n: nat, q: Queue, ops: seq<Op>)
    requires |q.pending| <= n
    ensures Run(n, q, ops).dropped == q.dropped <==> AtMost(n, ops, |q.pending|)
    ensures Run(n, q, ops).dropped >= q.dropped
    decreases |ops|
  {
    if ops != [] {
      var s := Step(n, q, ops[0]);
      NoDropIff(n, s, ops[1..]);
      if s.dropped != q.dropped {
        assert !AtMost(n, ops[1..], |q.pending| + 1);
      }
    }
  }

  lemma RunNone(n: nat, q: Queue)
    ensures Run(n, q, []) == q
  {
  }

  lemma {:induction false} RunSplit(n: nat, q: Queue, ops: seq<Op>, op: Op)
    ensures Run(n, q, ops + [op]) == Step(n, Run(n, q, ops), op)
    decreases |ops|
  {
    if ops == [] {
      assert ([op])[1..] == [];
    } else {
      RunSplit(n, Step(n, q, ops[0]), ops[1..], op);
      assert (ops + [op])[1..] == ops[1..] + [op];
    }
  }

  // ---- the loop flag ----

  /** How many entries get_ring takes from the avail ring. */
  function ReadCount(n: nat, availIdx: int, lastAvailIdx: int, loopFlag: bool): nat
    requires n > 0
  {
    if loopFlag then n else (availIdx - lastAvailIdx) % n
  }

  /** The consumer reads exactly what is pending if and only if the flag marks exactly the full ring. */
  lemma ReadsAllIff(n: nat, availIdx: int, lastAvailIdx: int, loopFlag: bool)
    requires n > 0 && 0 <= availIdx - lastAvailIdx <= n
    ensures ReadCount(n, availIdx, lastAvailIdx, loopFlag) == availIdx - lastAvailIdx
      <==> (loopFlag <==> availIdx - lastAvailIdx == n)
  {
  }

  // ---- half rounds ----

  /** The two halves of a producer round, and a round of the consumer. */
  datatype HalfOp = Reclaim | Put(pkt: Packet) | Fetch

  /** Besides the packets: how many descriptors are consumed but not reclaimed, and the loop flag. */
  datatype Half = Half(pending: seq<Packet>, used: nat, flag: bool,
    delivered: seq<Packet>, accepted: seq<Packet>, dropped: nat)

  const NEW_HALF := Half([], 0, false, [], [], 0)

  /** A consumer that finds the flag right takes what is pending. */
  function HalfStep(n: nat, h: Half, op: HalfOp): Half {
    match op
    case Reclaim => if h.flag && h.used == n then h else h.(used := 0)
    case Put(pkt) =>
      if |h.pending| + h.used < n && !h.flag then
        h.(pending := h.pending + [pkt], accepted := h.accepted + [pkt], flag := |h.pending| + 1 + h.used == n)
      else h.(dropped := h.dropped + 1)
    case Fetch =>
      if |h.pending| + h.used == 0 then h
      else h.(pending := [], used := h.used + |h.pending|, delivered := h.delivered + h.pending, flag := false)
  }

  predicate Right(n: nat, h: Half) {
    h.flag <==> |h.pending| == n
  }

  /** A put that takes the last free descriptor while consumed ones wait to be reclaimed. */
  predicate Hasty(n: nat, h: Half, op: HalfOp) {
    op.Put? && !h.flag && h.used > 0 && |h.pending| + 1 + h.used == n
  }

  ghost predicate HalfInv(n: nat, h: Half) {
    && n > 0 && |h.pending| + h.used <= n && (|h.pending| == n ==> h.flag) && (h.flag ==> h.pending != [])
    && h.delivered + h.pending == h.accepted
  }

  /** The flag goes wrong exactly with a hasty put. */
  lemma HalfStepRight(n: nat, h: Half, op: HalfOp)
    requires HalfInv(n, h) && Right(n, h)
    ensures HalfInv(n, HalfStep(n, h, op)) && (Right(n, HalfStep(n, h, op)) <==> !Hasty(n, h, op))
  {
    if op.Put? {
      assert h.delivered + (h.pending + [op.pkt]) == h.delivered + h.pending + [op.pkt];
    } else if op.Fetch? {
      assert h.delivered + h.pending + [] == h.delivered + h.pending;
    }
  }

  function HalfRun(n: nat, h: Half, ops: seq<HalfOp>): Half
    decreases |ops|
  {
    if ops == [] then h else HalfRun(n, HalfStep(n, h, ops[0]), ops[1..])
  }

  /** The consumer never runs while the flag is wrong. */
  predicate Careful(n: nat, h: Half, ops: seq<HalfOp>)
    decreases |ops|
  {
    ops != [] ==> (ops[0].Fetch? ==> Right(n, h)) && Careful(n, HalfStep(n, h, ops[0]), ops[1..])
  }

  /** Exactly once and in order, over every careful run. */
  lemma {:induction false} HalfOnce(n: nat, h: Half, ops: seq<HalfOp>)
    requires HalfInv(n, h) && Careful(n, h, ops)
    ensures HalfInv(n, HalfRun(n, h, ops))
    decreases |ops|
  {
    hide Right;
    if ops != [] {
      if Right(n, h) { HalfStepRight(n, h, ops[0]); } else { WrongStep(n, h, ops[0]); }
      HalfOnce(n, HalfStep(n, h, ops[0]), ops[1..]);
    }
  }

  lemma WrongStep(n: nat, h: Half, op: HalfOp)
    requires HalfInv(n, h) && !Right(n, h) && !op.Fetch?
    ensures HalfInv(n, HalfStep(n, h, op)) && !Right(n, HalfStep(n, h, op))
  {
  }

  /** A wrong flag stays wrong: then a run is careful if and only if the consumer does not run any more. */
  lemma {:induction false} WrongForever(n: nat, h: Half, ops: seq<HalfOp>)
    requires HalfInv(n, h) && !Right(n, h)
    ensures Careful(n, h, ops) <==> forall op :: op in ops ==> !op.Fetch?
    decreases |ops|
  {
    hide Right, HalfStep;
    if ops != [] {
      assert ops == [ops[0]] + ops[1..];
      if !ops[0].Fetch? {
        WrongStep(n, h, ops[0]);
        WrongForever(n, HalfStep(n, h, ops[0]), ops[1..]);
      }
    }
  }

  /** No put of the run is hasty. */
  predicate Patient(n: nat, h: Half, ops: seq<HalfOp>)
    decreases |ops|
  {
    ops != [] ==> !Hasty(n, h, ops[0]) && Patient(n, HalfStep(n, h, ops[0]), ops[1..])
  }

  /** While no put is hasty, the flag is right and the run careful; and after a careful run it is right only then. */
  lemma {:induction false} PatientIff(n: nat, h: Half, ops: seq<HalfOp>)
    requires HalfInv(n, h) && Right(n, h)
    ensures Patient(n, h, ops) <==> Careful(n, h, ops) && Right(n, HalfRun(n, h, ops))
    decreases |ops|
  {
    hide Right, HalfStep, Hasty;
    if ops != [] {
      var g := HalfStep(n, h, ops[0]);
      HalfStepRight(n, h, ops[0]);
      if Right(n, g) {
        PatientIff(n, g, ops[1..]);
      } else {
        StaysWrong(n, g, ops[1..]);
      }
    }
  }

  lemma {:induction false} StaysWrong(n: nat, h: Half, ops: seq<HalfOp>)
    requires HalfInv(n, h) && !Right(n, h)
    ensures Careful(n, h, ops) ==> !Right(n, HalfRun(n, h, ops))
    decreases |ops|
  {
    hide Right, HalfStep;
    if ops != [] && !ops[0].Fetch? {
      WrongStep(n, h, ops[0]);
      StaysWrong(n, HalfStep(n, h, ops[0]), ops[1..]);
    }
  }

  lemma HalfNone(n: nat, h: Half)
    ensures HalfRun(n, h, []) == h
  {
  }

  lemma {:induction false} HalfSplit(n: nat, h: Half, ops: seq<HalfOp>, op: HalfOp)
    ensures HalfRun(n, h, ops + [op]) == HalfStep(n, HalfRun(n, h, ops), op)
    decreases |ops|
  {
    hide HalfStep;
    if ops == [] {
      assert ([op])[1..] == [];
    } else {
      HalfSplit(n, HalfStep(n, h, ops[0]), ops[1..], op);
      assert (ops + [op])[1..] == ops[1..] + [op];
    }
  }

  lemma {:induction false} CarefulAt(n: nat, h: Half, ops: seq<HalfOp>, i: nat)
    requires i < |ops| && Careful(n, h, ops)
    ensures ops[i].Fetch? ==> Right(n, HalfRun(n, h, ops[..i]))
    decreases |ops|
  {
    hide Right, HalfStep;
    if i == 0 {
      HalfNone(n, h);
      assert ops[..0] == [];
    } else {
      CarefulAt(n, HalfStep(n, h, ops[0]), ops[1..], i - 1);
      assert ops[..i][1..] == ops[1..][..i - 1];
    }
  }
}
