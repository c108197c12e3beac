/** What each segment and each call does to a stream, field by field. */
module TcpEffects {
  import opened Common
  import opened TcpSpec
  import opened TcpRuns

  // ---- one stream ----

  /** A segment in ESTABLISHED. With PSH its payload is queued as one fragment, counted and acknowledged; with FIN,
      after that, an empty fragment is queued, one more number is counted and acknowledged, and the state is
      CLOSE_WAIT; with neither, nothing happens. */
  lemma EstablishedIs(c: Conn, seg: Segment)
    requires Captured(seg)
    ensures var d := HandleEstablished(c, seg);
      var psh, fin := seg.flags.psh, seg.flags.fin;
      var n, k := if psh then seg.tcplen - 4 * seg.hdrlen else 0, if fin then 1 else 0;
      var data := if n > 0 then seg.payload[..n] else [];
      var plain := Flags(syn := false, ack := true, psh := false, fin := false);
      var none := Flags(syn := false, ack := false, psh := false, fin := false);
      var acks := (if psh then [Fragment(seg.dport, seg.sport, seg.acknum, (c.rcvNxt + n) % 0x1_0000_0000, plain, [])]
          else []) +
        if fin then [Fragment(seg.dport, seg.sport, seg.acknum, (c.rcvNxt + n + 1) % 0x1_0000_0000, plain, [])] else [];
      var queued := (if psh then [Fragment(seg.sport, seg.dport, 0, 0, none, data)] else []) +
        if fin then [Fragment(seg.sport, seg.dport, 0, 0, none, [])] else [];
      && (d.status == if fin then CloseWait else c.status)
      && d.heard == c.heard + data && d.rcvbuf == c.rcvbuf + queued && d.sndbuf == c.sndbuf + acks
      && d.bytes == c.bytes + n && d.fins == c.fins + k
      && (d.rcvNxt == if psh || fin then (c.rcvNxt + n + k) % 0x1_0000_0000 else c.rcvNxt)
      && (d.sndNxt == if psh || fin then seg.acknum else c.sndNxt)
      && d == c.(status := d.status, heard := d.heard, rcvbuf := d.rcvbuf, sndbuf := d.sndbuf, bytes := d.bytes,
        fins := d.fins, rcvNxt := d.rcvNxt, sndNxt := d.sndNxt, log := d.log)
  {
    var n := if seg.flags.psh then seg.tcplen - 4 * seg.hdrlen else 0;
    AddU32(c.rcvNxt + n, 1);
  }

  /** The stream that a SYN to a listener creates: the handshake is half done, its own first number is `seed`, and a
      SYN-ACK for the number behind the SYN is queued. */
  lemma BornIs(seg: Segment, id: nat, seed: nat)
    ensures var d := Born(seg, id, seed);
      var next := (seg.seqnum + 1) % 0x1_0000_0000;
      && d.fd == -1 && d.sip == seg.sip && d.dip == seg.dip && d.sport == seg.sport && d.dport == seg.dport
      && d.status == SynRcvd && d.sndNxt == seed && d.rcvNxt == next && d.rcvbuf == []
      && d.sndbuf == [Fragment(seg.dport, seg.sport, seed, next,
        Flags(syn := true, ack := true, psh := false, fin := false), [])]
      && d.id == id && d.isn == seg.seqnum && d.bytes == 0 && d.fins == 0 && d.heard == [] && d.taken == []
  {
  }

  // ---- segments ----

  /** A segment for nobody changes nothing. */
  lemma ProcessNobody(t: Table, seg: Segment, seed: nat)
    requires Captured(seg) && Search(t.conns, seg.sip, seg.dip, seg.sport, seg.dport).None?
    ensures Step(t, Process(seg, seed)) == Next(t)
  {
  }

  /** A listener takes a SYN and nothing else. */
  lemma ProcessListen(t: Table, seg: Segment, seed: nat, i: nat)
    requires Captured(seg) && Search(t.conns, seg.sip, seg.dip, seg.sport, seg.dport) == Some(i)
    requires i < |t.conns| && t.conns[i].status == Listen
    ensures !seg.flags.syn ==> Step(t, Process(seg, seed)) == Next(t)
    ensures seg.flags.syn ==>
      var r := Step(t, Process(seg, seed));
      var next := (seg.seqnum + 1) % 0x1_0000_0000;
      && r.Next? && |r.table.conns| == |t.conns| + 1 && r.table.conns[1..] == t.conns && r.table.born == t.born + 1
      && (var d := r.table.conns[0];
        && d.fd == -1 && d.sip == seg.sip && d.dip == seg.dip && d.sport == seg.sport && d.dport == seg.dport
        && d.status == SynRcvd && d.sndNxt == seed && d.rcvNxt == next && d.rcvbuf == []
        && d.sndbuf == [Fragment(seg.dport, seg.sport, seed, next,
          Flags(syn := true, ack := true, psh := false, fin := false), [])]
        && d.id == t.born && d.isn == seg.seqnum && d.bytes == 0 && d.fins == 0 && d.heard == [] && d.taken == [])
    ensures Woken(t, i, seg) == []
  {
    hide Search, Born;
    BornIs(seg, t.born, seed);
    var d := Born(seg, t.born, seed);
    assert ([d] + t.conns)[1..] == t.conns;
  }

  /** An ACK completes the handshake, and the first match for the port becomes readable; without one, the program
      ends. */
  lemma ProcessSynRcvd(t: Table, seg: Segment, seed: nat, i: nat)
    requires Captured(seg) && Search(t.conns, seg.sip, seg.dip, seg.sport, seg.dport) == Some(i)
    requires i < |t.conns| && t.conns[i].status == SynRcvd
    ensures !seg.flags.ack ==> Step(t, Process(seg, seed)) == Next(t) && Woken(t, i, seg) == []
    ensures seg.flags.ack ==>
      var s := t.conns[i := t.conns[i].(status := Established)];
      var l := Search(s, 0, 0, 0, t.conns[i].dport);
      && Step(t, Process(seg, seed)) == (if l.None? then Exit else Next(t.(conns := s)))
      && (l.None? ==> Woken(t, i, seg) == [])
      && (l.Some? ==> l.value < |s| && Woken(t, i, seg) == [s[l.value].fd])
  {
    hide Search;
    if seg.flags.ack {
      SearchFirst(t.conns[i := t.conns[i].(status := Established)], 0, 0, 0, t.conns[i].dport);
    }
  }

  /** A segment in ESTABLISHED changes its stream, as EstablishedIs says, and no other; the descriptor becomes readable
      for the payload and for the FIN. */
  lemma ProcessEstablished(t: Table, seg: Segment, seed: nat, i: nat)
    requires Captured(seg) && Search(t.conns, seg.sip, seg.dip, seg.sport, seg.dport) == Some(i)
    requires i < |t.conns| && t.conns[i].status == Established
    ensures var r := Step(t, Process(seg, seed));
      && r.Next? && |r.table.conns| == |t.conns| && r.table.born == t.born
      && (forall j :: 0 <= j < |t.conns| && j != i ==> r.table.conns[j] == t.conns[j])
    ensures var c, d := t.conns[i], Step(t, Process(seg, seed)).table.conns[i];
      var psh, fin := seg.flags.psh, seg.flags.fin;
      var n, k := if psh then seg.tcplen - 4 * seg.hdrlen else 0, if fin then 1 else 0;
      var data := if n > 0 then seg.payload[..n] else [];
      var plain := Flags(syn := false, ack := true, psh := false, fin := false);
      var none := Flags(syn := false, ack := false, psh := false, fin := false);
      var acks := (if psh then [Fragment(seg.dport, seg.sport, seg.acknum, (c.rcvNxt + n) % 0x1_0000_0000, plain, [])]
          else []) +
        if fin then [Fragment(seg.dport, seg.sport, seg.acknum, (c.rcvNxt + n + 1) % 0x1_0000_0000, plain, [])] else [];
      var queued := (if psh then [Fragment(seg.sport, seg.dport, 0, 0, none, data)] else []) +
        if fin then [Fragment(seg.sport, seg.dport, 0, 0, none, [])] else [];
      && (d.status == if fin then CloseWait else Established)
      && d.heard == c.heard + data && d.rcvbuf == c.rcvbuf + queued && d.sndbuf == c.sndbuf + acks
      && d.bytes == c.bytes + n && d.fins == c.fins + k
      && (d.rcvNxt == if psh || fin then (c.rcvNxt + n + k) % 0x1_0000_0000 else c.rcvNxt)
      && (d.sndNxt == if psh || fin then seg.acknum else c.sndNxt)
      && d == c.(status := d.status, heard := d.heard, rcvbuf := d.rcvbuf, sndbuf := d.sndbuf, bytes := d.bytes,
        fins := d.fins, rcvNxt := d.rcvNxt, sndNxt := d.sndNxt, log := d.log)
    ensures Woken(t, i, seg) ==
      if seg.flags.psh && seg.flags.fin then [t.conns[i].fd, t.conns[i].fd]
      else if seg.flags.psh || seg.flags.fin then [t.conns[i].fd]
      else []
  {
    hide Search, HandleEstablished;
    EstablishedIs(t.conns[i], seg);
    assert Step(t, Process(seg, seed)) == Next(t.(conns := t.conns[i := HandleEstablished(t.conns[i], seg)]));
  }

  /** An ACK in LAST_ACK takes the stream out of the table. */
  lemma ProcessLastAck(t: Table, seg: Segment, seed: nat, i: nat)
    requires Captured(seg) && Search(t.conns, seg.sip, seg.dip, seg.sport, seg.dport) == Some(i)
    requires i < |t.conns| && t.conns[i].status == LastAck
    ensures Step(t, Process(seg, seed)) ==
      Next(if seg.flags.ack then t.(conns := t.conns[..i] + t.conns[i + 1..]) else t)
    ensures Woken(t, i, seg) == []
  {
    hide Search;
  }

  /** In any other state a segment changes nothing. */
  lemma ProcessOther(t: Table, seg: Segment, seed: nat, i: nat)
    requires Captured(seg) && Search(t.conns, seg.sip, seg.dip, seg.sport, seg.dport) == Some(i)
    requires i < |t.conns| && t.conns[i].status !in {Listen, SynRcvd, Established, LastAck}
    ensures Step(t, Process(seg, seed)) == Next(t) && Woken(t, i, seg) == []
  {
    hide Search;
  }

  // ---- calls ----

  lemma SocketIs(t: Table, fd: int)
    ensures Step(t, Socket(fd)) == Next(Table(
      [Conn(fd, 0, 0, 0, 0, 0, 0, Closed, [], [], t.born, 0, 0, 0, [], [], [])] + t.conns, t.born + 1))
  {
  }

  /** A call on a descriptor that nobody has changes nothing. */
  lemma CallNobody(t: Table, op: Op)
    requires !op.Socket? && !op.Process? && ByFd(t.conns, op.fd).None?
    ensures Step(t, op) == Next(t)
  {
    hide ByFd;
  }

  /** What each call does to the stream `c` behind its descriptor, at `i`. */
  lemma CallIs(t: Table, op: Op, i: nat)
    requires !op.Socket? && !op.Process? && ByFd(t.conns, op.fd) == Some(i) && i < |t.conns|
    ensures var c := t.conns[i]; match op
      case Bind(_, ip, port) =>
        Step(t, op) == Next(t.(conns := t.conns[i := c.(dport := port, dip := ip, status := Closed)]))
      case ListenOn(_) => Step(t, op) == Next(t.(conns := t.conns[i := c.(status := Listen)]))
      case Accept(_, connfd) =>
        var a := Unaccepted(t.conns, c.dport);
        && (a.None? ==> Step(t, op) == Next(t))
        && (a.Some? ==>
          && a.value < |t.conns|
          && Step(t, op) == Next(t.(conns := t.conns[a.value := t.conns[a.value].(fd := connfd)])))
      case Send(_, data) =>
        Step(t, op) == Next(t.(conns := t.conns[i := c.(
          sndbuf := c.sndbuf + [Fragment(c.dport, c.sport, c.sndNxt, c.rcvNxt,
            Flags(syn := false, ack := true, psh := true, fin := false), data)],
          log := c.log + [Ack(c.rcvNxt, c.bytes, c.fins)])]))
      case Recv(_, len) =>
        if c.rcvbuf == [] then Step(t, op) == Next(t)
        else
          var f, rest := c.rcvbuf[0], c.rcvbuf[1..];
          Step(t, op) == Next(t.(conns := t.conns[i :=
            if |f.data| <= len then c.(rcvbuf := rest, taken := c.taken + f.data)
            else c.(rcvbuf := rest + [f.(data := f.data[len..])], taken := c.taken + f.data[..len])]))
      case Close(_) =>
        if c.status == Listen then Step(t, op) == Next(t.(conns := t.conns[..i] + t.conns[i + 1..]))
        else
          Step(t, op) == Next(t.(conns := t.conns[i := c.(status := LastAck,
            sndbuf := c.sndbuf + [Fragment(c.dport, c.sport, c.sndNxt, c.rcvNxt,
              Flags(syn := false, ack := true, psh := false, fin := true), [])],
            log := c.log + [Ack(c.rcvNxt, c.bytes, c.fins)])]))
      case _ => false
  {
    hide ByFd, Unaccepted;
    UnacceptedFirst(t.conns, t.conns[i].dport);
  }

  // ---- traffic over runs ----

  /** What a stream has taken from the network, what the application has read from it, and what the application has
      given it to send. */
  datatype Traffic = Traffic(heard: seq<Byte>, read: seq<Byte>, sent: seq<Byte>)

  const QUIET := Traffic([], [], [])

  function Plus(a: Traffic, b: Traffic): Traffic {
    Traffic(a.heard + b.heard, a.read + b.read, a.sent + b.sent)
  }

  ghost function Of(c: Conn): Traffic {
    Traffic(c.heard, c.taken, Flat(c.sndbuf))
  }

  /** What one operation adds for the stream with the number `id`: the payload of a PSH segment that finds it in
      ESTABLISHED, the bytes of a read from the head of its queue, or the bytes of a send. */
  function Added(t: Table, op: Op, id: nat): Traffic
    requires op.Process? ==> Captured(op.seg)
  {
    match op
    case Process(seg, _) =>
      SearchFirst(t.conns, seg.sip, seg.dip, seg.sport, seg.dport);
      var i, n := Search(t.conns, seg.sip, seg.dip, seg.sport, seg.dport), seg.tcplen - 4 * seg.hdrlen;
      if i.Some? && t.conns[i.value].id == id && t.conns[i.value].status == Established && seg.flags.psh && n > 0
      then Traffic(seg.payload[..n], [], [])
      else QUIET
    case Recv(fd, len) =>
      ByFdFirst(t.conns, fd);
      var i := ByFd(t.conns, fd);
      if i.Some? && t.conns[i.value].id == id && t.conns[i.value].rcvbuf != [] then
        var data := t.conns[i.value].rcvbuf[0].data;
        Traffic([], if |data| <= len then data else data[..len], [])
      else QUIET
    case Send(fd, data) =>
      ByFdFirst(t.conns, fd);
      var i := ByFd(t.conns, fd);
      if i.Some? && t.conns[i.value].id == id then Traffic([], [], data) else QUIET
    case _ => QUIET
  }

  /** The sum over a run. */
  function AddedAll(t: Table, ops: seq<Op>, id: nat): Traffic
    requires Packets(ops)
    decreases |ops|
  {
    if ops == [] then QUIET
    else
      Plus(Added(t, ops[0], id),
        if Step(t, ops[0]).Next? then AddedAll(Step(t, ops[0]).table, ops[1..], id) else QUIET)
  }

  lemma PlusQuiet(a: Traffic)
    ensures Plus(a, QUIET) == a && Plus(QUIET, a) == a
  {
  }

  lemma PlusAssoc(a: Traffic, b: Traffic, c: Traffic)
    ensures Plus(Plus(a, b), c) == Plus(a, Plus(b, c))
  {
    Assoc(a.heard, b.heard, c.heard);
    Assoc(a.read, b.read, c.read);
    Assoc(a.sent, b.sent, c.sent);
  }

  /** Only the stream that is found gets anything. */
  lemma OthersQuiet(t: Table, op: Op, id: nat)
    requires op.Process? ==> Captured(op.seg)
    requires op.Process? ==>
      var i := Search(t.conns, op.seg.sip, op.seg.dip, op.seg.sport, op.seg.dport);
      i.Some? ==> i.value < |t.conns| && t.conns[i.value].id != id
    requires op.Recv? || op.Send? ==>
      var i := ByFd(t.conns, op.fd);
      i.Some? ==> i.value < |t.conns| && t.conns[i.value].id != id
    ensures Added(t, op, id) == QUIET
  {
    hide Search, ByFd;
  }

  lemma {:induction false} FlatNothing(s: seq<Fragment>, f: seq<Fragment>)
    requires forall j :: 0 <= j < |f| ==> f[j].data == []
    ensures Flat(s + f) == Flat(s)
    decreases |f|
  {
    if f == [] {
      assert s + f == s;
    } else {
      var l := |f| - 1;
      FlatNothing(s, f[..l]);
      FlatAdd(s + f[..l], f[l]);
      assert (s + f[..l]) + [f[l]] == s + f;
    }
  }

  lemma IdsApart(t: Table, i: nat, k: nat)
    requires Inv(t) && i < |t.conns| && k < |t.conns| && i != k
    ensures t.conns[i].id != t.conns[k].id
  {
    hide History;
    if i < k { assert Apart(t.conns[i], t.conns[k]); } else { assert Apart(t.conns[k], t.conns[i]); }
  }

  /** The stream at `i`, which the operation is for, with whatever it gets. */
  lemma TargetAdded(t: Table, op: Op, i: nat)
    requires Inv(t) && i < |t.conns| && (op.Process? ==> Captured(op.seg))
    requires if op.Process? then Search(t.conns, op.seg.sip, op.seg.dip, op.seg.sport, op.seg.dport) == Some(i)
      else !op.Socket? && ByFd(t.conns, op.fd) == Some(i)
    ensures forall k :: 0 <= k < |t.conns| && k != i ==> Added(t, op, t.conns[k].id) == QUIET
  {
    hide Inv, Search, ByFd, Added;
    forall k | 0 <= k < |t.conns| && k != i
      ensures Added(t, op, t.conns[k].id) == QUIET
    {
      IdsApart(t, i, k);
      OthersQuiet(t, op, t.conns[k].id);
    }
  }

  /** A new number gets nothing. */
  lemma NewQuiet(t: Table, op: Op, id: nat)
    requires Inv(t) && id >= t.born && (op.Process? ==> Captured(op.seg))
    ensures Added(t, op, id) == QUIET
  {
    hide Search, ByFd, Added, AllApart;
    match op
    case Process(seg, _) =>
      SearchFirst(t.conns, seg.sip, seg.dip, seg.sport, seg.dport);
      OthersQuiet(t, op, id);
    case Recv(fd, _) =>
      ByFdFirst(t.conns, fd);
      OthersQuiet(t, op, id);
    case Send(fd, _) =>
      ByFdFirst(t.conns, fd);
      OthersQuiet(t, op, id);
    case _ => OthersQuiet(t, op, id);
  }

  /** A segment that is for the stream at `i`. */
  lemma SegmentTraffic(t: Table, seg: Segment, seed: nat, i: nat, j: nat) returns (k: nat)
    requires Inv(t) && Captured(seg) && Search(t.conns, seg.sip, seg.dip, seg.sport, seg.dport) == Some(i)
    requires i < |t.conns| && Step(t, Process(seg, seed)).Next? && j < |Step(t, Process(seg, seed)).table.conns|
    ensures var d, op := Step(t, Process(seg, seed)).table.conns[j], Process(seg, seed);
      if d.id == t.born then Of(d) == QUIET
      else k < |t.conns| && t.conns[k].id == d.id && Of(d) == Plus(Of(t.conns[k]), Added(t, op, d.id))
  {
    hide Inv, Search, Step;
    var c, op := t.conns[i], Process(seg, seed);
    TargetAdded(t, op, i);
    k := j;
    match c.status
    case Listen =>
      ProcessListen(t, seg, seed, i);
      if seg.flags.syn { k := if j == 0 then 0 else j - 1; }
      if j > 0 || !seg.flags.syn { Unmoved(t, k); } else { AnswerEmpty(Step(t, op).table.conns[0]); }
    case SynRcvd =>
      ProcessSynRcvd(t, seg, seed, i);
      Unmoved(t, k);
    case Established =>
      ProcessEstablished(t, seg, seed, i);
      Unmoved(t, k);
      if j == i { HandledTraffic(t, seg, seed, i); }
    case LastAck =>
      ProcessLastAck(t, seg, seed, i);
      if seg.flags.ack && j >= i { k := j + 1; }
      Unmoved(t, k);
    case _ =>
      ProcessOther(t, seg, seed, i);
      Unmoved(t, k);
  }

  /** A stream of before that nothing is added to. */
  lemma Unmoved(t: Table, k: nat)
    requires Inv(t) && k < |t.conns|
    ensures t.conns[k].id < t.born && Of(t.conns[k]) == Plus(Of(t.conns[k]), QUIET)
  {
    Young(t, k);
    PlusQuiet(Of(t.conns[k]));
  }

  lemma AnswerEmpty(d: Conn)
    requires d.heard == [] && d.taken == [] && |d.sndbuf| == 1 && d.sndbuf[0].data == []
    ensures Of(d) == QUIET
  {
    FlatNothing([], d.sndbuf);
    assert [] + d.sndbuf == d.sndbuf;
  }

  lemma HandledTraffic(t: Table, seg: Segment, seed: nat, i: nat)
    requires Captured(seg) && Search(t.conns, seg.sip, seg.dip, seg.sport, seg.dport) == Some(i)
    requires i < |t.conns| && t.conns[i].status == Established
    ensures Step(t, Process(seg, seed)).Next? && i < |Step(t, Process(seg, seed)).table.conns|
    ensures Of(Step(t, Process(seg, seed)).table.conns[i]) ==
      Plus(Of(t.conns[i]), Added(t, Process(seg, seed), t.conns[i].id))
  {
    hide Search, Step, Flat;
    ProcessEstablished(t, seg, seed, i);
    var c, d := t.conns[i], Step(t, Process(seg, seed)).table.conns[i];
    var acks := d.sndbuf[|c.sndbuf|..];
    assert d.sndbuf == c.sndbuf + acks;
    FlatNothing(c.sndbuf, acks);
  }

  /** A call on the descriptor of the stream at `i`. */
  lemma CallTraffic(t: Table, op: Op, i: nat, j: nat) returns (k: nat)
    requires Inv(t) && !op.Socket? && !op.Process? && ByFd(t.conns, op.fd) == Some(i) && i < |t.conns|
    requires Step(t, op).Next? && j < |Step(t, op).table.conns|
    ensures var d := Step(t, op).table.conns[j];
      k < |t.conns| && t.conns[k].id == d.id && Of(d) == Plus(Of(t.conns[k]), Added(t, op, d.id))
  {
    hide Inv, ByFd, Step, Flat, Unaccepted;
    var c := t.conns[i];
    TargetAdded(t, op, i);
    CallIs(t, op, i);
    k := if op.Close? && c.status == Listen && j >= i then j + 1 else j;
    PlusQuiet(Of(t.conns[k]));
    if j == i {
      match op
      case Send(_, data) =>
        FlatAdd(c.sndbuf, Fragment(c.dport, c.sport, c.sndNxt, c.rcvNxt, PSH_ACK, data));
      case Close(_) =>
        FlatAdd(c.sndbuf, Fragment(c.dport, c.sport, c.sndNxt, c.rcvNxt, FIN_ACK, []));
      case _ =>
    }
  }

  /** In one step every stream gets exactly what the operation adds for it, and a new one has nothing yet. */
  lemma StepTraffic(t: Table, op: Op, j: nat) returns (k: nat)
    requires Inv(t) && Legal(t, op) && Step(t, op).Next? && j < |Step(t, op).table.conns|
    ensures var d := Step(t, op).table.conns[j];
      if d.id == t.born then Of(d) == QUIET
      else k < |t.conns| && t.conns[k].id == d.id && Of(d) == Plus(Of(t.conns[k]), Added(t, op, d.id))
  {
    hide Inv, Search, ByFd, Step, Added;
    k := j;
    match op
    case Socket(fd) =>
      SocketIs(t, fd);
      if j > 0 {
        k := j - 1;
        OthersQuiet(t, op, t.conns[k].id);
        Unmoved(t, k);
      }
    case Process(seg, seed) =>
      var i := Search(t.conns, seg.sip, seg.dip, seg.sport, seg.dport);
      SearchFirst(t.conns, seg.sip, seg.dip, seg.sport, seg.dport);
      if i.None? {
        ProcessNobody(t, seg, seed);
        OthersQuiet(t, op, t.conns[k].id);
        Unmoved(t, k);
      } else {
        k := SegmentTraffic(t, seg, seed, i.value, j);
      }
    case _ =>
      var i := ByFd(t.conns, op.fd);
      ByFdFirst(t.conns, op.fd);
      if i.None? {
        CallNobody(t, op);
        OthersQuiet(t, op, t.conns[k].id);
        Unmoved(t, k);
      } else {
        k := CallTraffic(t, op, i.value, j);
        Unmoved(t, k);
      }
  }

  /** Over every legal run: what a stream has taken from the network is the payload of the PSH segments that found it
      in ESTABLISHED, in order; what was read from it is what the reads took off its queue; and what is queued to be
      sent is what was sent. */
  lemma {:induction false} RunTraffic(t: Table, ops: seq<Op>, d: Conn)
    requires Packets(ops) && Inv(t) && LegalRun(t, ops) && Run(t, ops).Next? && d in Run(t, ops).table.conns
    ensures if d.id >= t.born then Of(d) == AddedAll(t, ops, d.id)
      else exists k ::
        0 <= k < |t.conns| && t.conns[k].id == d.id && Of(d) == Plus(Of(t.conns[k]), AddedAll(t, ops, d.id))
    decreases |ops|
  {
    hide Inv, Step, Legal, Added, Plus, Of;
    if ops == [] {
      var k :| 0 <= k < |t.conns| && t.conns[k] == d;
      Young(t, k);
      PlusQuiet(Of(d));
    } else {
      var u := Step(t, ops[0]).table;
      StepInv(t, ops[0]);
      Grown(t, ops[0]);
      RunTraffic(u, ops[1..], d);
      var rest := AddedAll(u, ops[1..], d.id);
      if d.id >= u.born {
        NewQuiet(t, ops[0], d.id);
        PlusQuiet(rest);
      } else {
        var j :| 0 <= j < |u.conns| && u.conns[j].id == d.id && Of(d) == Plus(Of(u.conns[j]), rest);
        var k := StepTraffic(t, ops[0], j);
        if d.id == t.born {
          NewQuiet(t, ops[0], d.id);
          PlusQuiet(rest);
        } else {
          Young(t, k);
          PlusAssoc(Of(t.conns[k]), Added(t, ops[0], d.id), rest);
        }
      }
    }
  }
}
