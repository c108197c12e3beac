/** Two concrete runs of the TCP server, each ending in a state that its callers will not expect. */
module TcpExamples {
  import opened Common
  import opened TcpSpec
  import opened TcpRuns

  /** The SYN and the ACK of one client. */
  const SYN_SEGMENT := Segment(1, 2, 3, 80, 100, 0, Flags(true, false, false, false), 5, 20, [])
  const ACK_SEGMENT := Segment(1, 2, 3, 80, 101, 1, ACK, 5, 20, [])

  /** One more operation in front of a run. */
  lemma Leads(t: Table, op: Op, u: Table, rest: seq<Op>)
    requires (op.Process? ==> Captured(op.seg)) && Legal(t, op) && Step(t, op) == Next(u) && Packets(rest)
    requires LegalRun(u, rest)
    ensures Packets([op] + rest) && LegalRun(t, [op] + rest) && Run(t, [op] + rest) == Run(u, rest)
  {
    hide Step, Legal;
    assert ([op] + rest)[1..] == rest;
  }

  lemma Leaves(t: Table, op: Op)
    requires (op.Process? ==> Captured(op.seg)) && Legal(t, op) && Step(t, op) == Exit
    ensures Packets([op]) && LegalRun(t, [op]) && Run(t, [op]) == Exit
  {
    hide Step, Legal;
  }

  /** The listening socket, and the connection that the SYN creates. */
  function Listener80(): Conn {
    TcpSpec.Fresh(3, 0).(dport := 80, dip := 2, status := Listen)
  }

  function Client(): Conn {
    Born(SYN_SEGMENT, 1, 0)
  }

  /** Setting up the listener. */
  lemma Opened(rest: seq<Op>)
    requires Packets(rest) && LegalRun(Table([Listener80()], 1), rest)
    ensures var ops := [Socket(3)] + ([Bind(3, 2, 80)] + ([ListenOn(3)] + rest));
      Packets(ops) && LegalRun(TcpSpec.NOTHING, ops) && Run(TcpSpec.NOTHING, ops) == Run(Table([Listener80()], 1), rest)
  {
    var s := TcpSpec.Fresh(3, 0);
    var b := s.(dport := 80, dip := 2);
    var t1, t2, t3 := Table([s], 1), Table([b], 1), Table([Listener80()], 1);
    ByFdFirst([s], 3);
    ByFdFirst([b], 3);
    assert Step(TcpSpec.NOTHING, Socket(3)) == Next(t1);
    assert Step(t1, Bind(3, 2, 80)) == Next(t2) && Step(t2, ListenOn(3)) == Next(t3);
    Leads(t2, ListenOn(3), t3, rest);
    Leads(t1, Bind(3, 2, 80), t2, [ListenOn(3)] + rest);
    Leads(TcpSpec.NOTHING, Socket(3), t1, [Bind(3, 2, 80)] + ([ListenOn(3)] + rest));
  }

  lemma Arrives(rest: seq<Op>)
    requires Packets(rest) && LegalRun(Table([Client(), Listener80()], 2), rest)
    ensures var ops := [Process(SYN_SEGMENT, 0)] + rest; var t := Table([Listener80()], 1);
      Packets(ops) && LegalRun(t, ops) && Run(t, ops) == Run(Table([Client(), Listener80()], 2), rest)
  {
    hide Born;
    var t := Table([Listener80()], 1);
    SearchFirst(t.conns, 1, 2, 3, 80);
    assert Step(t, Process(SYN_SEGMENT, 0)) == Next(Table([Client(), Listener80()], 2));
    Leads(t, Process(SYN_SEGMENT, 0), Table([Client(), Listener80()], 2), rest);
  }

  /** A run that ends the program: the listener is closed between the SYN and the ACK. */
  lemma ListenerClosedTooEarly()
    ensures var ops := [Socket(3)] + ([Bind(3, 2, 80)] + ([ListenOn(3)] +
        ([Process(SYN_SEGMENT, 0)] + ([Close(3)] + [Process(ACK_SEGMENT, 0)]))));
      Packets(ops) && LegalRun(TcpSpec.NOTHING, ops) && Run(TcpSpec.NOTHING, ops) == Exit
  {
    var c, l := Client(), Listener80();
    var t4, t5, u := Table([c, l], 2), Table([c], 2), [c.(status := Established)];
    ByFdFirst(t4.conns, 3);
    assert t4.conns[0].fd == -1 && t4.conns[1].fd == 3 && ByFd(t4.conns, 3) == Some(1);
    assert Without([c, l], 1) == [c];
    assert Step(t4, Close(3)) == Next(t5);
    SearchFirst(t5.conns, 1, 2, 3, 80);
    SearchFirst(u, 0, 0, 0, 80);
    assert t5.conns[0 := u[0]] == u;
    assert Step(t5, Process(ACK_SEGMENT, 0)) == Exit;
    Leaves(t5, Process(ACK_SEGMENT, 0));
    Leads(t4, Close(3), t5, [Process(ACK_SEGMENT, 0)]);
    Arrives([Close(3)] + [Process(ACK_SEGMENT, 0)]);
    Opened([Process(SYN_SEGMENT, 0)] + ([Close(3)] + [Process(ACK_SEGMENT, 0)]));
  }

  function Pushing(seqnum: nat, data: seq<Byte>): Segment {
    Segment(1, 2, 3, 80, seqnum, 1, PSH_ACK, 5, 20 + |data|, data)
  }

  /** A segment for an established connection in front of a listener. */
  lemma Pushes(c: Conn, d: Conn, seg: Segment, rest: seq<Op>)
    requires c.status == Established && seg == Pushing(seg.seqnum, seg.payload) && Matches(c, 1, 2, 3, 80)
    requires d == Pushed(c, seg)
    requires Packets(rest) && LegalRun(Table([d, Listener80()], 2), rest)
    ensures var ops := [Process(seg, 0)] + rest; var t := Table([c, Listener80()], 2);
      Packets(ops) && LegalRun(t, ops) && Run(t, ops) == Run(Table([d, Listener80()], 2), rest)
  {
    hide Pushed;
    var t := Table([c, Listener80()], 2);
    SearchFirst(t.conns, 1, 2, 3, 80);
    assert t.conns[0 := d] == [d, Listener80()];
    assert Step(t, Process(seg, 0)) == Next(Table([d, Listener80()], 2));
    Leads(t, Process(seg, 0), Table([d, Listener80()], 2), rest);
  }

  /** The connection of the run below, before the data and after each of the two fragments. */
  function Accepted(): Conn {
    Client().(status := Established, fd := 7)
  }

  function Fed(): Conn {
    Pushed(Pushed(Accepted(), Pushing(101, [1, 2])), Pushing(103, [3]))
  }

  lemma FedData()
    ensures Fed().fd == 7 && Fed().status == Established && Matches(Fed(), 1, 2, 3, 80)
    ensures Fed().heard == [1, 2, 3] && Fed().taken == []
    ensures var b := Fed().rcvbuf; |b| == 2 && b[0].data == [1, 2] && b[1].data == [3]
  {
    assert [1, 2] == [1, 2][..2] && [3] == [3][..1];
  }

  /** A run that loses the order: of two fragments the first is read in part, and its rest goes behind the second. */
  lemma PartialReadReorders()
    ensures var ops := [Socket(3)] + ([Bind(3, 2, 80)] + ([ListenOn(3)]
        + ([Process(SYN_SEGMENT, 0)] + ([Process(ACK_SEGMENT, 0)] + ([Accept(3, 7)]
        + ([Process(Pushing(101, [1, 2]), 0)] + ([Process(Pushing(103, [3]), 0)] + [Recv(7, 1)])))))));
      && Packets(ops) && LegalRun(TcpSpec.NOTHING, ops) && Run(TcpSpec.NOTHING, ops).Next?
      && Run(TcpSpec.NOTHING, ops).table.conns != []
      && var c := Run(TcpSpec.NOTHING, ops).table.conns[0];
      c.heard == [1, 2, 3] && c.taken + Flat(c.rcvbuf) == [1, 3, 2]
  {
    hide Pushed, Born, Read;
    FedData();
    ReadsShort();
    var c, l, e, a, f := Client(), Listener80(), Client().(status := Established), Accepted(), Fed();
    var r := Read(f, 1);
    var t8, t9 := Table([f, l], 2), Table([r, l], 2);
    ByFdFirst(t8.conns, 7);
    assert t8.conns[0 := r] == [r, l];
    assert Step(t8, Recv(7, 1)) == Next(t9);
    RunNone(t9);
    Leads(t8, Recv(7, 1), t9, []);
    assert [Recv(7, 1)] + [] == [Recv(7, 1)];
    var o8 := [Recv(7, 1)];
    var m := Pushed(a, Pushing(101, [1, 2]));
    AcceptedData();
    Pushes(m, f, Pushing(103, [3]), o8);
    var o7 := [Process(Pushing(103, [3]), 0)] + o8;
    Pushes(a, m, Pushing(101, [1, 2]), o7);
    var o6 := [Process(Pushing(101, [1, 2]), 0)] + o7;
    Accepts(o6);
    Completes([Accept(3, 7)] + o6);
    Arrives([Process(ACK_SEGMENT, 0)] + ([Accept(3, 7)] + o6));
    Opened([Process(SYN_SEGMENT, 0)] + ([Process(ACK_SEGMENT, 0)] + ([Accept(3, 7)] + o6)));
  }

  lemma AcceptedData()
    ensures Accepted().status == Established && Matches(Accepted(), 1, 2, 3, 80)
    ensures var m := Pushed(Accepted(), Pushing(101, [1, 2])); m.status == Established && Matches(m, 1, 2, 3, 80)
  {
  }

  lemma ReadsShort()
    ensures var r := Read(Fed(), 1); r.heard == [1, 2, 3] && r.taken + Flat(r.rcvbuf) == [1, 3, 2]
  {
    hide Fed, Flat;
    FedData();
    var f := Fed().rcvbuf;
    var rest := [f[1]];
    assert f[1..] == rest && f[0].data[..1] == [1] && f[0].data[1..] == [2];
    FlatAdd(rest, f[0].(data := [2]));
    FlatAdd([], f[1]);
    FlatNone();
    assert [] + rest == rest;
  }

  lemma FlatNone()
    ensures Flat([]) == []
  {
  }

  lemma Completes(rest: seq<Op>)
    requires Packets(rest) && LegalRun(Table([Client().(status := Established), Listener80()], 2), rest)
    ensures var ops := [Process(ACK_SEGMENT, 0)] + rest;
      var t, u := Table([Client(), Listener80()], 2), Table([Client().(status := Established), Listener80()], 2);
      Packets(ops) && LegalRun(t, ops) && Run(t, ops) == Run(u, rest)
  {
    var c, l, e := Client(), Listener80(), Client().(status := Established);
    var t, u := Table([c, l], 2), Table([e, l], 2);
    SearchFirst(t.conns, 1, 2, 3, 80);
    SearchFirst(u.conns, 0, 0, 0, 80);
    assert t.conns[0 := e] == u.conns;
    assert u.conns[1].status == Listen;
    assert Step(t, Process(ACK_SEGMENT, 0)) == Next(u);
    Leads(t, Process(ACK_SEGMENT, 0), u, rest);
  }

  lemma Accepts(rest: seq<Op>)
    requires Packets(rest) && LegalRun(Table([Accepted(), Listener80()], 2), rest)
    ensures var ops := [Accept(3, 7)] + rest; var t := Table([Client().(status := Established), Listener80()], 2);
      Packets(ops) && LegalRun(t, ops) && Run(t, ops) == Run(Table([Accepted(), Listener80()], 2), rest)
  {
    var e, l, a := Client().(status := Established), Listener80(), Accepted();
    var t, u := Table([e, l], 2), Table([a, l], 2);
    ByFdFirst(t.conns, 3);
    UnacceptedFirst(t.conns, 80);
    assert t.conns[0].fd == -1 && t.conns[1].fd == 3 && ByFd(t.conns, 3) == Some(1);
    assert Unaccepted(t.conns, 80).Some? by { FirstWhere(t.conns, (c: Conn) => c.dport == 80 && c.fd == -1); }
    assert t.conns[0 := a] == u.conns;
    assert Step(t, Accept(3, 7)) == Next(u);
    Leads(t, Accept(3, 7), u, rest);
  }
}
