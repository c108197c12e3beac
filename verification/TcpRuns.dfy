/** What every run of the TCP server keeps. */
module TcpRuns {
  import opened Common
  import opened TcpSpec

  // ---- one stream ----

  /** The next expected sequence number after `bytes` of payload and `fins` FINs. */
  function Expected(isn: nat, bytes: int, fins: nat): nat {
    U32(isn + 1 + bytes + fins)
  }

  /** The log describes the queued fragments one by one, and each acknowledges what had been handled then. */
  ghost predicate LogOk(c: Conn) {
    && |c.sndbuf| == |c.log| && (forall k :: 0 <= k < |c.log| ==> c.sndbuf[k].acknum == c.log[k].num)
    && (forall k :: 0 <= k < |c.log| ==>
      c.log[k].num == Expected(c.isn, c.log[k].bytes, c.log[k].fins) && c.log[k].fins <= c.fins)
    && forall k :: 0 < k < |c.log| ==> c.log[k - 1].fins <= c.log[k].fins
  }

  ghost predicate StatusOk(c: Conn) {
    match c.status
    case SynRcvd => c.bytes == 0 && c.fins == 0
    case Established => c.fins == 0
    case CloseWait => c.fins == 1
    case LastAck => c.fins <= 1
    case _ => false
  }

  /** The acknowledgement history of a connection. A stream without a source address is a socket. */
  ghost predicate History(c: Conn) {
    if c.sip == 0 then c.sport == 0
    else c.rcvNxt == Expected(c.isn, c.bytes, c.fins) && c.rcvNxt < TWO32 && LogOk(c) && StatusOk(c)
  }

  /** The data of the queued fragments, in order. */
  ghost function Flat(s: seq<Fragment>): seq<Byte> {
    if s == [] then [] else s[0].data + Flat(s[1..])
  }

  /** What was read and what is queued are together exactly what was handled, in order, and it was counted. */
  ghost predicate Sound(c: Conn) {
    c.taken + Flat(c.rcvbuf) == c.heard && c.bytes == |c.heard|
  }

  lemma {:induction false} FlatAdd(s: seq<Fragment>, f: Fragment)
    ensures Flat(s + [f]) == Flat(s) + f.data
  {
    if s == [] {
      assert [f][1..] == [];
    } else {
      FlatAdd(s[1..], f);
      assert (s + [f])[1..] == s[1..] + [f];
    }
  }

  lemma EnqueueSound(c: Conn, seg: Segment, tcplen: int)
    requires PayloadLen(seg, tcplen) <= |seg.payload| && c.taken + Flat(c.rcvbuf) == c.heard
    ensures var d := EnqueueRecv(c, seg, tcplen);
      d.taken + Flat(d.rcvbuf) == d.heard && d.heard == c.heard + Data(seg, tcplen)
  {
    var f := Fragment(seg.sport, seg.dport, 0, 0, Flags(false, false, false, false), Data(seg, tcplen));
    FlatAdd(c.rcvbuf, f);
    assert c.taken + (Flat(c.rcvbuf) + f.data) == (c.taken + Flat(c.rcvbuf)) + f.data;
  }

  /** Data handled is data queued, and a FIN queues none. */
  lemma EstablishedSound(c: Conn, seg: Segment)
    requires Sound(c) && WellFormed(seg)
    ensures Sound(HandleEstablished(c, seg))
  {
    var d := c;
    if seg.flags.psh {
      EnqueueSound(c, seg, seg.tcplen);
      d := Pushed(c, seg);
    }
    if seg.flags.fin {
      EnqueueSound(d.(status := CloseWait), seg, seg.hdrlen);
    }
  }

  /** The read takes the whole first fragment, or there is no other data. */
  ghost predicate Enough(c: Conn, len: nat)
    requires c.rcvbuf != []
  {
    |c.rcvbuf[0].data| <= len || Flat(c.rcvbuf[1..]) == []
  }

  /** A read keeps the order if and only if it takes the whole first fragment, or what is left of that
      fragment commutes with the data behind it. */
  lemma ReadOrderIff(c: Conn, len: nat)
    requires Sound(c) && c.rcvbuf != []
    ensures var d, rest := c.rcvbuf[0].data, Flat(c.rcvbuf[1..]);
      Sound(Read(c, len)) <==> |d| <= len || rest + d[len..] == d[len..] + rest
  {
    var f, rest := c.rcvbuf[0], c.rcvbuf[1..];
    if |f.data| > len {
      var l, got := f.data[len..], c.taken + f.data[..len];
      FlatAdd(rest, f.(data := l));
      assert c.heard == got + (l + Flat(rest)) by {
        assert f.data == f.data[..len] + l;
      }
      SameTail(got, Flat(rest) + l, l + Flat(rest));
    } else {
      assert c.taken + (f.data + Flat(rest)) == (c.taken + f.data) + Flat(rest);
    }
  }

  lemma SameTail(a: seq<Byte>, b: seq<Byte>, c: seq<Byte>)
    ensures a + b == a + c <==> b == c
  {
    assert (a + b)[|a|..] == b && (a + c)[|a|..] == c;
  }

  /** The form that a caller can check. */
  lemma ReadSound(c: Conn, len: nat)
    requires Sound(c) && c.rcvbuf != [] && Enough(c, len)
    ensures Sound(Read(c, len))
  {
    ReadOrderIff(c, len);
    var d := c.rcvbuf[0].data;
    if |d| > len { assert [] + d[len..] == d[len..] + []; }
  }

  /** Otherwise the order is lost as soon as the next byte due differs from the first one behind the fragment. */
  lemma ReadShort(c: Conn, len: nat)
    requires Sound(c) && c.rcvbuf != [] && !Enough(c, len) && Flat(c.rcvbuf[1..])[0] != c.rcvbuf[0].data[len]
    ensures !Sound(Read(c, len))
  {
    ReadOrderIff(c, len);
    var l, rest := c.rcvbuf[0].data[len..], Flat(c.rcvbuf[1..]);
    assert (rest + l)[0] == rest[0] && (l + rest)[0] == l[0];
  }

  /** How far a connection has come. */
  function Rank(s: Status): nat {
    match s
    case SynRcvd => 0
    case Established => 1
    case CloseWait => 2
    case LastAck => 3
    case _ => 4
  }

  /** The same connection, later on. */
  ghost predicate Advances(c: Conn, d: Conn) {
    && d.id == c.id && Matches(d, c.sip, c.dip, c.sport, c.dport) && d.isn == c.isn
    && Rank(c.status) <= Rank(d.status) && c.fins <= d.fins && c.log <= d.log
    && c.heard <= d.heard && c.taken <= d.taken
  }

  lemma AddU32(x: int, y: int)
    ensures U32(U32(x) + y) == U32(x + y)
  {
  }

  lemma QueueOk(c: Conn, f: Fragment)
    requires LogOk(c) && f.acknum == Expected(c.isn, c.bytes, c.fins)
    requires forall k :: 0 <= k < |c.log| ==> c.log[k].fins <= c.fins
    ensures LogOk(Queue(c, f))
  {
  }

  /** Payload counts once, when it is handled in ESTABLISHED. */
  lemma PushedOk(c: Conn, seg: Segment)
    requires History(c) && c.sip != 0 && c.status == Established && Captured(seg)
    ensures var d := Pushed(c, seg);
      History(d) && Advances(c, d) && d.status == Established && d.bytes == c.bytes + PayloadLen(seg, seg.tcplen)
    ensures var d := Pushed(c, seg); d.log[|d.log| - 1] == Ack(d.rcvNxt, d.bytes, d.fins)
    ensures var d := Pushed(c, seg);
      d.sndbuf == c.sndbuf + [Fragment(seg.dport, seg.sport, seg.acknum, Expected(d.isn, d.bytes, d.fins), ACK, [])]
  {
    var n := PayloadLen(seg, seg.tcplen);
    AddU32(c.isn + 1 + c.bytes + c.fins, n);
    var e := EnqueueRecv(c, seg, seg.tcplen).(rcvNxt := U32(c.rcvNxt + n), sndNxt := seg.acknum, bytes := c.bytes + n);
    QueueOk(e, Fragment(seg.dport, seg.sport, e.sndNxt, e.rcvNxt, ACK, []));
  }

  /** A FIN counts once, because it ends ESTABLISHED. */
  lemma FinishedOk(c: Conn, seg: Segment)
    requires History(c) && c.sip != 0 && c.status == Established
    ensures var d := Finished(c, seg);
      History(d) && Advances(c, d) && d.status == CloseWait && d.fins == 1 && d.bytes == c.bytes && d.heard == c.heard
    ensures var d := Finished(c, seg);
      d.log[|d.log| - 1] == Ack(d.rcvNxt, d.bytes, 1) && d.rcvbuf[|d.rcvbuf| - 1].data == []
    ensures var d := Finished(c, seg);
      d.sndbuf == c.sndbuf + [Fragment(seg.dport, seg.sport, seg.acknum, Expected(d.isn, d.bytes, 1), ACK, [])]
  {
    AddU32(c.isn + 1 + c.bytes, 1);
    var e := EnqueueRecv(c.(status := CloseWait), seg, seg.hdrlen).(
      rcvNxt := U32(c.rcvNxt + 1), sndNxt := seg.acknum, fins := c.fins + 1);
    QueueOk(e, Fragment(seg.dport, seg.sport, e.sndNxt, e.rcvNxt, ACK, []));
  }

  lemma EstablishedOk(c: Conn, seg: Segment)
    requires History(c) && c.sip != 0 && c.status == Established && Captured(seg)
    ensures var d := HandleEstablished(c, seg); History(d) && Advances(c, d)
  {
    hide History, Advances, Pushed, Finished;
    var d := c;
    Same(c);
    if seg.flags.psh {
      PushedOk(c, seg);
      d := Pushed(c, seg);
      Kept(c, d);
    }
    if seg.flags.fin {
      FinishedOk(d, seg);
      Then(c, d, Finished(d, seg));
    }
  }

  lemma Same(c: Conn)
    ensures Advances(c, c)
  {
  }

  lemma Kept(c: Conn, d: Conn)
    requires Advances(c, d)
    ensures d.sip == c.sip && d.id == c.id
  {
  }

  lemma Then(c: Conn, d: Conn, e: Conn)
    requires Advances(c, d) && Advances(d, e)
    ensures Advances(c, e)
  {
  }

  lemma BornOk(seg: Segment, id: nat, seed: nat)
    requires seg.sip != 0
    ensures History(Born(seg, id, seed))
  {
  }

  /** A connection that is sent on, or closed, keeps its history and its number. */
  lemma QueuedOk(c: Conn, f: Fragment, s: Status)
    requires History(c) && c.sip != 0 && f.acknum == c.rcvNxt && (s == c.status || s == LastAck)
    ensures History(Queue(c.(status := s), f)) && Advances(c, Queue(c.(status := s), f))
  {
    QueueOk(c.(status := s), f);
  }

  lemma ReadOk(c: Conn, len: nat)
    requires History(c) && c.sip != 0 && c.rcvbuf != []
    ensures History(Read(c, len)) && Advances(c, Read(c, len))
  {
  }

  // ---- the table ----

  /** Two connections never share their four addresses, and two streams never share their number. */
  ghost predicate Apart(c: Conn, d: Conn) {
    c.id != d.id && !(c.sip != 0 && Matches(d, c.sip, c.dip, c.sport, c.dport))
  }

  ghost predicate AllApart(s: seq<Conn>) {
    forall i, j :: 0 <= i < j < |s| ==> Apart(s[i], s[j])
  }

  ghost predicate AllOk(s: seq<Conn>, born: nat) {
    forall i :: 0 <= i < |s| ==> History(s[i]) && s[i].id < born
  }

  ghost predicate Inv(t: Table) {
    AllApart(t.conns) && AllOk(t.conns, t.born)
  }

  /** Segments have a source address, and only sockets are bound or set to listen. */
  ghost predicate Legal(t: Table, op: Op) {
    match op
    case Process(seg, seed) => seg.sip != 0 && Captured(seg)
    case Bind(fd, _, _) => OnSocket(t.conns, fd)
    case ListenOn(fd) => OnSocket(t.conns, fd)
    case _ => true
  }

  ghost predicate OnSocket(s: seq<Conn>, fd: int) {
    ByFdFirst(s, fd);
    ByFd(s, fd).Some? ==> s[ByFd(s, fd).value].sip == 0
  }

  /** One stream is replaced by its later self, or by a socket. */
  lemma Replaced(s: seq<Conn>, i: nat, d: Conn, born: nat)
    requires AllApart(s) && AllOk(s, born) && i < |s| && History(d)
    requires d.id == s[i].id && (d.sip == 0 <==> s[i].sip == 0)
    requires s[i].sip != 0 ==> Matches(d, s[i].sip, s[i].dip, s[i].sport, s[i].dport)
    ensures AllApart(s[i := d]) && AllOk(s[i := d], born)
  {
    hide History;
    var w := s[i := d];
    forall j, k | 0 <= j < k < |w|
      ensures Apart(w[j], w[k])
    {
      assert Apart(s[j], s[k]);
    }
  }

  lemma Prepended(s: seq<Conn>, d: Conn, born: nat)
    requires AllApart(s) && AllOk(s, born) && History(d) && d.id == born
    requires d.sip != 0 ==> forall i :: 0 <= i < |s| ==> !Matches(s[i], d.sip, d.dip, d.sport, d.dport)
    ensures AllApart([d] + s) && AllOk([d] + s, born + 1)
  {
    hide History;
    var w := [d] + s;
    forall j, k | 0 <= j < k < |w|
      ensures Apart(w[j], w[k])
    {
      if j == 0 { assert s[k - 1].id < born; } else { assert Apart(s[j - 1], s[k - 1]); }
    }
  }

  lemma Removed(s: seq<Conn>, i: nat, born: nat)
    requires AllApart(s) && AllOk(s, born) && i < |s|
    ensures AllApart(Without(s, i)) && AllOk(Without(s, i), born)
  {
    hide History, Apart;
    var w := Without(s, i);
    forall j, k | 0 <= j < k < |w|
      ensures Apart(w[j], w[k])
    {
      var j', k' := if j < i then j else j + 1, if k < i then k else k + 1;
      assert Apart(s[j'], s[k']);
    }
  }

  // ---- steps ----

  /** The one way out of the table. */
  ghost predicate Ends(c: Conn, op: Op) {
    && op.Process? && op.seg.flags.ack && c.status == LastAck
    && Matches(c, op.seg.sip, op.seg.dip, op.seg.sport, op.seg.dport)
  }

  /** The one way in. */
  ghost predicate Begins(c: Conn, op: Op) {
    && op.Process? && op.seg.flags.syn && Matches(c, op.seg.sip, op.seg.dip, op.seg.sport, op.seg.dport)
    && c.status == SynRcvd && c.isn == op.seg.seqnum && c.bytes == c.fins == 0
  }

  /** The lengths of the packet agree, and a read takes the whole first fragment if there is data behind it. */
  ghost predicate Nice(t: Table, op: Op) {
    match op
    case Process(seg, _) => WellFormed(seg)
    case Recv(fd, len) =>
      ByFdFirst(t.conns, fd);
      var i := ByFd(t.conns, fd);
      i.Some? && t.conns[i.value].rcvbuf != [] ==> Enough(t.conns[i.value], len)
    case _ => true
  }

  /** What one step does to the list of streams. */
  datatype Change = Keep | Replace(i: nat, d: Conn) | Prepend(d: Conn) | Remove(i: nat)

  ghost predicate Fine(t: Table, op: Op, ch: Change) {
    var s := t.conns;
    match ch
    case Keep => true
    case Replace(i, d) =>
      && i < |s| && History(d) && d.id == s[i].id && (d.sip == 0 <==> s[i].sip == 0)
      && (s[i].sip != 0 ==> Advances(s[i], d)) && (Nice(t, op) && Sound(s[i]) ==> Sound(d))
    case Prepend(d) =>
      && History(d) && d.id == t.born && Sound(d)
      && (d.sip != 0 ==> Begins(d, op) && forall i :: 0 <= i < |s| ==> !Matches(s[i], d.sip, d.dip, d.sport, d.dport))
    case Remove(i) => i < |s| && (s[i].sip != 0 ==> Ends(s[i], op))
  }

  ghost function After(t: Table, op: Op, ch: Change): Table
    requires Fine(t, op, ch)
  {
    match ch
    case Keep => t
    case Replace(i, d) => t.(conns := t.conns[i := d])
    case Prepend(d) => Table([d] + t.conns, t.born + 1)
    case Remove(i) => t.(conns := Without(t.conns, i))
  }

  lemma At(s: seq<Conn>, born: nat, i: nat)
    requires AllOk(s, born) && i < |s|
    ensures History(s[i]) && s[i].id < born
    ensures s[i].sip != 0 ==> s[i].status != Listen
  {
  }

  /** A stream goes on: a socket as a socket, a connection as its later self, and its data stays sound
      if the operation is a nice one. */
  ghost predicate GoesOn(c: Conn, d: Conn, nice: bool) {
    && (nice && Sound(c) ==> Sound(d))
    && History(d) && d.id == c.id && (d.sip == 0 <==> c.sip == 0) && (c.sip != 0 ==> Advances(c, d))
  }

  lemma SocketOk(c: Conn, d: Conn)
    requires c.sip == 0 == d.sip && History(c) && c.sport == d.sport && c.id == d.id
    requires c.taken == d.taken && c.rcvbuf == d.rcvbuf && c.heard == d.heard && c.bytes == d.bytes
    ensures GoesOn(c, d, true)
  {
  }

  lemma Numbered(c: Conn, fd: int)
    requires History(c)
    ensures GoesOn(c, c.(fd := fd), true)
  {
  }

  lemma Queued(c: Conn, f: Fragment, s: Status)
    requires History(c) && f.acknum == c.rcvNxt && (s == c.status || s == LastAck)
    ensures GoesOn(c, Queue(c.(status := s), f), true)
  {
    if c.sip != 0 { QueuedOk(c, f, s); }
  }

  lemma ReadKeeps(c: Conn, len: nat)
    requires History(c) && c.rcvbuf != []
    ensures GoesOn(c, Read(c, len), Enough(c, len))
  {
    if c.sip != 0 { ReadOk(c, len); }
    if Sound(c) && Enough(c, len) { ReadSound(c, len); }
  }

  lemma Acked(c: Conn)
    requires History(c) && c.status == SynRcvd && c.sip != 0
    ensures GoesOn(c, c.(status := Established), true)
  {
  }

  lemma FineReplace(t: Table, op: Op, i: nat, d: Conn, nice: bool)
    requires i < |t.conns| && GoesOn(t.conns[i], d, nice) && (Nice(t, op) ==> nice)
    ensures Fine(t, op, Replace(i, d))
  {
  }

  /** The change that a call on a descriptor makes. */
  lemma OnFdChange(t: Table, op: Op, i: nat) returns (ch: Change)
    requires Inv(t) && i < |t.conns| && !op.Socket? && !op.Process?
    requires ((op.Bind? || op.ListenOn?) ==> t.conns[i].sip == 0)
    requires ByFd(t.conns, op.fd) == Some(i)
    ensures Fine(t, op, ch) && OnFd(t, op, i) == After(t, op, ch)
  {
    hide History, AllApart, AllOk, Queue, Read, Without, Apart, Advances, GoesOn, Sound;
    var c := t.conns[i];
    At(t.conns, t.born, i);
    ch := Keep;
    match op
    case Bind(_, ip, port) =>
      var d := c.(dport := port, dip := ip, status := Closed);
      SocketOk(c, d);
      FineReplace(t, op, i, d, true);
      ch := Replace(i, d);
    case ListenOn(_) =>
      var d := c.(status := Listen);
      SocketOk(c, d);
      FineReplace(t, op, i, d, true);
      ch := Replace(i, d);
    case Accept(_, connfd) =>
      var a := Unaccepted(t.conns, c.dport);
      if a.Some? {
        UnacceptedFirst(t.conns, c.dport);
        At(t.conns, t.born, a.value);
        var d := t.conns[a.value].(fd := connfd);
        Numbered(t.conns[a.value], connfd);
        FineReplace(t, op, a.value, d, true);
        ch := Replace(a.value, d);
      }
    case Send(_, data) =>
      var f := Fragment(c.dport, c.sport, c.sndNxt, c.rcvNxt, PSH_ACK, data);
      Queued(c, f, c.status);
      FineReplace(t, op, i, Queue(c, f), true);
      ch := Replace(i, Queue(c, f));
    case Recv(_, len) =>
      if c.rcvbuf != [] {
        ReadKeeps(c, len);
        FineReplace(t, op, i, Read(c, len), Enough(c, len));
        ch := Replace(i, Read(c, len));
      }
    case Close(_) =>
      if c.status != Listen {
        Queued(c, Fragment(c.dport, c.sport, c.sndNxt, c.rcvNxt, FIN_ACK, []), LastAck);
        FineReplace(t, op, i, Shut(c), true);
        ch := Replace(i, Shut(c));
      } else {
        ch := Remove(i);
      }
  }

  lemma BornBegins(seg: Segment, id: nat, seed: nat)
    requires seg.sip != 0
    ensures var d := Born(seg, id, seed);
      && History(d) && Sound(d) && d.id == id && Matches(d, seg.sip, seg.dip, seg.sport, seg.dport)
      && Begins(d, Process(seg, seed)) == seg.flags.syn
  {
    BornOk(seg, id, seed);
  }

  lemma EstablishedOn(c: Conn, seg: Segment)
    requires History(c) && c.sip != 0 && c.status == Established && Captured(seg)
    ensures GoesOn(c, HandleEstablished(c, seg), WellFormed(seg))
  {
    EstablishedOk(c, seg);
    if WellFormed(seg) && Sound(c) { EstablishedSound(c, seg); }
  }

  /** The change that a segment makes. */
  lemma OnSegmentChange(t: Table, i: nat, seg: Segment, seed: nat) returns (ch: Change)
    requires Inv(t) && i < |t.conns| && seg.sip != 0 && Captured(seg)
    requires t.conns[i].status == Listen ==>
      forall k :: 0 <= k < |t.conns| ==> !Matches(t.conns[k], seg.sip, seg.dip, seg.sport, seg.dport)
    requires t.conns[i].status != Listen ==>
      t.conns[i].sip != 0 && Matches(t.conns[i], seg.sip, seg.dip, seg.sport, seg.dport)
    ensures Fine(t, Process(seg, seed), ch)
    ensures OnSegment(t, i, seg, seed).Next? ==> OnSegment(t, i, seg, seed).table == After(t, Process(seg, seed), ch)
  {
    hide History, AllApart, AllOk, HandleEstablished, Without, Apart, Search, Born, GoesOn, Advances, Begins, Sound;
    var c, op := t.conns[i], Process(seg, seed);
    At(t.conns, t.born, i);
    ch := Keep;
    if c.status == Listen && seg.flags.syn {
      BornBegins(seg, t.born, seed);
      ch := Prepend(Born(seg, t.born, seed));
    } else if c.status == SynRcvd && seg.flags.ack {
      Acked(c);
      FineReplace(t, op, i, c.(status := Established), true);
      ch := Replace(i, c.(status := Established));
    } else if c.status == Established {
      EstablishedOn(c, seg);
      FineReplace(t, op, i, HandleEstablished(c, seg), WellFormed(seg));
      ch := Replace(i, HandleEstablished(c, seg));
    } else if c.status == LastAck && seg.flags.ack {
      ch := Remove(i);
    }
  }

  /** Who handles a segment: the connection with its addresses, or else a listener. */
  lemma Handler(t: Table, seg: Segment)
    requires Inv(t) && seg.sip != 0
    ensures var r := Search(t.conns, seg.sip, seg.dip, seg.sport, seg.dport);
      r.Some? ==>
        && r.value < |t.conns|
        && (t.conns[r.value].status != Listen ==>
          t.conns[r.value].sip != 0 && Matches(t.conns[r.value], seg.sip, seg.dip, seg.sport, seg.dport))
        && (t.conns[r.value].status == Listen ==>
          forall k :: 0 <= k < |t.conns| ==> !Matches(t.conns[k], seg.sip, seg.dip, seg.sport, seg.dport))
  {
    SearchFirst(t.conns, seg.sip, seg.dip, seg.sport, seg.dport);
    var r := Search(t.conns, seg.sip, seg.dip, seg.sport, seg.dport);
    if r.Some? && t.conns[r.value].status == Listen {
      At(t.conns, t.born, r.value);
      ExactFirst(t.conns, seg.sip, seg.dip, seg.sport, seg.dport);
    }
  }

  /** Every legal step changes at most one stream: it creates a connection for a SYN, lets one go on,
      or removes one on an ACK in LAST_ACK. */
  lemma StepChange(t: Table, op: Op) returns (ch: Change)
    requires Inv(t) && Legal(t, op)
    ensures Fine(t, op, ch) && (Step(t, op).Next? ==> Step(t, op).table == After(t, op, ch))
  {
    hide Inv, OnFd, OnSegment, Search, History, Sound, Nice;
    ch := Keep;
    match op
    case Socket(fd) =>
      SocketHistory(fd, t.born);
      ch := Prepend(TcpSpec.Fresh(fd, t.born));
    case Process(seg, seed) =>
      Handler(t, seg);
      var r := Search(t.conns, seg.sip, seg.dip, seg.sport, seg.dport);
      if r.Some? { ch := OnSegmentChange(t, r.value, seg, seed); }
    case _ =>
      ByFdFirst(t.conns, op.fd);
      var r := ByFd(t.conns, op.fd);
      if r.Some? { ch := OnFdChange(t, op, r.value); }
  }

  lemma SocketHistory(fd: int, id: nat)
    ensures History(TcpSpec.Fresh(fd, id)) && Sound(TcpSpec.Fresh(fd, id)) && TcpSpec.Fresh(fd, id).sip == 0
    ensures TcpSpec.Fresh(fd, id).id == id
  {
  }

  lemma FineInv(t: Table, op: Op, ch: Change)
    requires Inv(t) && Fine(t, op, ch)
    ensures Inv(After(t, op, ch))
  {
    hide History, AllApart, AllOk, Without, Begins, Ends, Sound, Nice;
    match ch
    case Keep =>
    case Replace(i, d) => Replaced(t.conns, i, d, t.born);
    case Prepend(d) => Prepended(t.conns, d, t.born);
    case Remove(i) => Removed(t.conns, i, t.born);
  }

  /** Every legal step keeps the table in order: no two connections share their addresses, and every
      acknowledgement number, kept or queued, is that of the bytes and FINs handled. */
  lemma StepInv(t: Table, op: Op)
    requires Inv(t) && Legal(t, op)
    ensures Step(t, op).Next? ==> Inv(Step(t, op).table)
  {
    hide Inv, Step, Fine, Legal;
    var ch := StepChange(t, op);
    FineInv(t, op, ch);
  }

  // ---- the life of a connection ----

  /** The table has a later self of the connection. */
  ghost predicate Lives(c: Conn, s: seq<Conn>) {
    exists j :: 0 <= j < |s| && Advances(c, s[j])
  }

  lemma LivesAt(c: Conn, s: seq<Conn>, j: nat)
    requires j < |s| && Advances(c, s[j])
    ensures Lives(c, s)
  {
  }

  /** In one step a connection only advances, unless an ACK ends it in LAST_ACK. */
  lemma StepLife(t: Table, op: Op, k: nat)
    requires Inv(t) && Legal(t, op) && Step(t, op).Next? && k < |t.conns| && t.conns[k].sip != 0
    ensures Lives(t.conns[k], Step(t, op).table.conns) || Ends(t.conns[k], op)
  {
    hide Inv, Step, Lives, Ends, Advances, History, Sound, Nice;
    var ch := StepChange(t, op);
    var c, s := t.conns[k], Step(t, op).table.conns;
    Same(c);
    match ch
    case Keep => LivesAt(c, s, k);
    case Replace(i, d) => LivesAt(c, s, k);
    case Prepend(d) => LivesAt(c, s, k + 1);
    case Remove(i) => if i != k { LivesAt(c, s, if k < i then k else k - 1); }
  }

  /** A connection after a step is the later self of one before, or a SYN has just created it. */
  lemma StepOrigin(t: Table, op: Op, j: nat) returns (k: nat)
    requires Inv(t) && Legal(t, op) && Step(t, op).Next?
    requires j < |Step(t, op).table.conns| && Step(t, op).table.conns[j].sip != 0
    ensures var d := Step(t, op).table.conns[j];
      if d.id == t.born then Begins(d, op) else k < |t.conns| && Advances(t.conns[k], d)
  {
    hide Inv, Step, Legal, Ends, Advances, History, Begins;
    var ch := StepChange(t, op);
    k := match ch {
      case Keep => j
      case Replace(_, _) => j
      case Prepend(_) => if j == 0 then 0 else j - 1
      case Remove(i) => if j < i then j else j + 1
    };
    if k < |t.conns| {
      Same(t.conns[k]);
      Young(t, k);
    }
  }

  lemma Young(t: Table, k: nat)
    requires Inv(t) && k < |t.conns|
    ensures t.conns[k].id < t.born
  {
  }

  lemma Grown(t: Table, op: Op)
    requires Inv(t) && Legal(t, op)
    ensures Step(t, op).Next? ==> t.born <= Step(t, op).table.born
  {
    hide Inv, Step, Legal, History;
    var ch := StepChange(t, op);
  }

  // ---- runs ----

  ghost predicate Packets(ops: seq<Op>) {
    forall op :: op in ops && op.Process? ==> Captured(op.seg)
  }

  function Run(t: Table, ops: seq<Op>): Outcome
    requires Packets(ops)
    decreases |ops|
  {
    if ops == [] then Next(t)
    else if Step(t, ops[0]).Exit? then Exit
    else Run(Step(t, ops[0]).table, ops[1..])
  }

  lemma RunNone(t: Table)
    ensures Run(t, []) == Next(t)
  {
  }

  lemma {:induction false} RunSplit(t: Table, ops: seq<Op>, op: Op)
    requires Packets(ops) && Packets([op]) && Packets(ops + [op]) && Run(t, ops).Next?
    ensures Run(t, ops + [op]) == Step(Run(t, ops).table, op)
    decreases |ops|
  {
    hide Step;
    if ops == [] {
      assert ([op])[1..] == [];
      assert op in [op];
    } else {
      assert (ops + [op])[1..] == ops[1..] + [op];
      RunSplit(Step(t, ops[0]).table, ops[1..], op);
    }
  }

  /** A run that has ended stays ended. */
  lemma {:induction false} ExitStays(t: Table, ops: seq<Op>, i: nat)
    requires Packets(ops) && i <= |ops| && Packets(ops[..i]) && Run(t, ops[..i]).Exit?
    ensures Run(t, ops).Exit?
    decreases i
  {
    hide Step;
    if i > 0 && Step(t, ops[0]).Next? {
      assert ops[..i][1..] == ops[1..][..i - 1];
      ExitStays(Step(t, ops[0]).table, ops[1..], i - 1);
    }
  }

  /** Every operation is legal in the state that the run has reached. */
  ghost predicate LegalRun(t: Table, ops: seq<Op>)
    requires Packets(ops)
    decreases |ops|
  {
    ops != [] ==> Legal(t, ops[0]) && (Step(t, ops[0]).Next? ==> LegalRun(Step(t, ops[0]).table, ops[1..]))
  }

  /** Over every legal run the table stays in order. */
  lemma {:induction false} RunInv(t: Table, ops: seq<Op>)
    requires Packets(ops) && Inv(t) && LegalRun(t, ops)
    ensures Run(t, ops).Next? ==> Inv(Run(t, ops).table)
    decreases |ops|
  {
    hide Inv, Step, Legal;
    if ops != [] {
      StepInv(t, ops[0]);
      if Step(t, ops[0]).Next? { RunInv(Step(t, ops[0]).table, ops[1..]); }
    }
  }

  /** A connection that is there after a run was created in it, or has only advanced: its status, its FINs
      and its queued acknowledgements never went back, and its addresses and its first number never changed. */
  lemma {:induction false} RunLife(t: Table, ops: seq<Op>, d: Conn)
    requires Packets(ops) && Inv(t) && LegalRun(t, ops) && Run(t, ops).Next? && d in Run(t, ops).table.conns
    requires d.sip != 0
    ensures d.id >= t.born || exists i :: 0 <= i < |t.conns| && Advances(t.conns[i], d)
    decreases |ops|
  {
    hide Inv, Step, Legal, Advances;
    if ops == [] {
      var i :| 0 <= i < |t.conns| && t.conns[i] == d;
      Same(d);
    } else {
      var u := Step(t, ops[0]).table;
      StepInv(t, ops[0]);
      Grown(t, ops[0]);
      RunLife(u, ops[1..], d);
      if d.id < t.born {
        var j :| 0 <= j < |u.conns| && Advances(u.conns[j], d);
        Kept(u.conns[j], d);
        var i := StepOrigin(t, ops[0], j);
        Then(t.conns[i], u.conns[j], d);
      }
    }
  }

  /** Some operation of the run ends a later self of the connection. */
  ghost predicate EndsIn(t: Table, ops: seq<Op>, c: Conn)
    requires Packets(ops)
    decreases |ops|
  {
    && ops != []
    && ((exists k :: 0 <= k < |t.conns| && Advances(c, t.conns[k]) && Ends(t.conns[k], ops[0]))
      || (Step(t, ops[0]).Next? && EndsIn(Step(t, ops[0]).table, ops[1..], c)))
  }

  /** Over a whole run a connection lives on, unless an ACK of the run ends it in LAST_ACK. */
  lemma {:induction false} RunDeparture(t: Table, ops: seq<Op>, c: Conn)
    requires Packets(ops) && Inv(t) && LegalRun(t, ops) && Run(t, ops).Next? && c.sip != 0 && Lives(c, t.conns)
    ensures Lives(c, Run(t, ops).table.conns) || EndsIn(t, ops, c)
    decreases |ops|
  {
    hide Inv, Step, Legal, Advances, Ends;
    if ops != [] {
      var u := Step(t, ops[0]).table;
      var k :| 0 <= k < |t.conns| && Advances(c, t.conns[k]);
      Kept(c, t.conns[k]);
      StepInv(t, ops[0]);
      StepLife(t, ops[0], k);
      if !Ends(t.conns[k], ops[0]) {
        var j :| 0 <= j < |u.conns| && Advances(t.conns[k], u.conns[j]);
        Then(c, t.conns[k], u.conns[j]);
        LivesAt(c, u.conns, j);
        RunDeparture(u, ops[1..], c);
      }
    }
  }

  // ---- the data ----

  ghost predicate AllSound(s: seq<Conn>) {
    forall i :: 0 <= i < |s| ==> Sound(s[i])
  }

  lemma StepSound(t: Table, op: Op)
    requires Inv(t) && Legal(t, op) && Nice(t, op) && AllSound(t.conns)
    ensures Step(t, op).Next? ==> AllSound(Step(t, op).table.conns)
  {
    hide Inv, Step, Sound, Nice, History;
    var ch := StepChange(t, op);
  }

  ghost predicate NiceRun(t: Table, ops: seq<Op>)
    requires Packets(ops)
    decreases |ops|
  {
    ops != [] ==> Nice(t, ops[0]) && (Step(t, ops[0]).Next? ==> NiceRun(Step(t, ops[0]).table, ops[1..]))
  }

  /** Over every legal run of well-formed packets and sufficient reads, what each stream has read and what it
      has queued are together the payload handled, in order, and its acknowledgement number counts that payload. */
  lemma {:induction false} RunSound(t: Table, ops: seq<Op>)
    requires Packets(ops) && Inv(t) && LegalRun(t, ops) && NiceRun(t, ops) && AllSound(t.conns)
    ensures Run(t, ops).Next? ==> AllSound(Run(t, ops).table.conns)
    ensures Run(t, ops).Next? ==> forall c :: c in Run(t, ops).table.conns && c.sip != 0 ==>
      c.rcvNxt == U32(c.isn + 1 + |c.heard| + c.fins) && c.fins <= 1
    decreases |ops|
  {
    RunInv(t, ops);
    if ops != [] {
      StepInv(t, ops[0]);
      StepSound(t, ops[0]);
      if Step(t, ops[0]).Next? { RunSound(Step(t, ops[0]).table, ops[1..]); }
    }
  }

  // ---- listeners ----

  /** A segment leaves every listener as it is. */
  lemma ListenersStay(t: Table, seg: Segment, seed: nat, k: nat)
    requires Inv(t) && seg.sip != 0 && Captured(seg) && k < |t.conns| && t.conns[k].status == Listen
    requires Step(t, Process(seg, seed)).Next?
    ensures t.conns[k] in Step(t, Process(seg, seed)).table.conns
  {
    Handler(t, seg);
    SearchFirst(t.conns, seg.sip, seg.dip, seg.sport, seg.dport);
    var r, s := Search(t.conns, seg.sip, seg.dip, seg.sport, seg.dport), Step(t, Process(seg, seed)).table.conns;
    if r.Some? {
      var c := t.conns[r.value];
      if c.status == Listen && seg.flags.syn {
        assert s[k + 1] == t.conns[k];
      } else if c.status == LastAck && seg.flags.ack {
        assert s[if k < r.value then k else k - 1] == t.conns[k];
      } else {
        assert s[k] == t.conns[k];
      }
    }
  }

  /** Completing a handshake ends the program if and only if by then nobody listens on the port any more, and no
      socket is bound to it without an address either. No other segment ends it. */
  lemma ExitIff(t: Table, seg: Segment, seed: nat)
    requires Inv(t) && seg.sip != 0 && Captured(seg)
    ensures Step(t, Process(seg, seed)).Exit? <==>
      var r := Search(t.conns, seg.sip, seg.dip, seg.sport, seg.dport);
      && r.Some? && r.value < |t.conns| && t.conns[r.value].status == SynRcvd && seg.flags.ack
      && forall k :: 0 <= k < |t.conns| ==>
        !ListensOn(t.conns[k], seg.dport) && !Matches(t.conns[k], 0, 0, 0, seg.dport)
  {
    Handler(t, seg);
    SearchFirst(t.conns, seg.sip, seg.dip, seg.sport, seg.dport);
    var r := Search(t.conns, seg.sip, seg.dip, seg.sport, seg.dport);
    if r.Some? && t.conns[r.value].status == SynRcvd {
      var u := t.conns[r.value := t.conns[r.value].(status := Established)];
      SearchFirst(u, 0, 0, 0, seg.dport);
      if k :| 0 <= k < |t.conns| && (ListensOn(t.conns[k], seg.dport) || Matches(t.conns[k], 0, 0, 0, seg.dport)) {
        assert u[k] == t.conns[k];
      }
    }
  }
}
