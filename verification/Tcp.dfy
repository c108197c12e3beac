/** The TCP control blocks and their table, updated in place. */
module Tcp {
  import opened Common
  import opened TcpSpec
  import opened TcpRuns
  import opened TcpEffects

  class Stream {
    var fd: int
    var sip: nat
    var dip: nat
    var sport: nat
    var dport: nat
    var sndNxt: nat
    var rcvNxt: nat
    var status: Status
    var sndbuf: seq<Fragment>
    var rcvbuf: seq<Fragment>
    ghost var id: nat
    ghost var isn: nat
    ghost var bytes: int
    ghost var fins: nat
    ghost var log: seq<Ack>
    ghost var heard: seq<Byte>
    ghost var taken: seq<Byte>

    ghost function Value(): Conn
      reads this
    {
      Conn(fd, sip, dip, sport, dport, sndNxt, rcvNxt, status, sndbuf, rcvbuf, id, isn, bytes, fins, log, heard, taken)
    }

    constructor (fd0: int, ghost id0: nat)
      ensures Value() == TcpSpec.Fresh(fd0, id0)
    {
      fd, sip, dip, sport, dport, sndNxt, rcvNxt, status := fd0, 0, 0, 0, 0, 0, 0, Closed;
      sndbuf, rcvbuf := [], [];
      id, isn, bytes, fins, log, heard, taken := id0, 0, 0, 0, [], [], [];
    }

    /** ng_tcp_stream_create */
    constructor Create(seg: Segment, ghost id0: nat, seed: nat)
      ensures Value() == Created(seg, id0, seed)
    {
      fd, sip, dip, sport, dport, sndNxt, rcvNxt, status := -1, seg.sip, seg.dip, seg.sport, seg.dport, seed, 0, Listen;
      sndbuf, rcvbuf := [], [];
      id, isn, bytes, fins, log, heard, taken := id0, seg.seqnum, 0, 0, [], [], [];
    }

    /** The SYN-ACK of ng_tcp_handle_listen. */
    method Answer(seg: Segment)
      modifies this
      ensures Value() == Answered(old(Value()), seg)
    {
      var acknum := U32(seg.seqnum + 1);
      rcvNxt := acknum;
      EnqueueSend(Fragment(seg.dport, seg.sport, sndNxt, acknum, SYN_ACK, []));
      status := SynRcvd;
    }

    /** The fragment goes to the send buffer, and its acknowledgement into the history. */
    method EnqueueSend(f: Fragment)
      modifies this`sndbuf, this`log
      ensures Value() == Queue(old(Value()), f)
    {
      sndbuf := sndbuf + [f];
      log := log + [Ack(f.acknum, bytes, fins)];
    }

    /** ng_tcp_send_ackpkt */
    method SendAckPkt(seg: Segment)
      modifies this`sndbuf, this`log
      ensures Value() == SendAck(old(Value()), seg)
      ensures sndbuf == old(sndbuf) + [Fragment(seg.dport, seg.sport, sndNxt, rcvNxt,
        Flags(syn := false, ack := true, psh := false, fin := false), [])]
    {
      EnqueueSend(Fragment(seg.dport, seg.sport, sndNxt, rcvNxt, ACK, []));
    }

    /** ng_tcp_enqueue_recvbuffer */
    method EnqueueRecvBuffer(seg: Segment, tcplen: int)
      requires PayloadLen(seg, tcplen) <= |seg.payload|
      modifies this`rcvbuf, this`heard
      ensures Value() == EnqueueRecv(old(Value()), seg, tcplen)
      ensures var n := tcplen - 4 * seg.hdrlen;
        var data := if n > 0 then seg.payload[..n] else [];
        && rcvbuf == old(rcvbuf) + [Fragment(seg.sport, seg.dport, 0, 0,
          Flags(syn := false, ack := false, psh := false, fin := false), data)]
        && heard == old(heard) + data
    {
      var payloadlen := tcplen - seg.hdrlen * 4;
      var data := [];
      if payloadlen > 0 {
        data := seg.payload[..payloadlen];
      }
      rcvbuf := rcvbuf + [Fragment(seg.sport, seg.dport, 0, 0, Flags(false, false, false, false), data)];
      heard := heard + data;
    }

    /** The part of ng_tcp_handle_established for a PSH. */
    method Push(seg: Segment)
      requires Captured(seg)
      modifies this
      ensures Value() == Pushed(old(Value()), seg)
    {
      hide Queue, U32, Data;
      EnqueueRecvBuffer(seg, seg.tcplen);
      var payloadlen := seg.tcplen - seg.hdrlen * 4;
      rcvNxt := U32(rcvNxt + payloadlen);
      sndNxt := seg.acknum;
      bytes := bytes + payloadlen;
      SendAckPkt(seg);
    }

    /** The part for a FIN. */
    method Finish(seg: Segment)
      modifies this
      ensures Value() == Finished(old(Value()), seg)
    {
      hide Queue, U32, Data, EnqueueRecv, SendAck;
      status := CloseWait;
      EnqueueRecvBuffer(seg, seg.hdrlen);
      CountFin(seg);
      SendAckPkt(seg);
    }

    /** The numbers of ng_tcp_handle_established after a FIN. */
    method CountFin(seg: Segment)
      modifies this`rcvNxt, this`sndNxt, this`fins
      ensures Value() == old(Value()).(
        rcvNxt := U32(old(rcvNxt) + 1), sndNxt := seg.acknum, fins := old(fins) + 1)
    {
      rcvNxt := U32(rcvNxt + 1);
      sndNxt := seg.acknum;
      fins := fins + 1;
    }

    /** ng_tcp_handle_established */
    method Established(seg: Segment)
      requires Captured(seg)
      modifies this
      ensures Value() == HandleEstablished(old(Value()), seg)
      ensures var psh, fin := seg.flags.psh, seg.flags.fin;
        var n, k := if psh then seg.tcplen - 4 * seg.hdrlen else 0, if fin then 1 else 0;
        var data := if n > 0 then seg.payload[..n] else [];
        var plain := Flags(syn := false, ack := true, psh := false, fin := false);
        var none := Flags(syn := false, ack := false, psh := false, fin := false);
        var acks :=
          (if psh then [Fragment(seg.dport, seg.sport, seg.acknum, (old(rcvNxt) + n) % 0x1_0000_0000, plain, [])]
           else []) +
          if fin then [Fragment(seg.dport, seg.sport, seg.acknum, (old(rcvNxt) + n + 1) % 0x1_0000_0000, plain, [])]
          else [];
        var queued := (if psh then [Fragment(seg.sport, seg.dport, 0, 0, none, data)] else []) +
          if fin then [Fragment(seg.sport, seg.dport, 0, 0, none, [])] else [];
        && (status == if fin then CloseWait else old(status))
        && heard == old(heard) + data && rcvbuf == old(rcvbuf) + queued && sndbuf == old(sndbuf) + acks
        && bytes == old(bytes) + n && fins == old(fins) + k
        && (rcvNxt == if psh || fin then (old(rcvNxt) + n + k) % 0x1_0000_0000 else old(rcvNxt))
        && (sndNxt == if psh || fin then seg.acknum else old(sndNxt))
    {
      hide Pushed, Finished;
      EstablishedIs(Value(), seg);
      if seg.flags.psh {
        Push(seg);
      }
      if seg.flags.fin {
        Finish(seg);
      }
    }

    /** The head of nclose: a FIN is queued, whatever the state. */
    method Shutdown()
      modifies this
      ensures Value() == Shut(old(Value())) && status == LastAck
      ensures sndbuf == old(sndbuf) + [Fragment(dport, sport, sndNxt, rcvNxt,
        Flags(syn := false, ack := true, psh := false, fin := true), [])]
    {
      EnqueueSend(Fragment(dport, sport, sndNxt, rcvNxt, FIN_ACK, []));
      status := LastAck;
    }

    /** The reading part of nrecv, on a receive buffer that is not empty. The result of a partial read is
        the length that is left, and what is left goes to the end of the buffer. */
    method Take(len: nat) returns (length: nat, buf: seq<Byte>)
      requires rcvbuf != []
      modifies this
      ensures Value() == Read(old(Value()), len)
      ensures taken == old(taken) + buf
      ensures buf == if |old(rcvbuf)[0].data| > len then old(rcvbuf)[0].data[..len] else old(rcvbuf)[0].data
      ensures length == if |old(rcvbuf)[0].data| > len then |old(rcvbuf)[0].data| - len else |old(rcvbuf)[0].data|
    {
      var f := rcvbuf[0];
      rcvbuf := rcvbuf[1..];
      if |f.data| > len {
        buf := f.data[..len];
        f := f.(data := f.data[len..]);
        length := |f.data|;
        rcvbuf := rcvbuf + [f];
      } else if |f.data| == 0 {
        buf, length := [], 0;
      } else {
        buf, length := f.data, |f.data|;
      }
      taken := taken + buf;
    }
  }

  ghost function Values(s: seq<Stream>): (v: seq<Conn>)
    reads s
    ensures |v| == |s| && forall i :: 0 <= i < |v| ==> v[i] == s[i].Value()
  {
    if s == [] then [] else Values(s[..|s| - 1]) + [s[|s| - 1].Value()]
  }

  lemma OneChanged(s: seq<Stream>, v: seq<Conn>, i: nat)
    requires |v| == |s| && i < |s| && forall j :: 0 <= j < |s| && j != i ==> s[j].Value() == v[j]
    ensures Values(s) == v[i := s[i].Value()]
  {
  }

  lemma OneAdded(s: seq<Stream>, v: seq<Conn>, x: Stream)
    requires |v| == |s| && forall j :: 0 <= j < |s| ==> s[j].Value() == v[j]
    ensures Values([x] + s) == [x.Value()] + v
  {
    hide Values;
    var r := Values([x] + s);
    forall j | 0 <= j < |r|
      ensures r[j] == ([x.Value()] + v)[j]
    {
      if j > 0 { assert ([x] + s)[j] == s[j - 1]; }
    }
  }

  lemma OneGone(s: seq<Stream>, v: seq<Conn>, i: nat)
    requires |v| == |s| && i < |s| && forall j :: 0 <= j < |s| && j != i ==> s[j].Value() == v[j]
    ensures Values(s[..i] + s[i + 1..]) == Without(v, i)
  {
  }

  /** What nrecv is to do. */
  lemma RecvStep(t: Table, fd: int, len: nat)
    requires ByFd(t.conns, fd).Some? ==> ByFd(t.conns, fd).value < |t.conns|
    ensures Step(t, Recv(fd, len)) == match ByFd(t.conns, fd)
      case None => Next(t)
      case Some(i) =>
        var c := t.conns[i];
        Next(if c.rcvbuf == [] then t else t.(conns := t.conns[i := Read(c, len)]))
  {
    hide Read;
  }

  /** What nclose is to do. */
  lemma CloseStep(t: Table, fd: int)
    requires ByFd(t.conns, fd).Some? ==> ByFd(t.conns, fd).value < |t.conns|
    ensures Step(t, Close(fd)) == match ByFd(t.conns, fd)
      case None => Next(t)
      case Some(i) =>
        var c := t.conns[i];
        Next(t.(conns := if c.status != Listen then t.conns[i := Shut(c)] else Without(t.conns, i)))
  {
    hide Shut, Without;
  }

  /** The control blocks, the newest first. */
  class TcpTable {
    var tcbSet: seq<Stream>
    ghost var born: nat

    ghost predicate Distinct()
      reads this`tcbSet
    {
      forall i, j :: 0 <= i < j < |tcbSet| ==> tcbSet[i] != tcbSet[j]
    }

    ghost function View(): (v: seq<Conn>)
      reads this`tcbSet, tcbSet
      ensures |v| == |tcbSet| && forall i :: 0 <= i < |v| ==> v[i] == tcbSet[i].Value()
    {
      Values(tcbSet)
    }

    ghost function Now(): Table
      reads this, tcbSet
    {
      Table(View(), born)
    }

    constructor ()
      ensures Distinct() && Now() == NOTHING
    {
      tcbSet, born := [], 0;
    }

    /** ng_tcp_stream_search */
    method StreamSearch(sip: nat, dip: nat, sport: nat, dport: nat) returns (s: Stream?, ghost at: Option<nat>)
      ensures at == Search(View(), sip, dip, sport, dport)
      ensures at.None? ==> s == null
      ensures at.Some? ==> at.value < |tcbSet| && s == tcbSet[at.value]
    {
      var i := 0;
      while i < |tcbSet|
        invariant 0 <= i <= |tcbSet|
        invariant forall j :: 0 <= j < i ==> !Matches(View()[j], sip, dip, sport, dport)
      {
        var iter := tcbSet[i];
        if iter.sip == sip && iter.dip == dip && iter.sport == sport && iter.dport == dport {
          FirstFound(View(), (c: Conn) => Matches(c, sip, dip, sport, dport), i);
          return iter, Some(i);
        }
        i := i + 1;
      }
      FirstFound(View(), (c: Conn) => Matches(c, sip, dip, sport, dport), i);
      i := 0;
      while i < |tcbSet|
        invariant 0 <= i <= |tcbSet|
        invariant forall j :: 0 <= j < i ==> !(View()[j].dport == dport && View()[j].status == Listen)
      {
        var iter := tcbSet[i];
        if iter.dport == dport && iter.status == Listen {
          FirstFound(View(), (c: Conn) => c.dport == dport && c.status == Listen, i);
          return iter, Some(i);
        }
        i := i + 1;
      }
      FirstFound(View(), (c: Conn) => c.dport == dport && c.status == Listen, i);
      return null, None;
    }

    /** get_hostinfo_fromfd, for TCP descriptors */
    method FromFd(fd: int) returns (s: Stream?, ghost at: Option<nat>)
      ensures at == ByFd(View(), fd)
      ensures at.None? ==> s == null
      ensures at.Some? ==> at.value < |tcbSet| && s == tcbSet[at.value]
    {
      var i := 0;
      while i < |tcbSet|
        invariant 0 <= i <= |tcbSet|
        invariant forall j :: 0 <= j < i ==> View()[j].fd != fd
      {
        if tcbSet[i].fd == fd {
          FirstFound(View(), (c: Conn) => c.fd == fd, i);
          return tcbSet[i], Some(i);
        }
        i := i + 1;
      }
      FirstFound(View(), (c: Conn) => c.fd == fd, i);
      return null, None;
    }

    /** get_accept_tcb */
    method AcceptTcb(dport: nat) returns (s: Stream?, ghost at: Option<nat>)
      ensures at == Unaccepted(View(), dport)
      ensures at.None? ==> s == null
      ensures at.Some? ==> at.value < |tcbSet| && s == tcbSet[at.value]
    {
      var i := 0;
      while i < |tcbSet|
        invariant 0 <= i <= |tcbSet|
        invariant forall j :: 0 <= j < i ==> !(View()[j].dport == dport && View()[j].fd == -1)
      {
        if dport == tcbSet[i].dport && tcbSet[i].fd == -1 {
          FirstFound(View(), (c: Conn) => c.dport == dport && c.fd == -1, i);
          return tcbSet[i], Some(i);
        }
        i := i + 1;
      }
      FirstFound(View(), (c: Conn) => c.dport == dport && c.fd == -1, i);
      return null, None;
    }

    // ---- the handlers of ng_tcp_process ----

    /** ng_tcp_handle_listen: a SYN to a listener creates a connection; `seed` is its first sequence number. */
    method HandleListen(s: Stream, seg: Segment, seed: nat, ghost i: nat)
      requires Distinct() && i < |tcbSet| && s == tcbSet[i] && s.status == Listen && Captured(seg)
      modifies this
      ensures Distinct() && OnSegment(old(Now()), i, seg, seed) == Next(Now())
      ensures forall x :: x in tcbSet ==> x in old(tcbSet) || fresh(x)
      ensures !seg.flags.syn ==> tcbSet == old(tcbSet)
      ensures seg.flags.syn ==>
        && tcbSet != [] && tcbSet[1..] == old(tcbSet) && fresh(tcbSet[0]) && View()[1..] == old(View())
        && (var d, next := tcbSet[0], (seg.seqnum + 1) % 0x1_0000_0000;
          && d.fd == -1 && d.sip == seg.sip && d.dip == seg.dip && d.sport == seg.sport && d.dport == seg.dport
          && d.status == SynRcvd && d.sndNxt == seed && d.rcvNxt == next && d.rcvbuf == []
          && d.sndbuf == [Fragment(seg.dport, seg.sport, seed, next,
            Flags(syn := true, ack := true, psh := false, fin := false), [])])
    {
      hide Born, Answered, Created, Values;
      BornIs(seg, born, seed);
      if seg.flags.syn {
        if s.status == Listen {
          BornAnswered(seg, born, seed);
          ghost var v := View();
          var syn := new Stream.Create(seg, born, seed);
          syn.Answer(seg);
          OneAdded(tcbSet, v, syn);
          tcbSet := [syn] + tcbSet;
          born := born + 1;
          assert View() == [syn.Value()] + v;
        }
      }
    }

    /** ng_tcp_handle_syn_rcvd. `exit` says that the program ends; `woken` is the descriptor that becomes
        readable. The acknowledgement number makes no difference. */
    method HandleSynRcvd(s: Stream, seg: Segment, ghost i: nat, ghost seed: nat) returns (exit: bool, woken: seq<int>)
      requires Distinct() && i < |tcbSet| && s == tcbSet[i] && s.status == SynRcvd && Captured(seg)
      modifies s`status
      ensures OnSegment(old(Now()), i, seg, seed) == if exit then Exit else Next(Now())
      ensures woken == Woken(old(Now()), i, seg)
    {
      hide Values, Search;
      exit, woken := false, [];
      if seg.flags.ack {
        if s.status == SynRcvd {
          ghost var v := View();
          s.status := TcpSpec.Established;
          OneChanged(tcbSet, v, i);
          var listener, at := StreamSearch(0, 0, 0, s.dport);
          if listener == null {
            return true, [];
          }
          woken := [listener.fd];
        }
      }
    }

    /** ng_tcp_handle_established, with the descriptors that become readable */
    method HandleEst(s: Stream, seg: Segment, ghost i: nat, ghost seed: nat) returns (woken: seq<int>)
      requires Distinct() && i < |tcbSet| && s == tcbSet[i] && s.status == TcpSpec.Established && Captured(seg)
      modifies s
      ensures OnSegment(old(Now()), i, seg, seed) == Next(Now())
      ensures woken == Woken(old(Now()), i, seg)
    {
      hide Values, HandleEstablished;
      ghost var v := View();
      woken := (if seg.flags.psh then [s.fd] else []) + if seg.flags.fin then [s.fd] else [];
      s.Established(seg);
      OneChanged(tcbSet, v, i);
    }

    /** ng_tcp_handle_last_ack */
    method HandleLastAck(s: Stream, seg: Segment, ghost i: nat, ghost seed: nat)
      requires Distinct() && i < |tcbSet| && s == tcbSet[i] && s.status == LastAck && Captured(seg)
      modifies this`tcbSet, s`status
      ensures Distinct() && OnSegment(old(Now()), i, seg, seed) == Next(Now())
      ensures forall x :: x in tcbSet ==> x in old(tcbSet) || fresh(x)
    {
      hide Values, Without;
      if seg.flags.ack {
        if s.status == LastAck {
          ghost var v := View();
          s.status := Closed;
          OneGone(tcbSet, v, i);
          tcbSet := Unlinked(tcbSet, s, i);
        }
      }
    }

    /** ng_tcp_process. `valid` is the outcome of the checksum test, `seed` a possible first sequence number. */
    method Process(seg: Segment, valid: bool, seed: nat) returns (ret: int, exit: bool, woken: seq<int>)
      requires Distinct() && Captured(seg)
      modifies this, tcbSet
      ensures !valid ==> ret == -1 && !exit && Now() == old(Now()) && tcbSet == old(tcbSet)
      ensures valid ==> Step(old(Now()), Op.Process(seg, seed)) == if exit then Exit else Next(Now())
      ensures valid ==> var r := Search(old(View()), seg.sip, seg.dip, seg.sport, seg.dport);
        woken == if r.None? then [] else
          (SearchFirst(old(View()), seg.sip, seg.dip, seg.sport, seg.dport);
           Woken(old(Now()), r.value, seg))
      ensures valid ==>
        ret == if Search(old(View()), seg.sip, seg.dip, seg.sport, seg.dport).None? then -2 else 0
      ensures Distinct()
      ensures forall x :: x in tcbSet ==> x in old(tcbSet) || fresh(x)
    {
      hide Values, Search, OnSegment, Distinct;
      ret, exit, woken := 0, false, [];
      if !valid {
        return -1, false, [];
      }
      SearchFirst(View(), seg.sip, seg.dip, seg.sport, seg.dport);
      ghost var t := Now();
      var s, at := StreamSearch(seg.sip, seg.dip, seg.sport, seg.dport);
      if s == null {
        return -2, false, [];
      }
      assert Step(t, Op.Process(seg, seed)) == OnSegment(t, at.value, seg, seed);
      match s.status
      case Listen => HandleListen(s, seg, seed, at.value);
      case SynRcvd => exit, woken := HandleSynRcvd(s, seg, at.value, seed);
      case Established => woken := HandleEst(s, seg, at.value, seed);
      case LastAck => HandleLastAck(s, seg, at.value, seed);
      case _ => NothingToDo(Now(), at.value, seg, seed);
    }

    lemma NothingToDo(t: Table, i: nat, seg: Segment, seed: nat)
      requires i < |t.conns| && Captured(seg) && t.conns[i].status !in {Listen, SynRcvd, TcpSpec.Established, LastAck}
      ensures OnSegment(t, i, seg, seed) == Next(t)
    {
    }

    // ---- the calls of the application ----

    /** nsocket for SOCK_STREAM, with the descriptor that the bitmap yields */
    method NSocket(fd: int) returns (r: int)
      requires Distinct()
      modifies this
      ensures Distinct() && r == fd && Step(old(Now()), Socket(fd)) == Next(Now())
      ensures View() == [Conn(fd, 0, 0, 0, 0, 0, 0, Closed, [], [], old(born), 0, 0, 0, [], [], [])] + old(View())
      ensures forall x :: x in tcbSet ==> x in old(tcbSet) || fresh(x)
    {
      hide Values;
      ghost var v := View();
      var stream := new Stream(fd, born);
      OneAdded(tcbSet, v, stream);
      tcbSet := [stream] + tcbSet;
      born := born + 1;
      r := fd;
    }

    method NBind(sockfd: int, ip: nat, port: nat) returns (r: int)
      requires Distinct()
      modifies tcbSet
      ensures Step(old(Now()), Bind(sockfd, ip, port)) == Next(Now())
      ensures var v, i := old(View()), ByFd(old(View()), sockfd);
        if i.None? then View() == v
        else
          && i.value < |v|
          && View() == v[i.value := v[i.value].(dport := port, dip := ip, status := Closed)]
      ensures r == if ByFd(old(View()), sockfd).Some? then 0 else -1
    {
      hide Values, ByFd;
      var stream, at := FromFd(sockfd);
      if stream == null {
        return -1;
      }
      ghost var v := View();
      stream.dport, stream.dip := port, ip;
      stream.status := Closed;
      OneChanged(tcbSet, v, at.value);
      r := 0;
    }

    method NListen(sockfd: int) returns (r: int)
      requires Distinct()
      modifies tcbSet
      ensures Step(old(Now()), ListenOn(sockfd)) == Next(Now())
      ensures var v, i := old(View()), ByFd(old(View()), sockfd);
        if i.None? then View() == v
        else i.value < |v| && View() == v[i.value := v[i.value].(status := Listen)]
      ensures r == if ByFd(old(View()), sockfd).Some? then 0 else -1
    {
      hide Values, ByFd;
      var stream, at := FromFd(sockfd);
      if stream == null {
        return -1;
      }
      ghost var v := View();
      stream.status := Listen;
      OneChanged(tcbSet, v, at.value);
      r := 0;
    }

    /** naccept; `connfd` is the descriptor that the bitmap yields, and None means that the call blocks */
    method NAccept(sockfd: int, connfd: int) returns (r: Option<int>, ip: nat, port: nat)
      requires Distinct()
      modifies tcbSet
      ensures Step(old(Now()), Accept(sockfd, connfd)) == Next(Now())
      ensures var v, l := old(View()), OnDescriptor(old(View()), sockfd);
        if l.None? || Unaccepted(v, l.value.dport).None? then View() == v
        else
          var k := Unaccepted(v, l.value.dport).value;
          && k < |v| && View() == v[k := v[k].(fd := connfd)]
          && r == Some(connfd) && ip == v[k].sip && port == v[k].sport
      ensures var l := OnDescriptor(old(View()), sockfd);
        if l.None? then r == Some(-1)
        else var c := Waiting(old(View()), l.value.dport);
          if c.None? then r == None else r == Some(connfd) && ip == c.value.sip && port == c.value.sport
    {
      hide Values, ByFd, Unaccepted;
      ip, port := 0, 0;
      var stream, at := FromFd(sockfd);
      if stream == null {
        return Some(-1), ip, port;
      }
      UnacceptedFirst(View(), stream.dport);
      var apt, k := AcceptTcb(stream.dport);
      if apt == null {
        return None, ip, port;
      }
      ghost var v := View();
      apt.fd := connfd;
      OneChanged(tcbSet, v, k.value);
      port, ip := apt.sport, apt.sip;
      r := Some(connfd);
    }

    method NSend(sockfd: int, data: seq<Byte>) returns (r: int)
      requires Distinct()
      modifies tcbSet
      ensures Step(old(Now()), Send(sockfd, data)) == Next(Now())
      ensures var v, i := old(View()), ByFd(old(View()), sockfd);
        if i.None? then View() == v
        else
          && i.value < |v|
          && var c := v[i.value];
          View() == v[i.value := c.(
            sndbuf := c.sndbuf + [Fragment(c.dport, c.sport, c.sndNxt, c.rcvNxt,
              Flags(syn := false, ack := true, psh := true, fin := false), data)],
            log := c.log + [Ack(c.rcvNxt, c.bytes, c.fins)])]
      ensures r == if ByFd(old(View()), sockfd).Some? then |data| else -1
    {
      hide Values, ByFd;
      var stream, at := FromFd(sockfd);
      if stream == null {
        return -1;
      }
      ghost var v := View();
      stream.EnqueueSend(Fragment(stream.dport, stream.sport, stream.sndNxt, stream.rcvNxt, PSH_ACK, data));
      OneChanged(tcbSet, v, at.value);
      r := |data|;
    }

    /** nrecv; None means that the call blocks */
    method NRecv(sockfd: int, len: nat) returns (r: Option<int>, buf: seq<Byte>)
      requires Distinct()
      modifies tcbSet
      ensures Step(old(Now()), Recv(sockfd, len)) == Next(Now())
      ensures r == None || r == Some(-1) ==> View() == old(View())
      ensures var v, i := old(View()), ByFd(old(View()), sockfd);
        i.Some? ==>
          && i.value < |v|
          && var c := v[i.value];
          c.rcvbuf != [] ==>
            var f, rest := c.rcvbuf[0], c.rcvbuf[1..];
            && r == Some(if |f.data| <= len then |f.data| else |f.data| - len)
            && buf == (if |f.data| <= len then f.data else f.data[..len])
            && View() == v[i.value := c.(taken := c.taken + buf,
              rcvbuf := if |f.data| <= len then rest else rest + [f.(data := f.data[len..])])]
      ensures var v, i := old(View()), ByFd(old(View()), sockfd);
        && (i.None? ==> r == Some(-1) && buf == [])
        && (i.Some? ==> i.value < |v| && (v[i.value].rcvbuf == [] ==> r == None && buf == []))
      ensures var c := OnDescriptor(old(View()), sockfd);
        if c.None? then r == Some(-1) && buf == []
        else if c.value.rcvbuf == [] then r == None && buf == []
        else
          var d := c.value.rcvbuf[0].data;
          if |d| > len then buf == d[..len] && r == Some(|d| - len) else buf == d && r == Some(|d|)
    {
      hide Values, ByFd, Read, Step;
      buf := [];
      var stream, at := FromFd(sockfd);
      if stream == null { CallNobody(Now(), Recv(sockfd, len)); } else { CallIs(Now(), Recv(sockfd, len), at.value); }
      RecvStep(Now(), sockfd, len);
      if stream == null {
        return Some(-1), buf;
      }
      if stream.rcvbuf == [] {
        return None, buf;
      }
      ghost var v := View();
      var n;
      n, buf := stream.Take(len);
      OneChanged(tcbSet, v, at.value);
      r := Some(n);
    }

    /** The rest of nclose, for the stream that was found. */
    method CloseStream(stream: Stream, ghost i: nat)
      requires Distinct() && i < |tcbSet| && tcbSet[i] == stream
      modifies this`tcbSet, stream
      ensures Distinct() && forall x :: x in tcbSet ==> x in old(tcbSet) || fresh(x)
      ensures View() ==
        if old(stream.status) != Listen then old(View())[i := Shut(old(View())[i])] else Without(old(View()), i)
    {
      hide Values, Shut, Without;
      ghost var v := View();
      if stream.status != Listen {
        stream.Shutdown();
        OneChanged(tcbSet, v, i);
      } else {
        OneGone(tcbSet, v, i);
        tcbSet := Unlinked(tcbSet, stream, i);
      }
    }

    method NClose(fd: int) returns (r: int)
      requires Distinct()
      modifies this`tcbSet, tcbSet
      ensures Distinct() && Step(old(Now()), Close(fd)) == Next(Now())
      ensures var v, i := old(View()), ByFd(old(View()), fd);
        if i.None? then View() == v
        else
          && i.value < |v|
          && var c := v[i.value];
          View() ==
            if c.status == Listen then v[..i.value] + v[i.value + 1..]
            else v[i.value := c.(status := LastAck,
              sndbuf := c.sndbuf + [Fragment(c.dport, c.sport, c.sndNxt, c.rcvNxt,
                Flags(syn := false, ack := true, psh := false, fin := true), [])],
              log := c.log + [Ack(c.rcvNxt, c.bytes, c.fins)])]
      ensures forall x :: x in tcbSet ==> x in old(tcbSet) || fresh(x)
      ensures r == if ByFd(old(View()), fd).Some? then 0 else -1
    {
      hide Values, ByFd, Shut, Without, Step;
      var stream, at := FromFd(fd);
      if stream != null { CallIs(Now(), Close(fd), at.value); }
      CloseStep(Now(), fd);
      if stream == null {
        return -1;
      }
      CloseStream(stream, at.value);
      r := 0;
    }
  }

  /** One call or one segment. */
  method Perform(t: TcpTable, op: Op) returns (over: bool)
    requires t.Distinct() && (op.Process? ==> Captured(op.seg))
    modifies t, t.tcbSet
    ensures t.Distinct() && Step(old(t.Now()), op) == if over then Exit else Next(t.Now())
    ensures forall x :: x in t.tcbSet ==> x in old(t.tcbSet) || fresh(x)
  {
    hide Step, Values;
    over := false;
    match op
    case Socket(fd) => var _ := t.NSocket(fd);
    case Bind(fd, ip, port) => var _ := t.NBind(fd, ip, port);
    case ListenOn(fd) => var _ := t.NListen(fd);
    case Accept(fd, connfd) => var _, _, _ := t.NAccept(fd, connfd);
    case Send(fd, data) => var _ := t.NSend(fd, data);
    case Recv(fd, len) => var _, _ := t.NRecv(fd, len);
    case Close(fd) => var _ := t.NClose(fd);
    case Process(seg, seed) =>
      var ret, woken;
      ret, over, woken := t.Process(seg, true, seed);
  }

  /** Any run of calls and segments on an empty table. */
  method Drive(ops: seq<Op>) returns (t: TcpTable, exit: bool)
    requires Packets(ops)
    ensures fresh(t) && Run(NOTHING, ops) == if exit then Exit else Next(t.Now())
  {
    hide Step, Values, Run;
    t := new TcpTable();
    exit := false;
    RunNone(NOTHING);
    for i := 0 to |ops|
      invariant fresh(t) && fresh(set x | x in t.tcbSet) && t.Distinct() && Run(NOTHING, ops[..i]) == Next(t.Now())
    {
      RunSplit(NOTHING, ops[..i], ops[i]);
      assert ops[..i + 1] == ops[..i] + [ops[i]];
      var over := Perform(t, ops[i]);
      if over {
        ExitStays(NOTHING, ops, i + 1);
        return t, true;
      }
    }
    assert ops[..|ops|] == ops;
  }

  /** LL_REMOVE */
  function Unlinked(l: seq<Stream>, s: Stream, ghost i: nat): (r: seq<Stream>)
    requires i < |l| && l[i] == s && forall j, k :: 0 <= j < k < |l| ==> l[j] != l[k]
    ensures r == l[..i] + l[i + 1..]
  {
    if l[0] == s then l[1..] else [l[0]] + Unlinked(l[1..], s, i - 1)
  }
}
