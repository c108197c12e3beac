/** The passive-open TCP server as steps on a table of streams. */
module TcpSpec {
  import opened Common

  datatype Status =
    | Closed | Listen | SynRcvd | SynSent | Established
    | FinWait1 | FinWait2 | Closing | TimeWait | CloseWait | LastAck

  datatype Flags = Flags(syn: bool, ack: bool, psh: bool, fin: bool)

  const ACK := Flags(false, true, false, false)
  const SYN_ACK := Flags(true, true, false, false)
  const PSH_ACK := Flags(false, true, true, false)
  const FIN_ACK := Flags(false, true, false, true)

  /** An outgoing segment, or the data of an incoming one. */
  datatype Fragment = Fragment(sport: nat, dport: nat, seqnum: nat, acknum: nat, flags: Flags, data: seq<Byte>)

  /** An incoming segment. `tcplen` is the IP total length less the IP header, `hdrlen` counts words,
      and `payload` is what follows the TCP header in the packet. */
  datatype Segment = Segment(sip: nat, dip: nat, sport: nat, dport: nat, seqnum: nat, acknum: nat, flags: Flags,
    hdrlen: nat, tcplen: int, payload: seq<Byte>)

  /** A queued acknowledgement with what had been received at that time. */
  datatype Ack = Ack(num: nat, bytes: int, fins: nat)

  /** A stream; the fields from `id` on record its history. */
  datatype Conn = Conn(
    fd: int, sip: nat, dip: nat, sport: nat, dport: nat, sndNxt: nat, rcvNxt: nat, status: Status,
    sndbuf: seq<Fragment>, rcvbuf: seq<Fragment>,
    id: nat, isn: nat, bytes: int, fins: nat, log: seq<Ack>, heard: seq<Byte>, taken: seq<Byte>)

  /** The newest stream comes first. `born` counts the streams created so far. */
  datatype Table = Table(conns: seq<Conn>, born: nat)

  const NOTHING := Table([], 0)

  /** Conversion to uint32_t. */
  function U32(x: int): (r: nat)
    ensures r < TWO32
  {
    x % TWO32
  }

  // ---- lookup ----

  predicate Matches(c: Conn, sip: nat, dip: nat, sport: nat, dport: nat) {
    c.sip == sip && c.dip == dip && c.sport == sport && c.dport == dport
  }

  /** The position of the first stream that `p` holds for. */
  function First(s: seq<Conn>, p: Conn -> bool): Option<nat> {
    if s == [] then None
    else if p(s[0]) then Some(0)
    else
      var r := First(s[1..], p);
      if r.None? then None else Some(r.value + 1)
  }

  lemma {:induction false} FirstWhere(s: seq<Conn>, p: Conn -> bool)
    ensures var r := First(s, p);
      if r.Some? then r.value < |s| && p(s[r.value]) && forall j :: 0 <= j < r.value ==> !p(s[j])
      else forall j :: 0 <= j < |s| ==> !p(s[j])
  {
    if s != [] {
      FirstWhere(s[1..], p);
      assert forall j :: 0 < j < |s| ==> s[j] == s[1..][j - 1];
    }
  }

  /** A search that has looked at everything before `i` in vain, and finds `i`, or nothing at all. */
  lemma FirstFound(s: seq<Conn>, p: Conn -> bool, i: nat)
    requires i <= |s| && (i < |s| ==> p(s[i])) && forall j :: 0 <= j < i ==> !p(s[j])
    ensures First(s, p) == if i < |s| then Some(i) else None
  {
    FirstWhere(s, p);
  }

  /** The first stream with exactly these addresses. */
  function Exact(s: seq<Conn>, sip: nat, dip: nat, sport: nat, dport: nat): Option<nat> {
    First(s, (c: Conn) => Matches(c, sip, dip, sport, dport))
  }

  function Listener(s: seq<Conn>, dport: nat): Option<nat> {
    First(s, (c: Conn) => c.dport == dport && c.status == Listen)
  }

  function ByFd(s: seq<Conn>, fd: int): Option<nat> {
    First(s, (c: Conn) => c.fd == fd)
  }

  /** A stream on the port that no descriptor stands for yet. */
  function Unaccepted(s: seq<Conn>, dport: nat): Option<nat> {
    First(s, (c: Conn) => c.dport == dport && c.fd == -1)
  }

  function Search(s: seq<Conn>, sip: nat, dip: nat, sport: nat, dport: nat): Option<nat> {
    if Exact(s, sip, dip, sport, dport).Some? then Exact(s, sip, dip, sport, dport) else Listener(s, dport)
  }

  lemma ExactFirst(s: seq<Conn>, sip: nat, dip: nat, sport: nat, dport: nat)
    ensures var r := Exact(s, sip, dip, sport, dport);
      && (r.Some? ==> r.value < |s| && Matches(s[r.value], sip, dip, sport, dport))
      && forall i :: 0 <= i < (if r.Some? then r.value else |s|) ==> !Matches(s[i], sip, dip, sport, dport)
  {
    FirstWhere(s, (c: Conn) => Matches(c, sip, dip, sport, dport));
  }

  predicate ListensOn(c: Conn, dport: nat) {
    c.dport == dport && c.status == Listen
  }

  lemma ListenerFirst(s: seq<Conn>, dport: nat)
    ensures var r := Listener(s, dport);
      && (r.Some? ==> r.value < |s| && ListensOn(s[r.value], dport))
      && forall i :: 0 <= i < (if r.Some? then r.value else |s|) ==> !ListensOn(s[i], dport)
  {
    FirstWhere(s, (c: Conn) => c.dport == dport && c.status == Listen);
  }

  lemma ByFdFirst(s: seq<Conn>, fd: int)
    ensures var r := ByFd(s, fd);
      && (r.Some? ==> r.value < |s| && s[r.value].fd == fd)
      && forall i :: 0 <= i < (if r.Some? then r.value else |s|) ==> s[i].fd != fd
  {
    FirstWhere(s, (c: Conn) => c.fd == fd);
  }

  lemma UnacceptedFirst(s: seq<Conn>, dport: nat)
    ensures var r := Unaccepted(s, dport);
      && (r.Some? ==> r.value < |s| && s[r.value].dport == dport && s[r.value].fd == -1)
      && forall i :: 0 <= i < (if r.Some? then r.value else |s|) ==> !(s[i].dport == dport && s[i].fd == -1)
  {
    FirstWhere(s, (c: Conn) => c.dport == dport && c.fd == -1);
  }

  // ---- handlers ----

  function PayloadLen(seg: Segment, tcplen: int): int {
    tcplen - 4 * seg.hdrlen
  }

  /** The packet holds the bytes that its lengths announce. */
  predicate Captured(seg: Segment) {
    PayloadLen(seg, seg.tcplen) <= |seg.payload|
  }

  predicate WellFormed(seg: Segment) {
    PayloadLen(seg, seg.tcplen) == |seg.payload|
  }

  function Queue(c: Conn, f: Fragment): Conn {
    c.(sndbuf := c.sndbuf + [f], log := c.log + [Ack(f.acknum, c.bytes, c.fins)])
  }

  function SendAck(c: Conn, seg: Segment): Conn {
    Queue(c, Fragment(seg.dport, seg.sport, c.sndNxt, c.rcvNxt, ACK, []))
  }

  function Data(seg: Segment, tcplen: int): seq<Byte>
    requires PayloadLen(seg, tcplen) <= |seg.payload|
  {
    if PayloadLen(seg, tcplen) > 0 then seg.payload[..PayloadLen(seg, tcplen)] else []
  }

  function EnqueueRecv(c: Conn, seg: Segment, tcplen: int): Conn
    requires PayloadLen(seg, tcplen) <= |seg.payload|
  {
    var d := Data(seg, tcplen);
    var f := Fragment(seg.sport, seg.dport, 0, 0, Flags(false, false, false, false), d);
    c.(rcvbuf := c.rcvbuf + [f], heard := c.heard + d)
  }

  function Pushed(c: Conn, seg: Segment): Conn
    requires Captured(seg)
  {
    var n := PayloadLen(seg, seg.tcplen);
    var d := EnqueueRecv(c, seg, seg.tcplen);
    SendAck(d.(rcvNxt := U32(c.rcvNxt + n), sndNxt := seg.acknum, bytes := c.bytes + n), seg)
  }

  /** The length handed on for a FIN is the header's length in words, so no data is taken. */
  function Finished(c: Conn, seg: Segment): Conn {
    var d := EnqueueRecv(c.(status := CloseWait), seg, seg.hdrlen);
    SendAck(d.(rcvNxt := U32(c.rcvNxt + 1), sndNxt := seg.acknum, fins := c.fins + 1), seg)
  }

  function HandleEstablished(c: Conn, seg: Segment): Conn
    requires Captured(seg)
  {
    var d := if seg.flags.psh then Pushed(c, seg) else c;
    if seg.flags.fin then Finished(d, seg) else d
  }

  function Created(seg: Segment, id: nat, seed: nat): Conn {
    Conn(-1, seg.sip, seg.dip, seg.sport, seg.dport, seed, 0, Listen, [], [], id, seg.seqnum, 0, 0, [], [], [])
  }

  function Answered(c: Conn, seg: Segment): Conn {
    var acknum := U32(seg.seqnum + 1);
    Queue(c.(rcvNxt := acknum, status := SynRcvd), Fragment(seg.dport, seg.sport, c.sndNxt, acknum, SYN_ACK, []))
  }

  /** The stream that a SYN creates, with its SYN-ACK queued. */
  function Born(seg: Segment, id: nat, seed: nat): Conn {
    Answered(Created(seg, id, seed), seg)
  }

  lemma BornAnswered(seg: Segment, id: nat, seed: nat)
    ensures Born(seg, id, seed) == Answered(Created(seg, id, seed), seg)
  {
  }

  function Fresh(fd: int, id: nat): Conn {
    Conn(fd, 0, 0, 0, 0, 0, 0, Closed, [], [], id, 0, 0, 0, [], [], [])
  }

  function Shut(c: Conn): Conn {
    Queue(c.(status := LastAck), Fragment(c.dport, c.sport, c.sndNxt, c.rcvNxt, FIN_ACK, []))
  }

  function Without(s: seq<Conn>, i: nat): seq<Conn>
    requires i < |s|
  {
    s[..i] + s[i + 1..]
  }

  datatype Op =
    | Socket(fd: int)
    | Bind(fd: int, ip: nat, port: nat)
    | ListenOn(fd: int)
    | Accept(fd: int, connfd: int)
    | Send(fd: int, data: seq<Byte>)
    | Recv(fd: int, len: nat)
    | Close(fd: int)
    | Process(seg: Segment, seed: nat)

  /** What a call comes to: the new table, or the whole program exits. A call that would block leaves the table. */
  datatype Outcome = Next(table: Table) | Exit

  /** The head fragment after a read of at most `len` bytes. */
  function Read(c: Conn, len: nat): Conn
    requires c.rcvbuf != []
  {
    var f := c.rcvbuf[0];
    if |f.data| > len then
      c.(rcvbuf := c.rcvbuf[1..] + [f.(data := f.data[len..])], taken := c.taken + f.data[..len])
    else c.(rcvbuf := c.rcvbuf[1..], taken := c.taken + f.data)
  }

  function OnFd(t: Table, op: Op, i: nat): Table
    requires i < |t.conns| && !op.Socket? && !op.Process?
  {
    var c := t.conns[i];
    match op
    case Bind(_, ip, port) => t.(conns := t.conns[i := c.(dport := port, dip := ip, status := Closed)])
    case ListenOn(_) => t.(conns := t.conns[i := c.(status := Listen)])
    case Accept(_, connfd) =>
      var a := Unaccepted(t.conns, c.dport);
      if a.None? then t
      else
        UnacceptedFirst(t.conns, c.dport);
        t.(conns := t.conns[a.value := t.conns[a.value].(fd := connfd)])
    case Send(_, data) =>
      t.(conns := t.conns[i := Queue(c, Fragment(c.dport, c.sport, c.sndNxt, c.rcvNxt, PSH_ACK, data))])
    case Recv(_, len) => if c.rcvbuf == [] then t else t.(conns := t.conns[i := Read(c, len)])
    case Close(_) => if c.status != Listen then t.(conns := t.conns[i := Shut(c)]) else t.(conns := Without(t.conns, i))
  }

  /** ng_tcp_process on the stream at `i`. */
  function OnSegment(t: Table, i: nat, seg: Segment, seed: nat): Outcome
    requires i < |t.conns| && Captured(seg)
  {
    var c := t.conns[i];
    match c.status
    case Listen => if seg.flags.syn then Next(Table([Born(seg, t.born, seed)] + t.conns, t.born + 1)) else Next(t)
    case SynRcvd =>
      if seg.flags.ack then
        var t' := t.(conns := t.conns[i := c.(status := Established)]);
        if Search(t'.conns, 0, 0, 0, c.dport).None? then Exit else Next(t')
      else Next(t)
    case Established => Next(t.(conns := t.conns[i := HandleEstablished(c, seg)]))
    case LastAck => if seg.flags.ack then Next(t.(conns := Without(t.conns, i))) else Next(t)
    case _ => Next(t)
  }

  function Step(t: Table, op: Op): Outcome
    requires op.Process? ==> Captured(op.seg)
  {
    match op
    case Socket(fd) => Next(Table([Fresh(fd, t.born)] + t.conns, t.born + 1))
    case Process(seg, seed) =>
      var i := Search(t.conns, seg.sip, seg.dip, seg.sport, seg.dport);
      SearchFirst(t.conns, seg.sip, seg.dip, seg.sport, seg.dport);
      if i.None? then Next(t) else OnSegment(t, i.value, seg, seed)
    case _ =>
      ByFdFirst(t.conns, op.fd);
      var i := ByFd(t.conns, op.fd);
      if i.None? then Next(t) else Next(OnFd(t, op, i.value))
  }

  /** The stream behind a descriptor. */
  function OnDescriptor(s: seq<Conn>, fd: int): Option<Conn> {
    ByFdFirst(s, fd);
    var i := ByFd(s, fd);
    if i.None? then None else Some(s[i.value])
  }

  /** The stream that the next accept on the port takes. */
  function Waiting(s: seq<Conn>, dport: nat): Option<Conn> {
    UnacceptedFirst(s, dport);
    var i := Unaccepted(s, dport);
    if i.None? then None else Some(s[i.value])
  }

  /** The descriptors that become readable when the stream at `i` handles the segment: the listener's when a
      handshake completes, its own for data and once more for the end of the data. */
  function Woken(t: Table, i: nat, seg: Segment): seq<int>
    requires i < |t.conns|
  {
    var c := t.conns[i];
    if c.status == SynRcvd && seg.flags.ack then
      var s := t.conns[i := c.(status := Established)];
      SearchFirst(s, 0, 0, 0, c.dport);
      var l := Search(s, 0, 0, 0, c.dport);
      if l.None? then [] else [s[l.value].fd]
    else if c.status == Established then (if seg.flags.psh then [c.fd] else []) + (if seg.flags.fin then [c.fd] else [])
    else []
  }

  /** The first stream with exactly these addresses, else the first listener on the port, else nothing. */
  lemma SearchFirst(s: seq<Conn>, sip: nat, dip: nat, sport: nat, dport: nat)
    ensures var r := Search(s, sip, dip, sport, dport);
      if r.None? then
        forall i :: 0 <= i < |s| ==> !Matches(s[i], sip, dip, sport, dport) && !ListensOn(s[i], dport)
      else
        && r.value < |s|
        && (Matches(s[r.value], sip, dip, sport, dport) ==>
          forall i :: 0 <= i < r.value ==> !Matches(s[i], sip, dip, sport, dport))
        && (!Matches(s[r.value], sip, dip, sport, dport) ==>
          && ListensOn(s[r.value], dport)
          && (forall i :: 0 <= i < |s| ==> !Matches(s[i], sip, dip, sport, dport))
          && forall i :: 0 <= i < r.value ==> !ListensOn(s[i], dport))
  {
    ExactFirst(s, sip, dip, sport, dport);
    ListenerFirst(s, dport);
  }
}
