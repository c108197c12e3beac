/** What the epoll layer does to its index and its ready list, as steps on values. */
module EpollSpec {
  import opened Common
  /** struct epoll_event: the event bits and the caller's data. */
  datatype Event = Event(events: bv32, data: int)

  /** An entry of the index: its event, and whether it is on the ready list. */
  datatype Entry = Entry(event: Event, rdy: bool)

  /** `ready` has the newest entry in front. */
  datatype Poll = Poll(index: map<int, Entry>, rbcnt: int, ready: seq<int>, rdnum: int)

  datatype Op =
    | Add(fd: int, event: Event)
    | Mod(fd: int, event: Event)
    | Del(fd: int)
    | Callback(fd: int, bits: bv32)
    | Wait(maxevents: int)

  const EPOLLERR: bv32 := 0x008
  const EPOLLHUP: bv32 := 0x010

  /** The |= on event bits. */
  function Or(a: bv32, b: bv32): bv32 {
    a | b
  }

  function Min(a: int, b: int): int {
    if a > b then b else a
  }

  function NotReady(index: map<int, Entry>, fds: seq<int>): map<int, Entry> {
    map fd | fd in index :: if fd in fds then index[fd].(rdy := false) else index[fd]
  }

  /** How many entries a wait takes off the list. */
  function Taken(p: Poll, maxevents: int): nat {
    if maxevents <= 0 || p.rdnum <= 0 then 0
    else if Min(p.rdnum, maxevents) < |p.ready| then Min(p.rdnum, maxevents) else |p.ready|
  }

  /** The descriptors that a wait reports, in this order. */
  function Reported(p: Poll, op: Op): seq<int> {
    if op.Wait? then p.ready[..Taken(p, op.maxevents)] else []
  }

  /** The descriptor that an operation puts on the ready list. */
  function Readied(p: Poll, op: Op): seq<int> {
    if op.Callback? && op.fd in p.index && !p.index[op.fd].rdy then [op.fd] else []
  }

  function Step(p: Poll, op: Op): Poll {
    match op
    case Add(fd, ev) =>
      if fd in p.index then p
      else p.(index := p.index[fd := Entry(ev, false)], rbcnt := p.rbcnt + 1)
    case Mod(fd, ev) =>
      if fd !in p.index then p
      else
        var e := p.index[fd];
        p.(index := p.index[fd := e.(event := e.event.(events := Or(ev.events, Or(EPOLLERR, EPOLLHUP))))])
    case Del(fd) =>
      if fd !in p.index then p
      else p.(index := p.index - {fd}, rbcnt := p.rbcnt - 1)
    case Callback(fd, bits) =>
      if fd !in p.index then p
      else
        var e := p.index[fd];
        if e.rdy then p.(index := p.index[fd := e.(event := e.event.(events := Or(e.event.events, bits)))])
        else p.(index := p.index[fd := e.(rdy := true)], ready := [fd] + p.ready, rdnum := p.rdnum + 1)
    case Wait(maxevents) =>
      var n := Taken(p, maxevents);
      p.(index := NotReady(p.index, p.ready[..n]), ready := p.ready[n..], rdnum := p.rdnum - n)
  }

  /** The events of the first n entries of the list. */
  function Events(p: Poll, n: int): seq<Event> {
    if n <= 0 || |p.ready| < n || p.ready[n - 1] !in p.index then []
    else Events(p, n - 1) + [p.index[p.ready[n - 1]].event]
  }

  function Run(p: Poll, ops: seq<Op>): Poll
    decreases |ops|
  {
    if ops == [] then p else Run(Step(p, ops[0]), ops[1..])
  }

  function RunReported(p: Poll, ops: seq<Op>): seq<int>
    decreases |ops|
  {
    if ops == [] then [] else Reported(p, ops[0]) + RunReported(Step(p, ops[0]), ops[1..])
  }

  function RunReadied(p: Poll, ops: seq<Op>): seq<int>
    decreases |ops|
  {
    if ops == [] then [] else Readied(p, ops[0]) + RunReadied(Step(p, ops[0]), ops[1..])
  }

  const NEW_POLL := Poll(map[], 0, [], 0)

  datatype CtlOp = CtlAdd | CtlDel | CtlMod | CtlOther

  /** The operation that nepoll_ctl performs, if any. */
  function CtlStep(op: CtlOp, fd: int, event: Option<Event>): Option<Op> {
    match op
    case CtlAdd => if event.Some? then Some(Add(fd, event.value)) else None
    case CtlMod => if event.Some? then Some(Mod(fd, event.value)) else None
    case CtlDel => Some(Del(fd))
    case CtlOther => None
  }

  function CtlResult(p: Poll, op: CtlOp, fd: int, event: Option<Event>): int {
    if event.None? && !op.CtlDel? then -1
    else if op.CtlOther? then 0
    else if op.CtlAdd? then if fd in p.index then -1 else 0
    else if fd in p.index then 0 else -1
  }

  // ---- agreement of the index and the list ----

  ghost predicate NoDuplicates(s: seq<int>) {
    forall i, j :: 0 <= i < j < |s| ==> s[i] != s[j]
  }

  ghost predicate Inv(p: Poll) {
    && p.rbcnt == |p.index| && p.rdnum == |p.ready| && NoDuplicates(p.ready)
    && (forall fd :: fd in p.ready ==> fd in p.index)
    && (forall fd :: fd in p.index ==> (p.index[fd].rdy <==> fd in p.ready))
  }

  /** A deletion is safe when it does not hit an entry on the ready list. */
  predicate Safe(p: Poll, op: Op) {
    op.Del? && op.fd in p.index ==> !p.index[op.fd].rdy
  }

  ghost predicate SafeRun(p: Poll, ops: seq<Op>)
    decreases |ops|
  {
    ops == [] || (Safe(p, ops[0]) && SafeRun(Step(p, ops[0]), ops[1..]))
  }

  /** One step keeps the agreement exactly when it is not the deletion of a ready entry. */
  lemma StepKeepsInv(p: Poll, op: Op)
    requires Inv(p)
    ensures Inv(Step(p, op)) <==> Safe(p, op)
  {
    match op
    case Add(fd, ev) =>
      if fd !in p.index { EntryKeepsInv(p, fd, Entry(ev, false)); }
    case Mod(fd, ev) =>
      if fd in p.index { EntryKeepsInv(p, fd, Step(p, op).index[fd]); }
    case Del(fd) => DelKeepsInv(p, fd);
    case Callback(fd, bits) =>
      if fd in p.index {
        if p.index[fd].rdy { EntryKeepsInv(p, fd, Step(p, op).index[fd]); } else { ReadyKeepsInv(p, fd, bits); }
      }
    case Wait(maxevents) => WaitKeepsInv(p, maxevents);
  }

  lemma EntryKeepsInv(p: Poll, fd: int, e: Entry)
    requires Inv(p) && e.rdy == (fd in p.index && p.index[fd].rdy)
    ensures Inv(p.(index := p.index[fd := e], rbcnt := if fd in p.index then p.rbcnt else p.rbcnt + 1))
  {
    assert p.index[fd := e].Keys == p.index.Keys + {fd};
  }

  lemma DelKeepsInv(p: Poll, fd: int)
    requires Inv(p)
    ensures Inv(Step(p, Del(fd))) <==> Safe(p, Del(fd))
  {
    var q := Step(p, Del(fd));
    if fd in p.index {
      assert q.index.Keys == p.index.Keys - {fd};
      assert p.index[fd].rdy ==> fd in q.ready;
    }
  }

  lemma ReadyKeepsInv(p: Poll, fd: int, bits: bv32)
    requires Inv(p) && fd in p.index && !p.index[fd].rdy
    ensures Inv(Step(p, Callback(fd, bits)))
  {
    var q := Step(p, Callback(fd, bits));
    assert q.index.Keys == p.index.Keys;
    assert forall x :: x in q.ready <==> x == fd || x in p.ready;
  }

  lemma WaitKeepsInv(p: Poll, maxevents: int)
    requires Inv(p)
    ensures Inv(Step(p, Wait(maxevents)))
  {
    var q, n := Step(p, Wait(maxevents)), Taken(p, maxevents);
    assert q.index.Keys == p.index.Keys;
    assert p.ready == p.ready[..n] + q.ready;
    assert forall j :: 0 <= j < |q.ready| ==> q.ready[j] == p.ready[n + j];
  }

  /** Every run without the deletion of a ready entry keeps the agreement. */
  lemma {:induction false} RunKeepsInv(p: Poll, ops: seq<Op>)
    requires Inv(p) && SafeRun(p, ops)
    ensures Inv(Run(p, ops))
    decreases |ops|
  {
    if ops != [] {
      StepKeepsInv(p, ops[0]);
      RunKeepsInv(Step(p, ops[0]), ops[1..]);
    }
  }

  /** The deletion of a ready entry breaks it: the next wait reports a descriptor that is not registered. */
  lemma DeletedButReported()
    ensures var p := Run(NEW_POLL, [Add(5, Event(1, 5)), Callback(5, 1), Del(5)]);
      5 !in p.index && Reported(p, Wait(1)) == [5]
  {
    var p1 := Step(NEW_POLL, Add(5, Event(1, 5)));
    var p2 := Step(p1, Callback(5, 1));
    var p3 := Step(p2, Del(5));
    assert Run(p3, []) == p3;
    assert [Del(5)][1..] == [];
    assert [Callback(5, 1), Del(5)][1..] == [Del(5)];
    assert [Add(5, Event(1, 5)), Callback(5, 1), Del(5)][1..] == [Callback(5, 1), Del(5)];
    assert Run(p2, [Del(5)]) == p3;
    assert p3.ready == [5];
  }

  /** A wait reports as many distinct registered descriptors as it can, the newest first. */
  lemma WaitReports(p: Poll, maxevents: int)
    requires Inv(p) && maxevents > 0
    ensures var r := Reported(p, Wait(maxevents));
      && |r| == Min(p.rdnum, maxevents) && r == p.ready[..|r|] && NoDuplicates(r)
      && (forall fd :: fd in r ==> fd in p.index && p.index[fd].rdy)
      && (forall fd :: fd in r ==> fd in Step(p, Wait(maxevents)).index)
      && (forall fd :: fd in r ==> !Step(p, Wait(maxevents)).index[fd].rdy)
  {
  }

  /** What was or becomes ready is reported or still on the list: nothing is lost, nothing is reported twice. */
  lemma {:induction false} RunConserves(p: Poll, ops: seq<Op>)
    ensures multiset(p.ready) + multiset(RunReadied(p, ops))
      == multiset(RunReported(p, ops)) + multiset(Run(p, ops).ready)
    decreases |ops|
  {
    if ops != [] {
      var q := Step(p, ops[0]);
      StepConserves(p, ops[0]);
      RunConserves(q, ops[1..]);
      MultisetChain(p.ready, Readied(p, ops[0]), Reported(p, ops[0]), q.ready,
        RunReadied(q, ops[1..]), RunReported(q, ops[1..]), Run(q, ops[1..]).ready);
    }
  }

  lemma MultisetChain(a: seq<int>, x: seq<int>, y: seq<int>, b: seq<int>, xs: seq<int>, ys: seq<int>, c: seq<int>)
    requires multiset(a) + multiset(x) == multiset(y) + multiset(b)
    requires multiset(b) + multiset(xs) == multiset(ys) + multiset(c)
    ensures multiset(a) + multiset(x + xs) == multiset(y + ys) + multiset(c)
  {
    forall v: int
      ensures (multiset(a) + multiset(x + xs))[v] == (multiset(y + ys) + multiset(c))[v]
    {
      assert (multiset(a) + multiset(x))[v] == (multiset(y) + multiset(b))[v];
      assert (multiset(b) + multiset(xs))[v] == (multiset(ys) + multiset(c))[v];
    }
  }

  lemma StepConserves(p: Poll, op: Op)
    ensures multiset(p.ready) + multiset(Readied(p, op))
      == multiset(Reported(p, op)) + multiset(Step(p, op).ready)
  {
    if op.Wait? {
      assert p.ready == Reported(p, op) + Step(p, op).ready;
    } else if op.Callback? {
      assert Step(p, op).ready == Readied(p, op) + p.ready;
    }
  }

  /** Between becoming ready and being reported, a descriptor stays on the list. */
  lemma {:induction false} ReadyUntilReported(p: Poll, ops: seq<Op>, fd: int)
    requires fd in p.ready && fd !in RunReported(p, ops)
    ensures fd in Run(p, ops).ready
    decreases |ops|
  {
    if ops != [] {
      if ops[0].Wait? {
        assert p.ready == Reported(p, ops[0]) + Step(p, ops[0]).ready;
      }
      ReadyUntilReported(Step(p, ops[0]), ops[1..], fd);
    }
  }

  // ---- the steps that change something ----

  lemma AddEffect(p: Poll, fd: int, ev: Event)
    requires fd !in p.index
    ensures Step(p, Add(fd, ev)) == Poll(p.index[fd := Entry(ev, false)], p.rbcnt + 1, p.ready, p.rdnum)
  {
  }

  lemma AddNothing(p: Poll, fd: int, ev: Event)
    requires fd in p.index
    ensures Step(p, Add(fd, ev)) == p
  {
  }

  lemma DelNothing(p: Poll, fd: int)
    requires fd !in p.index
    ensures Step(p, Del(fd)) == p
  {
  }

  lemma DelEffect(p: Poll, fd: int)
    requires fd in p.index
    ensures Step(p, Del(fd)) == Poll(p.index - {fd}, p.rbcnt - 1, p.ready, p.rdnum)
  {
  }

  lemma ModNothing(p: Poll, fd: int, ev: Event)
    requires fd !in p.index
    ensures Step(p, Mod(fd, ev)) == p
  {
  }

  lemma ModEffect(p: Poll, fd: int, ev: Event)
    requires fd in p.index
    ensures Step(p, Mod(fd, ev)) == p.(index := p.index[fd :=
      p.index[fd].(event := p.index[fd].event.(events := Or(ev.events, Or(EPOLLERR, EPOLLHUP))))])
  {
  }

  lemma ReadyEffect(p: Poll, fd: int, bits: bv32)
    requires fd in p.index && !p.index[fd].rdy
    ensures Step(p, Callback(fd, bits)) ==
      Poll(p.index[fd := p.index[fd].(rdy := true)], p.rbcnt, [fd] + p.ready, p.rdnum + 1)
  {
  }

  /** A callback for a ready entry only adds its event bits. */
  lemma AgainEffect(p: Poll, fd: int, bits: bv32) returns (e: Entry)
    requires fd in p.index && p.index[fd].rdy
    ensures Step(p, Callback(fd, bits)) == p.(index := p.index[fd := e])
    ensures e == Entry(Event(p.index[fd].event.events | bits, p.index[fd].event.data), true)
  {
    hide Step, Or;
    AgainStep(p, fd, bits);
    var was := p.index[fd];
    e := was.(event := was.event.(events := Or(was.event.events, bits)));
    MoreBits(was, bits);
  }

  lemma AgainStep(p: Poll, fd: int, bits: bv32)
    requires fd in p.index && p.index[fd].rdy
    ensures Step(p, Callback(fd, bits)) == p.(index := p.index[fd :=
      p.index[fd].(event := p.index[fd].event.(events := Or(p.index[fd].event.events, bits)))])
  {
    hide Or;
  }

  lemma MoreBits(e: Entry, bits: bv32)
    requires e.rdy
    ensures e.(event := e.event.(events := Or(e.event.events, bits))) ==
      Entry(Event(e.event.events | bits, e.event.data), true)
  {
  }

  /** A modification sets the bits, and those for errors and hang-ups, and keeps the data. */
  lemma ModBits(p: Poll, fd: int, ev: Event)
    requires fd in p.index
    ensures var e := p.index[fd];
      Step(p, Mod(fd, ev)) ==
        p.(index := p.index[fd := Entry(Event(ev.events | 0x018, e.event.data), e.rdy)])
  {
    hide Or;
    OrBits(ev.events);
  }

  lemma OrBits(a: bv32)
    ensures Or(a, Or(EPOLLERR, EPOLLHUP)) == a | 0x018
  {
  }

  /** A wait takes the first entries off the list, marks them not ready, and changes nothing else. */
  lemma WaitIs(p: Poll, maxevents: int)
    requires Inv(p) && maxevents > 0
    ensures var n, q := if p.rdnum < maxevents then p.rdnum else maxevents, Step(p, Wait(maxevents));
      && 0 <= n <= |p.ready| && q.ready == p.ready[n..] && q.rdnum == p.rdnum - n && q.rbcnt == p.rbcnt
      && q.index.Keys == p.index.Keys
      && (forall fd :: fd in p.index ==>
        q.index[fd] == Entry(p.index[fd].event, if fd in p.ready[..n] then false else p.index[fd].rdy))
      && |Events(p, n)| == n
      && forall i :: 0 <= i < n ==> p.ready[i] in p.index && Events(p, n)[i] == p.index[p.ready[i]].event
  {
    var n := if p.rdnum < maxevents then p.rdnum else maxevents;
    assert Step(p, Wait(maxevents)).index == NotReady(p.index, p.ready[..n]);
    EventsAre(p, n);
  }

  lemma TakeEffect(p: Poll)
    requires Inv(p) && p.ready != []
    ensures var fd := p.ready[0];
      fd in p.index && Step(p, Wait(1)) ==
      Poll(p.index[fd := p.index[fd].(rdy := false)], p.rbcnt, p.ready[1..], p.rdnum - 1)
  {
    var fd := p.ready[0];
    assert NotReady(p.index, p.ready[..1]) == p.index[fd := p.index[fd].(rdy := false)];
  }

  lemma WaitPart(p: Poll, k: nat)
    requires Inv(p) && k <= |p.ready|
    ensures Taken(p, k) == k && Inv(Step(p, Wait(k))) && Step(p, Wait(k)).ready == p.ready[k..]
    ensures Step(p, Wait(k)).index == NotReady(p.index, p.ready[..k])
    ensures k < |p.ready| ==> p.ready[k] in p.index && Step(p, Wait(k)).index[p.ready[k]] == p.index[p.ready[k]]
  {
    if k < |p.ready| {
      var fd := p.ready[k];
      assert fd in p.ready && fd !in p.ready[..k];
      assert fd in p.index;
    }
    WaitKeepsInv(p, k);
  }

  /** Waits that take k entries and one more take k + 1. */
  lemma WaitOneMore(p: Poll, k: nat)
    requires Inv(p) && k < |p.ready|
    ensures Step(p, Wait(k + 1)) == Step(Step(p, Wait(k)), Wait(1))
  {
    WaitPart(p, k);
    WaitPart(p, k + 1);
    var q := Step(p, Wait(k));
    assert p.ready[..k + 1] == p.ready[..k] + q.ready[..1];
    assert p.ready[k + 1..] == q.ready[1..];
    assert NotReady(NotReady(p.index, p.ready[..k]), q.ready[..1]) == NotReady(p.index, p.ready[..k + 1]);
  }

  /** A wait takes what the list has, up to the caller's limit. */
  lemma WaitAll(p: Poll, maxevents: int)
    requires Inv(p) && maxevents > 0
    ensures var n := Min(p.rdnum, maxevents);
      && 0 <= n <= |p.ready| && Step(p, Wait(maxevents)) == Step(p, Wait(n))
      && Reported(p, Wait(maxevents)) == p.ready[..n]
  {
  }

  lemma NoWait(p: Poll, maxevents: int)
    requires maxevents <= 0
    ensures Step(p, Wait(maxevents)) == p
  {
    assert NotReady(p.index, []) == p.index;
  }

  lemma WaitZero(p: Poll)
    ensures Step(p, Wait(0)) == p
  {
    assert NotReady(p.index, []) == p.index;
  }

  lemma NoEvents(p: Poll)
    ensures Events(p, 0) == []
  {
  }

  lemma EventsNext(p: Poll, n: nat)
    requires Inv(p) && n < |p.ready|
    ensures p.ready[n] in p.index && Events(p, n + 1) == Events(p, n) + [p.index[p.ready[n]].event]
  {
    assert p.ready[n] in p.ready;
  }

  lemma {:induction false} EventsAre(p: Poll, n: nat)
    requires Inv(p) && n <= |p.ready|
    ensures |Events(p, n)| == n && forall i :: 0 <= i < n ==>
      p.ready[i] in p.index && Events(p, n)[i] == p.index[p.ready[i]].event
  {
    if n > 0 {
      EventsAre(p, n - 1);
      assert p.ready[n - 1] in p.ready;
    }
  }
}
