/** The epoll layer: an index of registered sockets and a list of ready ones. */
module Epoll {
  import opened Common
  import opened Epitems
  import opened EpollSpec
  import RbEdits
  import RbModel
  import opened RbTree

  class EventPoll {
    const rbr: RbHead
    var rbcnt: int
    var rdlist: seq<Epitem>
    var rdnum: int
    ghost var spec: Poll
    ghost var at: map<int, Epitem>  // the items by descriptor

    ghost function EntryOf(x: Epitem): Entry
      reads x`events, x`data, x`rdy
    {
      Entry(Event(x.events, x.data), x.rdy)
    }

    /** The items, with their descriptors, hold the entries of the index. */
    ghost predicate Held(items: set<Epitem>, at: map<int, Epitem>, index: map<int, Entry>)
      reads items`events, items`data, items`rdy
    {
      && at.Keys == index.Keys && (forall x :: x in items ==> x.sockfd in at && at[x.sockfd] == x)
      && (forall fd :: fd in at ==> at[fd] in items && at[fd].sockfd == fd && index[fd] == EntryOf(at[fd]))
    }

    lemma HeldMore(items: set<Epitem>, at: map<int, Epitem>, index: map<int, Entry>, x: Epitem)
      requires Held(items, at, index) && x.sockfd !in index
      ensures Held(items + {x}, at[x.sockfd := x], index[x.sockfd := EntryOf(x)])
    {
    }

    lemma HeldLess(items: set<Epitem>, at: map<int, Epitem>, index: map<int, Entry>, x: Epitem)
      requires Held(items, at, index) && x in items
      ensures Held(items - {x}, at - {x.sockfd}, index - {x.sockfd})
    {
    }

    lemma HeldIn(items: set<Epitem>, at: map<int, Epitem>, index: map<int, Entry>, fd: int)
      requires Held(items, at, index)
      ensures (exists x :: x in items && x.sockfd == fd) <==> fd in index
    {
      if fd in index { assert at[fd] in items; }
    }

    /** The fields hold the state `spec`. */
    ghost predicate Tied()
      reads this, rbr, rbr.items
    {
      && rbr.Valid() && rbcnt == spec.rbcnt && rdnum == spec.rdnum && |rdlist| == |spec.ready|
      && (forall i :: 0 <= i < |rdlist| ==> rdlist[i].sockfd == spec.ready[i])
      && Held(rbr.items, at, spec.index)
    }

    ghost predicate Valid()
      reads this, rbr, rbr.items
    {
      Tied() && Inv(spec) && forall i :: 0 <= i < |rdlist| ==> rdlist[i] in rbr.items
    }

    constructor ()
      ensures Valid() && spec == NEW_POLL
    {
      rbr := new RbHead();
      rbcnt, rdlist, rdnum := 0, [], 0;
      spec, at := NEW_POLL, map[];
    }

    /** rbcnt is the size of the tree. */
    lemma TreeSize()
      requires Valid()
      ensures rbcnt == |RbModel.Items(rbr.tree)|
    {
      hide RbHead.Valid, Inv;
      TableSize();
      rbr.TreeItems();
      var s := RbModel.Items(rbr.tree);
      var keys := set x | x in s :: x.sockfd;
      forall fd | fd in at
        ensures fd in keys
      {
        assert at[fd] in s;
      }
      forall fd | fd in keys
        ensures fd in at
      {
        var x :| x in s && x.sockfd == fd;
        assert x in rbr.items;
      }
      assert keys == at.Keys;
      RbEdits.KeysCard(s, keys);
    }

    lemma TableSize()
      requires Valid()
      ensures rbcnt == |at.Keys|
    {
    }

    method Callback(sockid: int, event: bv32) returns (rc: int)
      requires Valid()
      modifies this, rbr.items`rdy, rbr.items`events
      ensures Valid() && spec == Step(old(spec), EpollSpec.Callback(sockid, event))
      ensures var p := old(spec);
        if sockid !in p.index then rc == -1 && spec == p
        else
          var e := p.index[sockid];
          if e.rdy then
            && rc == 1
            && spec == p.(index := p.index[sockid := Entry(Event(e.event.events | event, e.event.data), true)])
          else
            && rc == 0
            && spec == Poll(p.index[sockid := Entry(e.event, true)], p.rbcnt, [sockid] + p.ready, p.rdnum + 1)
    {
      hide RbHead.Valid, RbModel.Items, Inv, Step, Held;
      CallbackEffects(spec, sockid, event);
      HeldIn(rbr.items, at, spec.index, sockid);
      var epi, _ := rbr.Find(sockid);
      if epi == null {
        return -1;
      }
      HeldRdy(epi);
      if epi.rdy {
        AddBits(epi, event);
        return 1;
      }
      MakeReady(epi, event);
      rc := 0;
    }

    lemma CallbackEffects(p: Poll, fd: int, bits: bv32)
      ensures fd !in p.index ==> Step(p, EpollSpec.Callback(fd, bits)) == p
      ensures var q := Step(p, EpollSpec.Callback(fd, bits));
        fd in p.index && p.index[fd].rdy ==>
          q == p.(index := p.index[fd := Entry(Event(p.index[fd].event.events | bits, p.index[fd].event.data), true)])
      ensures var q := Step(p, EpollSpec.Callback(fd, bits));
        fd in p.index && !p.index[fd].rdy ==>
          q == Poll(p.index[fd := Entry(p.index[fd].event, true)], p.rbcnt, [fd] + p.ready, p.rdnum + 1)
    {
      hide Or;
      if fd in p.index && p.index[fd].rdy { var e := AgainEffect(p, fd, bits); }
      if fd in p.index && !p.index[fd].rdy { ReadyEffect(p, fd, bits); }
    }

    lemma HeldRdy(epi: Epitem)
      requires Valid() && epi in rbr.items
      ensures epi.sockfd in spec.index && spec.index[epi.sockfd].rdy == epi.rdy
    {
    }

    /** The part of the callback for an item that is ready. */
    method AddBits(epi: Epitem, event: bv32)
      requires Valid() && epi in rbr.items && epi.rdy
      modifies this`spec, epi`events
      ensures Valid() && spec == Step(old(spec), EpollSpec.Callback(epi.sockfd, event))
    {
      hide RbHead.Valid, Inv, Or;
      StepKeepsInv(spec, EpollSpec.Callback(epi.sockfd, event));
      spec := Step(spec, EpollSpec.Callback(epi.sockfd, event));
      epi.events := Or(epi.events, event);
    }

    /** The part of the callback under the spin lock, for an item that is not ready. */
    method MakeReady(epi: Epitem, event: bv32)
      requires Valid() && epi in rbr.items && !epi.rdy
      modifies this`rdlist, this`rdnum, this`spec, epi`rdy
      ensures Valid() && spec == Step(old(spec), EpollSpec.Callback(epi.sockfd, event))
    {
      hide RbHead.Valid, Inv, Step;
      StepKeepsInv(spec, EpollSpec.Callback(epi.sockfd, event));
      ReadyEffect(spec, epi.sockfd, event);
      spec := Step(spec, EpollSpec.Callback(epi.sockfd, event));
      epi.rdy := true;
      rdlist := [epi] + rdlist;
      rdnum := rdnum + 1;
    }

    /** A new item for a socket that is not registered. */
    method Register(sockid: int, event: Event)
      requires Valid() && sockid !in spec.index
      modifies this, rbr, rbr.items
      ensures Valid() && spec == Step(old(spec), Add(sockid, event))
    {
      hide RbHead.Valid, RbModel.Without, RbModel.Items, Inv, Step, Held;
      StepKeepsInv(spec, Add(sockid, event));
      AddEffect(spec, sockid, event);
      HeldIn(rbr.items, at, spec.index, sockid);
      var epi := new Epitem(sockid, event.events, event.data);
      var _ := rbr.Insert(epi);
      HeldMore(old(rbr.items), at, spec.index, epi);
      rbcnt := rbcnt + 1;
      spec, at := Step(spec, Add(sockid, event)), at[sockid := epi];
    }

    method CtlAddItem(sockid: int, event: Event) returns (rc: int)
      requires Valid()
      modifies this, rbr, rbr.items
      ensures Valid() && spec == Step(old(spec), Add(sockid, event))
      ensures var p := old(spec);
        if sockid in p.index then rc == -1 && spec == p
        else rc == 0 && spec == Poll(p.index[sockid := Entry(event, false)], p.rbcnt + 1, p.ready, p.rdnum)
    {
      hide RbHead.Valid, Inv, Step;
      if sockid !in spec.index { AddEffect(spec, sockid, event); }
      var epi, _ := rbr.Find(sockid);
      if epi != null {
        AddNothing(spec, sockid, event);
        return -1;
      }
      Register(sockid, event);
      rc := 0;
    }

    lemma SafeNotListed(epi: Epitem)
      requires Valid() && epi in rbr.items && Safe(spec, Del(epi.sockfd))
      ensures epi !in rdlist
    {
    }

    /** Deleting a ready item leaves it on the list; the index and the list then disagree. */
    method CtlDelItem(sockid: int) returns (rc: int)
      requires Valid()
      modifies this, rbr, rbr.items
      ensures Tied() && spec == Step(old(spec), Del(sockid))
      ensures Safe(old(spec), Del(sockid)) ==> Valid()
      ensures var p := old(spec);
        if sockid in p.index then rc == 0 && spec == Poll(p.index - {sockid}, p.rbcnt - 1, p.ready, p.rdnum)
        else rc == -1 && spec == p
    {
      hide RbHead.Valid, RbModel.Without, RbModel.Items, Inv, Step, Held;
      var epi, _ := rbr.Find(sockid);
      StepKeepsInv(spec, Del(sockid));
      HeldIn(rbr.items, at, spec.index, sockid);
      if epi == null {
        DelNothing(spec, sockid);
        return -1;
      }
      if Safe(spec, Del(sockid)) { SafeNotListed(epi); }
      DelEffect(spec, sockid);
      epi := rbr.Remove(epi);
      HeldLess(old(rbr.items), at, spec.index, epi);
      rbcnt := rbcnt - 1;
      spec, at := Step(spec, Del(sockid)), at - {sockid};
      rc := 0;
    }

    method CtlModItem(sockid: int, event: Event) returns (rc: int)
      requires Valid()
      modifies this, rbr.items`events
      ensures Valid() && spec == Step(old(spec), Mod(sockid, event))
      ensures var p := old(spec);
        if sockid in p.index then
          var e := p.index[sockid];
          && rc == 0
          && spec == p.(index := p.index[sockid := Entry(Event(event.events | 0x018, e.event.data), e.rdy)])
        else rc == -1 && spec == p
    {
      hide RbHead.Valid, Inv, Step, Held;
      if sockid in spec.index { ModBits(spec, sockid, event); }
      HeldIn(rbr.items, at, spec.index, sockid);
      var epi, _ := rbr.Find(sockid);
      if epi != null {
        SetEvents(epi, event);
        rc := 0;
      } else {
        ModNothing(spec, sockid, event);
        rc := -1;
      }
    }

    /** The two assignments for an item that was found. */
    method SetEvents(epi: Epitem, event: Event)
      requires Valid() && epi in rbr.items
      modifies this`spec, epi`events
      ensures Valid() && spec == Step(old(spec), Mod(epi.sockfd, event))
    {
      hide RbHead.Valid, Inv, Step, Or;
      StepKeepsInv(spec, Mod(epi.sockfd, event));
      ModEffect(spec, epi.sockfd, event);
      epi.events := event.events;
      epi.events := Or(epi.events, Or(EPOLLERR, EPOLLHUP));
      spec := Step(spec, Mod(epi.sockfd, event));
    }

    /** nepoll_ctl. What it does to the index, case by case: a missing event is refused unless the entry is to be
        deleted, an unknown operation does nothing, and only a deletion of a ready entry breaks the agreement. */
    method Ctl(op: CtlOp, sockid: int, event: Option<Event>) returns (rc: int)
      requires Valid()
      modifies this, rbr, rbr.items
      ensures rc == CtlResult(old(spec), op, sockid, event) && Tied()
      ensures var o := CtlStep(op, sockid, event);
        if o.None? then Valid() && spec == old(spec)
        else spec == Step(old(spec), o.value) && (Safe(old(spec), o.value) ==> Valid())
      ensures (event.None? && !op.CtlDel?) || op.CtlOther? ==>
        Valid() && spec == old(spec) && rc == if event.None? then -1 else 0
      ensures op.CtlAdd? && event.Some? ==> var p := old(spec);
        if sockid in p.index then rc == -1 && spec == p
        else rc == 0 && spec == Poll(p.index[sockid := Entry(event.value, false)], p.rbcnt + 1, p.ready, p.rdnum)
      ensures op.CtlDel? ==> var p := old(spec);
        if sockid in p.index then rc == 0 && spec == Poll(p.index - {sockid}, p.rbcnt - 1, p.ready, p.rdnum)
        else rc == -1 && spec == p
      ensures op.CtlMod? && event.Some? ==> var p := old(spec);
        if sockid in p.index then
          var e := p.index[sockid];
          && rc == 0
          && spec == p.(index := p.index[sockid := Entry(Event(event.value.events | 0x018, e.event.data), e.rdy)])
        else rc == -1 && spec == p
      ensures (op.CtlDel? && sockid in old(spec).index && old(spec).index[sockid].rdy) || Valid()
    {
      hide Inv, Step;
      if event.None? && !op.CtlDel? {
        return -1;
      }
      match op
      case CtlAdd => rc := CtlAddItem(sockid, event.value);
      case CtlDel => rc := CtlDelItem(sockid);
      case CtlMod => rc := CtlModItem(sockid, event.value);
      case CtlOther => rc := 0;
    }

    /** The part of nepoll_wait behind the blocking loop. */
    method Wait(maxevents: int) returns (rc: int, out: seq<Event>)
      requires Valid()
      modifies this, rbr.items`rdy
      ensures Valid() && spec == Step(old(spec), EpollSpec.Wait(maxevents))
      ensures maxevents <= 0 ==> rc == -1 && out == []
      ensures maxevents > 0 ==> rc == |Reported(old(spec), EpollSpec.Wait(maxevents))|
      ensures maxevents > 0 ==> out == Events(old(spec), rc)
      ensures maxevents <= 0 ==> spec == old(spec)
      ensures maxevents > 0 ==> var p := old(spec);
        && rc == |out| == (if p.rdnum < maxevents then p.rdnum else maxevents) && 0 <= rc <= |p.ready|
        && spec.ready == p.ready[rc..] && spec.rdnum == p.rdnum - rc && spec.rbcnt == p.rbcnt
        && spec.index.Keys == p.index.Keys
        && (forall fd :: fd in p.index ==>
          spec.index[fd] == Entry(p.index[fd].event, if fd in p.ready[..rc] then false else p.index[fd].rdy))
        && forall i :: 0 <= i < rc ==> p.ready[i] in p.index && out[i] == p.index[p.ready[i]].event
    {
      hide RbHead.Valid, Step, Inv, Tied, Events, NotReady;
      out := [];
      NoEvents(spec);
      WaitZero(spec);
      if maxevents <= 0 {
        NoWait(spec, maxevents);
        return -1, [];
      }
      ListMeaning();
      WaitAll(spec, maxevents);
      WaitIs(spec, maxevents);
      var cnt, num := 0, if rdnum > maxevents then maxevents else rdnum;
      ghost var p, total := spec, num;
      while num != 0 && rdlist != []
        invariant Valid() && spec == Step(p, EpollSpec.Wait(cnt))
        invariant cnt + num == total && 0 <= num && cnt == |out| && |rdlist| == |p.ready| - cnt
        invariant out == Events(p, cnt)
        decreases num
      {
        WaitPart(p, cnt);
        WaitOneMore(p, cnt);
        EventsNext(p, cnt);
        ListMeaning();
        var epi := rdlist[0];
        out := out + [Event(epi.events, epi.data)];
        TakeFirst(epi);
        num := num - 1;
        cnt := cnt + 1;
      }
      rc := cnt;
    }

    /** What the first element of the list is. */
    lemma ListMeaning()
      requires Valid()
      ensures |rdlist| == |spec.ready| && rdnum == |spec.ready| && Inv(spec)
      ensures rdlist != [] ==> rdlist[0].sockfd == spec.ready[0] && spec.ready[0] in spec.index
      ensures rdlist != [] ==> spec.index[spec.ready[0]] == EntryOf(rdlist[0])
    {
    }

    method TakeFirst(epi: Epitem)
      requires Valid() && rdlist != [] && epi == rdlist[0]
      modifies this`rdlist, this`rdnum, this`spec, rbr.items`rdy
      ensures Valid() && spec == Step(old(spec), EpollSpec.Wait(1)) && rdlist == old(rdlist)[1..]
    {
      hide RbHead.Valid, Inv, Step;
      WaitKeepsInv(spec, 1);
      TakeEffect(spec);
      rdlist := rdlist[1..];
      epi.rdy := false;
      rdnum := rdnum - 1;
      spec := Step(spec, EpollSpec.Wait(1));
    }
  }
}
