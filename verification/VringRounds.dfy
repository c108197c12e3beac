/** vring.c: what a packet that put_vring accepts, but process_desc does not take, does to the descriptors. */
module VringRounds {
  import opened Common
  import opened Rings
  import opened VringModel
  import opened VringC
  import opened TxSpec

  /** One packet is put, served and reclaimed: there is a proper free list again if and only if the packet
      is refused, or passes the length test, or the used entry of an earlier turn names its descriptor. */
  method OneRound(client: Vring, server: Vring, data: seq<Byte>) returns (handed: seq<seq<Byte>>)
    requires client.shm == server.shm && client != server && client.Client() && server.Server()
    requires client.shm.free != [] && client.shm.pend == [] && client.shm.usedIdx + 1 < client.shm.num
    modifies client, server, client.shm, client.shm.desc, client.shm.avail, client.shm.used, client.shm.bufs
    ensures handed == if |data| < 1508 then [data] else []
    ensures client.Restored() <==>
      || |data| > 1528 || |data| < 1508
      || old(client.shm.used[Slot(client.shm.usedIdx, 0, client.shm.num)].id) == old(client.lastAvailIdx)
  {
    hide Threaded, Holds, Packed, Backed, Below, Slot, Idx16, Partition, Vring.Restored, PutInto;
    var m := client.shm;
    ghost var ids, d, u, k := Ids(m.used[..]), client.lastAvailIdx, m.usedIdx, Slot(m.usedIdx, 0, m.num);
    assert ids[k] == m.used[k].id;
    assert m.sent == [];
    var r := client.PutVring(data, server);
    assert Ids(m.used[..]) == ids && [] + [data] == [data] && [] + [d] == [d];
    OneMarkedIff(ids, u, d, data);
    OneFitting(data);
    var count, checks;
    count, handed, checks := server.ProcessAvailVring(client);
    assert Marked(ids, u, [], []) == [];
    var _ := client.ProcessUsedVring(server);
  }

  lemma OneFitting(x: seq<Byte>)
    ensures Fitting([x]) == (if Fits(x) then [x] else []) && Fitting([]) == []
  {
    assert [x][1..] == [];
  }

  /** The packets that put_vring accepts. */
  function Accepted(qs: seq<seq<Byte>>): (r: seq<seq<Byte>>)
    ensures |r| <= |qs|
  {
    if qs == [] then []
    else
      var last := qs[|qs| - 1];
      Accepted(qs[..|qs| - 1]) + if |last| <= BUFFER_SIZE then [last] else []
  }

  /** All packets but the first pass the length test. */
  predicate RestFit(qs: seq<seq<Byte>>) {
    forall i :: 1 <= i < |qs| ==> |qs[i]| < 1508
  }

  /** On a new ring, where every used entry still names descriptor 0, any packets are put. */
  method PutAll(num: nat, qs: seq<seq<Byte>>) returns (client: Vring, server: Vring)
    requires GoodNum(num) && |Accepted(qs)| < num
    ensures fresh(client) && fresh(server) && fresh(client.shm) && fresh(client.shm.desc) && fresh(client.shm.avail)
    ensures fresh(client.shm.used) && fresh(client.shm.bufs) && client != server && client.shm == server.shm
    ensures client.Client() && server.Server() && client.shm.num == num && client.shm.usedIdx == 0
    ensures var m, n := client.shm, |Accepted(qs)|;
      && Ids(m.used[..]) == Zeroed(num) && m.done == [] && m.sent == Accepted(qs)
      && m.pend == Upto(0, n) && m.free == Upto(n, num) && client.lastAvailIdx == n
  {
    hide Threaded, Holds, Packed, Backed, Below, Slot, Idx16, Partition, GoodNum, PutInto, Accepted, Ids;
    NumRange(num);
    var m := new VhostVring(num);
    client := new Vring(m);
    server := new Vring(m);
    Start(m, client, server);
    StartsNew(m);
    NoneAccepted();
    for i := 0 to |qs|
      invariant fresh(m) && fresh(m.desc) && fresh(m.avail) && fresh(m.used) && fresh(m.bufs)
      invariant fresh(client) && fresh(server) && client != server && client.shm == m && server.shm == m && m.num == num
      invariant client.Client() && server.Server() && Ids(m.used[..]) == Zeroed(num) && m.usedIdx == 0 && m.done == []
      invariant var n := |Accepted(qs[..i])|;
        n < num && m.free == Upto(n, num) && m.pend == Upto(0, n) && m.sent == Accepted(qs[..i])
    {
      ghost var n := |Accepted(qs[..i])|;
      AcceptedNext(qs, i);
      UptoNext(n, num);
      var _ := client.PutVring(qs[i], server);
    }
    assert qs[..|qs|] == qs;
    UptoNext(|Accepted(qs)|, num);
    Threads(m.desc[..], client.lastAvailIdx, m.free, m.pend);
  }

  lemma NoneAccepted()
    ensures Accepted([]) == []
  {
  }

  lemma {:induction false} AcceptedGrows(qs: seq<seq<Byte>>, i: nat)
    requires i <= |qs|
    ensures |Accepted(qs[..i])| <= |Accepted(qs)|
    decreases |qs|
  {
    if i == |qs| {
      assert qs[..i] == qs;
    } else {
      AcceptedGrows(qs[..|qs| - 1], i);
      assert qs[..|qs| - 1][..i] == qs[..i];
    }
  }

  lemma AcceptedNext(qs: seq<seq<Byte>>, i: nat)
    requires i < |qs|
    ensures Accepted(qs[..i + 1]) == Accepted(qs[..i]) + if |qs[i]| <= BUFFER_SIZE then [qs[i]] else []
    ensures |Accepted(qs[..i + 1])| <= |Accepted(qs)|
  {
    AcceptedGrows(qs, i + 1);
    assert qs[..i + 1][..i] == qs[..i];
  }

  /** Any packets are put on a new ring, served and reclaimed: there is a proper free list again if and only if
      all accepted packets but the first pass the length test. */
  method FirstRound(num: nat, qs: seq<seq<Byte>>)
    returns (client: Vring, handed: seq<seq<Byte>>, ghost d: seq<Desc>, ghost w: seq<nat>)
    requires GoodNum(num) && |Accepted(qs)| < num
    ensures handed == Fitting(Accepted(qs)) && (client.Restored() <==> RestFit(Accepted(qs)))
    ensures w == Marked(Zeroed(num), 0, Upto(0, |Accepted(qs)|), Accepted(qs))
    ensures |d| == client.shm.desc.Length == num && Below(w, num)
    ensures (client.shm.desc[..], client.lastAvailIdx) == FreeAll(d, |Accepted(qs)|, w)
  {
    hide Threaded, Holds, Packed, Backed, Below, Slot, Idx16, Partition, Fitting, Marked, FreeAll, GoodNum, PutInto;
    hide Accepted, Ids;
    var server;
    client, server := PutAll(num, qs);
    var m := client.shm;
    MarkedFirstIff(num, Accepted(qs));
    w := Marked(Zeroed(num), 0, Upto(0, |Accepted(qs)|), Accepted(qs));
    var count, checks;
    count, handed, checks := server.ProcessAvailVring(client);
    assert [] + w == w;
    d := m.desc[..];
    var _ := client.ProcessUsedVring(server);
  }

  lemma Threads(desc: seq<Desc>, head: nat, free: seq<nat>, pend: seq<nat>)
    requires Threaded(desc, head, free, pend) && free != []
    ensures head == free[0]
  {
  }

  lemma UptoNext(i: nat, n: nat)
    requires i < n
    ensures Upto(i, n) != [] && Upto(i, n)[0] == i && Upto(i, n)[1..] == Upto(i + 1, n)
    ensures Upto(0, i) + [i] == Upto(0, i + 1)
  {
  }

  /** On zeroed entries, each packet leaves its descriptor or 0. */
  lemma {:induction false} MarkedZero(num: nat, from: nat, p: seq<nat>, q: seq<seq<Byte>>)
    requires |p| == |q| && num > 0
    ensures forall i :: 0 <= i < |p| ==> Marked(Zeroed(num), from, p, q)[i] == if Fits(q[i]) then p[i] else 0
    decreases |p|
  {
    if p != [] { MarkedZero(num, from + 1, p[1..], q[1..]); }
  }

  lemma MarkedFirstIff(num: nat, qs: seq<seq<Byte>>)
    requires |qs| < num
    ensures var p := Upto(0, |qs|);
      multiset(Marked(Zeroed(num), 0, p, qs)) == multiset(p) <==> RestFit(qs)
  {
    var p := Upto(0, |qs|);
    var w := Marked(Zeroed(num), 0, p, qs);
    MarkedZero(num, 0, p, qs);
    if RestFit(qs) {
      assert w == p;
    } else {
      var i :| 1 <= i < |qs| && !Fits(qs[i]);
      LostFrom(num, qs, i);
    }
  }

  lemma LostFrom(num: nat, qs: seq<seq<Byte>>, i: nat)
    requires 0 < i < |qs| < num && !Fits(qs[i])
    ensures var p := Upto(0, |qs|);
      multiset(Marked(Zeroed(num), 0, p, qs)) != multiset(p)
  {
    hide Marked;
    var p := Upto(0, |qs|);
    var w := Marked(Zeroed(num), 0, p, qs);
    MarkedZero(num, 0, p, qs);
    assert p[i] == i && i in multiset(p);
    assert i !in w;
  }

  lemma TwoAccepted(x: seq<Byte>, y: seq<Byte>)
    requires |x| <= BUFFER_SIZE && |y| <= BUFFER_SIZE
    ensures Accepted([x]) == [x] && Accepted([x, y]) == [x, y]
  {
    assert [x, y][..1] == [x] && [x][..0] == [];
  }

  /** A small packet and one that is accepted but does not pass the length test: descriptor 0 is freed twice and is
      its own successor in the free list, and descriptor 1 is lost. */
  method LostDescriptor(num: nat, x: seq<Byte>, y: seq<Byte>) returns (client: Vring)
    requires GoodNum(num) && num > 2 && |x| < 1508 <= |y| <= 1528
    ensures client.shm.desc.Length == num && !client.Restored()
    ensures client.lastAvailIdx == 0 && client.shm.desc[0].next == 0
  {
    hide Accepted, Vring.Restored;
    var handed;
    ghost var d, w;
    TwoAccepted(x, y);
    client, handed, d, w := FirstRound(num, [x, y]);
    assert !Fits([x, y][1]);
    MarkedZero(num, 0, Upto(0, 2), [x, y]);
    assert w == [0, 0];
    FreedTwice(d, 2);
  }

  lemma FreedTwice(d: seq<Desc>, head: nat)
    requires |d| > 0
    ensures var r := FreeAll(d, head, [0, 0]); r.1 == 0 && r.0[0].next == 0
  {
    assert [0, 0][1..] == [0] && [0][1..] == [];
    var e := d[0 := Freed(d[0], head)];
    assert FreeAll(d, head, [0, 0]) == FreeAll(e, 0, [0]) == FreeAll(e[0 := Freed(e[0], 0)], 0, []);
  }

  /** The same packet alone does no harm on a new ring: the entry it leaves happens to be its own. */
  method LuckyPacket(num: nat, y: seq<Byte>) returns (client: Vring)
    requires GoodNum(num) && num > 1 && 1508 <= |y| <= 1528
    ensures client.Restored()
  {
    hide Accepted, Vring.Restored;
    var handed;
    ghost var d, w;
    TwoAccepted(y, y);
    client, handed, d, w := FirstRound(num, [y]);
  }

  /** Two packets were put, served and reclaimed, so that the free list starts with descriptor 1, then 0. */
  method Turned(num: nat, x: seq<Byte>) returns (client: Vring, server: Vring)
    requires GoodNum(num) && num > 2 && Fits(x)
    ensures fresh(client) && fresh(server) && fresh(client.shm) && fresh(client.shm.desc) && fresh(client.shm.avail)
    ensures fresh(client.shm.used) && fresh(client.shm.bufs) && client != server && client.shm == server.shm
    ensures client.Client() && server.Server() && client.shm.num == num
    ensures var m := client.shm; m.free == [1] + ([0] + Upto(2, num)) && m.pend == [] && m.sent == []
  {
    hide Threaded, Holds, Packed, Backed, Below, Slot, Idx16, Partition, Fitting, Marked, FreeAll, GoodNum, PutInto;
    hide Accepted, Ids, AllFit, WrittenAll, Vring.Restored;
    TwoAccepted(x, x);
    client, server := PutAll(num, [x, x]);
    TwoFit(x);
    MarkedAll(Ids(client.shm.used[..]), 0, client.shm.pend, client.shm.sent);
    var count, handed, checks := server.ProcessAvailVring(client);
    var _ := client.ProcessUsedVring(server);
    UptoTurned(num);
  }

  /** A small packet goes into descriptor 1, then one that its buffer cannot hold with the header into descriptor 0. */
  method Overfull(num: nat, x: seq<Byte>, z: seq<Byte>) returns (client: Vring, server: Vring)
    requires GoodNum(num) && num > 2 && |x| < 1508 && 1518 < |z| <= 1528
    ensures fresh(client) && fresh(server) && fresh(client.shm) && fresh(client.shm.desc) && fresh(client.shm.avail)
    ensures fresh(client.shm.used) && fresh(client.shm.bufs) && client != server && client.shm == server.shm
    ensures client.Wired() && server.Server() && client.shm.bufs.Length == num + 1
    ensures client.shm.pend == [1, 0] && client.shm.sent == [x, z]
    ensures var b, over := client.shm.bufs[1], |z| - 1518;
      |b| == 1528 && b[..over] == z[1518..] && Blank(b[over..10])
  {
    hide Threaded, Holds, Packed, Backed, Below, Slot, Idx16, Partition, Fitting, Marked, GoodNum, PutInto;
    hide Ids, WrittenAll, Checks, Heads, Blank, Upto;
    client, server := Turned(num, x);
    var m := client.shm;
    Threads(m.desc[..], client.lastAvailIdx, m.free, m.pend);
    var r := client.PutVring(x, server);
    Threads(m.desc[..], client.lastAvailIdx, m.free, m.pend);
    ghost var b := m.bufs[..];
    FirstZeros(b[1]);
    r := client.PutVring(z, server);
    Spills(b, 0, z);
  }

  /** A packet that is longer than its buffer with the header costs the next buffer its header, but not its packet:
      descriptor 1 is pending when the packet goes into descriptor 0. */
  method LostHeader(num: nat, x: seq<Byte>, z: seq<Byte>)
    returns (client: Vring, handed: seq<seq<Byte>>, checks: seq<bool>)
    requires GoodNum(num) && num > 2 && |x| < 1508 && 1518 < |z| <= 1528
    ensures handed == [x] && client.shm.bufs.Length == num + 1
    ensures |client.shm.bufs[1]| == 1528 && client.shm.bufs[1][..|z| - 1518] == z[1518..]
    ensures checks == [Blank(z[1518..])]
  {
    hide Fitting, Marked, GoodNum, Ids, WrittenAll, Checks, Heads, Blank, Vring.Client;
    var server;
    client, server := Overfull(num, x, z);
    FirstOnly(x, z);
    FirstCheck(client.shm.bufs[..], x, z);
    var count;
    count, handed, checks := server.ProcessAvailVring(client);
  }

  lemma FirstZeros(b: seq<Byte>)
    requires |b| == 1528 && forall i :: 0 <= i < 10 ==> b[i] == 0
    ensures Blank(b[..10])
  {
  }

  lemma FirstCheck(bufs: seq<seq<Byte>>, x: seq<Byte>, z: seq<Byte>)
    requires |bufs| > 1 && |bufs[1]| == 1528 && |x| < 1508 && 1518 < |z| <= 1528
    requires bufs[1][..|z| - 1518] == z[1518..] && Blank(bufs[1][|z| - 1518..10])
    ensures Checks(Heads(bufs), [1, 0], [x, z]) == [Blank(z[1518..])]
  {
    var h := bufs[1][..10];
    assert h == z[1518..] + bufs[1][|z| - 1518..10];
    BlankBoth(z[1518..], bufs[1][|z| - 1518..10]);
    assert [x, z][1..] == [z] && [1, 0][1..] == [0] && [z][1..] == [] && [0][1..] == [];
    assert Checks(Heads(bufs), [0], [z]) == [];
  }

  lemma TwoFit(x: seq<Byte>)
    requires Fits(x)
    ensures AllFit([x, x])
  {
  }

  lemma UptoTurned(num: nat)
    requires num > 2
    ensures Reversed(Upto(0, 2)) + Upto(2, num) == [1] + ([0] + Upto(2, num))
  {
    assert Upto(0, 2) == [0, 1] && [0, 1][1..] == [1] && [1][1..] == [];
    assert Reversed([1]) == [1] && Reversed([0, 1]) == [1, 0];
  }

  lemma Spills(bufs: seq<seq<Byte>>, d: nat, z: seq<Byte>)
    requires d + 1 < |bufs| && |bufs[d]| == |bufs[d + 1]| == BUFFER_SIZE
    requires 1518 < |z| <= 1528 && Blank(bufs[d + 1][..10])
    ensures var b, over := PutInto(bufs, d, z), |z| - 1518;
      |b| == |bufs| && |b[d + 1]| == 1528 && b[d + 1][..over] == z[1518..] && Blank(b[d + 1][over..10])
  {
    var b, over := PutInto(bufs, d, z), |z| - 1518;
    assert (Zeros() + z)[BUFFER_SIZE..] == z[1518..];
    var n, o := b[d + 1], bufs[d + 1];
    forall i | over <= i < 10
      ensures n[i] == 0
    {
      assert n[i] == o[i] == o[..10][i];
    }
  }

  lemma FirstOnly(x: seq<Byte>, z: seq<Byte>)
    requires Fits(x) && !Fits(z)
    ensures Fitting([x, z]) == [x] && [] + [x] == [x] && [x] + [z] == [x, z]
  {
    assert [x, z][1..] == [z];
    OneFitting(z);
  }
}
