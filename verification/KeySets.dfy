/** Both trees as sets of keys, over any sequence of calls. */
module KeySets {
  import opened Epitems
  import RbModel
  import opened RbTree
  import opened Splay

  datatype Op = Put(key: int) | Drop(key: int) | Has(key: int)

  function Next(s: set<int>, op: Op): set<int> {
    match op
    case Put(k) => s + {k}
    case Drop(k) => s - {k}
    case Has(_) => s
  }

  /** After each call, whether its key had been there. */
  function Replies(s: set<int>, ops: seq<Op>): seq<bool>
    decreases |ops|
  {
    if ops == [] then [] else [ops[0].key in s] + Replies(Next(s, ops[0]), ops[1..])
  }

  function After(s: set<int>, ops: seq<Op>): set<int>
    decreases |ops|
  {
    if ops == [] then s else After(Next(s, ops[0]), ops[1..])
  }

  lemma {:induction false} OneMore(s: set<int>, ops: seq<Op>, op: Op)
    ensures After(s, ops + [op]) == Next(After(s, ops), op)
    ensures Replies(s, ops + [op]) == Replies(s, ops) + [op.key in After(s, ops)]
    decreases |ops|
  {
    if ops == [] {
      assert [op][1..] == [];
    } else {
      assert (ops + [op])[1..] == ops[1..] + [op];
      OneMore(Next(s, ops[0]), ops[1..], op);
    }
  }

  ghost function Keys(items: set<Epitem>): set<int> {
    set x | x in items :: x.sockfd
  }

  lemma KeyIn(items: set<Epitem>, x: Epitem)
    requires x in items
    ensures x.sockfd in Keys(items)
  {
  }

  lemma KeyOut(items: set<Epitem>, k: int)
    requires forall x :: x in items ==> x.sockfd != k
    ensures k !in Keys(items)
  {
  }

  lemma KeyMore(items: set<Epitem>, x: Epitem)
    ensures Keys(items + {x}) == Keys(items) + {x.sockfd}
  {
    assert x in items + {x};
    assert forall y :: y in items ==> y in items + {x};
  }

  lemma KeyLess(items: set<Epitem>, x: Epitem)
    requires x in items && forall y :: y in items && y.sockfd == x.sockfd ==> y == x
    ensures Keys(items - {x}) == Keys(items) - {x.sockfd}
  {
    forall k | k in Keys(items) - {x.sockfd}
      ensures k in Keys(items - {x})
    {
      var y :| y in items && y.sockfd == k;
      assert y in items - {x};
    }
  }

  lemma SplayUnique(h: SplayHead, x: Epitem, y: Epitem)
    requires h.Valid() && x in h.items && y in h.items && x.sockfd == y.sockfd
    ensures x == y
  {
    RbModel.Unique(h.tree, x, y);
  }

  lemma RbUnique(h: RbHead, x: Epitem, y: Epitem)
    requires h.Valid() && x in h.items && y in h.items && x.sockfd == y.sockfd
    ensures x == y
  {
    h.Ordered();
    RbModel.Unique(h.tree, x, y);
  }

  method OnSplay(h: SplayHead, op: Op) returns (had: bool)
    requires h.Valid()
    modifies h, h.items
    ensures h.Valid() && Keys(h.items) == Next(Keys(old(h.items)), op) && had == (op.key in Keys(old(h.items)))
    ensures forall x :: x in h.items ==> x in old(h.items) || fresh(x)
  {
    hide SplayHead.Valid, Keys, RbModel.Without, RbModel.Items;
    ghost var was := h.items;
    match op
    case Put(k) =>
      var x := new Epitem(k, 0, 0);
      var res := h.Insert(x);
      had := res != null;
      if had { KeyIn(was, res); } else { KeyOut(was, k); KeyMore(was, x); }
    case Drop(k) =>
      var x := new Epitem(k, 0, 0);
      forall a, b | a in was && b in was && a.sockfd == b.sockfd
        ensures a == b
      {
        SplayUnique(h, a, b);
      }
      var res, gone := h.Remove(x);
      had := res != null;
      if had { KeyIn(was, gone); KeyLess(was, gone); } else { KeyOut(was, k); }
    case Has(k) =>
      var res := h.Find(k);
      had := res != null;
      if had { KeyIn(was, res); } else { KeyOut(was, k); }
  }

  method OnRb(h: RbHead, op: Op) returns (had: bool)
    requires h.Valid()
    modifies h, h.items
    ensures h.Valid() && Keys(h.items) == Next(Keys(old(h.items)), op) && had == (op.key in Keys(old(h.items)))
    ensures forall x :: x in h.items ==> x in old(h.items) || fresh(x)
  {
    hide RbHead.Valid, Keys, RbModel.Without, RbModel.Items;
    ghost var was := h.items;
    var res, _ := h.Find(op.key);
    had := res != null;
    if had { KeyIn(was, res); } else { KeyOut(was, op.key); }
    match op
    case Put(k) =>
      if !had {
        var x := new Epitem(k, 0, 0);
        var _ := h.Insert(x);
        KeyMore(was, x);
      }
    case Drop(k) =>
      if had {
        forall a | a in was && a.sockfd == res.sockfd
          ensures a == res
        {
          RbUnique(h, a, res);
        }
        var _ := h.Remove(res);
        KeyLess(was, res);
      }
    case Has(k) =>
  }

  /** The two trees, given the same calls, agree with a plain set of keys and so with each other. */
  method Both(ops: seq<Op>) returns (rb: RbHead, splay: SplayHead, out: seq<bool>)
    ensures rb.Valid() && splay.Valid() && out == Replies({}, ops)
    ensures Keys(rb.items) == Keys(splay.items) == After({}, ops)
  {
    hide SplayHead.Valid, RbHead.Valid, Keys, Replies, After, Next;
    rb := new RbHead();
    splay := new SplayHead();
    out := [];
    Nothing();
    for i := 0 to |ops|
      invariant fresh(rb) && fresh(splay) && fresh(rb.items) && fresh(splay.items) && rb.items !! splay.items
      invariant rb.Valid() && splay.Valid() && out == Replies({}, ops[..i])
      invariant Keys(rb.items) == Keys(splay.items) == After({}, ops[..i])
    {
      OneMore({}, ops[..i], ops[i]);
      assert ops[..i + 1] == ops[..i] + [ops[i]];
      var a := OnRb(rb, ops[i]);
      var b := OnSplay(splay, ops[i]);
      assert a == b;
      out := out + [a];
    }
    assert ops[..|ops|] == ops;
  }

  lemma Nothing()
    ensures Replies({}, []) == [] && After({}, []) == {} && Keys({}) == {}
  {
  }
}
