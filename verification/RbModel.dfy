/** The item type of the epoll index: a socket with its place in the red-black tree. */
module Epitems {
  class Epitem {
    const sockfd: int
    var left: Epitem?
    var right: Epitem?
    var parent: Epitem?
    var red: bool
    var rdy: bool
    var events: bv32
    var data: int

    constructor (fd: int, ev: bv32, d: int)
      ensures sockfd == fd && events == ev && data == d && !rdy
    {
      sockfd, events, data, rdy := fd, ev, d, false;
      left, right, parent, red := null, null, null, false;
    }
  }

  /** sockfd_cmp */
  function Compare(sockfd1: int, sockfd2: int): int {
    if sockfd1 < sockfd2 then -1 else if sockfd1 == sockfd2 then 0 else 1
  }
}

/** Ghost trees and one-hole contexts, and the links that a tree prescribes for each of its items. */
module RbModel {
  import opened Epitems

  datatype Tree = Leaf | Node(l: Tree, item: Epitem, red: bool, r: Tree)

  /** A tree with one hole. The hole is the left or the right child of `item`, and `sib` is the other child. */
  datatype Ctx =
    | Top
    | InLeft(up: Ctx, item: Epitem, red: bool, sib: Tree)
    | InRight(up: Ctx, item: Epitem, red: bool, sib: Tree)

  /** The four link fields of an item. */
  datatype Cell = Cell(left: Epitem?, right: Epitem?, parent: Epitem?, red: bool)

  ghost function Root(t: Tree): Epitem? {
    if t.Leaf? then null else t.item
  }

  ghost function CtxItem(c: Ctx): Epitem? {
    if c.Top? then null else c.item
  }

  ghost function Plug(c: Ctx, t: Tree): Tree {
    match c
    case Top => t
    case InLeft(up, n, red, s) => Plug(up, Node(t, n, red, s))
    case InRight(up, n, red, s) => Plug(up, Node(s, n, red, t))
  }

  ghost function Set(t: Tree): set<Epitem> {
    match t
    case Leaf => {}
    case Node(l, n, _, r) => Set(l) + {n} + Set(r)
  }

  ghost function CtxSet(c: Ctx): set<Epitem> {
    if c.Top? then {} else CtxSet(c.up) + {c.item} + Set(c.sib)
  }

  ghost function Fill(c: Ctx, t: Tree): Tree
    requires !c.Top?
  {
    if c.InLeft? then Node(t, c.item, c.red, c.sib) else Node(c.sib, c.item, c.red, t)
  }

  /** The items in symmetric order. */
  ghost function Items(t: Tree): seq<Epitem> {
    match t
    case Leaf => []
    case Node(l, n, _, r) => Items(l) + [n] + Items(r)
  }

  /** The symmetric order of the whole tree when the hole of `c` holds the items `s`. */
  ghost function Flat(c: Ctx, s: seq<Epitem>): seq<Epitem> {
    match c
    case Top => s
    case InLeft(up, n, _, sib) => Flat(up, s + [n] + Items(sib))
    case InRight(up, n, _, sib) => Flat(up, Items(sib) + [n] + s)
  }

  ghost predicate Sorted(s: seq<Epitem>) {
    forall i, j :: 0 <= i < j < |s| ==> s[i].sockfd < s[j].sockfd
  }

  /** The key `k` belongs into the hole of `c`. */
  ghost predicate InHole(c: Ctx, k: int) {
    match c
    case Top => true
    case InLeft(up, n, _, _) => k < n.sockfd && InHole(up, k)
    case InRight(up, n, _, _) => n.sockfd < k && InHole(up, k)
  }

  /** The links of the item with key `k` in a tree whose root has parent `par`. */
  ghost function CellAt(t: Tree, par: Epitem?, k: int): Cell {
    match t
    case Leaf => Cell(null, null, null, false)
    case Node(l, n, red, r) =>
      if k < n.sockfd then CellAt(l, n, k)
      else if n.sockfd < k then CellAt(r, n, k)
      else Cell(Root(l), Root(r), par, red)
  }

  ghost function WithChild(c: Ctx, cell: Cell, x: Epitem?): Cell {
    if c.InLeft? then cell.(left := x) else cell.(right := x)
  }

  lemma {:induction false} PlugItems(c: Ctx, t: Tree)
    ensures Items(Plug(c, t)) == Flat(c, Items(t))
  {
    match c
    case Top =>
    case InLeft(up, n, red, s) => PlugItems(up, Node(t, n, red, s));
    case InRight(up, n, red, s) => PlugItems(up, Node(s, n, red, t));
  }

  /** What is sorted as a whole is sorted inside the hole, and everything there belongs there. */
  lemma {:induction false} SortedHole(c: Ctx, s: seq<Epitem>)
    requires Sorted(Flat(c, s))
    ensures Sorted(s)
    ensures forall i :: 0 <= i < |s| ==> InHole(c, s[i].sockfd)
    ensures !c.Top? ==> InHole(c.up, c.item.sockfd)
    ensures !c.Top? ==> Sorted(if c.InLeft? then s + [c.item] + Items(c.sib) else Items(c.sib) + [c.item] + s)
  {
    match c
    case Top =>
    case InLeft(up, n, _, sib) =>
      var w := s + [n] + Items(sib);
      SortedHole(up, w);
      assert w[|s|] == n && forall i :: 0 <= i < |s| ==> w[i] == s[i];
    case InRight(up, n, _, sib) =>
      var w := Items(sib) + [n] + s;
      SortedHole(up, w);
      var m := |Items(sib)|;
      assert w[m] == n && forall i :: 0 <= i < |s| ==> s[i] == w[m + 1 + i];
  }

  lemma SortedSplit(a: seq<Epitem>, x: Epitem, b: seq<Epitem>)
    requires Sorted(a + [x] + b)
    ensures Sorted(a) && forall i :: 0 <= i < |a| ==> a[i].sockfd < x.sockfd
    ensures Sorted(b) && forall i :: 0 <= i < |b| ==> x.sockfd < b[i].sockfd
  {
    var s := a + [x] + b;
    assert s[|a|] == x;
    assert forall i :: 0 <= i < |a| ==> s[i] == a[i];
    assert forall i :: 0 <= i < |b| ==> b[i] == s[|a| + 1 + i];
  }

  /** The root is one of the items. */
  lemma RootIndex(t: Tree)
    requires t.Node?
    ensures |Items(t.l)| < |Items(t)| && Items(t)[|Items(t.l)|] == t.item
  {
  }

  /** Sortedness, node by node. */
  lemma {:induction false} SortedNode(t: Tree)
    requires t.Node? && Sorted(Items(t))
    ensures Sorted(Items(t.l)) && Sorted(Items(t.r))
    ensures t.l.Node? ==> t.l.item.sockfd < t.item.sockfd
    ensures t.r.Node? ==> t.item.sockfd < t.r.item.sockfd
  {
    SortedSplit(Items(t.l), t.item, Items(t.r));
    if t.l.Node? { RootIndex(t.l); }
    if t.r.Node? { RootIndex(t.r); }
  }

  /** The key of the root of a subtree belongs into its hole. */
  lemma {:induction false} SortedRoot(c: Ctx, t: Tree)
    requires t.Node? && Sorted(Items(Plug(c, t)))
    ensures InHole(c, t.item.sockfd) && Sorted(Items(t))
    ensures !c.Top? ==> InHole(c.up, c.item.sockfd)
  {
    PlugItems(c, t);
    SortedHole(c, Items(t));
    RootIndex(t);
  }

  lemma {:induction false} PlugNode(c: Ctx, t: Tree)
    ensures Plug(c, t).Node? <==> !c.Top? || t.Node?
  {
    if !c.Top? {
      PlugNode(c.up, Fill(c, t));
    }
  }

  lemma {:induction false} PlugSet(c: Ctx, t: Tree)
    ensures Set(Plug(c, t)) == CtxSet(c) + Set(t)
  {
    if !c.Top? {
      PlugSet(c.up, Fill(c, t));
    }
  }

  lemma {:induction false} ItemsSet(t: Tree, x: Epitem)
    ensures x in Items(t) <==> x in Set(t)
  {
    if t.Node? {
      ItemsSet(t.l, x);
      ItemsSet(t.r, x);
    }
  }

  /** A key identifies an item. */
  lemma Unique(t: Tree, x: Epitem, y: Epitem)
    requires Sorted(Items(t)) && x in Set(t) && y in Set(t)
    ensures x.sockfd == y.sockfd <==> x == y
  {
    ItemsSet(t, x);
    ItemsSet(t, y);
  }

  /** Inside the hole, the links of the whole tree are those of the subtree. */
  lemma {:induction false} CellInside(c: Ctx, t: Tree, k: int)
    requires InHole(c, k)
    ensures CellAt(Plug(c, t), null, k) == CellAt(t, CtxItem(c), k)
  {
    if !c.Top? {
      CellInside(c.up, Fill(c, t), k);
    }
  }

  /** Outside the hole, exchanging the subtree changes at most one child link. */
  lemma {:induction false} CellOutside(c: Ctx, t: Tree, t': Tree, k: int)
    requires !InHole(c, k) && (InHole(c.up, c.item.sockfd) || Root(t) == Root(t'))
    ensures CellAt(Plug(c, t'), null, k) ==
      var was := CellAt(Plug(c, t), null, k);
      if k == c.item.sockfd && Root(t) != Root(t') then WithChild(c, was, Root(t')) else was
  {
    if InHole(c.up, k) {
      CellInside(c.up, Fill(c, t), k);
      CellInside(c.up, Fill(c, t'), k);
    } else {
      CellOutside(c.up, Fill(c, t), Fill(c, t'), k);
    }
  }

  /** Another parent for a subtree changes the parent link of its root only. */
  lemma CellReparent(t: Tree, p: Epitem?, p': Epitem?, k: int)
    ensures CellAt(t, p', k) ==
      if t.Node? && k == t.item.sockfd then CellAt(t, p, k).(parent := p') else CellAt(t, p, k)
  {
  }

  /** The links that the tree prescribes for the root of the subtree in the hole. */
  lemma {:induction false} Lookup(c: Ctx, t: Tree)
    requires t.Node? && Sorted(Items(Plug(c, t)))
    ensures CellAt(Plug(c, t), null, t.item.sockfd) == Cell(Root(t.l), Root(t.r), CtxItem(c), t.red)
    ensures t.item in Set(Plug(c, t))
  {
    SortedRoot(c, t);
    CellInside(c, t, t.item.sockfd);
    PlugSet(c, t);
  }

  /** The same for the item above the hole. */
  lemma {:induction false} LookupUp(c: Ctx, t: Tree)
    requires !c.Top? && Sorted(Items(Plug(c, t)))
    ensures CellAt(Plug(c, t), null, c.item.sockfd) ==
      Cell(Root(Fill(c, t).l), Root(Fill(c, t).r), CtxItem(c.up), c.red)
    ensures c.item in Set(Plug(c, t)) && (t.Node? && c.sib.Node? ==> t.item != c.sib.item)
  {
    var u := Fill(c, t);
    Lookup(c.up, u);
    SortedRoot(c.up, u);
    SortedNode(u);
  }

  /** Exchanging the subtree in a non-trivial context keeps the root of the whole. */
  lemma {:induction false} RootSame(c: Ctx, t: Tree, t': Tree)
    requires !c.Top?
    ensures Root(Plug(c, t)) == Root(Plug(c, t'))
  {
    if !c.up.Top? {
      RootSame(c.up, Fill(c, t), Fill(c, t'));
    }
  }

  /** The root of the whole tree is not in a non-trivial hole. */
  lemma {:induction false} RootAbove(c: Ctx, t: Tree)
    requires Sorted(Items(Plug(c, t)))
    ensures Root(t) == Root(Plug(c, t)) <==> c.Top?
  {
    PlugNode(c, t);
    if !c.Top? && t.Node? {
      SortedRoot(c, t);
      TopKey(c, t, t.item.sockfd);
    }
  }

  lemma {:induction false} TopKey(c: Ctx, t: Tree, k: int)
    requires !c.Top? && InHole(c, k)
    ensures Plug(c, t).Node? && Plug(c, t).item.sockfd != k
  {
    if !c.up.Top? {
      TopKey(c.up, Fill(c, t), k);
    }
  }

  /** The links `w` are those that the tree prescribes. */
  ghost predicate Coherent(w: map<Epitem, Cell>, t: Tree) {
    w.Keys == Set(t) && forall x :: x in w ==> w[x] == CellAt(t, null, x.sockfd)
  }

  /** `s'` is `s` without its element `x`. */
  ghost predicate Without(s: seq<Epitem>, x: Epitem, s': seq<Epitem>) {
    exists i :: 0 <= i < |s| && s[i] == x && s' == s[..i] + s[i + 1..]
  }

  /** The items before and behind the hole. */
  ghost function Before(c: Ctx): seq<Epitem> {
    match c
    case Top => []
    case InLeft(up, _, _, _) => Before(up)
    case InRight(up, n, _, sib) => Before(up) + Items(sib) + [n]
  }

  ghost function After(c: Ctx): seq<Epitem> {
    match c
    case Top => []
    case InLeft(up, n, _, sib) => [n] + Items(sib) + After(up)
    case InRight(up, _, _, _) => After(up)
  }

  lemma {:induction false} FlatSplit(c: Ctx, s: seq<Epitem>)
    ensures Flat(c, s) == Before(c) + s + After(c)
  {
    match c
    case Top =>
    case InLeft(up, n, _, sib) =>
      FlatSplit(up, s + [n] + Items(sib));
      assert Before(up) + (s + [n] + Items(sib)) + After(up) == Before(up) + s + ([n] + Items(sib) + After(up));
    case InRight(up, n, _, sib) =>
      FlatSplit(up, Items(sib) + [n] + s);
      assert Before(up) + (Items(sib) + [n] + s) + After(up) == (Before(up) + Items(sib) + [n]) + s + After(up);
  }

  lemma SortedJoin(a: seq<Epitem>, x: Epitem, b: seq<Epitem>)
    requires Sorted(a) && forall i :: 0 <= i < |a| ==> a[i].sockfd < x.sockfd
    requires Sorted(b) && forall i :: 0 <= i < |b| ==> x.sockfd < b[i].sockfd
    ensures Sorted(a + [x] + b)
  {
  }

  ghost predicate AllInHole(c: Ctx, s: seq<Epitem>) {
    forall i :: 0 <= i < |s| ==> InHole(c, s[i].sockfd)
  }

  lemma AllInHoleJoin(c: Ctx, a: seq<Epitem>, x: Epitem, b: seq<Epitem>)
    ensures AllInHole(c, a + [x] + b) <==> AllInHole(c, a) && InHole(c, x.sockfd) && AllInHole(c, b)
  {
    var s := a + [x] + b;
    assert s[|a|] == x;
    assert forall i :: 0 <= i < |a| ==> s[i] == a[i];
    assert forall i :: 0 <= i < |b| ==> b[i] == s[|a| + 1 + i];
  }

  /** What is sorted and belongs into the hole may be put there. */
  lemma {:induction false} SortedRefill(c: Ctx, s0: seq<Epitem>, s: seq<Epitem>)
    requires Sorted(Flat(c, s0)) && Sorted(s) && AllInHole(c, s)
    ensures Sorted(Flat(c, s))
  {
    match c
    case Top =>
    case InLeft(up, n, _, sib) =>
      SortedHole(up, s0 + [n] + Items(sib));
      SortedSplit(s0, n, Items(sib));
      SortedJoin(s, n, Items(sib));
      AllInHoleJoin(up, s0, n, Items(sib));
      AllInHoleJoin(up, s, n, Items(sib));
      SortedRefill(up, s0 + [n] + Items(sib), s + [n] + Items(sib));
    case InRight(up, n, _, sib) =>
      SortedHole(up, Items(sib) + [n] + s0);
      SortedSplit(Items(sib), n, s0);
      SortedJoin(Items(sib), n, s);
      AllInHoleJoin(up, Items(sib), n, s0);
      AllInHoleJoin(up, Items(sib), n, s);
      SortedRefill(up, Items(sib) + [n] + s0, Items(sib) + [n] + s);
  }

  /** An item whose key belongs into the hole is there. */
  lemma {:induction false} FoundInside(c: Ctx, t: Tree, x: Epitem)
    requires Sorted(Items(Plug(c, t))) && x in Set(Plug(c, t)) && InHole(c, x.sockfd)
    ensures x in Set(t)
  {
    if !c.Top? {
      var u := Fill(c, t);
      FoundInside(c.up, u, x);
      PlugItems(c.up, u);
      SortedHole(c.up, Items(u));
      SortedSplit(Items(u.l), u.item, Items(u.r));
      ItemsSet(c.sib, x);
    }
  }

  // ---- left rotation ----

  ghost function RotL(t: Tree): Tree
    requires t.Node? && t.r.Node?
  {
    Node(Node(t.l, t.item, t.red, t.r.l), t.r.item, t.r.red, t.r.r)
  }

  ghost function RotR(t: Tree): Tree
    requires t.Node? && t.l.Node?
  {
    Node(t.l.l, t.l.item, t.l.red, Node(t.l.r, t.item, t.red, t.r))
  }

  lemma Reassociate(a: seq<Epitem>, x: Epitem, b: seq<Epitem>, y: Epitem, d: seq<Epitem>)
    ensures (a + [x] + b) + [y] + d == a + [x] + (b + [y] + d)
  {
  }

  /** A rotation below `c` moves no item past another. */
  lemma {:induction false} RotLKeeps(c: Ctx, t: Tree)
    requires t.Node? && t.r.Node?
    ensures Items(Plug(c, RotL(t))) == Items(Plug(c, t)) && Set(Plug(c, RotL(t))) == Set(Plug(c, t))
    ensures Root(Plug(c, RotL(t))) == if c.Top? then t.r.item else Root(Plug(c, t))
  {
    Reassociate(Items(t.l), t.item, Items(t.r.l), t.r.item, Items(t.r.r));
    PlugItems(c, t);
    PlugItems(c, RotL(t));
    PlugSet(c, t);
    PlugSet(c, RotL(t));
    if !c.Top? { RootSame(c, t, RotL(t)); }
  }

  lemma {:induction false} RotRKeeps(c: Ctx, t: Tree)
    requires t.Node? && t.l.Node?
    ensures Items(Plug(c, RotR(t))) == Items(Plug(c, t)) && Set(Plug(c, RotR(t))) == Set(Plug(c, t))
    ensures Root(Plug(c, RotR(t))) == if c.Top? then t.l.item else Root(Plug(c, t))
  {
    RotLKeeps(c, RotR(t));
    if !c.Top? { RootSame(c, t, RotR(t)); }
  }

  /** The keys around a left rotation. */
  lemma {:induction false} RotLKeys(c: Ctx, t: Tree)
    requires t.Node? && t.r.Node? && Sorted(Items(Plug(c, t)))
    ensures t.item.sockfd < t.r.item.sockfd
    ensures t.r.l.Node? ==> t.item.sockfd < t.r.l.item.sockfd < t.r.item.sockfd
    ensures InHole(c, t.item.sockfd) && InHole(c, t.r.item.sockfd)
    ensures t.r.l.Node? ==> InHole(c, t.r.l.item.sockfd)
    ensures !c.Top? ==> InHole(c.up, c.item.sockfd)
  {
    var c1 := InRight(c, t.item, t.red, t.l);
    SortedRoot(c, t);
    SortedRoot(c1, t.r);
    if t.r.l.Node? {
      SortedRoot(InLeft(c1, t.r.item, t.r.red, t.r.r), t.r.l);
    }
  }

  lemma {:induction false} RotLLocal(t: Tree, par: Epitem?, k: int)
    requires t.Node? && t.r.Node? && t.item.sockfd < t.r.item.sockfd
    requires t.r.l.Node? ==> t.item.sockfd < t.r.l.item.sockfd < t.r.item.sockfd
    ensures CellAt(RotL(t), par, k) ==
      var was := CellAt(t, par, k);
      if k == t.item.sockfd then Cell(Root(t.l), Root(t.r.l), t.r.item, t.red)
      else if k == t.r.item.sockfd then Cell(t.item, Root(t.r.r), par, t.r.red)
      else if t.r.l.Node? && k == t.r.l.item.sockfd then was.(parent := t.item)
      else was
  {
    if t.item.sockfd < k < t.r.item.sockfd {
      CellReparent(t.r.l, t.r.item, t.item, k);
    }
  }

  /** The links after a left rotation below `c`. */
  lemma {:induction false} RotLCells(c: Ctx, t: Tree, k: int)
    requires t.Node? && t.r.Node? && Sorted(Items(Plug(c, t)))
    ensures CellAt(Plug(c, RotL(t)), null, k) ==
      var was := CellAt(Plug(c, t), null, k);
      if k == t.item.sockfd then Cell(Root(t.l), Root(t.r.l), t.r.item, t.red)
      else if k == t.r.item.sockfd then Cell(t.item, Root(t.r.r), CtxItem(c), t.r.red)
      else if t.r.l.Node? && k == t.r.l.item.sockfd then was.(parent := t.item)
      else if !c.Top? && k == c.item.sockfd then WithChild(c, was, t.r.item)
      else was
  {
    RotLKeys(c, t);
    if InHole(c, k) {
      CellInside(c, t, k);
      CellInside(c, RotL(t), k);
      RotLLocal(t, CtxItem(c), k);
    } else {
      CellOutside(c, t, RotL(t), k);
    }
  }

  /** The items that a left rotation at `elm` touches are distinct. */
  ghost predicate CanRotateL(w: map<Epitem, Cell>, elm: Epitem) {
    && elm in w && w[elm].right != null && w[elm].right in w && w[elm].right != elm
    && var tmp, p := w[elm].right, w[elm].parent;
    var b := w[tmp].left;
    && (p == null || (p in w && p != elm && p != tmp))
    && (b == null || (b in w && b != elm && b != tmp && b != p))
  }

  /** The effect of a left rotation at `elm` on the links. */
  ghost predicate RotatedL(w: map<Epitem, Cell>, w': map<Epitem, Cell>, elm: Epitem)
    requires CanRotateL(w, elm)
  {
    var tmp, p := w[elm].right, w[elm].parent;
    var b := w[tmp].left;
    && w'.Keys == w.Keys
    && w'[elm] == Cell(w[elm].left, b, tmp, w[elm].red)
    && w'[tmp] == Cell(elm, w[tmp].right, p, w[tmp].red)
    && (b != null ==> w'[b] == w[b].(parent := elm))
    && (p != null ==> w'[p] == if w[p].left == elm then w[p].(left := tmp) else w[p].(right := tmp))
    && forall x :: x in w && x != elm && x != tmp && x != b && x != p ==> w'[x] == w[x]
  }

  lemma {:induction false} RotLReady(c: Ctx, t: Tree, w: map<Epitem, Cell>)
    requires t.Node? && t.r.Node? && Sorted(Items(Plug(c, t))) && Coherent(w, Plug(c, t))
    ensures CanRotateL(w, t.item) && w[t.item].right == t.r.item
    ensures w[t.item].parent == CtxItem(c) && w[t.r.item].left == Root(t.r.l)
  {
    var c1 := InRight(c, t.item, t.red, t.l);
    RotLKeys(c, t);
    Lookup(c, t);
    Lookup(c1, t.r);
    if t.r.l.Node? { Lookup(InLeft(c1, t.r.item, t.r.red, t.r.r), t.r.l); }
    if !c.Top? { LookupUp(c, t); }
  }

  lemma {:induction false} RotLCoherent(c: Ctx, t: Tree, w: map<Epitem, Cell>, w': map<Epitem, Cell>)
    requires t.Node? && t.r.Node? && Sorted(Items(Plug(c, t))) && Coherent(w, Plug(c, t))
    requires CanRotateL(w, t.item) && RotatedL(w, w', t.item)
    ensures Coherent(w', Plug(c, RotL(t))) && Items(Plug(c, RotL(t))) == Items(Plug(c, t))
    ensures Root(Plug(c, RotL(t))) == if c.Top? then t.r.item else Root(Plug(c, t))
  {
    RotLReady(c, t, w);
    RotLKeeps(c, t);
    Lookup(c, t);
    Lookup(InRight(c, t.item, t.red, t.l), t.r);
    if !c.Top? { LookupUp(c, t); }
    forall x | x in w
      ensures w'[x] == CellAt(Plug(c, RotL(t)), null, x.sockfd)
    {
      RotLCells(c, t, x.sockfd);
      Unique(Plug(c, t), x, t.item);
      Unique(Plug(c, t), x, t.r.item);
      if t.r.l.Node? { Unique(Plug(c, t), x, t.r.l.item); }
      if !c.Top? { Unique(Plug(c, t), x, c.item); }
    }
  }

  // ---- right rotation: undoes a left rotation ----

  lemma {:induction false} RotRCells(c: Ctx, t: Tree, k: int)
    requires t.Node? && t.l.Node? && Sorted(Items(Plug(c, t)))
    ensures CellAt(Plug(c, RotR(t)), null, k) ==
      var was := CellAt(Plug(c, t), null, k);
      if k == t.item.sockfd then Cell(Root(t.l.r), Root(t.r), t.l.item, t.red)
      else if k == t.l.item.sockfd then Cell(Root(t.l.l), t.item, CtxItem(c), t.l.red)
      else if t.l.r.Node? && k == t.l.r.item.sockfd then was.(parent := t.item)
      else if !c.Top? && k == c.item.sockfd then WithChild(c, was, t.l.item)
      else was
  {
    var u := RotR(t);
    var c1 := InRight(c, u.item, u.red, u.l);
    RotRKeeps(c, t);
    RotLKeys(c, u);
    RotLCells(c, u, k);
    Lookup(c, u);
    Lookup(c1, u.r);
    if u.r.l.Node? { Lookup(InLeft(c1, u.r.item, u.r.red, u.r.r), u.r.l); }
    if !c.Top? { LookupUp(c, u); }
  }

  ghost predicate CanRotateR(w: map<Epitem, Cell>, elm: Epitem) {
    && elm in w && w[elm].left != null && w[elm].left in w && w[elm].left != elm
    && var tmp, p := w[elm].left, w[elm].parent;
    var b := w[tmp].right;
    && (p == null || (p in w && p != elm && p != tmp))
    && (b == null || (b in w && b != elm && b != tmp && b != p))
  }

  /** The effect of a right rotation at `elm` on the links. */
  ghost predicate RotatedR(w: map<Epitem, Cell>, w': map<Epitem, Cell>, elm: Epitem)
    requires CanRotateR(w, elm)
  {
    var tmp, p := w[elm].left, w[elm].parent;
    var b := w[tmp].right;
    && w'.Keys == w.Keys
    && w'[elm] == Cell(b, w[elm].right, tmp, w[elm].red)
    && w'[tmp] == Cell(w[tmp].left, elm, p, w[tmp].red)
    && (b != null ==> w'[b] == w[b].(parent := elm))
    && (p != null ==> w'[p] == if w[p].left == elm then w[p].(left := tmp) else w[p].(right := tmp))
    && forall x :: x in w && x != elm && x != tmp && x != b && x != p ==> w'[x] == w[x]
  }

  lemma {:induction false} RotRReady(c: Ctx, t: Tree, w: map<Epitem, Cell>)
    requires t.Node? && t.l.Node? && Sorted(Items(Plug(c, t))) && Coherent(w, Plug(c, t))
    ensures CanRotateR(w, t.item) && w[t.item].left == t.l.item
    ensures w[t.item].parent == CtxItem(c) && w[t.l.item].right == Root(t.l.r)
  {
    var c1 := InLeft(c, t.item, t.red, t.r);
    RotRKeeps(c, t);
    RotLKeys(c, RotR(t));
    Lookup(c, t);
    Lookup(c1, t.l);
    if t.l.r.Node? { Lookup(InRight(c1, t.l.item, t.l.red, t.l.l), t.l.r); }
    if !c.Top? { LookupUp(c, t); }
  }

  lemma {:induction false} RotRCoherent(c: Ctx, t: Tree, w: map<Epitem, Cell>, w': map<Epitem, Cell>)
    requires t.Node? && t.l.Node? && Sorted(Items(Plug(c, t))) && Coherent(w, Plug(c, t))
    requires CanRotateR(w, t.item) && RotatedR(w, w', t.item)
    ensures Coherent(w', Plug(c, RotR(t))) && Items(Plug(c, RotR(t))) == Items(Plug(c, t))
    ensures Root(Plug(c, RotR(t))) == if c.Top? then t.l.item else Root(Plug(c, t))
  {
    RotRReady(c, t, w);
    RotRKeeps(c, t);
    Lookup(c, t);
    Lookup(InLeft(c, t.item, t.red, t.r), t.l);
    if !c.Top? { LookupUp(c, t); }
    forall x | x in w
      ensures w'[x] == CellAt(Plug(c, RotR(t)), null, x.sockfd)
    {
      RotRCells(c, t, x.sockfd);
      Unique(Plug(c, t), x, t.item);
      Unique(Plug(c, t), x, t.l.item);
      if t.l.r.Node? { Unique(Plug(c, t), x, t.l.r.item); }
      if !c.Top? { Unique(Plug(c, t), x, c.item); }
    }
  }

  // ---- colours ----

  ghost function Painted(t: Tree, red: bool): Tree
    requires t.Node?
  {
    t.(red := red)
  }

  lemma {:induction false} PaintKeeps(c: Ctx, t: Tree, red: bool)
    requires t.Node?
    ensures Items(Plug(c, Painted(t, red))) == Items(Plug(c, t)) && Set(Plug(c, Painted(t, red))) == Set(Plug(c, t))
    ensures Root(Plug(c, Painted(t, red))) == Root(Plug(c, t))
  {
    PlugItems(c, t);
    PlugItems(c, Painted(t, red));
    PlugSet(c, t);
    PlugSet(c, Painted(t, red));
    if !c.Top? { RootSame(c, t, Painted(t, red)); }
  }

  lemma {:induction false} PaintCoherent(c: Ctx, t: Tree, red: bool, w: map<Epitem, Cell>, w': map<Epitem, Cell>)
    requires t.Node? && Sorted(Items(Plug(c, t))) && Coherent(w, Plug(c, t)) && t.item in w
    requires w' == w[t.item := w[t.item].(red := red)]
    ensures Coherent(w', Plug(c, Painted(t, red)))
  {
    PaintKeeps(c, t, red);
    SortedRoot(c, t);
    Lookup(c, t);
    forall x | x in w
      ensures w'[x] == CellAt(Plug(c, Painted(t, red)), null, x.sockfd)
    {
      Unique(Plug(c, t), x, t.item);
      if InHole(c, x.sockfd) {
        CellInside(c, t, x.sockfd);
        CellInside(c, Painted(t, red), x.sockfd);
      } else {
        CellOutside(c, t, Painted(t, red), x.sockfd);
      }
    }
  }

  // ---- a new leaf ----

  ghost function NewLeaf(x: Epitem): Tree {
    Node(Leaf, x, true, Leaf)
  }

  lemma {:induction false} LeafKeeps(c: Ctx, x: Epitem)
    requires Sorted(Items(Plug(c, Leaf))) && InHole(c, x.sockfd)
    ensures Sorted(Items(Plug(c, NewLeaf(x)))) && x !in Set(Plug(c, Leaf))
    ensures Set(Plug(c, NewLeaf(x))) == Set(Plug(c, Leaf)) + {x}
    ensures Root(Plug(c, NewLeaf(x))) == if c.Top? then x else Root(Plug(c, Leaf))
    ensures Items(Plug(c, Leaf)) == Before(c) + After(c)
    ensures Items(Plug(c, NewLeaf(x))) == Before(c) + [x] + After(c)
  {
    PlugItems(c, Leaf);
    PlugItems(c, NewLeaf(x));
    FlatSplit(c, []);
    FlatSplit(c, [x]);
    assert Items(NewLeaf(x)) == [x];
    SortedRefill(c, [], [x]);
    PlugSet(c, Leaf);
    PlugSet(c, NewLeaf(x));
    if x in Set(Plug(c, Leaf)) { FoundInside(c, Leaf, x); }
    if !c.Top? { RootSame(c, Leaf, NewLeaf(x)); }
  }

  ghost predicate LinkedLeaf(w: map<Epitem, Cell>, w': map<Epitem, Cell>, x: Epitem, parent: Epitem?, left: bool) {
    && w'.Keys == w.Keys + {x} && w'[x] == Cell(null, null, parent, true)
    && (parent != null ==> parent in w && parent in w')
    && (parent != null ==> w'[parent] == if left then w[parent].(left := x) else w[parent].(right := x))
    && forall y :: y in w && y != x && y != parent ==> w'[y] == w[y]
  }

  lemma {:induction false} LeafCoherent(c: Ctx, x: Epitem, w: map<Epitem, Cell>, w': map<Epitem, Cell>)
    requires Sorted(Items(Plug(c, Leaf))) && InHole(c, x.sockfd) && Coherent(w, Plug(c, Leaf))
    requires LinkedLeaf(w, w', x, CtxItem(c), c.InLeft?)
    ensures Coherent(w', Plug(c, NewLeaf(x)))
  {
    LeafKeeps(c, x);
    Lookup(c, NewLeaf(x));
    if !c.Top? { LookupUp(c, NewLeaf(x)); LookupUp(c, Leaf); SortedRoot(c, NewLeaf(x)); }
    forall y | y in w'
      ensures w'[y] == CellAt(Plug(c, NewLeaf(x)), null, y.sockfd)
    {
      Unique(Plug(c, NewLeaf(x)), x, y);
      if !c.Top? { Unique(Plug(c, NewLeaf(x)), y, c.item); }
      if InHole(c, y.sockfd) {
        if y != x { FoundInside(c, Leaf, y); }
      } else {
        CellOutside(c, Leaf, NewLeaf(x), y.sockfd);
      }
    }
  }
}
