/** Ghost reasoning about top-down splaying: the tree in work is cut along one search path. */
module SplayModel {
  import opened Epitems
  import opened RbModel
  import opened RbEdits

  /** The two child links of an item. */
  datatype Kids = Kids(left: Epitem?, right: Epitem?)

  ghost function KidsAt(t: Tree, k: int): Kids {
    var c := CellAt(t, null, k);
    Kids(c.left, c.right)
  }

  /** The outermost item of a context. */
  ghost function TopItem(c: Ctx): Epitem? {
    if c.Top? then null else if c.up.Top? then c.item else TopItem(c.up)
  }

  /** The left tree `lc`, the middle tree `t` and the right tree `rc`, put together without any change of order. */
  ghost function Whole(lc: Ctx, t: Tree, rc: Ctx): Tree {
    Plug(Append(rc, lc), t)
  }

  /** The tree after SPLAY_ASSEMBLE. */
  ghost function Assembled(lc: Ctx, t: Tree, rc: Ctx): Tree
    requires t.Node?
  {
    Node(Plug(lc, t.l), t.item, t.red, Plug(rc, t.r))
  }

  ghost predicate Spines(lc: Ctx, rc: Ctx) {
    RightSpine(lc) && LeftSpine(rc)
  }

  lemma {:induction false} InHoleAppend(sp: Ctx, b: Ctx, k: int)
    ensures InHole(Append(sp, b), k) <==> InHole(sp, k) && InHole(b, k)
  {
    if !sp.Top? { InHoleAppend(sp.up, b, k); }
  }

  lemma {:induction false} BeforeAppend(sp: Ctx, b: Ctx)
    ensures Before(Append(sp, b)) == Before(b) + Before(sp) && After(Append(sp, b)) == After(sp) + After(b)
  {
    if !sp.Top? { BeforeAppend(sp.up, b); }
  }

  lemma {:induction false} CtxSetAppend(sp: Ctx, b: Ctx)
    ensures CtxSet(Append(sp, b)) == CtxSet(b) + CtxSet(sp)
  {
    if !sp.Top? { CtxSetAppend(sp.up, b); }
  }

  lemma JoinAround(b: seq<Epitem>, l: seq<Epitem>, x: Epitem, r: seq<Epitem>, a: seq<Epitem>)
    ensures b + (l + [x] + r) + a == (b + l) + [x] + (r + a)
    ensures b + (l + [x] + r) + a == (b + l + [x]) + r + a
  {
  }

  /** Assembling keeps the symmetric order. */
  lemma {:induction false} AssembledItems(lc: Ctx, t: Tree, rc: Ctx)
    requires t.Node? && Spines(lc, rc)
    ensures Items(Assembled(lc, t, rc)) == Items(Whole(lc, t, rc))
    ensures Items(Plug(lc, t.l)) == Before(lc) + Items(t.l) && Items(Plug(rc, t.r)) == Items(t.r) + After(rc)
  {
    WholeItems(lc, t, rc);
    SpineBefore(lc);
    SpineBefore(rc);
    Around(lc, t.l);
    Around(rc, t.r);
    JoinAround(Before(lc), Items(t.l), t.item, Items(t.r), After(rc));
  }

  lemma {:induction false} WholeItems(lc: Ctx, t: Tree, rc: Ctx)
    requires Spines(lc, rc)
    ensures Items(Whole(lc, t, rc)) == Before(lc) + Items(t) + After(rc)
  {
    Around(Append(rc, lc), t);
    BeforeAppend(rc, lc);
    SpineBefore(lc);
    SpineBefore(rc);
  }

  lemma {:induction false} AssembledSet(lc: Ctx, t: Tree, rc: Ctx)
    requires t.Node?
    ensures Set(Assembled(lc, t, rc)) == Set(Whole(lc, t, rc))
  {
    PlugSet(Append(rc, lc), t);
    CtxSetAppend(rc, lc);
    PlugSet(lc, t.l);
    PlugSet(rc, t.r);
  }

  /** What is to the left of the root stays in the hole of the right tree, and vice versa. */
  lemma {:induction false} SpineHole(sp: Ctx, n: int, k: int)
    requires InHole(sp, n)
    ensures LeftSpine(sp) && k <= n ==> InHole(sp, k)
    ensures RightSpine(sp) && n <= k ==> InHole(sp, k)
  {
    if !sp.Top? { SpineHole(sp.up, n, k); }
  }

  /** The keys around the cut. */
  lemma {:induction false} CutKeys(lc: Ctx, t: Tree, rc: Ctx, k: int)
    requires t.Node? && Spines(lc, rc) && Sorted(Items(Whole(lc, t, rc)))
    ensures Sorted(Items(t)) && InHole(lc, t.item.sockfd) && InHole(rc, t.item.sockfd)
    ensures (k <= t.item.sockfd ==> InHole(rc, k)) && (t.item.sockfd <= k ==> InHole(lc, k))
    ensures !lc.Top? ==> InHole(lc.up, lc.item.sockfd) && !InHole(lc, lc.item.sockfd)
    ensures !rc.Top? ==> InHole(rc.up, rc.item.sockfd) && !InHole(rc, rc.item.sockfd) && InHole(lc, rc.item.sockfd)
  {
    var c := Append(rc, lc);
    SortedRoot(c, t);
    InHoleAppend(rc, lc, t.item.sockfd);
    SpineHole(rc, t.item.sockfd, k);
    SpineHole(lc, t.item.sockfd, k);
    PlugAppend(rc, lc, t);
    if !lc.Top? { SortedRoot(lc.up, Fill(lc, Plug(rc, t))); }
    if !rc.Top? {
      SortedRoot(c.up, Fill(c, t));
      InHoleAppend(rc.up, lc, rc.item.sockfd);
    }
  }

  ghost predicate SameKids(a: Kids, b: Kids, left: bool, right: bool) {
    (left ==> a.left == b.left) && (right ==> a.right == b.right)
  }

  /** Where the links of an item come from: from the left tree, the right tree or the middle. */
  lemma {:induction false} Region(lc: Ctx, t: Tree, rc: Ctx, x: Tree, k: int)
    requires t.Node? && Spines(lc, rc) && Sorted(Items(Whole(lc, t, rc)))
    ensures var v := KidsAt(Whole(lc, t, rc), k);
      if !InHole(lc, k) then SameKids(v, KidsAt(Plug(lc, x), k), true, k != lc.item.sockfd)
      else if !InHole(rc, k) then SameKids(v, KidsAt(Plug(rc, x), k), k != rc.item.sockfd, true)
      else v == KidsAt(t, k)
  {
    CutKeys(lc, t, rc, k);
    PlugAppend(rc, lc, t);
    var u := Plug(rc, t);
    if !InHole(lc, k) {
      CellOutside(lc, u, x, k);
    } else {
      CellInside(lc, u, k);
      CellReparent(u, CtxItem(lc), null, k);
      if !InHole(rc, k) {
        CellOutside(rc, t, x, k);
      } else {
        CellInside(rc, t, k);
        CellReparent(t, CtxItem(rc), null, k);
      }
    }
  }
  // ---- the steps ----

  ghost function KeyIs(c: Ctx, k: int): bool {
    !c.Top? && k == c.item.sockfd
  }

  ghost function LinkedRight(lc: Ctx, t: Tree): Ctx
    requires t.Node?
  {
    InRight(lc, t.item, t.red, t.l)
  }

  ghost function LinkedLeft(t: Tree, rc: Ctx): Ctx
    requires t.Node?
  {
    InLeft(rc, t.item, t.red, t.r)
  }

  lemma {:induction false} LinkRightItems(lc: Ctx, t: Tree, rc: Ctx)
    requires t.Node? && Spines(lc, rc)
    ensures Items(Whole(LinkedRight(lc, t), t.r, rc)) == Items(Whole(lc, t, rc))
  {
    WholeItems(lc, t, rc);
    WholeItems(LinkedRight(lc, t), t.r, rc);
    JoinAround(Before(lc), Items(t.l), t.item, Items(t.r), After(rc));
    assert Before(LinkedRight(lc, t)) == Before(lc) + Items(t.l) + [t.item];
  }

  lemma {:induction false} LinkRightSet(lc: Ctx, t: Tree, rc: Ctx)
    requires t.Node?
    ensures Set(Whole(LinkedRight(lc, t), t.r, rc)) == Set(Whole(lc, t, rc))
  {
    PlugSet(Append(rc, lc), t);
    CtxSetAppend(rc, lc);
    PlugSet(Append(rc, LinkedRight(lc, t)), t.r);
    CtxSetAppend(rc, LinkedRight(lc, t));
  }

  /** The links that the step to the right prescribes. */
  lemma {:induction false} LinkRightAt(lc: Ctx, t: Tree, rc: Ctx, k: int)
    requires t.Node? && t.r.Node? && Spines(lc, rc) && Sorted(Items(Whole(lc, t, rc)))
    ensures var v, v' := KidsAt(Whole(lc, t, rc), k), KidsAt(Whole(LinkedRight(lc, t), t.r, rc), k);
      && SameKids(v', v, !KeyIs(rc, k), k != t.item.sockfd && !KeyIs(lc, k))
      && (KeyIs(lc, k) ==> v'.right == t.item)
  {
    var u := Node(t.l, t.item, t.red, Leaf);
    LinkRightItems(lc, t, rc);
    CutKeys(lc, t, rc, k);
    Region(lc, t, rc, if InHole(lc, k) then Leaf else u, k);
    Region(LinkedRight(lc, t), t.r, rc, Leaf, k);
    if KeyIs(lc, k) {
      CellInside(lc.up, Fill(lc, u), k);
    } else if InHole(lc, k) && k <= t.item.sockfd {
      CellInside(lc, u, k);
      CellReparent(u, CtxItem(lc), null, k);
    } else {
      CellReparent(t.r, t.item, null, k);
    }
  }

  /** A link step to the left leaves the whole as it is. */
  lemma {:induction false} LinkLeftAt(lc: Ctx, t: Tree, rc: Ctx)
    requires t.Node? && t.l.Node? && Spines(lc, rc) && Sorted(Items(Whole(lc, t, rc)))
    ensures Whole(lc, t.l, LinkedLeft(t, rc)) == Whole(lc, t, rc)
    ensures !rc.Top? ==> KidsAt(Whole(lc, t, rc), rc.item.sockfd).left == t.item
  {
    if !rc.Top? { LookupUp(Append(rc, lc), t); }
  }

  /** The links after assembling. */
  lemma {:induction false} AssembledAt(lc: Ctx, t: Tree, rc: Ctx, k: int)
    requires t.Node? && Spines(lc, rc) && Sorted(Items(Whole(lc, t, rc)))
    ensures var v, v' := KidsAt(Whole(lc, t, rc), k), KidsAt(Assembled(lc, t, rc), k);
      && (k == t.item.sockfd ==> v' == Kids(Root(Plug(lc, t.l)), Root(Plug(rc, t.r))))
      && (k != t.item.sockfd ==> SameKids(v', v, !KeyIs(rc, k), !KeyIs(lc, k)))
      && (KeyIs(lc, k) ==> v'.right == Root(t.l)) && (KeyIs(rc, k) ==> v'.left == Root(t.r))
  {
    CutKeys(lc, t, rc, k);
    var n := t.item.sockfd;
    if k < n {
      Region(lc, t, rc, if InHole(lc, k) then Leaf else t.l, k);
      CellReparent(Plug(lc, t.l), t.item, null, k);
      if InHole(lc, k) {
        CellInside(lc, t.l, k);
        CellReparent(t.l, CtxItem(lc), t.item, k);
      } else if KeyIs(lc, k) {
        CellInside(lc.up, Fill(lc, t.l), k);
      }
    } else if n < k {
      Region(lc, t, rc, if InHole(rc, k) then Leaf else t.r, k);
      CellReparent(Plug(rc, t.r), t.item, null, k);
      if InHole(rc, k) {
        CellInside(rc, t.r, k);
        CellReparent(t.r, CtxItem(rc), t.item, k);
      } else if KeyIs(rc, k) {
        CellInside(rc.up, Fill(rc, t.r), k);
      }
    }
  }

  /** The items at the cut are distinct. */
  lemma {:induction false} CutApart(lc: Ctx, t: Tree, rc: Ctx)
    requires t.Node? && Sorted(Items(Whole(lc, t, rc)))
    ensures t.item != CtxItem(lc) && t.item != CtxItem(rc)
    ensures t.l.Node? ==> t.l.item != t.item && t.l.item != CtxItem(lc) && t.l.item != CtxItem(rc)
    ensures t.r.Node? ==> t.r.item != t.item && t.r.item != CtxItem(lc) && t.r.item != CtxItem(rc)
    ensures !lc.Top? && !rc.Top? ==> lc.item != rc.item
    ensures t.l.Node? ==> t.l.item.sockfd < t.item.sockfd
    ensures t.r.Node? ==> t.item.sockfd < t.r.item.sockfd
  {
    var c := Append(rc, lc);
    CtxSetAppend(rc, lc);
    RenameFresh(c, t);
    SortedRoot(c, t);
    SortedNode(t);
    if t.l.Node? { RenameFresh(InLeft(c, t.item, t.red, t.r), t.l); }
    if t.r.Node? { RenameFresh(InRight(c, t.item, t.red, t.l), t.r); }
    if !lc.Top? && !rc.Top? {
      PlugAppend(rc, lc, t);
      PlugSet(rc, t);
      RenameFresh(lc.up, Fill(lc, Plug(rc, t)));
    }
  }

  lemma {:induction false} TopRoot(c: Ctx, t: Tree)
    ensures Root(Plug(c, t)) == if c.Top? then Root(t) else TopItem(c)
  {
    if !c.Top? { TopRoot(c.up, Fill(c, t)); }
  }

  /** A rotation of the middle tree, item by item. */
  lemma {:induction false} RotRAt(lc: Ctx, t: Tree, rc: Ctx, x: Epitem)
    requires t.Node? && t.l.Node? && Sorted(Items(Whole(lc, t, rc))) && x in Set(Whole(lc, t, rc)) && Spines(lc, rc)
    ensures var v, v' := KidsAt(Whole(lc, t, rc), x.sockfd), KidsAt(Whole(lc, RotR(t), rc), x.sockfd);
      && SameKids(v', v, x != t.item && x != CtxItem(rc), x != t.l.item && x != CtxItem(lc))
      && (x == t.item ==> v'.left == Root(t.l.r)) && (x == t.l.item ==> v'.right == t.item)
  {
    var c := Append(rc, lc);
    Lookup(c, t);
    Lookup(InLeft(c, t.item, t.red, t.r), t.l);
    CutApart(lc, t, rc);
    RotRCells(c, t, x.sockfd);
    Unique(Plug(c, t), x, t.item);
    Unique(Plug(c, t), x, t.l.item);
    if t.l.r.Node? {
      Lookup(InRight(InLeft(c, t.item, t.red, t.r), t.l.item, t.l.red, t.l.l), t.l.r);
      Unique(Plug(c, t), x, t.l.r.item);
    }
    if !c.Top? { LookupUp(c, t); Unique(Plug(c, t), x, c.item); }
  }

  lemma {:induction false} RotLAt(lc: Ctx, t: Tree, rc: Ctx, x: Epitem)
    requires t.Node? && t.r.Node? && Sorted(Items(Whole(lc, t, rc))) && x in Set(Whole(lc, t, rc)) && Spines(lc, rc)
    ensures var v, v' := KidsAt(Whole(lc, t, rc), x.sockfd), KidsAt(Whole(lc, RotL(t), rc), x.sockfd);
      && SameKids(v', v, x != t.r.item && x != CtxItem(rc), x != t.item && x != CtxItem(lc))
      && (x == t.item ==> v'.right == Root(t.r.l)) && (x == t.r.item ==> v'.left == t.item)
  {
    var c := Append(rc, lc);
    Lookup(c, t);
    Lookup(InRight(c, t.item, t.red, t.l), t.r);
    CutApart(lc, t, rc);
    RotLCells(c, t, x.sockfd);
    Unique(Plug(c, t), x, t.item);
    Unique(Plug(c, t), x, t.r.item);
    if t.r.l.Node? {
      Lookup(InLeft(InRight(c, t.item, t.red, t.l), t.r.item, t.r.red, t.r.r), t.r.l);
      Unique(Plug(c, t), x, t.r.l.item);
    }
    if !c.Top? { LookupUp(c, t); Unique(Plug(c, t), x, c.item); }
  }

  // ---- where splaying ends ----

  /** The loop's exit condition. */
  ghost predicate NearMid(t: Tree, key: int) {
    t.Node? && (t.item.sockfd == key
      || (key < t.item.sockfd && t.l.Leaf?)
      || (t.item.sockfd < key && t.r.Leaf?))
  }

  /** The root has the key, or nothing is between the root and the key. */
  ghost predicate Near(t: Tree, key: int) {
    t.Node? && (t.item.sockfd == key
      || (key < t.item.sockfd && forall x :: x in Items(t.l) ==> x.sockfd < key)
      || (t.item.sockfd < key && forall x :: x in Items(t.r) ==> key < x.sockfd))
  }

  lemma {:induction false} NearAssembled(lc: Ctx, t: Tree, rc: Ctx, key: int)
    requires Spines(lc, rc) && Sorted(Items(Whole(lc, t, rc))) && InHole(lc, key) && InHole(rc, key) && NearMid(t, key)
    ensures Near(Assembled(lc, t, rc), key)
  {
    var c := Append(rc, lc);
    AssembledItems(lc, t, rc);
    PlugItems(c, t);
    InHoleAppend(rc, lc, key);
    HoleBounds(c, Items(t), key);
    BeforeAppend(rc, lc);
    SpineBefore(lc);
    SpineBefore(rc);
    var a := Assembled(lc, t, rc);
    if key < t.item.sockfd && t.l.Leaf? {
      assert Items(a.l) == Before(c);
    } else if t.item.sockfd < key && t.r.Leaf? {
      assert Items(a.r) == After(c);
    }
  }

  // ---- the operations ----

  lemma EmptyTree(t: Tree)
    requires Root(t) == null
    ensures t == Leaf && Items(t) == [] && Set(t) == {}
  {
  }

  /** After splaying, the root decides whether the key is there. */
  lemma {:induction false} NearDecides(t: Tree, key: int)
    requires Sorted(Items(t)) && Near(t, key)
    ensures t.item.sockfd != key ==> forall x :: x in Set(t) ==> x.sockfd != key
  {
    SortedSplit(Items(t.l), t.item, Items(t.r));
    forall x | x in Set(t) && t.item.sockfd != key
      ensures x.sockfd != key
    {
      ItemsSet(t.l, x);
      ItemsSet(t.r, x);
    }
  }

  lemma GraftBelow(l: seq<Epitem>, x: Epitem, n: Epitem, r: seq<Epitem>)
    requires Sorted(l + [n] + r) && x.sockfd < n.sockfd && forall y :: y in l ==> y.sockfd < x.sockfd
    ensures Sorted(l + [x] + ([] + [n] + r)) && Without(l + [x] + ([] + [n] + r), x, l + [n] + r)
  {
    SortedSplit(l, n, r);
    var s, w := l + [x] + ([] + [n] + r), l + [n] + r;
    assert s[|l|] == x && s[..|l|] == l && s[|l| + 1..] == [n] + r;
    assert w == l + ([n] + r);
    SortedInsert(w, |l|, x, s);
  }

  lemma GraftAbove(l: seq<Epitem>, n: Epitem, x: Epitem, r: seq<Epitem>)
    requires Sorted(l + [n] + r) && n.sockfd < x.sockfd && forall y :: y in r ==> x.sockfd < y.sockfd
    ensures Sorted((l + [n] + []) + [x] + r) && Without((l + [n] + []) + [x] + r, x, l + [n] + r)
  {
    SortedSplit(l, n, r);
    var s, w, k := (l + [n] + []) + [x] + r, l + [n] + r, |l| + 1;
    assert s[k] == x && s[..k] == l + [n] && s[k + 1..] == r;
    assert forall i :: 0 <= i < |l| ==> w[i] == l[i];
    SortedInsert(w, k, x, s);
  }

  lemma SortedInsert(w: seq<Epitem>, k: nat, x: Epitem, s: seq<Epitem>)
    requires Sorted(w) && k <= |w| && s == w[..k] + [x] + w[k..]
    requires k > 0 ==> w[k - 1].sockfd < x.sockfd
    requires k < |w| ==> x.sockfd < w[k].sockfd
    ensures Sorted(s)
  {
    forall i, j | 0 <= i < j < |s|
      ensures s[i].sockfd < s[j].sockfd
    {
      var i', j' := if i < k then i else i - 1, if j < k then j else j - 1;
      assert i != k ==> s[i] == w[i'];
      assert j != k ==> s[j] == w[j'];
    }
  }

  /** Items and set of a node, one level deep. */
  lemma Unfold(l: Tree, x: Epitem, red: bool, r: Tree)
    ensures Items(Node(l, x, red, r)) == Items(l) + [x] + Items(r) && Set(Node(l, x, red, r)) == Set(l) + {x} + Set(r)
    ensures Items(Leaf) == [] && Set(Leaf) == {}
  {
  }

  lemma {:induction false} GraftLeftFacts(t: Tree, x: Epitem)
    requires Sorted(Items(t)) && Near(t, x.sockfd) && x.sockfd < t.item.sockfd
    ensures var u := Node(t.l, x, false, Node(Leaf, t.item, t.red, t.r));
      Sorted(Items(u)) && Set(u) == Set(t) + {x} && Without(Items(u), x, Items(t))
  {
    hide Items, Set, Sorted, Without;
    Unfold(t.l, t.item, t.red, t.r);
    Unfold(Leaf, t.item, t.red, t.r);
    Unfold(t.l, x, false, Node(Leaf, t.item, t.red, t.r));
    GraftBelow(Items(t.l), x, t.item, Items(t.r));
  }

  lemma {:induction false} GraftRightFacts(t: Tree, x: Epitem)
    requires Sorted(Items(t)) && Near(t, x.sockfd) && t.item.sockfd < x.sockfd
    ensures var u := Node(Node(t.l, t.item, t.red, Leaf), x, false, t.r);
      Sorted(Items(u)) && Set(u) == Set(t) + {x} && Without(Items(u), x, Items(t))
  {
    hide Items, Set, Sorted, Without;
    Unfold(t.l, t.item, t.red, t.r);
    Unfold(t.l, t.item, t.red, Leaf);
    Unfold(Node(t.l, t.item, t.red, Leaf), x, false, t.r);
    GraftAbove(Items(t.l), t.item, x, Items(t.r));
  }

  lemma CellAbove(l: Tree, x: Epitem, r: Tree, k: int)
    requires x.sockfd < k
    ensures CellAt(Node(l, x, false, r), null, k) == CellAt(r, x, k)
  {
  }

  lemma CellBelow(l: Tree, x: Epitem, r: Tree, k: int)
    requires k < x.sockfd
    ensures CellAt(Node(l, x, false, r), null, k) == CellAt(l, x, k)
  {
  }

  lemma {:induction false} GraftLeftAt(t: Tree, x: Epitem, y: Epitem)
    requires Sorted(Items(t)) && Near(t, x.sockfd) && x.sockfd < t.item.sockfd && x !in Set(t) && y in Set(t) + {x}
    ensures var u := Node(t.l, x, false, Node(Leaf, t.item, t.red, t.r));
      KidsAt(u, y.sockfd) ==
        if y == x then Kids(Root(t.l), t.item)
        else if y == t.item then Kids(null, Root(t.r))
        else KidsAt(t, y.sockfd)
  {
    if y != x {
      ItemsSet(t.l, y);
      ItemsSet(t.r, y);
      SortedSides(t, y);
      CellReparent(t.l, t.item, x, y.sockfd);
      if x.sockfd < y.sockfd { CellAbove(t.l, x, Node(Leaf, t.item, t.red, t.r), y.sockfd); }
    }
  }

  lemma {:induction false} GraftRightAt(t: Tree, x: Epitem, y: Epitem)
    requires Sorted(Items(t)) && Near(t, x.sockfd) && t.item.sockfd < x.sockfd && x !in Set(t) && y in Set(t) + {x}
    ensures var u := Node(Node(t.l, t.item, t.red, Leaf), x, false, t.r);
      KidsAt(u, y.sockfd) ==
        if y == x then Kids(t.item, Root(t.r))
        else if y == t.item then Kids(Root(t.l), null)
        else KidsAt(t, y.sockfd)
  {
    if y != x {
      ItemsSet(t.l, y);
      ItemsSet(t.r, y);
      SortedSides(t, y);
      CellReparent(t.r, t.item, x, y.sockfd);
      if y.sockfd < x.sockfd { CellBelow(Node(t.l, t.item, t.red, Leaf), x, t.r, y.sockfd); }
    }
  }

  // ---- removal ----

  lemma {:induction false} DropFacts(t: Tree)
    requires t.Node? && t.l.Leaf? && Sorted(Items(t))
    ensures Sorted(Items(t.r)) && Set(t.r) == Set(t) - {t.item} && Without(Items(t), t.item, Items(t.r))
  {
    SortedSplit(Items(t.l), t.item, Items(t.r));
    RenameFresh(Top, t);
    WithoutOne(Items(t.l), t.item, Items(t.r));
    assert Items(t.l) + Items(t.r) == Items(t.r);
  }

  lemma {:induction false} DropAt(t: Tree, x: Epitem)
    requires t.Node? && Sorted(Items(t)) && x in Set(t.r)
    ensures KidsAt(t, x.sockfd) == KidsAt(t.r, x.sockfd) && x in Set(t)
  {
    ItemsSet(t.r, x);
    SortedSides(t, x);
    CellReparent(t.r, t.item, null, x.sockfd);
  }

  lemma {:induction false} CutFacts(t: Tree)
    requires t.Node? && Sorted(Items(t))
    ensures Sorted(Items(t.l)) && Set(t.l) <= Set(t)
  {
    SortedSplit(Items(t.l), t.item, Items(t.r));
  }

  lemma {:induction false} CutAt(t: Tree, x: Epitem)
    requires t.Node? && Sorted(Items(t)) && x in Set(t.l)
    ensures KidsAt(t, x.sockfd) == KidsAt(t.l, x.sockfd)
  {
    ItemsSet(t.l, x);
    SortedSides(t, x);
    CellReparent(t.l, t.item, null, x.sockfd);
  }

  lemma WithoutOne(l: seq<Epitem>, x: Epitem, r: seq<Epitem>)
    ensures Without(l + [x] + r, x, l + r)
  {
    var s := l + [x] + r;
    assert s[|l|] == x && s[..|l|] == l && s[|l| + 1..] == r;
  }

  lemma SortedWithout(l: seq<Epitem>, x: Epitem, r: seq<Epitem>)
    requires Sorted(l + [x] + r)
    ensures Sorted(l + r)
  {
    var s, w := l + [x] + r, l + r;
    assert forall i :: 0 <= i < |l| ==> w[i] == s[i];
    assert forall i :: |l| <= i < |w| ==> w[i] == s[i + 1];
  }

  lemma Between(n: Epitem, x: Epitem, l: seq<Epitem>, r: seq<Epitem>)
    requires (x in l ==> x.sockfd < n.sockfd) && (x in r ==> n.sockfd < x.sockfd) && x in l
    ensures x !in r
  {
  }

  lemma PlugTop(t: Tree)
    ensures Plug(Top, t) == t
  {
  }

  /** What is left of a tree without its root. */
  lemma {:induction false} JoinFacts(t: Tree)
    requires t.Node? && Sorted(Items(t))
    ensures Sorted(Items(t.l) + Items(t.r)) && Without(Items(t), t.item, Items(t.l) + Items(t.r))
    ensures Set(t.l) + Set(t.r) == Set(t) - {t.item} && Set(t.l) !! Set(t.r)
  {
    hide Items, Set, Sorted, Without;
    Unfold(t.l, t.item, t.red, t.r);
    PlugTop(t);
    WithoutOne(Items(t.l), t.item, Items(t.r));
    SortedWithout(Items(t.l), t.item, Items(t.r));
    RenameFresh(Top, t);
    forall x | x in Set(t.l)
      ensures x !in Set(t.r)
    {
      ItemsSet(t.l, x);
      ItemsSet(t.r, x);
      SortedSides(t, x);
      Between(t.item, x, Items(t.l), Items(t.r));
    }
  }

  lemma {:induction false} SubsetByItems(t: Tree, u: Tree)
    requires Items(t) == Items(u)
    ensures Set(t) <= Set(u)
  {
    forall x | x in Set(t)
      ensures x in Set(u)
    {
      ItemsSet(t, x);
      ItemsSet(u, x);
    }
  }

  lemma {:induction false} RightItem(u: Tree)
    requires u.Node? && u.r.Node?
    ensures u.r.item in Items(u.r) && u.r.item in Items(u)
  {
    RootIndex(u.r);
    var l := Items(u.l) + [u.item];
    assert Items(u) == l + Items(u.r);
    assert Items(u)[|l| + |Items(u.r.l)|] == u.r.item;
  }

  /** Splayed for a key above all of it, a tree has nothing to the right of its root. */
  lemma {:induction false} NoneRight(u: Tree, key: int)
    requires Near(u, key) && forall x :: x in Items(u) ==> x.sockfd < key
    ensures u.r.Leaf?
  {
    RootIndex(u);
    if u.r.Node? { RightItem(u); }
  }

  lemma {:induction false} NoneAbove(u: Tree, t: Tree, key: int)
    requires Sorted(Items(u)) && Near(u, key) && Sorted(Items(t)) && t.Node? && t.item.sockfd == key
    requires Items(u) == Items(t.l)
    ensures u.r.Leaf? && Set(u) == Set(t.l)
  {
    SortedSplit(Items(t.l), t.item, Items(t.r));
    NoneRight(u, key);
    SubsetByItems(u, t.l);
    SubsetByItems(t.l, u);
  }

  lemma {:induction false} HangFacts(t: Tree, r: Tree)
    requires t.Node? && t.r.Leaf? && Sorted(Items(t) + Items(r))
    ensures var u := Node(t.l, t.item, t.red, r);
      Items(u) == Items(t) + Items(r) && Set(u) == Set(t) + Set(r)
  {
    assert Items(t) == Items(t.l) + [t.item];
  }

  lemma {:induction false} HangAt(t: Tree, r: Tree, x: Epitem)
    requires t.Node? && t.r.Leaf? && Sorted(Items(t) + Items(r)) && x in Set(t) + Set(r)
    ensures var u := Node(t.l, t.item, t.red, r);
      KidsAt(u, x.sockfd) ==
        if x == t.item then Kids(Root(t.l), Root(r))
        else if x in Set(t) then KidsAt(t, x.sockfd)
        else KidsAt(r, x.sockfd)
  {
    var u := Node(t.l, t.item, t.red, r);
    HangFacts(t, r);
    ItemsSet(t.l, x);
    ItemsSet(r, x);
    SortedSides(u, x);
    CellReparent(r, t.item, null, x.sockfd);
  }

  /** A root without a left, or without a right child, is at the end of the symmetric order. */
  lemma {:induction false} EndRoot(t: Tree)
    requires t.Node?
    ensures t.l.Leaf? ==> t.item == First(Items(t))
    ensures t.r.Leaf? ==> t.item == Last(Items(t))
  {
    if t.l.Leaf? { assert Items(t.l) == []; }
    if t.r.Leaf? { assert Items(t.r) == []; }
  }
}
