/** Taking items out of a tree, and the neighbours of an item in the symmetric order. */
module RbEdits {
  import opened Epitems
  import opened RbModel

  // ---- splicing out an item with at most one child ----

  ghost function OnlyChild(t: Tree): Tree
    requires t.Node?
  {
    if t.l.Leaf? then t.r else t.l
  }

  /** The symmetric order around the hole. */
  lemma {:induction false} Around(c: Ctx, t: Tree)
    ensures Items(Plug(c, t)) == Before(c) + Items(t) + After(c)
  {
    PlugItems(c, t);
    FlatSplit(c, Items(t));
  }

  lemma {:induction false} SpliceSorted(c: Ctx, t: Tree)
    requires t.Node? && (t.l.Leaf? || t.r.Leaf?) && Sorted(Items(Plug(c, t)))
    ensures Sorted(Items(Plug(c, OnlyChild(t))))
  {
    PlugItems(c, t);
    PlugItems(c, OnlyChild(t));
    SortedHole(c, Items(t));
    SortedSplit(Items(t.l), t.item, Items(t.r));
    AllInHoleJoin(c, Items(t.l), t.item, Items(t.r));
    SortedRefill(c, Items(t), Items(OnlyChild(t)));
  }

  lemma {:induction false} SpliceKeeps(c: Ctx, t: Tree)
    requires t.Node? && (t.l.Leaf? || t.r.Leaf?) && Sorted(Items(Plug(c, t)))
    ensures Sorted(Items(Plug(c, OnlyChild(t)))) && t.item in Set(Plug(c, t))
    ensures Set(Plug(c, OnlyChild(t))) == Set(Plug(c, t)) - {t.item}
    ensures Root(Plug(c, OnlyChild(t))) == if c.Top? then Root(OnlyChild(t)) else Root(Plug(c, t))
  {
    SpliceSorted(c, t);
    PlugSet(c, t);
    PlugSet(c, OnlyChild(t));
    RenameFresh(c, t);
    if !c.Top? { RootSame(c, t, OnlyChild(t)); }
  }

  /** `x` where a link led to `elm`. */
  ghost function Redirected(cell: Cell, elm: Epitem, x: Epitem?): Cell {
    if cell.left == elm then cell.(left := x) else cell.(right := x)
  }

  ghost predicate CanSplice(w: map<Epitem, Cell>, elm: Epitem, child: Epitem?, parent: Epitem?) {
    && elm in w && (child != null ==> child in w && child != elm && child != parent)
    && (parent != null ==> parent in w && parent != elm)
  }

  ghost predicate Spliced(w: map<Epitem, Cell>, w': map<Epitem, Cell>, elm: Epitem, child: Epitem?, parent: Epitem?)
    requires CanSplice(w, elm, child, parent)
  {
    && w'.Keys == w.Keys - {elm}
    && (child != null ==> w'[child] == w[child].(parent := parent))
    && (parent != null ==> w'[parent] == Redirected(w[parent], elm, child))
    && forall y :: y in w' && y != parent && y != child ==> w'[y] == w[y]
  }

  lemma {:induction false} SpliceCoherent(c: Ctx, t: Tree, w: map<Epitem, Cell>, w': map<Epitem, Cell>)
    requires t.Node? && (t.l.Leaf? || t.r.Leaf?) && Sorted(Items(Plug(c, t))) && Coherent(w, Plug(c, t))
    requires CanSplice(w, t.item, Root(OnlyChild(t)), CtxItem(c))
    requires Spliced(w, w', t.item, Root(OnlyChild(t)), CtxItem(c))
    ensures Coherent(w', Plug(c, OnlyChild(t)))
  {
    var u := OnlyChild(t);
    SpliceKeeps(c, t);
    SortedRoot(c, t);
    if u.Node? { SortedRoot(c, u); SortedNode(t); Lookup(c, u); }
    if !c.Top? { LookupUp(c, t); LookupUp(c, u); }
    forall y | y in w'
      ensures w'[y] == CellAt(Plug(c, u), null, y.sockfd)
    {
      Unique(Plug(c, t), t.item, y);
      if u.Node? { Unique(Plug(c, u), y, u.item); }
      if !c.Top? { Unique(Plug(c, u), y, c.item); }
      if InHole(c, y.sockfd) {
        FoundInside(c, u, y);
        ItemsSet(u, y);
        SortedSides(t, y);
        CellInside(c, t, y.sockfd);
        CellInside(c, u, y.sockfd);
        CellReparent(u, t.item, CtxItem(c), y.sockfd);
      } else {
        CellOutside(c, t, u, y.sockfd);
      }
    }
  }

  /** The key of an item tells on which side of the root it is. */
  lemma {:induction false} SortedSides(t: Tree, y: Epitem)
    requires t.Node? && Sorted(Items(t))
    ensures y in Items(t.l) ==> y.sockfd < t.item.sockfd
    ensures y in Items(t.r) ==> t.item.sockfd < y.sockfd
  {
    SortedSplit(Items(t.l), t.item, Items(t.r));
  }

  // ---- putting another item into a place ----

  /** The root of the subtree occurs nowhere else. */
  lemma {:induction false} RenameFresh(c: Ctx, t: Tree)
    requires t.Node? && Sorted(Items(Plug(c, t)))
    ensures t.item !in CtxSet(c) && t.item !in Set(t.l) && t.item !in Set(t.r)
  {
    SortedRoot(c, t);
    SortedSides(t, t.item);
    ItemsSet(t.l, t.item);
    ItemsSet(t.r, t.item);
    NotInContext(c, t, t.item);
  }

  lemma {:induction false} NotInContext(c: Ctx, t: Tree, x: Epitem)
    requires Sorted(Items(Plug(c, t))) && InHole(c, x.sockfd)
    ensures x !in CtxSet(c)
  {
    if !c.Top? {
      var u := Fill(c, t);
      NotInContext(c.up, u, x);
      PlugItems(c.up, u);
      SortedHole(c.up, Items(u));
      SortedSides(u, x);
      ItemsSet(c.sib, x);
    }
  }

  lemma {:induction false} RenameSorted(c: Ctx, t: Tree, x: Epitem)
    requires t.Node? && Sorted(Items(Plug(c, t))) && Sorted(Items(t.(item := x))) && InHole(c, x.sockfd)
    ensures Sorted(Items(Plug(c, t.(item := x))))
  {
    PlugItems(c, t);
    PlugItems(c, t.(item := x));
    SortedHole(c, Items(t));
    AllInHoleJoin(c, Items(t.l), t.item, Items(t.r));
    AllInHoleJoin(c, Items(t.l), x, Items(t.r));
    SortedRefill(c, Items(t), Items(t.(item := x)));
  }

  lemma {:induction false} RenameKeeps(c: Ctx, t: Tree, x: Epitem)
    requires t.Node? && Sorted(Items(Plug(c, t))) && Sorted(Items(t.(item := x))) && InHole(c, x.sockfd)
    ensures Sorted(Items(Plug(c, t.(item := x)))) && t.item in Set(Plug(c, t))
    ensures Set(Plug(c, t.(item := x))) == Set(Plug(c, t)) - {t.item} + {x}
    ensures Root(Plug(c, t.(item := x))) == if c.Top? then x else Root(Plug(c, t))
  {
    RenameSorted(c, t, x);
    PlugSet(c, t);
    PlugSet(c, t.(item := x));
    RenameFresh(c, t);
    if !c.Top? { RootSame(c, t, t.(item := x)); }
  }

  ghost predicate CanTransplant(w: map<Epitem, Cell>, was: Epitem, elm: Epitem) {
    && was in w && elm !in w
    && var Cell(l, r, p, _) := w[was];
    && (p == null || (p in w && p != was))
    && (l != null && l in w && l != was && l != p && l != r)
    && (r == null || (r in w && r != was && r != p))
  }

  ghost predicate Transplanted(w: map<Epitem, Cell>, w': map<Epitem, Cell>, was: Epitem, elm: Epitem)
    requires CanTransplant(w, was, elm)
  {
    var Cell(l, r, p, _) := w[was];
    && w'.Keys == w.Keys - {was} + {elm}
    && w'[elm] == w[was]
    && w'[l] == w[l].(parent := elm)
    && (r != null ==> w'[r] == w[r].(parent := elm))
    && (p != null ==> w'[p] == Redirected(w[p], was, elm))
    && forall y :: y in w' && y != elm && y != p && y != l && y != r ==> w'[y] == w[y]
  }

  lemma {:induction false} RenameCoherent(c: Ctx, t: Tree, x: Epitem, w: map<Epitem, Cell>, w': map<Epitem, Cell>)
    requires t.Node? && Sorted(Items(Plug(c, t))) && Sorted(Items(t.(item := x))) && InHole(c, x.sockfd)
    requires Coherent(w, Plug(c, t)) && CanTransplant(w, t.item, x) && Transplanted(w, w', t.item, x)
    ensures Coherent(w', Plug(c, t.(item := x)))
  {
    var u := t.(item := x);
    RenameKeeps(c, t, x);
    SortedRoot(c, t);
    Lookup(c, t);
    Lookup(c, u);
    SortedNode(t);
    SortedNode(u);
    if !c.Top? { LookupUp(c, t); LookupUp(c, u); }
    forall y | y in w'
      ensures w'[y] == CellAt(Plug(c, u), null, y.sockfd)
    {
      if y != x { RenameAt(c, t, x, y); }
    }
  }

  lemma {:induction false} RenameAt(c: Ctx, t: Tree, x: Epitem, y: Epitem)
    requires t.Node? && Sorted(Items(Plug(c, t))) && Sorted(Items(t.(item := x))) && InHole(c, x.sockfd)
    requires y in Set(Plug(c, t)) && y != t.item
    ensures CellAt(Plug(c, t.(item := x)), null, y.sockfd) ==
      var was := CellAt(Plug(c, t), null, y.sockfd);
      if y == Root(t.l) || y == Root(t.r) then was.(parent := x)
      else if y == CtxItem(c) then WithChild(c, was, x)
      else was
  {
    var u := t.(item := x);
    SortedRoot(c, t);
    if t.l.Node? { SortedRoot(InLeft(c, t.item, t.red, t.r), t.l); }
    if t.r.Node? { SortedRoot(InRight(c, t.item, t.red, t.l), t.r); }
    if !c.Top? { SortedRoot(c.up, Fill(c, t)); }
    if InHole(c, y.sockfd) {
      FoundInside(c, t, y);
      RenameInside(t, CtxItem(c), x, y);
      CellInside(c, t, y.sockfd);
      CellInside(c, u, y.sockfd);
    } else {
      CellOutside(c, t, u, y.sockfd);
      if !c.Top? { LookupUp(c, t); Unique(Plug(c, t), y, c.item); }
    }
  }

  lemma {:induction false} RenameInside(t: Tree, par: Epitem?, x: Epitem, y: Epitem)
    requires t.Node? && Sorted(Items(t)) && Sorted(Items(t.(item := x))) && y in Set(t) && y != t.item
    ensures CellAt(t.(item := x), par, y.sockfd) ==
      var was := CellAt(t, par, y.sockfd);
      if y == Root(t.l) || y == Root(t.r) then was.(parent := x) else was
  {
    ItemsSet(t.l, y);
    ItemsSet(t.r, y);
    SortedSides(t, y);
    SortedSides(t.(item := x), y);
    CellReparent(t.l, t.item, x, y.sockfd);
    CellReparent(t.r, t.item, x, y.sockfd);
    if t.l.Node? { Unique(t, y, t.l.item); }
    if t.r.Node? { Unique(t, y, t.r.item); }
  }

  /** The items that splicing touches are distinct. */
  lemma {:induction false} SpliceApart(c: Ctx, t: Tree, w: map<Epitem, Cell>)
    requires t.Node? && (t.l.Leaf? || t.r.Leaf?) && Sorted(Items(Plug(c, t))) && Coherent(w, Plug(c, t))
    ensures CanSplice(w, t.item, Root(OnlyChild(t)), CtxItem(c))
  {
    Lookup(c, t);
    SortedRoot(c, t);
    SortedNode(t);
    if t.l.Node? { Lookup(InLeft(c, t.item, t.red, t.r), t.l); SortedRoot(InLeft(c, t.item, t.red, t.r), t.l); }
    if t.r.Node? { Lookup(InRight(c, t.item, t.red, t.l), t.r); SortedRoot(InRight(c, t.item, t.red, t.l), t.r); }
    if !c.Top? { LookupUp(c, t); }
  }

  /** So are those that a transplantation touches. */
  lemma {:induction false} TransplantApart(c: Ctx, t: Tree, x: Epitem, w: map<Epitem, Cell>)
    requires t.Node? && t.l.Node? && Sorted(Items(Plug(c, t))) && Coherent(w, Plug(c, t)) && x !in w
    ensures CanTransplant(w, t.item, x) && w[t.item].parent == CtxItem(c)
  {
    Lookup(c, t);
    SortedRoot(c, t);
    SortedNode(t);
    Lookup(InLeft(c, t.item, t.red, t.r), t.l);
    SortedRoot(InLeft(c, t.item, t.red, t.r), t.l);
    if t.r.Node? { Lookup(InRight(c, t.item, t.red, t.l), t.r); SortedRoot(InRight(c, t.item, t.red, t.l), t.r); }
    if !c.Top? { LookupUp(c, t); }
  }

  // ---- the successor of an item with two children ----

  /** The context `sp` below the context `b`. */
  ghost function Append(sp: Ctx, b: Ctx): Ctx {
    match sp
    case Top => b
    case InLeft(up, n, red, s) => InLeft(Append(up, b), n, red, s)
    case InRight(up, n, red, s) => InRight(Append(up, b), n, red, s)
  }

  lemma {:induction false} PlugAppend(sp: Ctx, b: Ctx, t: Tree)
    ensures Plug(Append(sp, b), t) == Plug(b, Plug(sp, t))
  {
    if !sp.Top? {
      PlugAppend(sp.up, b, Fill(sp, t));
    }
  }

  /** The hole is at the left end. */
  ghost predicate LeftSpine(sp: Ctx) {
    sp.Top? || (sp.InLeft? && LeftSpine(sp.up))
  }

  lemma {:induction false} LeftSpineItems(sp: Ctx, t: Tree)
    requires LeftSpine(sp)
    ensures Items(Plug(sp, t)) == Items(t) + After(sp)
  {
    if sp.Top? {
    } else {
      LeftSpineItems(sp.up, Fill(sp, t));
      assert Items(t) + [sp.item] + Items(sp.sib) + After(sp.up) ==
        Items(t) + ([sp.item] + Items(sp.sib) + After(sp.up));
    }
  }

  lemma WithoutAround(b: seq<Epitem>, l: seq<Epitem>, x: Epitem, r: seq<Epitem>, a: seq<Epitem>)
    ensures Without(b + (l + [x] + r) + a, x, b + (l + r) + a)
  {
    var s, k := b + (l + [x] + r) + a, |b| + |l|;
    assert s[k] == x && s[..k] == b + l && s[k + 1..] == r + a;
    assert b + (l + r) + a == (b + l) + (r + a);
  }

  /** The right subtree starts with the successor. */
  lemma {:induction false} SuccessorFirst(sp: Ctx, s: Tree)
    requires LeftSpine(sp) && s.Node? && s.l.Leaf?
    ensures Items(Plug(sp, s)) == [s.item] + Items(Plug(sp, s.r)) && s.item in Set(Plug(sp, s))
  {
    LeftSpineItems(sp, s);
    LeftSpineItems(sp, s.r);
    assert Items(s) == [s.item] + Items(s.r);
    PlugSet(sp, s);
  }

  /** The successor `s.item` of `t.item`, taken out of the right subtree, can replace `t.item`. */
  lemma {:induction false} SuccessorFits(c: Ctx, t: Tree, sp: Ctx, s: Tree)
    requires t.Node? && Sorted(Items(Plug(c, t))) && LeftSpine(sp) && s.Node? && s.l.Leaf? && t.r == Plug(sp, s)
    ensures Sorted(Items(Node(t.l, s.item, t.red, Plug(sp, s.r)))) && InHole(c, s.item.sockfd)
  {
    var l, r := Items(t.l), Items(Plug(sp, s.r));
    SuccessorFirst(sp, s);
    PlugItems(c, t);
    SortedHole(c, Items(t));
    SortedSplit(l, t.item, [s.item] + r);
    assert [] + [s.item] + r == [s.item] + r && ([s.item] + r)[0] == s.item;
    SortedSplit([], s.item, r);
    SortedJoin(l, s.item, r);
    AllInHoleJoin(c, l, t.item, [s.item] + r);
    AllInHoleJoin(c, [], s.item, r);
  }

  lemma WithoutSuccessor(b: seq<Epitem>, l: seq<Epitem>, x: Epitem, y: Epitem, r: seq<Epitem>, a: seq<Epitem>)
    ensures Without(b + (l + [x] + ([y] + r)) + a, x, b + (l + [y] + r) + a)
  {
    WithoutAround(b, l, x, [y] + r, a);
    assert l + ([y] + r) == l + [y] + r;
  }

  lemma {:induction false} SuccessorWithout(c: Ctx, t: Tree, sp: Ctx, s: Tree)
    requires t.Node? && LeftSpine(sp) && s.Node? && s.l.Leaf? && t.r == Plug(sp, s)
    ensures Without(Items(Plug(c, t)), t.item, Items(Plug(c, Node(t.l, s.item, t.red, Plug(sp, s.r)))))
  {
    SuccessorFirst(sp, s);
    Around(c, t);
    Around(c, Node(t.l, s.item, t.red, Plug(sp, s.r)));
    WithoutSuccessor(Before(c), Items(t.l), t.item, s.item, Items(Plug(sp, s.r)), After(c));
  }

  /** Splicing takes the item out of the symmetric order. */
  lemma {:induction false} SpliceWithout(c: Ctx, t: Tree)
    requires t.Node? && (t.l.Leaf? || t.r.Leaf?)
    ensures Without(Items(Plug(c, t)), t.item, Items(Plug(c, OnlyChild(t))))
  {
    Around(c, t);
    Around(c, OnlyChild(t));
    WithoutAround(Before(c), Items(t.l), t.item, Items(t.r), After(c));
    assert Items(OnlyChild(t)) == Items(t.l) + Items(t.r);
  }

  /** Where an item is. */
  lemma {:induction false} Locate(c: Ctx, t: Tree, x: Epitem) returns (c': Ctx, t': Tree)
    requires x in Set(t)
    ensures Plug(c', t') == Plug(c, t) && t'.Node? && t'.item == x
    decreases t
  {
    if x == t.item {
      c', t' := c, t;
    } else if x in Set(t.l) {
      c', t' := Locate(InLeft(c, t.item, t.red, t.r), t.l, x);
    } else {
      c', t' := Locate(InRight(c, t.item, t.red, t.l), t.r, x);
    }
  }

  // ---- order and neighbours ----

  ghost function First(s: seq<Epitem>): Epitem? {
    if s == [] then null else s[0]
  }

  ghost function Last(s: seq<Epitem>): Epitem? {
    if s == [] then null else s[|s| - 1]
  }

  ghost predicate RightSpine(sp: Ctx) {
    sp.Top? || (sp.InRight? && RightSpine(sp.up))
  }

  ghost function Height(t: Tree): nat {
    if t.Leaf? then 0 else 1 + if Height(t.l) < Height(t.r) then Height(t.r) else Height(t.l)
  }

  /** What is before the hole is smaller than what belongs there, and what is behind is greater. */
  lemma {:induction false} HoleBounds(c: Ctx, s: seq<Epitem>, k: int)
    requires Sorted(Flat(c, s)) && InHole(c, k)
    ensures forall i :: 0 <= i < |Before(c)| ==> Before(c)[i].sockfd < k
    ensures forall i :: 0 <= i < |After(c)| ==> k < After(c)[i].sockfd
  {
    match c
    case Top =>
    case InLeft(up, n, _, sib) =>
      HoleBounds(up, s + [n] + Items(sib), k);
      SortedHole(up, s + [n] + Items(sib));
      SortedSplit(s, n, Items(sib));
    case InRight(up, n, _, sib) =>
      HoleBounds(up, Items(sib) + [n] + s, k);
      SortedHole(up, Items(sib) + [n] + s);
      SortedSplit(Items(sib), n, s);
  }

  /** The least item at or above a key that belongs into an empty hole. */
  lemma {:induction false} NearestBehind(c: Ctx, k: int)
    requires Sorted(Items(Plug(c, Leaf))) && InHole(c, k)
    ensures First(After(c)) != null ==> First(After(c)) in Set(Plug(c, Leaf)) && k < First(After(c)).sockfd
    ensures forall x | x in Set(Plug(c, Leaf)) && k <= x.sockfd ::
      First(After(c)) != null && First(After(c)).sockfd <= x.sockfd
  {
    Around(c, Leaf);
    PlugItems(c, Leaf);
    HoleBounds(c, [], k);
    var w, b, a := Items(Plug(c, Leaf)), Before(c), After(c);
    assert w == b + a;
    if a != [] {
      assert w[|b|] == a[0];
      ItemsSet(Plug(c, Leaf), a[0]);
    }
    forall x | x in Set(Plug(c, Leaf)) && k <= x.sockfd
      ensures a != [] && a[0].sockfd <= x.sockfd
    {
      ItemsSet(Plug(c, Leaf), x);
      var i :| 0 <= i < |w| && w[i] == x;
      assert |b| <= i;
    }
  }

  lemma {:induction false} SpineBefore(sp: Ctx)
    ensures LeftSpine(sp) ==> Before(sp) == [] && First(After(sp)) == CtxItem(sp)
    ensures RightSpine(sp) ==> After(sp) == [] && Last(Before(sp)) == CtxItem(sp)
  {
    if !sp.Top? { SpineBefore(sp.up); }
  }

  lemma {:induction false} SpineEnds(c: Ctx)
    ensures LeftSpine(c) ==> CtxItem(c) == First(Items(Plug(c, Leaf)))
    ensures RightSpine(c) ==> CtxItem(c) == Last(Items(Plug(c, Leaf)))
  {
    SpineBefore(c);
    Around(c, Leaf);
  }

  lemma {:induction false} PredecessorLast(sp: Ctx, s: Tree)
    requires RightSpine(sp) && s.Node? && s.r.Leaf?
    ensures s.item == Last(Items(Plug(sp, s)))
  {
    SpineBefore(sp);
    Around(sp, s);
  }

  /** The neighbours of the root of the subtree in the hole. */
  lemma {:induction false} NextIndex(c: Ctx, t: Tree)
    requires t.Node?
    ensures var w, i := Items(Plug(c, t)), |Before(c)| + |Items(t.l)|;
      i < |w| && w[i] == t.item && First(w[i + 1..]) == if t.r.Node? then First(Items(t.r)) else First(After(c))
  {
    Around(c, t);
    var w, i := Items(Plug(c, t)), |Before(c)| + |Items(t.l)|;
    assert w[i] == t.item && w[i + 1..] == Items(t.r) + After(c);
    if t.r.Node? { RootIndex(t.r); }
  }

  lemma {:induction false} PrevIndex(c: Ctx, t: Tree)
    requires t.Node?
    ensures var w, i := Items(Plug(c, t)), |Before(c)| + |Items(t.l)|;
      i < |w| && w[i] == t.item && Last(w[..i]) == if t.l.Node? then Last(Items(t.l)) else Last(Before(c))
  {
    Around(c, t);
    var w, i := Items(Plug(c, t)), |Before(c)| + |Items(t.l)|;
    assert w[i] == t.item && w[..i] == Before(c) + Items(t.l);
    if t.l.Node? { RootIndex(t.l); }
  }

  lemma SortedIndex(s: seq<Epitem>, i: nat, j: nat)
    requires Sorted(s) && i < |s| && j < |s| && s[i] == s[j]
    ensures i == j
  {
  }

  /** There are as many items as keys. */
  lemma {:induction false} KeysCard(s: seq<Epitem>, keys: set<int>)
    requires Sorted(s) && keys == set x | x in s :: x.sockfd
    ensures |keys| == |s|
  {
    if s != [] {
      var k := |s| - 1;
      assert s == s[..k] + [s[k]];
      assert (set x | x in s[..k] :: x.sockfd) == keys - {s[k].sockfd};
      KeysCard(s[..k], keys - {s[k].sockfd});
    }
  }
}
