/** The red-black tree of the epoll index, on linked items. */
module RbTree {
  import opened Common
  import opened Epitems
  import opened RbModel
  import opened RbEdits
  import opened RbColors

  class RbHead {
    var root: Epitem?
    ghost var items: set<Epitem>
    ghost var tree: Tree

    /** RB_INIT */
    constructor ()
      ensures Valid() && items == {} && tree == Leaf
    {
      root := null;
      items := {};
      tree := Leaf;
    }

    ghost function Links(x: Epitem): Cell
      reads x`left, x`right, x`parent, x`red
    {
      Cell(x.left, x.right, x.parent, x.red)
    }

    ghost function Snapshot(): map<Epitem, Cell>
      reads this`items, items`left, items`right, items`parent, items`red
    {
      map x | x in items :: Links(x)
    }

    /** The items are linked as the search tree `tree` prescribes. */
    ghost predicate Linked()
      reads this, items`left, items`right, items`parent, items`red
    {
      root == Root(tree) && Sorted(Items(tree)) && Coherent(Snapshot(), tree)
    }

    ghost predicate Valid()
      reads this, items`left, items`right, items`parent, items`red
    {
      Linked() && RedBlack(tree)
    }

    twostate predicate Unchanged()
      reads this, items`left, items`right, items`parent, items`red
    {
      && root == old(root) && items == old(items) && tree == old(tree)
      && forall x :: x in items ==> Links(x) == old(Links(x))
    }

    /** The parts of the invariant, and the items as a set. */
    lemma Ordered()
      requires Linked()
      ensures Sorted(Items(tree)) && Coherent(Snapshot(), tree) && root == Root(tree) && items == Set(tree)
    {
    }

    lemma ValidParts()
      requires Valid()
      ensures Linked() && RedBlack(tree)
    {
    }

    lemma TreeItems()
      requires Valid()
      ensures Sorted(Items(tree)) && forall x :: x in items <==> x in Items(tree)
    {
      forall x
        ensures x in items <==> x in Items(tree)
      {
        ItemsSet(tree, x);
      }
    }

    static ghost function Opt(x: Epitem?): set<Epitem> {
      if x == null then {} else {x}
    }

    // ---- rotations: RB_ROTATE_LEFT and RB_ROTATE_RIGHT ----

    method RotateLeftLinks(elm: Epitem) returns (tmp: Epitem)
      requires elm.right != null && elm.right != elm
      requires elm.parent != elm && elm.parent != elm.right
      requires elm.right.left != null ==>
        elm.right.left != elm && elm.right.left != elm.right && elm.right.left != elm.parent
      modifies this`root, elm`right, elm`parent, elm.right`left, elm.right`parent
      modifies Opt(elm.right.left)`parent, Opt(elm.parent)`left, Opt(elm.parent)`right
      ensures tmp == old(elm.right) && elm.right == old(elm.right.left) && elm.parent == tmp
      ensures tmp.left == elm && tmp.parent == old(elm.parent)
      ensures elm.right != null ==> elm.right.parent == elm
      ensures root == if tmp.parent == null then tmp else old(root)
      ensures tmp.parent != null ==>
        tmp.parent.left == if old(elm.parent.left) == elm then tmp else old(elm.parent.left)
      ensures tmp.parent != null ==>
        tmp.parent.right == if old(elm.parent.left) == elm then old(elm.parent.right) else tmp
    {
      tmp := elm.right;
      elm.right := tmp.left;
      if elm.right != null {
        tmp.left.parent := elm;
      }
      tmp.parent := elm.parent;
      if tmp.parent != null {
        if elm == elm.parent.left {
          elm.parent.left := tmp;
        } else {
          elm.parent.right := tmp;
        }
      } else {
        root := tmp;
      }
      tmp.left := elm;
      elm.parent := tmp;
    }

    method RotateLeftCells(elm: Epitem) returns (tmp: Epitem)
      requires CanRotateL(Snapshot(), elm)
      modifies this`root, items`left, items`right, items`parent
      ensures RotatedL(old(Snapshot()), Snapshot(), elm) && tmp == old(elm.right)
      ensures root == if old(elm.parent) == null then tmp else old(root)
    {
      tmp := RotateLeftLinks(elm);
    }

    method RotateLeft(elm: Epitem, ghost c: Ctx, ghost t: Tree) returns (tmp: Epitem)
      requires Linked() && tree == Plug(c, t) && t.Node? && t.r.Node? && t.item == elm
      modifies this`root, this`tree, items`left, items`right, items`parent
      ensures Linked() && tree == Plug(c, RotL(t)) && tmp == t.r.item && Items(tree) == old(Items(tree))
    {
      hide Coherent, Items, Sorted, Plug;
      RotLReady(c, t, Snapshot());
      tmp := RotateLeftCells(elm);
      tree := Plug(c, RotL(t));
      RotLCoherent(c, t, old(Snapshot()), Snapshot());
    }

    method RotateRightLinks(elm: Epitem) returns (tmp: Epitem)
      requires elm.left != null && elm.left != elm
      requires elm.parent != elm && elm.parent != elm.left
      requires elm.left.right != null ==>
        elm.left.right != elm && elm.left.right != elm.left && elm.left.right != elm.parent
      modifies this`root, elm`left, elm`parent, elm.left`right, elm.left`parent
      modifies Opt(elm.left.right)`parent, Opt(elm.parent)`left, Opt(elm.parent)`right
      ensures tmp == old(elm.left) && elm.left == old(elm.left.right) && elm.parent == tmp
      ensures tmp.right == elm && tmp.parent == old(elm.parent)
      ensures elm.left != null ==> elm.left.parent == elm
      ensures root == if tmp.parent == null then tmp else old(root)
      ensures tmp.parent != null ==>
        tmp.parent.left == if old(elm.parent.left) == elm then tmp else old(elm.parent.left)
      ensures tmp.parent != null ==>
        tmp.parent.right == if old(elm.parent.left) == elm then old(elm.parent.right) else tmp
    {
      tmp := elm.left;
      elm.left := tmp.right;
      if elm.left != null {
        tmp.right.parent := elm;
      }
      tmp.parent := elm.parent;
      if tmp.parent != null {
        if elm == elm.parent.left {
          elm.parent.left := tmp;
        } else {
          elm.parent.right := tmp;
        }
      } else {
        root := tmp;
      }
      tmp.right := elm;
      elm.parent := tmp;
    }

    method RotateRightCells(elm: Epitem) returns (tmp: Epitem)
      requires CanRotateR(Snapshot(), elm)
      modifies this`root, items`left, items`right, items`parent
      ensures RotatedR(old(Snapshot()), Snapshot(), elm) && tmp == old(elm.left)
      ensures root == if old(elm.parent) == null then tmp else old(root)
    {
      tmp := RotateRightLinks(elm);
    }

    method RotateRight(elm: Epitem, ghost c: Ctx, ghost t: Tree) returns (tmp: Epitem)
      requires Linked() && tree == Plug(c, t) && t.Node? && t.l.Node? && t.item == elm
      modifies this`root, this`tree, items`left, items`right, items`parent
      ensures Linked() && tree == Plug(c, RotR(t)) && tmp == t.l.item && Items(tree) == old(Items(tree))
    {
      hide Coherent, Items, Sorted, Plug;
      RotRReady(c, t, Snapshot());
      tmp := RotateRightCells(elm);
      tree := Plug(c, RotR(t));
      RotRCoherent(c, t, old(Snapshot()), Snapshot());
    }

    // ---- colours ----

    method Paint(n: Epitem, col: bool, ghost c: Ctx, ghost t: Tree)
      requires Linked() && tree == Plug(c, t) && t.Node? && t.item == n
      modifies this`tree, items`red
      ensures Linked() && tree == Plug(c, Painted(t, col)) && Items(tree) == old(Items(tree))
    {
      hide Coherent, Items, Sorted, Plug, CellAt;
      Focus(c, t);
      PaintKeeps(c, t, col);
      n.red := col;
      tree := Plug(c, Painted(t, col));
      ghost var w := old(Snapshot());
      assert Snapshot() == w[n := w[n].(red := col)];
      PaintCoherent(c, t, col, w, Snapshot());
    }

    /** What the links of the item in focus and of the one above it say. */
    lemma Focus(c: Ctx, t: Tree)
      requires Linked() && tree == Plug(c, t)
      ensures t.Node? ==> t.item in items && Links(t.item) == Cell(Root(t.l), Root(t.r), CtxItem(c), t.red)
      ensures !c.Top? ==> c.item in items
      ensures !c.Top? ==> Links(c.item) == Cell(Root(Fill(c, t).l), Root(Fill(c, t).r), CtxItem(c.up), c.red)
      ensures !c.Top? && t.Node? ==> (c.item.left == t.item <==> c.InLeft?)
      ensures !c.Top? && t.Node? ==> (c.item.right == t.item <==> c.InRight?)
    {
      if t.Node? { Lookup(c, t); }
      if !c.Top? { LookupUp(c, t); }
    }

    // ---- RB_INSERT_COLOR ----

    /** The uncle `tmp` is red. */
    method RecolorUncle(tmp: Epitem, parent: Epitem, gparent: Epitem, ghost c: Ctx, ghost t: Tree)
      requires Linked() && tree == Plug(c, t) && InsertInv(c, t) && CtxRed(c)
      requires c.item == parent && c.up.item == gparent && IsRed(c.up.sib) && c.up.sib.item == tmp
      modifies this`tree, items`red
      ensures Linked() && Items(tree) == old(Items(tree))
      ensures tree == Plug(c.up.up, Recolored(c, t)) && InsertInv(c.up.up, Recolored(c, t))
    {
      hide Linked, InsertInv, Items;
      InsertRecolored(c, t);
      ghost var p, u := Fill(c, t), c.up.sib;
      Paint(tmp, false, Sibling(c.up, p), u);
      Paint(parent, false, WithSib(c.up, Painted(u, false)), p);
      Paint(gparent, true, c.up.up, Fill(WithSib(c.up, Painted(u, false)), Painted(p, false)));
    }

    /** Brings the violation to the outside of a parent that is a left child. */
    method LeanLeft(elm: Epitem, parent: Epitem, ghost c: Ctx, ghost t: Tree)
      returns (elm': Epitem, parent': Epitem, ghost p: Tree)
      requires Linked() && tree == Plug(c, t) && t.Node? && t.item == elm && !c.Top? && c.item == parent
      modifies this, items`left, items`right, items`parent
      ensures items == old(items) && Linked() && Items(tree) == old(Items(tree))
      ensures p == (if c.InLeft? then Fill(c, t) else RotL(Fill(c, t))) && tree == Plug(c.up, p)
      ensures p.item == parent' && p.l.Node? && p.l.item == elm'
    {
      hide Linked, Items;
      Focus(c, t);
      p := Fill(c, t);
      elm', parent' := elm, parent;
      if parent.right == elm {
        var tmp := RotateLeft(parent, c.up, p);
        tmp := parent;
        parent' := elm;
        elm' := tmp;
        p := RotL(p);
      }
    }

    /** The uncle is black, and the parent is a left child. */
    method InsertRotateRight(elm: Epitem, parent: Epitem, gparent: Epitem, ghost c: Ctx, ghost t: Tree)
      returns (elm': Epitem, ghost c': Ctx, ghost t': Tree)
      requires Linked() && tree == Plug(c, t) && InsertInv(c, t) && t.Node? && t.item == elm && CtxRed(c)
      requires c.item == parent && c.up.InLeft? && c.up.item == gparent && !IsRed(c.up.sib)
      modifies this, items`left, items`right, items`parent, items`red
      ensures items == old(items) && Linked() && Items(tree) == old(Items(tree))
      ensures tree == Plug(c', t') && InsertInv(c', t') && t'.item == elm' && Depth(c') < Depth(c)
    {
      hide Linked, InsertInv, Items;
      InsertRotated(c, t);
      ghost var u, g := c.up.sib, c.up.up;
      ghost var p;
      var parent';
      elm', parent', p := LeanLeft(elm, parent, c, t);
      Paint(parent', false, c.up, p);
      Paint(gparent, true, g, Node(Painted(p, false), gparent, c.up.red, u));
      var _ := RotateRight(gparent, g, Node(Painted(p, false), gparent, true, u));
      c', t' := InLeft(g, parent', false, Node(p.r, gparent, true, u)), p.l;
    }

    /** Brings the violation to the outside of a parent that is a right child. */
    method LeanRight(elm: Epitem, parent: Epitem, ghost c: Ctx, ghost t: Tree)
      returns (elm': Epitem, parent': Epitem, ghost p: Tree)
      requires Linked() && tree == Plug(c, t) && t.Node? && t.item == elm && !c.Top? && c.item == parent
      modifies this, items`left, items`right, items`parent
      ensures items == old(items) && Linked() && Items(tree) == old(Items(tree))
      ensures p == (if c.InRight? then Fill(c, t) else RotR(Fill(c, t))) && tree == Plug(c.up, p)
      ensures p.item == parent' && p.r.Node? && p.r.item == elm'
    {
      hide Linked, Items;
      Focus(c, t);
      p := Fill(c, t);
      elm', parent' := elm, parent;
      if parent.left == elm {
        var tmp := RotateRight(parent, c.up, p);
        tmp := parent;
        parent' := elm;
        elm' := tmp;
        p := RotR(p);
      }
    }

    /** The uncle is black, and the parent is a right child. */
    method InsertRotateLeft(elm: Epitem, parent: Epitem, gparent: Epitem, ghost c: Ctx, ghost t: Tree)
      returns (elm': Epitem, ghost c': Ctx, ghost t': Tree)
      requires Linked() && tree == Plug(c, t) && InsertInv(c, t) && t.Node? && t.item == elm && CtxRed(c)
      requires c.item == parent && c.up.InRight? && c.up.item == gparent && !IsRed(c.up.sib)
      modifies this, items`left, items`right, items`parent, items`red
      ensures items == old(items) && Linked() && Items(tree) == old(Items(tree))
      ensures tree == Plug(c', t') && InsertInv(c', t') && t'.item == elm' && Depth(c') < Depth(c)
    {
      hide Linked, InsertInv, Items;
      InsertRotated(c, t);
      ghost var u, g := c.up.sib, c.up.up;
      ghost var p;
      var parent';
      elm', parent', p := LeanRight(elm, parent, c, t);
      Paint(parent', false, c.up, p);
      Paint(gparent, true, g, Node(u, gparent, c.up.red, Painted(p, false)));
      var _ := RotateLeft(gparent, g, Node(u, gparent, true, Painted(p, false)));
      c', t' := InRight(g, parent', false, Node(u, gparent, true, p.l)), p.r;
    }

    /** One round of the loop. */
    method InsertColorStep(elm: Epitem, ghost c: Ctx, ghost t: Tree)
      returns (elm': Epitem, ghost c': Ctx, ghost t': Tree)
      requires Linked() && tree == Plug(c, t) && InsertInv(c, t) && t.item == elm && CtxRed(c)
      modifies this, items`left, items`right, items`parent, items`red
      ensures items == old(items) && Linked() && Items(tree) == old(Items(tree))
      ensures tree == Plug(c', t') && InsertInv(c', t') && t'.item == elm' && Depth(c') < Depth(c)
    {
      InsertRecolored(c, t);
      Focus(c, t);
      Focus(c.up, Fill(c, t));
      Focus(Sibling(c.up, Fill(c, t)), c.up.sib);
      hide Linked, InsertInv, Items;
      var parent := elm.parent;
      var gparent := parent.parent;
      if parent == gparent.left {
        var tmp := gparent.right;
        if tmp != null && tmp.red {
          RecolorUncle(tmp, parent, gparent, c, t);
          elm', c', t' := gparent, c.up.up, Recolored(c, t);
        } else {
          elm', c', t' := InsertRotateRight(elm, parent, gparent, c, t);
        }
      } else {
        var tmp := gparent.left;
        if tmp != null && tmp.red {
          RecolorUncle(tmp, parent, gparent, c, t);
          elm', c', t' := gparent, c.up.up, Recolored(c, t);
        } else {
          elm', c', t' := InsertRotateLeft(elm, parent, gparent, c, t);
        }
      }
    }

    method InsertColor(e: Epitem, ghost c0: Ctx, ghost t0: Tree)
      requires Linked() && tree == Plug(c0, t0) && InsertInv(c0, t0) && t0.item == e
      modifies this, items`left, items`right, items`parent, items`red
      ensures items == old(items) && Valid() && Items(tree) == old(Items(tree))
    {
      var elm := e;
      ghost var c, t := c0, t0;
      Focus(c, t);
      while elm.parent != null && elm.parent.red
        invariant items == old(items) && Linked() && Items(tree) == old(Items(tree))
        invariant tree == Plug(c, t) && InsertInv(c, t) && t.item == elm
        invariant elm.parent == CtxItem(c) && (!c.Top? ==> c.item.red == c.red)
        decreases Depth(c)
      {
        elm, c, t := InsertColorStep(elm, c, t);
        Focus(c, t);
      }
      InsertDone(c, t);
      Paint(root, false, Top, tree);
    }

    // ---- RB_INSERT ----

    method LinkLeafCells(elm: Epitem, parent: Epitem?, comp: int)
      requires elm !in items && (parent != null ==> parent in items)
      modifies this`root, this`items, items`left, items`right, elm`left, elm`right, elm`parent, elm`red
      ensures items == old(items) + {elm} && LinkedLeaf(old(Snapshot()), Snapshot(), elm, parent, comp < 0)
      ensures root == if parent == null then elm else old(root)
    {
      elm.parent := parent;
      elm.left, elm.right := null, null;
      elm.red := true;
      if parent != null {
        if comp < 0 {
          parent.left := elm;
        } else {
          parent.right := elm;
        }
      } else {
        root := elm;
      }
      items := items + {elm};
    }

    /** RB_SET, and the link from the parent. */
    method LinkLeaf(elm: Epitem, parent: Epitem?, comp: int, ghost c: Ctx)
      requires Linked() && tree == Plug(c, Leaf) && InHole(c, elm.sockfd)
      requires parent == CtxItem(c) && (!c.Top? ==> (comp < 0 <==> c.InLeft?))
      modifies this, items`left, items`right, elm`left, elm`right, elm`parent, elm`red
      ensures elm !in old(items) && items == old(items) + {elm}
      ensures Linked() && tree == Plug(c, NewLeaf(elm))
    {
      hide Plug, CellAt, Items, Sorted, Coherent, LinkedLeaf;
      Ordered();
      LeafKeeps(c, elm);
      Focus(c, Leaf);
      LinkLeafCells(elm, parent, comp);
      tree := Plug(c, NewLeaf(elm));
      LeafCoherent(c, elm, old(Snapshot()), Snapshot());
    }

    /** The search loop of RB_INSERT. */
    method FindSlot(elm: Epitem) returns (found: Epitem?, parent: Epitem?, comp: int, ghost c: Ctx)
      requires Valid()
      ensures found != null ==> found in items && found.sockfd == elm.sockfd
      ensures found == null ==> tree == Plug(c, Leaf) && InHole(c, elm.sockfd)
      ensures found == null ==> parent == CtxItem(c) && (!c.Top? ==> (comp < 0 <==> c.InLeft?))
      ensures found == null ==> forall x :: x in items ==> x.sockfd != elm.sockfd
    {
      var tmp := root;
      found, parent, comp, c := null, null, 0, Top;
      ghost var t := tree;
      while tmp != null
        invariant tree == Plug(c, t) && tmp == Root(t) && parent == CtxItem(c) && InHole(c, elm.sockfd)
        invariant !c.Top? ==> (comp < 0 <==> c.InLeft?)
        decreases t
      {
        Focus(c, t);
        parent := tmp;
        comp := Compare(elm.sockfd, parent.sockfd);
        if comp < 0 {
          tmp := tmp.left;
          c, t := InLeft(c, t.item, t.red, t.r), t.l;
        } else if comp > 0 {
          tmp := tmp.right;
          c, t := InRight(c, t.item, t.red, t.l), t.r;
        } else {
          found := tmp;
          return;
        }
      }
      forall x | x in items
        ensures x.sockfd != elm.sockfd
      {
        if x.sockfd == elm.sockfd { FoundInside(c, Leaf, x); }
      }
    }

    method Insert(elm: Epitem) returns (res: Epitem?)
      requires Valid()
      modifies this, items`left, items`right, items`parent, items`red, elm`left, elm`right, elm`parent, elm`red
      ensures Valid()
      ensures res != null ==> res in old(items) && res.sockfd == elm.sockfd && Unchanged()
      ensures res == null ==> (forall x :: x in old(items) ==> x.sockfd != elm.sockfd)
      ensures res == null ==> items == old(items) + {elm} && Without(Items(tree), elm, old(Items(tree)))
    {
      var parent, comp;
      ghost var c;
      res, parent, comp, c := FindSlot(elm);
      if res == null {
        LeafColors(c, elm);
        LinkLeaf(elm, parent, comp, c);
        InsertColor(elm, c, NewLeaf(elm));
      }
    }

    // ---- RB_REMOVE_COLOR ----

    /** The sibling of a left child is red. */
    method SiblingRedLeft(parent: Epitem, tmp: Epitem, ghost c: Ctx, ghost t: Tree)
      returns (tmp': Epitem, ghost c': Ctx)
      requires Linked() && tree == Plug(c, t) && RemoveInv(c, t) && !IsRed(t)
      requires c.InLeft? && IsRed(c.sib) && c.item == parent && c.sib.item == tmp
      modifies this, items`left, items`right, items`parent, items`red
      ensures items == old(items) && Linked() && Items(tree) == old(Items(tree))
      ensures tree == Plug(c', t) && RemoveInv(c', t) && Depth(c') == Depth(c) + 1
      ensures c'.InLeft? && c'.red && c'.item == parent && c'.sib.Node? && !c'.sib.red && c'.sib.item == tmp'
    {
      hide Linked, RemoveInv, Items;
      RemoveSiblingRed(c, t);
      Paint(tmp, false, Sibling(c, t), c.sib);
      Paint(parent, true, c.up, Node(t, parent, c.red, Painted(c.sib, false)));
      var _ := RotateLeft(parent, c.up, Node(t, parent, true, Painted(c.sib, false)));
      c' := InLeft(InLeft(c.up, tmp, false, c.sib.r), parent, true, c.sib.l);
      Focus(c', t);
      tmp' := parent.right;
    }

    /** The sibling of a left child is black, its left child red and its right child black. */
    method NearRedLeft(parent: Epitem, tmp: Epitem, ghost c: Ctx, ghost t: Tree) returns (tmp': Epitem, ghost c': Ctx)
      requires Linked() && tree == Plug(c, t) && RemoveInv(c, t) && c.InLeft? && c.item == parent
      requires c.sib.Node? && !c.sib.red && c.sib.item == tmp && IsRed(c.sib.l) && !IsRed(c.sib.r)
      modifies this, items`left, items`right, items`parent, items`red
      ensures items == old(items) && Linked() && Items(tree) == old(Items(tree))
      ensures tree == Plug(c', t) && RemoveInv(c', t) && c'.InLeft? && c'.item == parent
      ensures c'.sib.Node? && !c'.sib.red && c'.sib.item == tmp' && IsRed(c'.sib.r)
    {
      hide Linked, RemoveInv, Items;
      RemoveNearRed(c, t);
      ghost var b := Sibling(c, t);
      Focus(b, c.sib);
      var oleft := tmp.left;
      if oleft != null {
        Paint(oleft, false, InLeft(b, tmp, false, c.sib.r), c.sib.l);
      }
      Paint(tmp, true, b, Node(Painted(c.sib.l, false), tmp, false, c.sib.r));
      ghost var s := Node(Painted(c.sib.l, false), tmp, true, c.sib.r);
      oleft := RotateRight(tmp, b, s);
      c' := InLeft(c.up, parent, c.red, RotR(s));
      Focus(c', t);
      tmp' := parent.right;
    }

    /** The sibling of a left child is black and its right child red. */
    method FarRedLeft(parent: Epitem, tmp: Epitem, ghost c: Ctx, ghost t: Tree)
      requires Linked() && tree == Plug(c, t) && RemoveInv(c, t) && !IsRed(t) && c.InLeft? && c.item == parent
      requires c.sib.Node? && !c.sib.red && c.sib.item == tmp && IsRed(c.sib.r)
      modifies this, items`left, items`right, items`parent, items`red
      ensures items == old(items) && Valid() && Items(tree) == old(Items(tree))
    {
      hide Linked, RemoveInv, Items, RedBlack;
      RemoveFarRed(c, t);
      Focus(c, t);
      Paint(tmp, parent.red, Sibling(c, t), c.sib);
      Paint(parent, false, c.up, Node(t, parent, c.red, Painted(c.sib, c.red)));
      ghost var s := Painted(c.sib, c.red);
      Focus(InRight(c.up, parent, false, t), s);
      if tmp.right != null {
        Paint(tmp.right, false, InRight(InRight(c.up, parent, false, t), tmp, c.red, c.sib.l), c.sib.r);
      }
      var _ := RotateLeft(parent, c.up, Node(t, parent, false, Node(c.sib.l, tmp, c.red, Painted(c.sib.r, false))));
    }

    /** The sibling of a right child is red. */
    method SiblingRedRight(parent: Epitem, tmp: Epitem, ghost c: Ctx, ghost t: Tree)
      returns (tmp': Epitem, ghost c': Ctx)
      requires Linked() && tree == Plug(c, t) && RemoveInv(c, t) && !IsRed(t)
      requires c.InRight? && IsRed(c.sib) && c.item == parent && c.sib.item == tmp
      modifies this, items`left, items`right, items`parent, items`red
      ensures items == old(items) && Linked() && Items(tree) == old(Items(tree))
      ensures tree == Plug(c', t) && RemoveInv(c', t) && Depth(c') == Depth(c) + 1
      ensures c'.InRight? && c'.red && c'.item == parent && c'.sib.Node? && !c'.sib.red && c'.sib.item == tmp'
    {
      hide Linked, RemoveInv, Items;
      RemoveSiblingRed(c, t);
      Paint(tmp, false, Sibling(c, t), c.sib);
      Paint(parent, true, c.up, Node(Painted(c.sib, false), parent, c.red, t));
      var _ := RotateRight(parent, c.up, Node(Painted(c.sib, false), parent, true, t));
      c' := InRight(InRight(c.up, tmp, false, c.sib.l), parent, true, c.sib.r);
      Focus(c', t);
      tmp' := parent.left;
    }

    /** The sibling of a right child is black, its right child red and its left child black. */
    method NearRedRight(parent: Epitem, tmp: Epitem, ghost c: Ctx, ghost t: Tree) returns (tmp': Epitem, ghost c': Ctx)
      requires Linked() && tree == Plug(c, t) && RemoveInv(c, t) && c.InRight? && c.item == parent
      requires c.sib.Node? && !c.sib.red && c.sib.item == tmp && IsRed(c.sib.r) && !IsRed(c.sib.l)
      modifies this, items`left, items`right, items`parent, items`red
      ensures items == old(items) && Linked() && Items(tree) == old(Items(tree))
      ensures tree == Plug(c', t) && RemoveInv(c', t) && c'.InRight? && c'.item == parent
      ensures c'.sib.Node? && !c'.sib.red && c'.sib.item == tmp' && IsRed(c'.sib.l)
    {
      hide Linked, RemoveInv, Items;
      RemoveNearRed(c, t);
      ghost var b := Sibling(c, t);
      Focus(b, c.sib);
      var oright := tmp.right;
      if oright != null {
        Paint(oright, false, InRight(b, tmp, false, c.sib.l), c.sib.r);
      }
      Paint(tmp, true, b, Node(c.sib.l, tmp, false, Painted(c.sib.r, false)));
      ghost var s := Node(c.sib.l, tmp, true, Painted(c.sib.r, false));
      oright := RotateLeft(tmp, b, s);
      c' := InRight(c.up, parent, c.red, RotL(s));
      Focus(c', t);
      tmp' := parent.left;
    }

    /** The sibling of a right child is black and its left child red. */
    method FarRedRight(parent: Epitem, tmp: Epitem, ghost c: Ctx, ghost t: Tree)
      requires Linked() && tree == Plug(c, t) && RemoveInv(c, t) && !IsRed(t) && c.InRight? && c.item == parent
      requires c.sib.Node? && !c.sib.red && c.sib.item == tmp && IsRed(c.sib.l)
      modifies this, items`left, items`right, items`parent, items`red
      ensures items == old(items) && Valid() && Items(tree) == old(Items(tree))
    {
      hide Linked, RemoveInv, Items, RedBlack;
      RemoveFarRed(c, t);
      Focus(c, t);
      Paint(tmp, parent.red, Sibling(c, t), c.sib);
      Paint(parent, false, c.up, Node(Painted(c.sib, c.red), parent, c.red, t));
      ghost var s := Painted(c.sib, c.red);
      Focus(InLeft(c.up, parent, false, t), s);
      if tmp.left != null {
        Paint(tmp.left, false, InLeft(InLeft(c.up, parent, false, t), tmp, c.red, c.sib.r), c.sib.l);
      }
      var _ := RotateRight(parent, c.up, Node(Node(Painted(c.sib.l, false), tmp, c.red, c.sib.r), parent, false, t));
    }

    /** One round of the loop for a left child. `done` tells that the round ends with the break. */
    method RemoveColorLeft(elm: Epitem?, parent: Epitem, ghost c: Ctx, ghost t: Tree)
      returns (elm': Epitem?, parent': Epitem?, done: bool, ghost c': Ctx, ghost t': Tree)
      requires Linked() && tree == Plug(c, t) && RemoveInv(c, t) && !IsRed(t) && c.InLeft? && c.item == parent
      modifies this, items`left, items`right, items`parent, items`red
      ensures items == old(items) && Linked() && Items(tree) == old(Items(tree))
      ensures !done ==> tree == Plug(c', t') && RemoveInv(c', t') && elm' == Root(t') && parent' == CtxItem(c')
      ensures !done ==> Depth(c') < Depth(c) || (Depth(c') == Depth(c) && IsRed(t'))
      ensures done ==> Valid() && elm' == root
    {
      RemoveSiblingRed(c, t);
      Focus(c, t);
      Focus(Sibling(c, t), c.sib);
      hide Linked, RemoveInv, Items, RedBlack;
      var tmp := parent.right;
      elm', parent', c', t' := elm, parent, c, t;
      if tmp.red {
        tmp, c' := SiblingRedLeft(parent, tmp, c, t);
      }
      ghost var b, s := Sibling(c', t), c'.sib;
      Focus(b, s);
      Focus(InLeft(b, tmp, false, s.r), s.l);
      Focus(InRight(b, tmp, false, s.l), s.r);
      if (tmp.left == null || !tmp.left.red) && (tmp.right == null || !tmp.right.red) {
        RemoveSiblingBlack(c', t);
        Paint(tmp, true, b, s);
        t' := Fill(WithSib(c', Painted(s, true)), t);
        c' := c'.up;
        Focus(c', t');
        elm' := parent;
        parent' := elm'.parent;
        done := false;
      } else {
        if tmp.right == null || !tmp.right.red {
          tmp, c' := NearRedLeft(parent, tmp, c', t);
        }
        FarRedLeft(parent, tmp, c', t);
        elm' := root;
        done := true;
      }
    }

    /** One round of the loop for a right child. `done` tells that the round ends with the break. */
    method RemoveColorRight(elm: Epitem?, parent: Epitem, ghost c: Ctx, ghost t: Tree)
      returns (elm': Epitem?, parent': Epitem?, done: bool, ghost c': Ctx, ghost t': Tree)
      requires Linked() && tree == Plug(c, t) && RemoveInv(c, t) && !IsRed(t) && c.InRight? && c.item == parent
      modifies this, items`left, items`right, items`parent, items`red
      ensures items == old(items) && Linked() && Items(tree) == old(Items(tree))
      ensures !done ==> tree == Plug(c', t') && RemoveInv(c', t') && elm' == Root(t') && parent' == CtxItem(c')
      ensures !done ==> Depth(c') < Depth(c) || (Depth(c') == Depth(c) && IsRed(t'))
      ensures done ==> Valid() && elm' == root
    {
      RemoveSiblingRed(c, t);
      Focus(c, t);
      Focus(Sibling(c, t), c.sib);
      hide Linked, RemoveInv, Items, RedBlack;
      var tmp := parent.left;
      elm', parent', c', t' := elm, parent, c, t;
      if tmp.red {
        tmp, c' := SiblingRedRight(parent, tmp, c, t);
      }
      ghost var b, s := Sibling(c', t), c'.sib;
      Focus(b, s);
      Focus(InRight(b, tmp, false, s.l), s.r);
      Focus(InLeft(b, tmp, false, s.r), s.l);
      if (tmp.right == null || !tmp.right.red) && (tmp.left == null || !tmp.left.red) {
        RemoveSiblingBlack(c', t);
        Paint(tmp, true, b, s);
        t' := Fill(WithSib(c', Painted(s, true)), t);
        c' := c'.up;
        Focus(c', t');
        elm' := parent;
        parent' := elm'.parent;
        done := false;
      } else {
        if tmp.left == null || !tmp.left.red {
          tmp, c' := NearRedRight(parent, tmp, c', t);
        }
        FarRedRight(parent, tmp, c', t);
        elm' := root;
        done := true;
      }
    }

    /** The loop invariant of RB_REMOVE_COLOR, in terms of the code's variables. */
    ghost predicate AtFocus(elm: Epitem?, parent: Epitem?, c: Ctx, t: Tree)
      reads this, items`left, items`right, items`parent, items`red
    {
      && Linked() && tree == Plug(c, t) && RemoveInv(c, t) && elm == Root(t) && parent == CtxItem(c)
      && (elm != null ==> elm in items && elm.red == t.red) && (elm == root <==> c.Top?)
      && (!c.Top? ==> parent in items && (parent.left == elm <==> c.InLeft?))
    }

    lemma ToFocus(c: Ctx, t: Tree)
      requires Linked() && tree == Plug(c, t) && RemoveInv(c, t)
      ensures AtFocus(Root(t), CtxItem(c), c, t)
    {
      Focus(c, t);
      RootAbove(c, t);
    }

    method RemoveColorStep(elm: Epitem?, parent: Epitem?, ghost c: Ctx, ghost t: Tree)
      returns (elm': Epitem?, parent': Epitem?, done: bool, ghost c': Ctx, ghost t': Tree)
      requires AtFocus(elm, parent, c, t) && !IsRed(t) && !c.Top?
      modifies this, items`left, items`right, items`parent, items`red
      ensures items == old(items) && Items(tree) == old(Items(tree))
      ensures AtFocus(elm', if done then null else parent', c', t')
      ensures if done then c'.Top? else Depth(c') < Depth(c) || (Depth(c') == Depth(c) && IsRed(t'))
    {
      hide RemoveInv, Items, Sorted, Coherent;
      if parent.left == elm {
        elm', parent', done, c', t' := RemoveColorLeft(elm, parent, c, t);
      } else {
        elm', parent', done, c', t' := RemoveColorRight(elm, parent, c, t);
      }
      if done {
        c', t' := Top, tree;
        RemoveRestart(t');
      }
      ToFocus(c', t');
    }

    method RemoveColor(parent0: Epitem?, elm0: Epitem?, ghost c0: Ctx, ghost t0: Tree)
      requires Linked() && tree == Plug(c0, t0) && RemoveInv(c0, t0) && elm0 == Root(t0) && parent0 == CtxItem(c0)
      modifies this, items`left, items`right, items`parent, items`red
      ensures items == old(items) && Valid() && Items(tree) == old(Items(tree))
    {
      hide RemoveInv, Items, Sorted, Coherent;
      var elm, parent, done := elm0, parent0, false;
      ghost var c, t := c0, t0;
      ToFocus(c, t);
      while (elm == null || !elm.red) && elm != root
        invariant items == old(items) && Items(tree) == old(Items(tree)) && AtFocus(elm, parent, c, t)
        decreases Depth(c), !IsRed(t)
      {
        elm, parent, done, c, t := RemoveColorStep(elm, parent, c, t);
        if done {
          break;
        }
      }
      RemoveDone(c, t);
      if elm != null {
        Paint(elm, false, c, t);
      }
    }

    // ---- RB_REMOVE ----

    /** Lets the link from `parent` (from the head, if there is none) to `elm` lead to `x`. */
    method Redirect(parent: Epitem?, elm: Epitem, x: Epitem?)
      modifies this`root, Opt(parent)`left, Opt(parent)`right
      ensures root == if parent == null then x else old(root)
      ensures parent != null ==> parent.left == if old(parent.left) == elm then x else old(parent.left)
      ensures parent != null ==> parent.right == if old(parent.left) == elm then old(parent.right) else x
    {
      if parent != null {
        if parent.left == elm {
          parent.left := x;
        } else {
          parent.right := x;
        }
      } else {
        root := x;
      }
    }

    method SpliceCells(elm: Epitem, child: Epitem?, parent: Epitem?)
      requires CanSplice(Snapshot(), elm, child, parent)
      modifies this`root, this`items, items`left, items`right, items`parent
      ensures Spliced(old(Snapshot()), Snapshot(), elm, child, parent) && Links(elm) == old(Links(elm))
      ensures items == old(items) - {elm}
      ensures root == if parent == null then child else old(root)
    {
      if child != null {
        child.parent := parent;
      }
      Redirect(parent, elm, child);
      items := items - {elm};
    }

    /** Lets `child` take the place of `elm`, which has no other child. */
    method Splice(elm: Epitem, child: Epitem?, parent: Epitem?, ghost c: Ctx, ghost t: Tree)
      requires Linked() && tree == Plug(c, t) && t.Node? && t.item == elm && (t.l.Leaf? || t.r.Leaf?)
      requires child == Root(OnlyChild(t)) && parent == CtxItem(c)
      modifies this, items`left, items`right, items`parent
      ensures items == old(items) - {elm} && elm in old(items) && Links(elm) == old(Links(elm))
      ensures Linked() && tree == Plug(c, OnlyChild(t))
    {
      hide Plug, CellAt, Items, Sorted, Coherent, CanSplice, Spliced;
      SpliceKeeps(c, t);
      SpliceApart(c, t, Snapshot());
      SpliceCells(elm, child, parent);
      tree := Plug(c, OnlyChild(t));
      SpliceCoherent(c, t, old(Snapshot()), Snapshot());
    }

    method TransplantLinks(was: Epitem, elm: Epitem)
      requires was.left != null && was.left != was && was.right != was && was.parent != was && elm != was
      requires elm != was.left && elm != was.right && elm != was.parent
      requires was.left != was.right && was.left != was.parent && (was.right == null || was.right != was.parent)
      modifies this`root, elm`left, elm`right, elm`parent, elm`red
      modifies Opt(was.left)`parent, Opt(was.right)`parent, Opt(was.parent)`left, Opt(was.parent)`right
      ensures Links(elm) == old(Links(was)) && elm.left.parent == elm && (elm.right != null ==> elm.right.parent == elm)
      ensures root == if elm.parent == null then elm else old(root)
      ensures elm.parent != null ==> Links(elm.parent) == old(Redirected(Links(was.parent), was, elm))
    {
      elm.left, elm.right, elm.parent, elm.red := was.left, was.right, was.parent, was.red;
      Redirect(was.parent, was, elm);
      was.left.parent := elm;
      if was.right != null {
        was.right.parent := elm;
      }
    }

    method TransplantCells(was: Epitem, elm: Epitem)
      requires CanTransplant(Snapshot(), was, elm)
      modifies this`root, this`items, items`left, items`right, items`parent, elm`left, elm`right, elm`parent, elm`red
      ensures Transplanted(old(Snapshot()), Snapshot(), was, elm) && items == old(items) - {was} + {elm}
      ensures root == if old(was.parent) == null then elm else old(root)
    {
      TransplantLinks(was, elm);
      items := items - {was} + {elm};
    }

    /** Lets `elm` take over the place and the colour of `was`, which has a left child. */
    method Transplant(was: Epitem, elm: Epitem, ghost c: Ctx, ghost t: Tree)
      requires Linked() && tree == Plug(c, t) && t.Node? && t.item == was && t.l.Node?
      requires elm !in items && Sorted(Items(t.(item := elm))) && InHole(c, elm.sockfd)
      modifies this, items`left, items`right, items`parent, elm`left, elm`right, elm`parent, elm`red
      ensures items == old(items) - {was} + {elm} && Linked() && tree == Plug(c, t.(item := elm))
    {
      hide Plug, CellAt, Items, Sorted, Coherent, CanTransplant, Transplanted;
      RenameKeeps(c, t, elm);
      TransplantApart(c, t, elm, Snapshot());
      TransplantCells(was, elm);
      tree := Plug(c, t.(item := elm));
      RenameCoherent(c, t, elm, old(Snapshot()), Snapshot());
    }

    /** The leftmost item of the right subtree. */
    method Successor(was: Epitem, ghost c: Ctx, ghost t: Tree) returns (elm: Epitem, ghost sp: Ctx, ghost s: Tree)
      requires Linked() && tree == Plug(c, t) && t.Node? && t.item == was && t.r.Node?
      ensures LeftSpine(sp) && t.r == Plug(sp, s) && s.Node? && s.l.Leaf? && s.item == elm
      ensures tree == Plug(Append(sp, InRight(c, was, t.red, t.l)), s)
      ensures Links(elm) == Cell(null, Root(s.r), CtxItem(Append(sp, InRight(c, was, t.red, t.l))), s.red)
    {
      ghost var b := InRight(c, was, t.red, t.l);
      Focus(c, t);
      elm, sp, s := was.right, Top, t.r;
      Focus(b, s);
      while elm.left != null
        invariant LeftSpine(sp) && t.r == Plug(sp, s) && s.Node? && s.item == elm
        invariant tree == Plug(Append(sp, b), s)
        invariant Links(elm) == Cell(Root(s.l), Root(s.r), CtxItem(Append(sp, b)), s.red)
        decreases s
      {
        elm := elm.left;
        sp, s := InLeft(sp, s.item, s.red, s.r), s.l;
        Focus(Append(sp, b), s);
      }
    }

    /** Takes the successor `elm` of `was` out of the tree, and says where its child is to be looked after. */
    method Unhook(was: Epitem, elm: Epitem, ghost c: Ctx, ghost t: Tree, ghost sp: Ctx, ghost s: Tree)
      returns (child: Epitem?, parent: Epitem?, color: bool)
      requires Valid() && tree == Plug(c, t) && t.Node? && t.item == was
      requires LeftSpine(sp) && t.r == Plug(sp, s) && s.Node? && s.l.Leaf? && s.item == elm
      requires Links(elm) == Cell(null, Root(s.r), CtxItem(Append(sp, InRight(c, was, t.red, t.l))), s.red)
      modifies this, items`left, items`right, items`parent
      ensures elm in old(items) && items == old(items) - {elm} && Linked()
      ensures tree == Plug(c, t.(r := Plug(sp, s.r))) && child == Root(s.r) && color == s.red
      ensures parent == if sp.Top? then elm else sp.item
    {
      hide Valid, Linked, RedBlack, Items, Sorted, LeftSpine;
      ValidParts();
      Ordered();
      ghost var b := Append(sp, InRight(c, was, t.red, t.l));
      child, parent, color := elm.right, elm.parent, elm.red;
      PlugAppend(sp, InRight(c, was, t.red, t.l), s);
      PlugAppend(sp, InRight(c, was, t.red, t.l), s.r);
      SpineParent(c, t, sp, s);
      Splice(elm, child, parent, b, s);
      if elm.parent == was {
        parent := elm;
      }
    }

    /** The part of RB_REMOVE for an item with two children, up to the colours. */
    method Relink(was: Epitem, elm: Epitem, ghost c: Ctx, ghost t: Tree, ghost sp: Ctx, ghost s: Tree)
      returns (child: Epitem?, parent: Epitem?, color: bool)
      requires Valid() && tree == Plug(c, t) && t.Node? && t.item == was && t.l.Node?
      requires LeftSpine(sp) && t.r == Plug(sp, s) && s.Node? && s.l.Leaf? && s.item == elm
      requires Links(elm) == Cell(null, Root(s.r), CtxItem(Append(sp, InRight(c, was, t.red, t.l))), s.red)
      modifies this, items`left, items`right, items`parent, items`red
      ensures items == old(items) - {was} && Linked()
      ensures tree == Plug(c, Node(t.l, elm, t.red, Plug(sp, s.r)))
      ensures child == Root(s.r) && color == s.red && parent == if sp.Top? then elm else sp.item
    {
      hide Valid, Linked, RedBlack, Items, Sorted, Plug, InHole, LeftSpine;
      ValidParts();
      Ordered();
      SuccessorFits(c, t, sp, s);
      RenameFresh(c, t);
      SuccessorFirst(sp, s);
      PlugSet(c, t);
      child, parent, color := Unhook(was, elm, c, t, sp, s);
      Transplant(was, elm, c, t.(r := Plug(sp, s.r)));
    }

    method Remove(elm: Epitem) returns (res: Epitem)
      requires Valid() && elm in items
      modifies this, items`left, items`right, items`parent, items`red
      ensures res == elm && Valid() && items == old(items) - {elm} && Without(old(Items(tree)), elm, Items(tree))
    {
      ghost var c, t := Locate(Top, tree, elm);
      Focus(c, t);
      var child, parent, color;
      if elm.left != null && elm.right != null {
        ghost var sp, s;
        var next;
        next, sp, s := Successor(elm, c, t);
        RelinkFacts(c, t, sp, s);
        child, parent, color := Relink(elm, next, c, t, sp, s);
        c, t := Append(sp, InRight(c, next, t.red, t.l)), s.r;
      } else {
        child := if elm.left == null then elm.right else elm.left;
        parent, color := elm.parent, elm.red;
        SpliceWithout(c, t);
        SpliceColors(c, t);
        Splice(elm, child, parent, c, t);
        t := OnlyChild(t);
      }
      if !color {
        RemoveColor(parent, child, c, t);
      }
      res := elm;
    }

    // ---- queries ----

    method Find(sockid: int) returns (res: Epitem?, ghost visited: nat)
      requires Valid()
      ensures res != null ==> res in items && res.sockfd == sockid
      ensures res == null ==> forall x :: x in items ==> x.sockfd != sockid
      ensures visited <= Height(tree)
    {
      var tmp := root;
      ghost var c, t := Top, tree;
      visited := 0;
      while tmp != null
        invariant tree == Plug(c, t) && tmp == Root(t) && InHole(c, sockid)
        invariant visited + Height(t) <= Height(tree)
        decreases t
      {
        Focus(c, t);
        visited := visited + 1;
        var comp := Compare(sockid, tmp.sockfd);
        if comp < 0 {
          tmp := tmp.left;
          c, t := InLeft(c, t.item, t.red, t.r), t.l;
        } else if comp > 0 {
          tmp := tmp.right;
          c, t := InRight(c, t.item, t.red, t.l), t.r;
        } else {
          return tmp, visited;
        }
      }
      forall x | x in items
        ensures x.sockfd != sockid
      {
        if x.sockfd == sockid { FoundInside(c, Leaf, x); }
      }
      res := null;
    }

    method NFind(sockid: int) returns (res: Epitem?, ghost visited: nat)
      requires Valid()
      ensures res != null ==> res in items && sockid <= res.sockfd
      ensures forall x :: x in items && sockid <= x.sockfd ==> res != null && res.sockfd <= x.sockfd
      ensures visited <= Height(tree)
    {
      var tmp := root;
      res, visited := null, 0;
      ghost var c, t := Top, tree;
      while tmp != null
        invariant tree == Plug(c, t) && tmp == Root(t) && InHole(c, sockid)
        invariant visited + Height(t) <= Height(tree)
        invariant res == First(After(c))
        decreases t
      {
        Focus(c, t);
        visited := visited + 1;
        var comp := Compare(sockid, tmp.sockfd);
        if comp < 0 {
          res := tmp;
          tmp := tmp.left;
          c, t := InLeft(c, t.item, t.red, t.r), t.l;
        } else if comp > 0 {
          tmp := tmp.right;
          c, t := InRight(c, t.item, t.red, t.l), t.r;
        } else {
          return tmp, visited;
        }
      }
      NearestBehind(c, sockid);
    }

    method MinMax(val: int) returns (parent: Epitem?)
      requires Valid()
      ensures parent == if val < 0 then First(Items(tree)) else Last(Items(tree))
    {
      var tmp := root;
      parent := null;
      ghost var c, t := Top, tree;
      while tmp != null
        invariant tree == Plug(c, t) && tmp == Root(t) && parent == CtxItem(c)
        invariant if val < 0 then LeftSpine(c) else RightSpine(c)
        decreases t
      {
        Focus(c, t);
        parent := tmp;
        if val < 0 {
          tmp := tmp.left;
          c, t := InLeft(c, t.item, t.red, t.r), t.l;
        } else {
          tmp := tmp.right;
          c, t := InRight(c, t.item, t.red, t.l), t.r;
        }
      }
      SpineEnds(c);
    }

    /** What stands beside position `i` in the order. */
    lemma Neighbours(i: nat)
      requires Valid() && i < |Items(tree)|
      ensures var s, n, p := Items(tree), First(Items(tree)[i + 1..]), Last(Items(tree)[..i]);
        && (n != null ==> n in items && s[i].sockfd < n.sockfd)
        && (p != null ==> p in items && p.sockfd < s[i].sockfd)
        && (forall x :: x in items && s[i].sockfd < x.sockfd ==> n != null && n.sockfd <= x.sockfd)
        && (forall x :: x in items && x.sockfd < s[i].sockfd ==> p != null && x.sockfd <= p.sockfd)
    {
      hide Valid, Items;
      TreeItems();
      var s, n, p := Items(tree), First(Items(tree)[i + 1..]), Last(Items(tree)[..i]);
      if n != null {
        assert s[i + 1..][0] == s[i + 1] == n;
        InItems(n);
      }
      if p != null {
        assert s[..i][i - 1] == s[i - 1] == p;
        InItems(p);
      }
      forall x | x in items
        ensures s[i].sockfd < x.sockfd ==> n != null && n.sockfd <= x.sockfd
        ensures x.sockfd < s[i].sockfd ==> p != null && x.sockfd <= p.sockfd
      {
        assert x in s;
        var j :| 0 <= j < |s| && s[j] == x;
        if i < j { assert s[i + 1..][0] == s[i + 1]; }
        if j < i { assert s[..i][i - 1] == s[i - 1]; }
      }
    }

    lemma InItems(x: Epitem)
      requires Valid() && x in Items(tree)
      ensures x in items
    {
      ItemsSet(tree, x);
    }

    /** RB_NEXT. `i` is the position of `elm` in the symmetric order. */
    method Next(elm: Epitem) returns (res: Epitem?, ghost i: nat)
      requires Valid() && elm in items
      ensures i < |Items(tree)| && Items(tree)[i] == elm && res == First(Items(tree)[i + 1..])
      ensures res != null ==> res in items && elm.sockfd < res.sockfd
      ensures forall x :: x in items && elm.sockfd < x.sockfd ==> res != null && res.sockfd <= x.sockfd
    {
      hide Items, Sorted, Coherent, CellAt, Set;
      Ordered();
      ghost var c, t := Locate(Top, tree, elm);
      i := |Before(c)| + |Items(t.l)|;
      NextIndex(c, t);
      Neighbours(i);
      Focus(c, t);
      if elm.right != null {
        ghost var sp, s;
        res, sp, s := Successor(elm, c, t);
        SuccessorFirst(sp, s);
      } else {
        res := elm;
        while res.parent != null && res == res.parent.right
          invariant tree == Plug(c, t) && t.Node? && t.item == res && First(After(c)) == First(Items(tree)[i + 1..])
          invariant res.parent == CtxItem(c) && (!c.Top? ==> (res.parent.right == res <==> c.InRight?))
          decreases Depth(c)
        {
          res := res.parent;
          c, t := c.up, Fill(c, t);
          Focus(c, t);
        }
        res := res.parent;
      }
    }

    /** RB_PREV */
    method Prev(elm: Epitem) returns (res: Epitem?, ghost i: nat)
      requires Valid() && elm in items
      ensures i < |Items(tree)| && Items(tree)[i] == elm && res == Last(Items(tree)[..i])
      ensures res != null ==> res in items && res.sockfd < elm.sockfd
      ensures forall x :: x in items && x.sockfd < elm.sockfd ==> res != null && x.sockfd <= res.sockfd
    {
      hide Items, Sorted, Coherent, CellAt, Set;
      Ordered();
      ghost var c, t := Locate(Top, tree, elm);
      i := |Before(c)| + |Items(t.l)|;
      PrevIndex(c, t);
      Neighbours(i);
      Focus(c, t);
      if elm.left != null {
        res := Predecessor(elm, c, t);
      } else {
        res := elm;
        while res.parent != null && res == res.parent.left
          invariant tree == Plug(c, t) && t.Node? && t.item == res && Last(Before(c)) == Last(Items(tree)[..i])
          invariant res.parent == CtxItem(c) && (!c.Top? ==> (res.parent.left == res <==> c.InLeft?))
          decreases Depth(c)
        {
          res := res.parent;
          c, t := c.up, Fill(c, t);
          Focus(c, t);
        }
        res := res.parent;
      }
    }

    /** The rightmost item of the left subtree. */
    method Predecessor(was: Epitem, ghost c: Ctx, ghost t: Tree) returns (elm: Epitem)
      requires Linked() && tree == Plug(c, t) && t.Node? && t.item == was && t.l.Node?
      ensures elm == Last(Items(t.l))
    {
      ghost var b, sp, s := InLeft(c, was, t.red, t.r), Top, t.l;
      Focus(c, t);
      elm := was.left;
      Focus(b, s);
      while elm.right != null
        invariant RightSpine(sp) && t.l == Plug(sp, s) && s.Node? && s.item == elm
        invariant tree == Plug(Append(sp, b), s)
        invariant Links(elm) == Cell(Root(s.l), Root(s.r), CtxItem(Append(sp, b)), s.red)
        decreases s
      {
        elm := elm.right;
        sp, s := InRight(sp, s.item, s.red, s.l), s.r;
        Focus(Append(sp, b), s);
      }
      PredecessorLast(sp, s);
    }

    /** RB_FOREACH */
    method ForEach() returns (visited: seq<Epitem>)
      requires Valid()
      ensures visited == Items(tree)
    {
      visited := [];
      var x := MinMax(-1);
      while x != null
        invariant |visited| <= |Items(tree)| && visited == Items(tree)[..|visited|]
        invariant x == First(Items(tree)[|visited|..])
        decreases |Items(tree)| - |visited|
      {
        ghost var k, i := |visited|, 0;
        visited := visited + [x];
        ItemsSet(tree, x);
        x, i := Next(x);
        SortedIndex(Items(tree), i, k);
      }
    }

    /** A search visits at most twice as many items as the logarithm of their number, plus one. */
    lemma WalkBound(visited: nat)
      requires Valid() && visited <= Height(tree)
      ensures Pow2(visited) <= (|Items(tree)| + 1) * (|Items(tree)| + 1)
    {
      HeightBound(tree);
      Pow2Grows(visited, Height(tree));
    }

    /** RB_PREV undoes RB_NEXT. */
    method ThereAndBack(elm: Epitem) returns (next: Epitem?, back: Epitem?)
      requires Valid() && elm in items
      ensures next == null ==> elm == Last(Items(tree))
      ensures next != null ==> next in items && elm.sockfd < next.sockfd && back == elm
    {
      hide Valid;
      TreeItems();
      ghost var i, j;
      next, i := Next(elm);
      back := null;
      if next != null {
        assert Items(tree)[i + 1..][0] == Items(tree)[i + 1] == next;
        InItems(next);
        back, j := Prev(next);
        SortedIndex(Items(tree), i + 1, j);
        assert Items(tree)[..j][j - 1] == elm;
      }
    }

    /** And NEXT undoes PREV. */
    method BackAndThere(elm: Epitem) returns (prev: Epitem?, back: Epitem?)
      requires Valid() && elm in items
      ensures prev == null ==> elm == First(Items(tree))
      ensures prev != null ==> prev in items && prev.sockfd < elm.sockfd && back == elm
    {
      hide Valid;
      TreeItems();
      ghost var i, j;
      prev, i := Prev(elm);
      back := null;
      if prev != null {
        assert Items(tree)[..i][i - 1] == Items(tree)[i - 1] == prev;
        InItems(prev);
        back, j := Next(prev);
        SortedIndex(Items(tree), i - 1, j);
        assert Items(tree)[j + 1..][0] == elm;
      }
    }
  }
}
