/** The top-down splay tree of nty_tree.h, on the same items, linked by their left and right fields. */
module Splay {
  import opened Epitems
  import opened RbModel
  import opened RbEdits
  import opened SplayModel

  class SplayHead {
    var root: Epitem?
    ghost var items: set<Epitem>
    ghost var tree: Tree

    constructor ()
      ensures Valid() && items == {} && tree == Leaf
    {
      root, items, tree := null, {}, Leaf;
    }

    ghost function KidsOf(x: Epitem): Kids
      reads x`left, x`right
    {
      Kids(x.left, x.right)
    }

    ghost predicate Valid()
      reads this, items`left, items`right
    {
      && root == Root(tree) && items == Set(tree) && Sorted(Items(tree))
      && forall x :: x in items ==> KidsOf(x) == KidsAt(tree, x.sockfd)
    }

    /** The items are cut into a left, a middle and a right tree. `left` and `right` are where the
        next pieces go; `node` stands above the empty side trees. */
    ghost predicate Working(lc: Ctx, t: Tree, rc: Ctx, node: Epitem, left: Epitem, right: Epitem)
      reads this, items`left, items`right, node`left, node`right
    {
      && t.Node? && root == t.item && Spines(lc, rc)
      && items == Set(Whole(lc, t, rc)) && Sorted(Items(Whole(lc, t, rc))) && node !in items
      && left == (if lc.Top? then node else lc.item) && right == (if rc.Top? then node else rc.item)
      && (!lc.Top? ==> lc.item in items && node.right == TopItem(lc))
      && (!rc.Top? ==> rc.item in items && node.left == TopItem(rc))
      && forall x :: x in items ==>
        SameKids(KidsOf(x), KidsAt(Whole(lc, t, rc), x.sockfd), x != CtxItem(rc), x != CtxItem(lc))
    }

    /** SPLAY_LINKLEFT */
    method LinkLeft(node: Epitem, left: Epitem, right: Epitem, ghost lc: Ctx, ghost t: Tree, ghost rc: Ctx)
      returns (right': Epitem)
      requires Working(lc, t, rc, node, left, right) && t.l.Node?
      modifies this`root, items`left, node`left
      ensures Working(lc, t.l, LinkedLeft(t, rc), node, left, right')
      ensures Items(Whole(lc, t.l, LinkedLeft(t, rc))) == Items(Whole(lc, t, rc))
    {
      LinkLeftAt(lc, t, rc);
      Lookup(Append(rc, lc), t);
      right.left := root;
      right' := root;
      root := root.left;
      forall x | x in items && x != t.item && !rc.Top?
        ensures x.sockfd == rc.item.sockfd <==> x == rc.item
      {
        Unique(Whole(lc, t, rc), x, rc.item);
      }
    }

    /** SPLAY_LINKRIGHT */
    method LinkRight(node: Epitem, left: Epitem, right: Epitem, ghost lc: Ctx, ghost t: Tree, ghost rc: Ctx)
      returns (left': Epitem)
      requires Working(lc, t, rc, node, left, right) && t.r.Node?
      modifies this`root, items`right, node`right
      ensures Working(LinkedRight(lc, t), t.r, rc, node, left', right)
      ensures Items(Whole(LinkedRight(lc, t), t.r, rc)) == Items(Whole(lc, t, rc))
    {
      LinkRightItems(lc, t, rc);
      LinkRightSet(lc, t, rc);
      CutApart(lc, t, rc);
      Lookup(Append(rc, lc), t);
      left.right := root;
      left' := root;
      root := root.right;
      forall x | x in items
        ensures SameKids(KidsOf(x), KidsAt(Whole(LinkedRight(lc, t), t.r, rc), x.sockfd), x != CtxItem(rc), x != t.item)
      {
        LinkRightAt(lc, t, rc, x.sockfd);
        Unique(Whole(lc, t, rc), x, t.item);
        if !lc.Top? { Unique(Whole(lc, t, rc), x, lc.item); }
        if !rc.Top? { Unique(Whole(lc, t, rc), x, rc.item); }
      }
    }

    /** SPLAY_ROTATE_RIGHT */
    method RotateRight(tmp: Epitem, node: Epitem, left: Epitem, right: Epitem,
        ghost lc: Ctx, ghost t: Tree, ghost rc: Ctx)
      requires Working(lc, t, rc, node, left, right) && t.l.Node? && tmp == t.l.item
      modifies this`root, items`left, items`right
      ensures Working(lc, RotR(t), rc, node, left, right)
      ensures Items(Whole(lc, RotR(t), rc)) == Items(Whole(lc, t, rc))
    {
      ghost var c := Append(rc, lc);
      CutApart(lc, t, rc);
      RotRKeeps(c, t);
      Lookup(c, t);
      Lookup(InLeft(c, t.item, t.red, t.r), t.l);
      root.left := tmp.right;
      tmp.right := root;
      root := tmp;
      forall x | x in items
        ensures SameKids(KidsOf(x), KidsAt(Whole(lc, RotR(t), rc), x.sockfd), x != CtxItem(rc), x != CtxItem(lc))
      {
        RotRAt(lc, t, rc, x);
      }
    }

    /** SPLAY_ROTATE_LEFT */
    method RotateLeft(tmp: Epitem, node: Epitem, left: Epitem, right: Epitem,
        ghost lc: Ctx, ghost t: Tree, ghost rc: Ctx)
      requires Working(lc, t, rc, node, left, right) && t.r.Node? && tmp == t.r.item
      modifies this`root, items`left, items`right
      ensures Working(lc, RotL(t), rc, node, left, right)
      ensures Items(Whole(lc, RotL(t), rc)) == Items(Whole(lc, t, rc))
    {
      ghost var c := Append(rc, lc);
      CutApart(lc, t, rc);
      RotLKeeps(c, t);
      Lookup(c, t);
      Lookup(InRight(c, t.item, t.red, t.l), t.r);
      root.right := tmp.left;
      tmp.left := root;
      root := tmp;
      forall x | x in items
        ensures SameKids(KidsOf(x), KidsAt(Whole(lc, RotL(t), rc), x.sockfd), x != CtxItem(rc), x != CtxItem(lc))
      {
        RotLAt(lc, t, rc, x);
      }
    }

    /** SPLAY_ASSEMBLE */
    method Assemble(node: Epitem, left: Epitem, right: Epitem, ghost lc: Ctx, ghost t: Tree, ghost rc: Ctx)
      requires Working(lc, t, rc, node, left, right)
      modifies this`tree, items`left, items`right, node`left, node`right
      ensures Valid() && tree == Assembled(lc, t, rc) && Items(tree) == Items(Whole(lc, t, rc))
    {
      hide Items, Sorted, Set, Plug, CellAt, Append, TopItem;
      AssembledItems(lc, t, rc);
      AssembledSet(lc, t, rc);
      CutApart(lc, t, rc);
      Lookup(Append(rc, lc), t);
      TopRoot(lc, t.l);
      TopRoot(rc, t.r);
      left.right := root.left;
      right.left := root.right;
      root.left := node.right;
      root.right := node.left;
      tree := Assembled(lc, t, rc);
      forall x | x in items
        ensures KidsOf(x) == KidsAt(tree, x.sockfd)
      {
        AssembledAt(lc, t, rc, x.sockfd);
        Unique(Whole(lc, t, rc), x, t.item);
        if !lc.Top? { Unique(Whole(lc, t, rc), x, lc.item); }
        if !rc.Top? { Unique(Whole(lc, t, rc), x, rc.item); }
      }
    }

    // ---- the splay loop ----

    lemma RootKids(lc: Ctx, t: Tree, rc: Ctx, node: Epitem, left: Epitem, right: Epitem)
      requires Working(lc, t, rc, node, left, right)
      ensures t.Node? && root == t.item && KidsOf(t.item) == Kids(Root(t.l), Root(t.r)) && t.item in items
      ensures t.l.Node? ==> t.l.item.sockfd < t.item.sockfd
      ensures t.r.Node? ==> t.item.sockfd < t.r.item.sockfd
    {
      CutApart(lc, t, rc);
      Lookup(Append(rc, lc), t);
    }

    /** One round of the loop when the key is below the root. `done` tells that the round ends with a break. */
    method StepLeft(key: int, node: Epitem, left: Epitem, right: Epitem, ghost lc: Ctx, ghost t: Tree, ghost rc: Ctx)
      returns (done: bool, right': Epitem, ghost t': Tree, ghost rc': Ctx)
      requires Working(lc, t, rc, node, left, right) && key < t.item.sockfd && InHole(lc, key) && InHole(rc, key)
      modifies this`root, items`left, items`right, node`left
      ensures Working(lc, t', rc', node, left, right') && Items(Whole(lc, t', rc')) == Items(Whole(lc, t, rc))
      ensures InHole(rc', key) && (if done then NearMid(t', key) else t' < t)
    {
      hide Working, Items, Sorted, Whole;
      right', t', rc' := right, t, rc;
      RootKids(lc, t, rc, node, left, right);
      var tmp := root.left;
      if tmp == null {
        return true, right', t', rc';
      }
      if Compare(key, tmp.sockfd) < 0 {
        RotateRight(tmp, node, left, right, lc, t, rc);
        t' := RotR(t);
        RootKids(lc, t', rc, node, left, right);
        if root.left == null {
          return true, right', t', rc';
        }
      }
      right' := LinkLeft(node, left, right, lc, t', rc);
      done, rc', t' := false, LinkedLeft(t', rc), t'.l;
    }

    /** One round of the loop when the key is above the root. */
    method StepRight(key: int, node: Epitem, left: Epitem, right: Epitem, ghost lc: Ctx, ghost t: Tree, ghost rc: Ctx)
      returns (done: bool, left': Epitem, ghost lc': Ctx, ghost t': Tree)
      requires Working(lc, t, rc, node, left, right) && t.item.sockfd < key && InHole(lc, key) && InHole(rc, key)
      modifies this`root, items`left, items`right, node`right
      ensures Working(lc', t', rc, node, left', right) && Items(Whole(lc', t', rc)) == Items(Whole(lc, t, rc))
      ensures InHole(lc', key) && (if done then NearMid(t', key) else t' < t)
    {
      hide Working, Items, Sorted, Whole;
      left', lc', t' := left, lc, t;
      RootKids(lc, t, rc, node, left, right);
      var tmp := root.right;
      if tmp == null {
        return true, left', lc', t';
      }
      if Compare(key, tmp.sockfd) > 0 {
        RotateLeft(tmp, node, left, right, lc, t, rc);
        t' := RotL(t);
        RootKids(lc, t', rc, node, left, right);
        if root.right == null {
          return true, left', lc', t';
        }
      }
      left' := LinkRight(node, left, right, lc, t', rc);
      done, lc', t' := false, LinkedRight(lc, t'), t'.r;
    }

    lemma WorkingParts(lc: Ctx, t: Tree, rc: Ctx, node: Epitem, left: Epitem, right: Epitem)
      requires Working(lc, t, rc, node, left, right)
      ensures Spines(lc, rc) && Sorted(Items(Whole(lc, t, rc)))
      ensures left in items || left == node
      ensures right in items || right == node
    {
    }

    lemma StartWork(node: Epitem)
      requires Valid() && root != null && node !in items
      ensures Working(Top, tree, Top, node, node, node)
    {
    }

    /** Brings an item with the key to the root, or else a neighbour of where it would be. */
    method Splay(key: int)
      requires Valid() && root != null
      modifies this, items`left, items`right
      ensures Valid() && items == old(items) && Items(tree) == old(Items(tree)) && Near(tree, key)
    {
      hide Working, Items, Sorted, Valid;
      var node := new Epitem(0, 0, 0);
      node.left, node.right := null, null;
      var left, right, done := node, node, false;
      ghost var lc, t, rc := Top, tree, Top;
      StartWork(node);
      RootKids(lc, t, rc, node, left, right);
      var comp := Compare(key, root.sockfd);
      while comp != 0
        invariant Working(lc, t, rc, node, left, right) && Items(Whole(lc, t, rc)) == old(Items(tree))
        invariant items == old(items) && InHole(lc, key) && InHole(rc, key) && fresh(node)
        invariant t.Node? && root == t.item && comp == Compare(key, t.item.sockfd)
        decreases t
      {
        if comp < 0 {
          done, right, t, rc := StepLeft(key, node, left, right, lc, t, rc);
        } else {
          done, left, lc, t := StepRight(key, node, left, right, lc, t, rc);
        }
        RootKids(lc, t, rc, node, left, right);
        if done {
          break;
        }
        comp := Compare(key, root.sockfd);
      }
      WorkingParts(lc, t, rc, node, left, right);
      NearAssembled(lc, t, rc, key);
      Assemble(node, left, right, lc, t, rc);
    }

    // ---- the operations ----

    lemma TreeItems()
      requires Valid()
      ensures Sorted(Items(tree)) && items == Set(tree) && root == Root(tree)
      ensures forall x :: x in items <==> x in Items(tree)
      ensures tree.Node? ==> root in items && KidsOf(root) == Kids(Root(tree.l), Root(tree.r))
    {
      forall x
        ensures x in items <==> x in Items(tree)
      {
        ItemsSet(tree, x);
      }
    }

    method Find(key: int) returns (res: Epitem?)
      requires Valid()
      modifies this, items`left, items`right
      ensures Valid() && items == old(items) && Items(tree) == old(Items(tree))
      ensures res != null ==> res in items && res.sockfd == key && res == root
      ensures res == null ==> forall x :: x in items ==> x.sockfd != key
    {
      hide Valid, Items, Sorted, Near;
      TreeItems();
      if root == null {
        EmptyTree(tree);
        return null;
      }
      Splay(key);
      TreeItems();
      NearDecides(tree, key);
      if Compare(key, root.sockfd) == 0 {
        return root;
      }
      res := null;
    }

    /** The new root `elm` takes over the part of the tree below its key. */
    method GraftLeft(elm: Epitem)
      requires Valid() && Near(tree, elm.sockfd) && elm.sockfd < tree.item.sockfd && elm !in items
      modifies this, items`left, items`right, elm`left, elm`right
      ensures Valid() && items == old(items) + {elm} && Without(Items(tree), elm, old(Items(tree)))
      ensures root == elm
    {
      var t := tree;
      GraftLeftFacts(t, elm);
      elm.left := root.left;
      elm.right := root;
      root.left := null;
      root := elm;
      items := items + {elm};
      tree := Node(t.l, elm, false, Node(Leaf, t.item, t.red, t.r));
      forall x | x in items
        ensures KidsOf(x) == KidsAt(tree, x.sockfd)
      {
        GraftLeftAt(t, elm, x);
      }
    }

    method GraftRight(elm: Epitem)
      requires Valid() && Near(tree, elm.sockfd) && tree.item.sockfd < elm.sockfd && elm !in items
      modifies this, items`left, items`right, elm`left, elm`right
      ensures Valid() && items == old(items) + {elm} && Without(Items(tree), elm, old(Items(tree)))
      ensures root == elm
    {
      var t := tree;
      GraftRightFacts(t, elm);
      elm.right := root.right;
      elm.left := root;
      root.right := null;
      root := elm;
      items := items + {elm};
      tree := Node(Node(t.l, t.item, t.red, Leaf), elm, false, t.r);
      forall x | x in items
        ensures KidsOf(x) == KidsAt(tree, x.sockfd)
      {
        GraftRightAt(t, elm, x);
      }
    }

    method Insert(elm: Epitem) returns (res: Epitem?)
      requires Valid()
      modifies this, items`left, items`right, elm`left, elm`right
      ensures Valid()
      ensures res != null ==> res in items && res.sockfd == elm.sockfd
      ensures res != null ==> items == old(items) && Items(tree) == old(Items(tree))
      ensures root == if res != null then res else elm
      ensures res == null ==> (forall x :: x in old(items) ==> x.sockfd != elm.sockfd)
      ensures res == null ==> items == old(items) + {elm} && Without(Items(tree), elm, old(Items(tree)))
    {
      hide Valid, Items, Sorted, Near, Without;
      TreeItems();
      if root == null {
        InsertFirst(elm);
        return null;
      }
      Splay(elm.sockfd);
      TreeItems();
      NearDecides(tree, elm.sockfd);
      var comp := Compare(elm.sockfd, root.sockfd);
      if comp < 0 {
        GraftLeft(elm);
      } else if comp > 0 {
        GraftRight(elm);
      } else {
        return root;
      }
      res := null;
    }

    method InsertFirst(elm: Epitem)
      requires Valid() && root == null
      modifies this, elm`left, elm`right
      ensures Valid() && old(items) == {} && items == {elm} && Without(Items(tree), elm, old(Items(tree)))
      ensures root == elm
    {
      elm.left, elm.right := null, null;
      root := elm;
      ghost var t := tree;
      assert t == Leaf;
      items := {elm};
      tree := Node(Leaf, elm, false, Leaf);
      assert Items(tree) == [elm];
      assert Items(tree)[0] == elm && [elm][..0] + [elm][1..] == [];
    }

    // ---- removal and order ----

    /** The root has no left child: its right child takes its place. */
    method DropRoot()
      requires Valid() && tree.Node? && tree.l.Leaf?
      modifies this
      ensures Valid() && items == old(items) - {old(tree).item}
      ensures Without(old(Items(tree)), old(tree).item, Items(tree))
    {
      ghost var t := tree;
      DropFacts(t);
      root := root.right;
      items := items - {t.item};
      tree := t.r;
      forall x | x in items
        ensures KidsOf(x) == KidsAt(tree, x.sockfd)
      {
        DropAt(t, x);
      }
    }

    /** The left child becomes the root of a tree of its own. */
    method CutLeft() returns (tmp: Epitem?)
      requires Valid() && tree.Node? && tree.l.Node?
      modifies this
      ensures Valid() && tree == old(tree).l && items == Set(tree) && tmp == Root(old(tree).r)
    {
      ghost var t := tree;
      CutFacts(t);
      tmp := root.right;
      root := root.left;
      items := Set(t.l);
      tree := t.l;
      forall x | x in items
        ensures KidsOf(x) == KidsAt(tree, x.sockfd)
      {
        CutAt(t, x);
      }
    }

    /** The right subtree `r` is put back, where the root has no right child. */
    method HangRight(tmp: Epitem?, ghost r: Tree)
      requires Valid() && tree.Node? && tree.r.Leaf? && tmp == Root(r) && Sorted(Items(tree) + Items(r))
      requires forall x :: x in Set(r) ==> KidsOf(x) == KidsAt(r, x.sockfd)
      modifies this, items`right
      ensures Valid() && items == old(items) + Set(r) && Items(tree) == old(Items(tree)) + Items(r)
    {
      ghost var t := tree;
      HangFacts(t, r);
      root.right := tmp;
      items := items + Set(r);
      tree := Node(t.l, t.item, t.red, r);
      forall x | x in items
        ensures KidsOf(x) == KidsAt(tree, x.sockfd)
      {
        HangAt(t, r, x);
      }
    }

    /** The root, with both its links, leaves the tree; the left subtree is splayed once more. */
    method JoinSubtrees(key: int)
      requires Valid() && tree.Node? && tree.l.Node? && tree.item.sockfd == key
      modifies this, items`left, items`right
      ensures Valid() && items == old(items) - {old(tree).item}
      ensures Without(old(Items(tree)), old(tree).item, Items(tree))
    {
      ghost var t := tree;
      JoinFacts(t);
      RightKids(t);
      hide Valid, Items, Sorted, Near, KidsAt, Without;
      var tmp := CutLeft();
      Splay(key);
      TreeItems();
      NoneAbove(tree, t, key);
      HangRight(tmp, t.r);
    }

    lemma RightKids(t: Tree)
      requires Valid() && tree == t && t.Node?
      ensures items == Set(t) && forall x :: x in Set(t.r) ==> x in items && KidsOf(x) == KidsAt(t.r, x.sockfd)
    {
      forall x | x in Set(t.r)
        ensures x in items && KidsOf(x) == KidsAt(t.r, x.sockfd)
      {
        DropAt(t, x);
      }
    }

    method Remove(elm: Epitem) returns (res: Epitem?, ghost was: Epitem?)
      requires Valid()
      modifies this, items`left, items`right
      ensures Valid()
      ensures res == null ==> items == old(items) && Items(tree) == old(Items(tree))
      ensures res == null ==> forall x :: x in items ==> x.sockfd != elm.sockfd
      ensures res != null ==> res == elm && was != null && was in old(items) && was.sockfd == elm.sockfd
      ensures res != null ==> items == old(items) - {was} && Without(old(Items(tree)), was, Items(tree))
    {
      hide Valid, Items, Sorted, Near, KidsAt, Without;
      TreeItems();
      was := null;
      if root == null {
        EmptyTree(tree);
        return null, null;
      }
      Splay(elm.sockfd);
      TreeItems();
      NearDecides(tree, elm.sockfd);
      if Compare(elm.sockfd, root.sockfd) == 0 {
        was := root;
        if root.left == null {
          DropRoot();
        } else {
          JoinSubtrees(elm.sockfd);
        }
        return elm, was;
      }
      res := null;
    }

    // ---- next, minimum and maximum ----

    /** One round of SPLAY_MINMAX towards the minimum: it rotates whenever there is a left child. */
    method StepMin(node: Epitem, left: Epitem, right: Epitem, ghost t: Tree, ghost rc: Ctx)
      returns (done: bool, right': Epitem, ghost t': Tree, ghost rc': Ctx)
      requires Working(Top, t, rc, node, left, right)
      modifies this`root, items`left, items`right, node`left
      ensures Working(Top, t', rc', node, left, right') && Items(Whole(Top, t', rc')) == Items(Whole(Top, t, rc))
      ensures if done then t'.Node? && t'.l.Leaf? else t' < t
    {
      hide Working, Items, Sorted, Whole;
      right', t', rc' := right, t, rc;
      RootKids(Top, t, rc, node, left, right);
      var tmp := root.left;
      if tmp == null {
        return true, right', t', rc';
      }
      RotateRight(tmp, node, left, right, Top, t, rc);
      t' := RotR(t);
      RootKids(Top, t', rc, node, left, right);
      if root.left == null {
        return true, right', t', rc';
      }
      right' := LinkLeft(node, left, right, Top, t', rc);
      done, rc', t' := false, LinkedLeft(t', rc), t'.l;
    }

    method StepMax(node: Epitem, left: Epitem, right: Epitem, ghost lc: Ctx, ghost t: Tree)
      returns (done: bool, left': Epitem, ghost lc': Ctx, ghost t': Tree)
      requires Working(lc, t, Top, node, left, right)
      modifies this`root, items`left, items`right, node`right
      ensures Working(lc', t', Top, node, left', right) && Items(Whole(lc', t', Top)) == Items(Whole(lc, t, Top))
      ensures if done then t'.Node? && t'.r.Leaf? else t' < t
    {
      hide Working, Items, Sorted, Whole;
      left', lc', t' := left, lc, t;
      RootKids(lc, t, Top, node, left, right);
      var tmp := root.right;
      if tmp == null {
        return true, left', lc', t';
      }
      RotateLeft(tmp, node, left, right, lc, t, Top);
      t' := RotL(t);
      RootKids(lc, t', Top, node, left, right);
      if root.right == null {
        return true, left', lc', t';
      }
      left' := LinkRight(node, left, right, lc, t', Top);
      done, lc', t' := false, LinkedRight(lc, t'), t'.r;
    }

    /** SPLAY_MINMAX with a non-zero direction brings the least or the greatest item to the root. */
    method MinMax(comp: int)
      requires Valid() && root != null && comp != 0
      modifies this, items`left, items`right
      ensures Valid() && items == old(items) && Items(tree) == old(Items(tree))
      ensures root == if comp < 0 then First(Items(tree)) else Last(Items(tree))
    {
      hide Working, Items, Sorted, Valid;
      var node := new Epitem(0, 0, 0);
      node.left, node.right := null, null;
      var left, right, done := node, node, false;
      ghost var lc, t, rc := Top, tree, Top;
      StartWork(node);
      RootKids(lc, t, rc, node, left, right);
      while !done
        invariant Working(lc, t, rc, node, left, right) && Items(Whole(lc, t, rc)) == old(Items(tree))
        invariant items == old(items) && fresh(node) && (if comp < 0 then lc.Top? else rc.Top?)
        invariant done ==> t.Node? && if comp < 0 then t.l.Leaf? else t.r.Leaf?
        decreases !done, t
      {
        if comp < 0 {
          done, right, t, rc := StepMin(node, left, right, t, rc);
        } else {
          done, left, lc, t := StepMax(node, left, right, lc, t);
        }
      }
      RootKids(lc, t, rc, node, left, right);
      Assemble(node, left, right, lc, t, rc);
      TreeItems();
      EndRoot(tree);
    }

    /** SPLAY_NEXT. `i` is the position of `elm` in the symmetric order. */
    method Next(elm: Epitem) returns (res: Epitem?, ghost i: nat)
      requires Valid() && elm in items
      modifies this, items`left, items`right
      ensures Valid() && items == old(items) && Items(tree) == old(Items(tree))
      ensures i < |Items(tree)| && Items(tree)[i] == elm && res == First(Items(tree)[i + 1..])
    {
      hide Valid, Items, Sorted, Near;
      TreeItems();
      Splay(elm.sockfd);
      TreeItems();
      NearDecides(tree, elm.sockfd);
      Unique(tree, elm, tree.item);
      i := |Items(tree.l)|;
      NextIndex(Top, tree);
      res := null;
      if elm.right != null {
        res := Leftmost(elm.right);
      }
    }

    /** The walk down to the first item of the root's right subtree. */
    method Leftmost(start: Epitem) returns (res: Epitem?)
      requires Valid() && tree.Node? && tree.r.Node? && start == tree.r.item
      ensures res == First(Items(tree.r))
    {
      hide Items, Sorted, Set;
      res := start;
      ghost var c, sp, s := InRight(Top, tree.item, tree.red, tree.l), Top, tree.r;
      PlugAppend(sp, c, s);
      Lookup(Append(sp, c), s);
      while res.left != null
        invariant LeftSpine(sp) && Plug(sp, s) == tree.r && s.Node? && res == s.item && res in items
        invariant KidsOf(res) == Kids(Root(s.l), Root(s.r))
        decreases s
      {
        res := res.left;
        sp, s := InLeft(sp, s.item, s.red, s.r), s.l;
        PlugAppend(sp, c, s);
        Lookup(Append(sp, c), s);
      }
      SuccessorFirst(sp, s);
    }
  }
}
