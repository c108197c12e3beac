/** The colour rules of red-black trees, for whole trees and for one-hole contexts. */
module RbColors {
  import opened Common
  import opened Epitems
  import opened RbModel
  import opened RbEdits

  ghost predicate IsRed(t: Tree) {
    t.Node? && t.red
  }

  ghost predicate CtxRed(c: Ctx) {
    !c.Top? && c.red
  }

  /** The number of black items on the leftmost path. */
  ghost function BlackHeight(t: Tree): nat {
    if t.Leaf? then 0 else BlackHeight(t.l) + if t.red then 0 else 1
  }

  /** Every path down has the same number of black items. */
  ghost predicate Balanced(t: Tree) {
    t.Node? ==> Balanced(t.l) && Balanced(t.r) && BlackHeight(t.l) == BlackHeight(t.r)
  }

  /** No red item has a red child. */
  ghost predicate NoRedRed(t: Tree) {
    t.Node? ==> NoRedRed(t.l) && NoRedRed(t.r) && (t.red ==> !IsRed(t.l) && !IsRed(t.r))
  }

  ghost predicate RedBlack(t: Tree) {
    Balanced(t) && NoRedRed(t) && !IsRed(t)
  }

  /** A balanced subtree of black height `h` in the hole makes the whole balanced. */
  ghost predicate CtxBalanced(c: Ctx, h: int) {
    c.Top? || (Balanced(c.sib) && BlackHeight(c.sib) == h && CtxBalanced(c.up, h + if c.red then 0 else 1))
  }

  ghost predicate CtxNoRedRed(c: Ctx) {
    c.Top? || (NoRedRed(c.sib) && CtxNoRedRed(c.up) && (c.red ==> !IsRed(c.sib) && !CtxRed(c.up)))
  }

  /** The root of the whole tree is in the context, and black; or the context is empty. */
  ghost predicate TopBlack(c: Ctx) {
    c.Top? || (if c.up.Top? then !c.red else TopBlack(c.up))
  }

  ghost function Blacken(t: Tree): Tree {
    if t.Leaf? then t else t.(red := false)
  }

  ghost function Depth(c: Ctx): nat {
    if c.Top? then 0 else 1 + Depth(c.up)
  }

  ghost function WithSib(c: Ctx, s: Tree): Ctx
    requires !c.Top?
  {
    if c.InLeft? then InLeft(c.up, c.item, c.red, s) else InRight(c.up, c.item, c.red, s)
  }

  /** Colour rules of the parts and of the whole. */
  lemma {:induction false} PlugColors(c: Ctx, t: Tree)
    ensures Balanced(Plug(c, t)) <==> Balanced(t) && CtxBalanced(c, BlackHeight(t))
    ensures NoRedRed(Plug(c, t)) <==> NoRedRed(t) && CtxNoRedRed(c) && !(IsRed(t) && CtxRed(c))
    ensures !c.Top? ==> (TopBlack(c) <==> !IsRed(Plug(c, t)))
  {
    if !c.Top? {
      PlugColors(c.up, Fill(c, t));
    }
  }

  /** The state of the insertion loop: all rules hold, but the red `t` may sit below a red item. */
  ghost predicate InsertInv(c: Ctx, t: Tree) {
    && IsRed(t) && NoRedRed(t) && Balanced(t)
    && CtxBalanced(c, BlackHeight(t)) && CtxNoRedRed(c) && TopBlack(c)
  }

  /** The context of the sibling, when the hole of `c` holds `t`. */
  ghost function Sibling(c: Ctx, t: Tree): Ctx
    requires !c.Top?
  {
    if c.InLeft? then InRight(c.up, c.item, c.red, t) else InLeft(c.up, c.item, c.red, t)
  }

  /** Grandparent red, parent and uncle black. */
  ghost function Recolored(c: Ctx, t: Tree): Tree
    requires !c.Top? && !c.up.Top? && c.up.sib.Node?
  {
    Painted(Fill(WithSib(c.up, Painted(c.up.sib, false)), Painted(Fill(c, t), false)), true)
  }

  /** The uncle is red: the violation moves two levels up. */
  lemma {:induction false} InsertRecolored(c: Ctx, t: Tree)
    requires InsertInv(c, t) && CtxRed(c)
    ensures !c.up.Top? && !c.up.red
    ensures IsRed(c.up.sib) ==> InsertInv(c.up.up, Recolored(c, t))
  {
    var p := Painted(Fill(c, t), false);
    assert CtxBalanced(c.up, BlackHeight(t)) && CtxNoRedRed(c.up) && TopBlack(c.up);
    assert Balanced(p) && NoRedRed(p) && BlackHeight(p) == BlackHeight(t) + 1;
  }

  /** The uncle is black: one or two rotations end the violation. */
  lemma {:induction false} InsertRotated(c: Ctx, t: Tree)
    requires InsertInv(c, t) && CtxRed(c) && !c.up.Top? && !IsRed(c.up.sib)
    ensures c.up.InLeft? ==>
      var p := if c.InLeft? then Fill(c, t) else RotL(Fill(c, t));
      InsertInv(InLeft(c.up.up, p.item, false, Node(p.r, c.up.item, true, c.up.sib)), p.l)
    ensures c.up.InRight? ==>
      var p := if c.InRight? then Fill(c, t) else RotR(Fill(c, t));
      InsertInv(InRight(c.up.up, p.item, false, Node(c.up.sib, c.up.item, true, p.l)), p.r)
  {
    assert CtxBalanced(c.up, BlackHeight(t)) && CtxNoRedRed(c.up) && TopBlack(c.up);
    assert Balanced(t.l) && Balanced(t.r) && NoRedRed(t.l) && NoRedRed(t.r);
  }

  /** The violation is gone: blackening the root gives a red-black tree. */
  lemma {:induction false} InsertDone(c: Ctx, t: Tree)
    requires InsertInv(c, t) && !CtxRed(c)
    ensures RedBlack(Blacken(Plug(c, t))) && Plug(c, t).Node?
  {
    PlugColors(c, t);
    PlugNode(c, t);
  }

  lemma {:induction false} LeafColors(c: Ctx, x: Epitem)
    requires RedBlack(Plug(c, Leaf)) && Sorted(Items(Plug(c, Leaf))) && InHole(c, x.sockfd)
    ensures InsertInv(c, NewLeaf(x)) && Without(Items(Plug(c, NewLeaf(x))), x, Items(Plug(c, Leaf)))
  {
    PlugColors(c, Leaf);
    LeafKeeps(c, x);
    var s, i := Items(Plug(c, NewLeaf(x))), |Before(c)|;
    assert s[i] == x && s[..i] == Before(c) && s[i + 1..] == After(c);
  }

  // ---- removal ----

  /** The state of the removal loop: all rules hold, but `t` lacks one black item, and its root may be red. */
  ghost predicate RemoveInv(c: Ctx, t: Tree) {
    && Balanced(t) && NoRedRed(Blacken(t))
    && CtxBalanced(c, BlackHeight(t) + 1) && CtxNoRedRed(c) && TopBlack(c)
  }

  /** A red root, or none above: blackening it repairs the tree. */
  lemma {:induction false} RemoveDone(c: Ctx, t: Tree)
    requires RemoveInv(c, t) && (IsRed(t) || c.Top?)
    ensures RedBlack(Plug(c, Blacken(t)))
  {
    PlugColors(c, Blacken(t));
  }

  /** The sibling is red: a rotation brings up a black sibling. */
  lemma {:induction false} RemoveSiblingRed(c: Ctx, t: Tree)
    requires RemoveInv(c, t) && !c.Top? && !IsRed(t)
    ensures c.sib.Node?
    ensures IsRed(c.sib) ==> !c.red && c.sib.l.Node? && c.sib.r.Node? && !IsRed(c.sib.l) && !IsRed(c.sib.r)
    ensures IsRed(c.sib) && c.InLeft? ==>
      RemoveInv(InLeft(InLeft(c.up, c.sib.item, false, c.sib.r), c.item, true, c.sib.l), t)
    ensures IsRed(c.sib) && c.InRight? ==>
      RemoveInv(InRight(InRight(c.up, c.sib.item, false, c.sib.l), c.item, true, c.sib.r), t)
  {
    assert CtxBalanced(c.up, BlackHeight(t) + 1 + if c.red then 0 else 1) && CtxNoRedRed(c.up);
    assert Balanced(c.sib) && NoRedRed(c.sib);
    if IsRed(c.sib) {
      assert Balanced(c.sib.l) && Balanced(c.sib.r) && NoRedRed(c.sib.l) && NoRedRed(c.sib.r);
      assert BlackHeight(c.sib.l) == BlackHeight(t) + 1 && BlackHeight(c.sib.r) == BlackHeight(t) + 1;
      if c.InLeft? {
        var d := InLeft(c.up, c.sib.item, false, c.sib.r);
        assert CtxBalanced(d, BlackHeight(t) + 1) && CtxNoRedRed(d) && TopBlack(d);
      } else {
        var d := InRight(c.up, c.sib.item, false, c.sib.l);
        assert CtxBalanced(d, BlackHeight(t) + 1) && CtxNoRedRed(d) && TopBlack(d);
      }
    }
  }

  /** The sibling and its children are black: the deficit moves up. */
  lemma {:induction false} RemoveSiblingBlack(c: Ctx, t: Tree)
    requires RemoveInv(c, t) && !c.Top? && !IsRed(t) && c.sib.Node? && !c.sib.red
    requires !IsRed(c.sib.l) && !IsRed(c.sib.r)
    ensures RemoveInv(c.up, Fill(WithSib(c, Painted(c.sib, true)), t))
  {
    assert Balanced(c.sib) && NoRedRed(c.sib);
  }

  /** The far nephew is black: a rotation at the sibling makes it red. */
  lemma {:induction false} RemoveNearRed(c: Ctx, t: Tree)
    requires RemoveInv(c, t) && !c.Top? && c.sib.Node? && !c.sib.red
    ensures c.InLeft? && IsRed(c.sib.l) && !IsRed(c.sib.r) ==>
      var s := RotR(c.sib.(red := true, l := Painted(c.sib.l, false)));
      RemoveInv(WithSib(c, s), t) && !s.red && IsRed(s.r)
    ensures c.InRight? && IsRed(c.sib.r) && !IsRed(c.sib.l) ==>
      var s := RotL(c.sib.(red := true, r := Painted(c.sib.r, false)));
      RemoveInv(WithSib(c, s), t) && !s.red && IsRed(s.l)
  {
    assert Balanced(c.sib) && NoRedRed(c.sib);
    assert Balanced(c.sib.l) && NoRedRed(c.sib.l) && Balanced(c.sib.r) && NoRedRed(c.sib.r);
    if c.InLeft? && IsRed(c.sib.l) && !IsRed(c.sib.r) {
      var s := RotR(c.sib.(red := true, l := Painted(c.sib.l, false)));
      assert Balanced(s.r) && NoRedRed(s.r) && BlackHeight(s.r) == BlackHeight(s.l);
      assert BlackHeight(s) == BlackHeight(c.sib);
    } else if c.InRight? && IsRed(c.sib.r) && !IsRed(c.sib.l) {
      var s := RotL(c.sib.(red := true, r := Painted(c.sib.r, false)));
      assert Balanced(s.l) && NoRedRed(s.l) && BlackHeight(s.r) == BlackHeight(s.l);
      assert BlackHeight(s) == BlackHeight(c.sib);
    }
  }

  /** The far nephew is red: a rotation at the parent ends the deficit. */
  lemma {:induction false} RemoveFarRed(c: Ctx, t: Tree)
    requires RemoveInv(c, t) && !c.Top? && !IsRed(t) && c.sib.Node? && !c.sib.red
    ensures c.InLeft? && IsRed(c.sib.r) ==>
      RedBlack(Plug(c.up, Node(Node(t, c.item, false, c.sib.l), c.sib.item, c.red, Painted(c.sib.r, false))))
    ensures c.InRight? && IsRed(c.sib.l) ==>
      RedBlack(Plug(c.up, Node(Painted(c.sib.l, false), c.sib.item, c.red, Node(c.sib.r, c.item, false, t))))
  {
    assert Balanced(c.sib) && NoRedRed(c.sib) && NoRedRed(t);
    assert Balanced(c.sib.l) && NoRedRed(c.sib.l) && Balanced(c.sib.r) && NoRedRed(c.sib.r);
    assert CtxBalanced(c.up, BlackHeight(t) + 1 + if c.red then 0 else 1) && CtxNoRedRed(c.up);
    if c.InLeft? && IsRed(c.sib.r) {
      var u := Node(Node(t, c.item, false, c.sib.l), c.sib.item, c.red, Painted(c.sib.r, false));
      assert Balanced(u.l) && NoRedRed(u.l) && Balanced(u.r) && NoRedRed(u.r);
      PlugColors(c.up, u);
    } else if c.InRight? && IsRed(c.sib.l) {
      var u := Node(Painted(c.sib.l, false), c.sib.item, c.red, Node(c.sib.r, c.item, false, t));
      assert Balanced(u.l) && NoRedRed(u.l) && Balanced(u.r) && NoRedRed(u.r);
      PlugColors(c.up, u);
    }
  }

  /** A red-black tree meets the loop's rules at its root. */
  lemma RemoveRestart(t: Tree)
    requires RedBlack(t)
    ensures RemoveInv(Top, t)
  {
  }

  /** Splicing out a red item is harmless, splicing out a black one leaves a deficit. */
  lemma {:induction false} SpliceColors(c: Ctx, t: Tree)
    requires t.Node? && (t.l.Leaf? || t.r.Leaf?) && RedBlack(Plug(c, t))
    ensures t.red ==> RedBlack(Plug(c, OnlyChild(t)))
    ensures !t.red ==> RemoveInv(c, OnlyChild(t))
  {
    PlugColors(c, t);
    PlugColors(c, OnlyChild(t));
    assert BlackHeight(t.l) == 0 && BlackHeight(t.r) == 0;
  }

  /** The items themselves do not matter to the colour rules. */
  lemma {:induction false} AppendColors(sp: Ctx, b: Ctx, x: Epitem, h: int)
    requires b.InRight?
    ensures var b' := InRight(b.up, x, b.red, b.sib);
      && CtxBalanced(Append(sp, b'), h) == CtxBalanced(Append(sp, b), h)
      && CtxNoRedRed(Append(sp, b')) == CtxNoRedRed(Append(sp, b))
      && CtxRed(Append(sp, b')) == CtxRed(Append(sp, b))
      && TopBlack(Append(sp, b')) == TopBlack(Append(sp, b))
  {
    if !sp.Top? {
      AppendColors(sp.up, b, x, h + if sp.red then 0 else 1);
    }
  }

  /** The successor `s.item` is spliced out and takes the place of `b.item`. */
  lemma {:induction false} SuccessorColors(sp: Ctx, b: Ctx, s: Tree)
    requires s.Node? && s.l.Leaf? && b.InRight? && RedBlack(Plug(Append(sp, b), s))
    ensures var c := Append(sp, InRight(b.up, s.item, b.red, b.sib));
      (s.red ==> RedBlack(Plug(c, s.r))) && (!s.red ==> RemoveInv(c, s.r))
  {
    SpliceColors(Append(sp, b), s);
    PlugColors(Append(sp, b), s.r);
    PlugColors(Append(sp, InRight(b.up, s.item, b.red, b.sib)), s.r);
    AppendColors(sp, b, s.item, BlackHeight(s.r));
    AppendColors(sp, b, s.item, BlackHeight(s.r) + 1);
    PlugNode(Append(sp, b), s.r);
  }

  /** The two steps of the removal of `t.item` below `c`, when `s.item` is its successor. */
  lemma {:induction false} RelinkFacts(c: Ctx, t: Tree, sp: Ctx, s: Tree)
    requires t.Node? && Sorted(Items(Plug(c, t))) && RedBlack(Plug(c, t))
    requires LeftSpine(sp) && s.Node? && s.l.Leaf? && t.r == Plug(sp, s)
    ensures var base' := InRight(c, s.item, t.red, t.l);
      var u := Node(t.l, s.item, t.red, Plug(sp, s.r));
      && Plug(Append(sp, base'), s.r) == Plug(c, u)
      && CtxItem(Append(sp, base')) == (if sp.Top? then s.item else sp.item)
      && Sorted(Items(u)) && InHole(c, s.item.sockfd) && s.item != t.item
      && Without(Items(Plug(c, t)), t.item, Items(Plug(c, u)))
      && (if s.red then RedBlack(Plug(c, u)) else RemoveInv(Append(sp, base'), s.r))
  {
    var base := InRight(c, t.item, t.red, t.l);
    PlugAppend(sp, base, s);
    PlugAppend(sp, InRight(c, s.item, t.red, t.l), s.r);
    SuccessorFits(c, t, sp, s);
    SuccessorWithout(c, t, sp, s);
    SuccessorColors(sp, base, s);
    SuccessorFirst(sp, s);
    RenameFresh(c, t);
  }

  /** The parent of the successor is the removed item only if it is its right child. */
  lemma {:induction false} SpineParent(c: Ctx, t: Tree, sp: Ctx, s: Tree)
    requires t.Node? && Sorted(Items(Plug(c, t))) && t.r == Plug(sp, s)
    ensures var p := CtxItem(Append(sp, InRight(c, t.item, t.red, t.l)));
      if sp.Top? then p == t.item else p == sp.item && p != t.item
  {
    RenameFresh(c, t);
    PlugSet(sp, s);
  }

  // ---- height ----

  lemma {:induction false} Pow2Grows(m: nat, n: nat)
    requires m <= n
    ensures 0 < Pow2(m) <= Pow2(n)
    decreases n
  {
    if m < n { Pow2Grows(m, n - 1); } else if n > 0 { Pow2Grows(m - 1, n - 1); }
  }

  lemma {:induction false} Pow2Double(n: nat)
    ensures Pow2(2 * n) == Pow2(n) * Pow2(n)
  {
    if n > 0 { Pow2Double(n - 1); }
  }

  /** A path down alternates colours at worst, and the black items alone make a full tree. */
  lemma {:induction false} HeightAndSize(t: Tree)
    requires Balanced(t) && NoRedRed(t)
    ensures Height(t) <= 2 * BlackHeight(t) + if IsRed(t) then 1 else 0
    ensures Pow2(BlackHeight(t)) <= |Items(t)| + 1
  {
    if t.Node? {
      HeightAndSize(t.l);
      HeightAndSize(t.r);
    }
  }

  lemma SquareGrows(b: nat, n: nat)
    requires b <= n
    ensures b * b <= n * n
  {
    assert b * b <= b * n;
  }

  /** The height of a red-black tree with n items is at most twice the logarithm of n + 1. */
  lemma {:induction false} HeightBound(t: Tree)
    requires RedBlack(t)
    ensures Pow2(Height(t)) <= (|Items(t)| + 1) * (|Items(t)| + 1)
  {
    var b, n := Pow2(BlackHeight(t)), |Items(t)| + 1;
    HeightAndSize(t);
    Pow2Grows(Height(t), 2 * BlackHeight(t));
    Pow2Double(BlackHeight(t));
    SquareGrows(b, n);
  }
}
