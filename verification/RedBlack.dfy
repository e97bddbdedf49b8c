/** The red-black tree itself: the macros and functions of the header, on a head with a
    ghost tree that says what the links amount to. */
module RedBlack {
  import opened RbTrees
  import opened RbBalance

  class Head {
    var root: Node?
    ghost var tree: Tree
    ghost var nodes: set<Node>

    /** The heap holds `t` in the hole of `k`. */
    ghost predicate Holds(k: Ctx, t: Tree)
      reads this, nodes
    {
      && tree == Plug(k, t) && nodes == CtxNodes(k) + Nodes(t)
      && root == CtxRoot(k, Root(t)) && Zipped(Snap(nodes), k, t)
    }

    /** Makes `now` take the place of `was` below `parent`, or as the root. */
    method Replace(parent: Node?, was: Node, now: Node?)
      modifies this`root, if parent == null then {} else {parent}
      ensures parent == null ==> root == now
      ensures parent != null ==>
                && root == old(root)
                && parent.entry == if old(parent.entry.left) == was
                                   then old(parent.entry).(left := now)
                                   else old(parent.entry).(right := now)
    {
      if parent != null {
        if was == parent.entry.left {
          parent.entry := parent.entry.(left := now);
        } else {
          parent.entry := parent.entry.(right := now);
        }
      } else {
        root := now;
      }
    }

    /** `RB_ROTATE_LEFT` entry by entry; `x` is the child that moves up, `b` the
        subtree that changes sides and `p` the parent. */
    method RotateLeftLinks(elm: Node, ghost x: Node, ghost b: Node?, ghost p: Node?)
      returns (tmp: Node)
      requires elm.entry.right == x && x.entry.left == b && elm.entry.parent == p
      requires x != elm && b != elm && b != x && p != elm && p != x && (p == b ==> p == null)
      modifies this`root, {elm, x}, if b == null then {} else {b}, if p == null then {} else {p}
      ensures tmp == x
      ensures elm.entry == old(elm.entry).(right := b, parent := x)
      ensures x.entry == old(x.entry).(left := elm, parent := p)
      ensures b != null ==> b.entry == old(b.entry).(parent := elm)
      ensures p == null ==> root == x
      ensures p != null ==>
                && root == old(root)
                && p.entry == if old(p.entry.left) == elm
                              then old(p.entry).(left := x)
                              else old(p.entry).(right := x)
    {
      tmp := elm.entry.right;
      elm.entry := elm.entry.(right := tmp.entry.left);
      if tmp.entry.left != null {
        tmp.entry.left.entry := tmp.entry.left.entry.(parent := elm);
      }
      tmp.entry := tmp.entry.(parent := elm.entry.parent);
      Replace(elm.entry.parent, elm, tmp);
      tmp.entry := tmp.entry.(left := elm);
      elm.entry := elm.entry.(parent := tmp);
    }

    /** The same rotation seen on the tree in the hole of `k`. */
    method RotateLeft(elm: Node, ghost k: Ctx, ghost t: Tree) returns (tmp: Node)
      requires Holds(k, t) && t.Fork? && t.right.Fork? && t.node == elm
      modifies this, nodes
      ensures Holds(k, TurnLeft(t)) && nodes == old(nodes) && tmp == t.right.node
      ensures InOrder(tree) == old(InOrder(tree))
    {
      ghost var m := Snap(nodes);
      OpenRight(m, k, t);
      tmp := RotateLeftLinks(elm, t.right.node, Root(t.right.left), Above(k));
      tree := Plug(k, TurnLeft(t));
      LeftTurned(m, Snap(nodes), k, t);
      TurnLeftInOrder(t);
      PlugSameOrder(k, t, TurnLeft(t));
    }

    /** `RB_ROTATE_RIGHT` entry by entry; `x` is the child that moves up, `b` the
        subtree that changes sides and `p` the parent. */
    method RotateRightLinks(elm: Node, ghost x: Node, ghost b: Node?, ghost p: Node?)
      returns (tmp: Node)
      requires elm.entry.left == x && x.entry.right == b && elm.entry.parent == p
      requires x != elm && b != elm && b != x && p != elm && p != x && (p == b ==> p == null)
      modifies this`root, {elm, x}, if b == null then {} else {b}, if p == null then {} else {p}
      ensures tmp == x
      ensures elm.entry == old(elm.entry).(left := b, parent := x)
      ensures x.entry == old(x.entry).(right := elm, parent := p)
      ensures b != null ==> b.entry == old(b.entry).(parent := elm)
      ensures p == null ==> root == x
      ensures p != null ==>
                && root == old(root)
                && p.entry == if old(p.entry.left) == elm
                              then old(p.entry).(left := x)
                              else old(p.entry).(right := x)
    {
      tmp := elm.entry.left;
      elm.entry := elm.entry.(left := tmp.entry.right);
      if tmp.entry.right != null {
        tmp.entry.right.entry := tmp.entry.right.entry.(parent := elm);
      }
      tmp.entry := tmp.entry.(parent := elm.entry.parent);
      Replace(elm.entry.parent, elm, tmp);
      tmp.entry := tmp.entry.(right := elm);
      elm.entry := elm.entry.(parent := tmp);
    }

    /** The same rotation seen on the tree in the hole of `k`. */
    method RotateRight(elm: Node, ghost k: Ctx, ghost t: Tree) returns (tmp: Node)
      requires Holds(k, t) && t.Fork? && t.left.Fork? && t.node == elm
      modifies this, nodes
      ensures Holds(k, TurnRight(t)) && nodes == old(nodes) && tmp == t.left.node
      ensures InOrder(tree) == old(InOrder(tree))
    {
      ghost var m := Snap(nodes);
      OpenLeft(m, k, t);
      tmp := RotateRightLinks(elm, t.left.node, Root(t.left.right), Above(k));
      tree := Plug(k, TurnRight(t));
      RightTurned(m, Snap(nodes), k, t);
      TurnRightInOrder(t);
      PlugSameOrder(k, t, TurnRight(t));
    }

    method SetColor(elm: Node, c: Color, ghost k: Ctx, ghost t: Tree)
      requires Holds(k, t) && t.Fork? && t.node == elm
      modifies this`tree, elm
      ensures Holds(k, t.(color := c)) && nodes == old(nodes)
      ensures InOrder(tree) == old(InOrder(tree))
    {
      ghost var m := Snap(nodes);
      elm.entry := elm.entry.(color := c);
      tree := Plug(k, t.(color := c));
      Painted(m, Snap(nodes), k, t, c);
      PlugSameOrder(k, t, t.(color := c));
    }

    /** Moving the focus up or down changes nothing. */
    lemma Refocus(k: Ctx, t: Tree)
      requires !k.Top?
      ensures Holds(k, t) <==> Holds(k.up, Fill(k, t))
    {
    }

    /** Looking at the whole tree again. */
    lemma Settle(k: Ctx, t: Tree)
      requires Holds(k, t)
      ensures Holds(Top, tree) && nodes == Nodes(tree)
    {
      Focus(Snap(nodes), k, t);
    }

    /** What the links around the focus are. */
    lemma Look(k: Ctx, t: Tree)
      requires Holds(k, t)
      ensures t.Fork? ==> t.node in nodes
      ensures t.Fork? ==> t.node.entry == Entry(Root(t.left), Root(t.right), Above(k), t.color)
      ensures !k.Top? ==> k.node in nodes && k.node.entry == Frame(k, Root(t))
      ensures k.InRight? && k.sibling.Fork? ==> k.sibling.node != Root(t)
    {
      assert t.Fork? ==> Snap(nodes)[t.node] == t.node.entry;
      assert !k.Top? ==> Snap(nodes)[k.node] == k.node.entry;
    }

    /** The link to the parent, and which child of it the focus is. */
    lemma LookUp(k: Ctx, t: Tree)
      requires Holds(k, t) && t.Fork?
      ensures t.node.entry == Entry(Root(t.left), Root(t.right), Above(k), t.color)
      ensures !k.Top? ==> (k.node.entry.right == t.node <==> k.InRight?)
      ensures !k.Top? ==> (k.node.entry.left == t.node <==> k.InLeft?)
    {
      Look(k, t);
      if !k.Top? && k.sibling.Fork? {
        assert k.sibling.node in CtxNodes(k);
      }
    }

    /** One level further up and across. */
    lemma LookFurther(k: Ctx, t: Tree)
      requires Holds(k, t) && !k.Top? && !k.up.Top?
      ensures k.node.entry == Frame(k, Root(t))
      ensures k.up.node.entry == Frame(k.up, k.node)
      ensures k.up.InRight? && k.up.sibling.Fork? ==> k.up.sibling.node != k.node
      ensures k.up.sibling.Fork? ==> k.up.sibling.node.entry.color == k.up.sibling.color
    {
      var p := Fill(k, t);
      Look(k, t);
      Refocus(k, t);
      Look(k.up, p);
      Refocus(k.up, p);
      Refocus(Across(k.up, p), k.up.sibling);
      Look(Across(k.up, p), k.up.sibling);
    }

    /** `RB_SET_BLACKRED` on the node in the hole and the node above it. */
    method SetBlackRed(black: Node, red: Node, ghost k: Ctx, ghost t: Tree)
      requires Holds(k, t) && t.Fork? && !k.Top? && t.node == black && k.node == red
      modifies this, nodes
      ensures Holds(Tint(k, Red), t.(color := Black)) && nodes == old(nodes)
      ensures InOrder(tree) == old(InOrder(tree))
    {
      Look(k, t);
      SetColor(black, Black, k, t);
      Refocus(k, t.(color := Black));
      SetColor(red, Red, k.up, Fill(k, t.(color := Black)));
      Refocus(Tint(k, Red), t.(color := Black));
    }

    /** The insertion repair below a red uncle `tmp`: three repaintings. */
    method InsertRecolor(parent: Node, gparent: Node, tmp: Node, ghost k: Ctx, ghost t: Tree)
      requires Holds(k, t) && !k.Top? && !k.up.Top? && k.up.sibling.Fork?
      requires k.node == parent && k.up.node == gparent && k.up.sibling.node == tmp
      modifies this, nodes
      ensures Holds(k.up.up, Recolored(k, t))
      ensures nodes == old(nodes) && InOrder(tree) == old(InOrder(tree))
    {
      ghost var u, p := k.up, Fill(k, t);
      Refocus(k, t);
      Refocus(u, p);
      Refocus(Across(u, p), u.sibling);
      SetColor(tmp, Black, Across(u, p), u.sibling);
      ghost var b := u.sibling.(color := Black);
      Refocus(Across(u, p), b);
      Refocus(Beside(u, b), p);
      SetBlackRed(parent, gparent, Beside(u, b), p);
      Refocus(Tint(Beside(u, b), Red), p.(color := Black));
    }

    /** The insertion repair when the red parent is a left child and the uncle is black. */
    method InsertTurnLeft(elm0: Node, parent0: Node, gparent: Node, ghost k: Ctx, ghost t: Tree)
      returns (elm: Node, ghost k': Ctx, ghost t': Tree)
      requires Holds(k, t) && RedAt(k, t) && !k.Top? && k.color.Red? && k.up.InLeft?
      requires t.node == elm0 && k.node == parent0 && k.up.node == gparent && !IsRed(k.up.sibling)
      modifies this, nodes
      ensures Holds(k', t') && RedAt(k', t') && t'.node == elm && Depth(k') < Depth(k)
      ensures nodes == old(nodes) && InOrder(tree) == old(InOrder(tree))
    {
      elm, k', t' := elm0, k, t;
      var parent := parent0;
      ghost var u := k.up;
      Look(k, t);
      Refocus(k, t);
      if parent.entry.right == elm {
        var tmp := RotateLeft(parent, u, Fill(k, t));
        tmp := parent;
        parent := elm;
        elm := tmp;
        k', t' := InLeft(u, parent, Red, t.right), Fork(k.sibling, elm, Red, t.left);
        InnerStep(k, t);
      }
      TurnStep(k', t');
      SetBlackRed(parent, gparent, u, Fill(k', t'));
      ghost var w := Fill(Tint(u, Red), Fill(Tint(k', Black), t'));
      Refocus(Tint(u, Red), Fill(Tint(k', Black), t'));
      var tmp := RotateRight(gparent, u.up, w);
      k' := InLeft(u.up, parent, Black, TurnRight(w).right);
      Refocus(k', t');
    }

    /** The insertion repair when the red parent is a right child and the uncle is black. */
    method InsertTurnRight(elm0: Node, parent0: Node, gparent: Node, ghost k: Ctx, ghost t: Tree)
      returns (elm: Node, ghost k': Ctx, ghost t': Tree)
      requires Holds(k, t) && RedAt(k, t) && !k.Top? && k.color.Red? && k.up.InRight?
      requires t.node == elm0 && k.node == parent0 && k.up.node == gparent && !IsRed(k.up.sibling)
      modifies this, nodes
      ensures Holds(k', t') && RedAt(k', t') && t'.node == elm && Depth(k') < Depth(k)
      ensures nodes == old(nodes) && InOrder(tree) == old(InOrder(tree))
    {
      elm, k', t' := elm0, k, t;
      var parent := parent0;
      ghost var u := k.up;
      Look(k, t);
      Refocus(k, t);
      if parent.entry.left == elm {
        var tmp := RotateRight(parent, u, Fill(k, t));
        tmp := parent;
        parent := elm;
        elm := tmp;
        k', t' := InRight(u, t.left, parent, Red), Fork(t.right, elm, Red, k.sibling);
        InnerStep(k, t);
      }
      TurnStep(k', t');
      SetBlackRed(parent, gparent, u, Fill(k', t'));
      ghost var w := Fill(Tint(u, Red), Fill(Tint(k', Black), t'));
      Refocus(Tint(u, Red), Fill(Tint(k', Black), t'));
      var tmp := RotateLeft(gparent, u.up, w);
      k' := InRight(u.up, TurnLeft(w).left, parent, Black);
      Refocus(k', t');
    }

    /** One round of the insertion repair when the red parent is a left child. */
    method InsertStepLeft(elm0: Node, parent: Node, gparent: Node, ghost k: Ctx, ghost t: Tree)
      returns (elm: Node, ghost k': Ctx, ghost t': Tree)
      requires Holds(k, t) && RedAt(k, t) && !k.Top? && k.color.Red? && k.up.InLeft?
      requires t.node == elm0 && k.node == parent && k.up.node == gparent
      modifies this, nodes
      ensures Holds(k', t') && RedAt(k', t') && t'.node == elm && Depth(k') < Depth(k)
      ensures nodes == old(nodes) && InOrder(tree) == old(InOrder(tree))
    {
      LookFurther(k, t);
      var tmp := gparent.entry.right;
      if tmp != null && tmp.entry.color.Red? {
        RecolorStep(k, t);
        InsertRecolor(parent, gparent, tmp, k, t);
        elm := gparent;
        k', t' := k.up.up, Recolored(k, t);
      } else {
        elm, k', t' := InsertTurnLeft(elm0, parent, gparent, k, t);
      }
    }

    /** One round of the insertion repair when the red parent is a right child. */
    method InsertStepRight(elm0: Node, parent: Node, gparent: Node, ghost k: Ctx, ghost t: Tree)
      returns (elm: Node, ghost k': Ctx, ghost t': Tree)
      requires Holds(k, t) && RedAt(k, t) && !k.Top? && k.color.Red? && k.up.InRight?
      requires t.node == elm0 && k.node == parent && k.up.node == gparent
      modifies this, nodes
      ensures Holds(k', t') && RedAt(k', t') && t'.node == elm && Depth(k') < Depth(k)
      ensures nodes == old(nodes) && InOrder(tree) == old(InOrder(tree))
    {
      LookFurther(k, t);
      var tmp := gparent.entry.left;
      if tmp != null && tmp.entry.color.Red? {
        RecolorStep(k, t);
        InsertRecolor(parent, gparent, tmp, k, t);
        elm := gparent;
        k', t' := k.up.up, Recolored(k, t);
      } else {
        elm, k', t' := InsertTurnRight(elm0, parent, gparent, k, t);
      }
    }

    /** One round of the insertion repair: the red parent has a parent. */
    method InsertStep(elm0: Node, parent: Node, ghost k: Ctx, ghost t: Tree)
      returns (elm: Node, ghost k': Ctx, ghost t': Tree)
      requires Holds(k, t) && RedAt(k, t) && !k.Top? && k.color.Red? && t.node == elm0 && k.node == parent
      modifies this, nodes
      ensures Holds(k', t') && RedAt(k', t') && t'.node == elm && Depth(k') < Depth(k)
      ensures nodes == old(nodes) && InOrder(tree) == old(InOrder(tree))
    {
      GrandparentExists(k, t);
      LookFurther(k, t);
      var gparent := parent.entry.parent;
      if parent == gparent.entry.left {
        elm, k', t' := InsertStepLeft(elm0, parent, gparent, k, t);
      } else {
        elm, k', t' := InsertStepRight(elm0, parent, gparent, k, t);
      }
    }

    /** `RB_INSERT_COLOR`, with the number of rounds. */
    method InsertColor(elm0: Node, ghost k0: Ctx, ghost t0: Tree) returns (ghost rounds: nat)
      requires Holds(k0, t0) && RedAt(k0, t0) && t0.node == elm0
      modifies this, nodes
      ensures Holds(Top, tree) && RedBlackTree(tree) && rounds <= Depth(k0)
      ensures nodes == old(nodes) && InOrder(tree) == old(InOrder(tree))
    {
      var elm := elm0;
      ghost var k, t := k0, t0;
      rounds := 0;
      Look(k, t);
      var parent := elm.entry.parent;
      while parent != null && parent.entry.color.Red?
        invariant Holds(k, t) && RedAt(k, t) && t.node == elm && parent == Above(k)
        invariant !k.Top? ==> parent.entry.color == k.color
        invariant nodes == old(nodes) && InOrder(tree) == old(InOrder(tree))
        invariant rounds + Depth(k) <= Depth(k0)
        decreases Depth(k)
      {
        elm, k, t := InsertStep(elm, parent, k, t);
        rounds := rounds + 1;
        Look(k, t);
        parent := elm.entry.parent;
      }
      BlackenHead(k, t);
    }

    /** The last step of `RB_INSERT_COLOR`. */
    method BlackenHead(ghost k: Ctx, ghost t: Tree)
      requires Holds(k, t) && RedAt(k, t) && (k.Top? || k.color.Black?)
      modifies this, nodes
      ensures Holds(Top, tree) && RedBlackTree(tree)
      ensures nodes == old(nodes) && InOrder(tree) == old(InOrder(tree))
    {
      BlackenRoot(k, t);
      Settle(k, t);
      SetColor(root, Black, Top, tree);
    }

    /** Deletion repair, hole on the left: a red sibling `tmp0` is rotated up. */
    method RemoveRedSiblingLeft(parent: Node, tmp0: Node, ghost k: Ctx, ghost t: Tree)
      returns (tmp: Node)
      requires Holds(k, t) && k.InLeft? && k.sibling.Fork? && k.sibling.left.Fork?
      requires k.node == parent && k.sibling.node == tmp0
      modifies this, nodes
      ensures Holds(RedSiblingUp(k), t) && tmp == k.sibling.left.node
      ensures nodes == old(nodes) && InOrder(tree) == old(InOrder(tree))
    {
      Refocus(k, t);
      Refocus(Across(k, t), k.sibling);
      SetBlackRed(tmp0, parent, Across(k, t), k.sibling);
      ghost var w := Fill(Tint(Across(k, t), Red), k.sibling.(color := Black));
      Refocus(Tint(Across(k, t), Red), k.sibling.(color := Black));
      tmp := RotateLeft(parent, k.up, w);
      ghost var k1 := RedSiblingUp(k);
      Refocus(k1.up, Fill(k1, t));
      Refocus(k1, t);
      Look(k1, t);
      tmp := parent.entry.right;
    }

    /** Deletion repair, hole on the left: the inner nephew is rotated outside. */
    method RemoveNephewLeft(parent: Node, tmp0: Node, ghost k: Ctx, ghost t: Tree)
      returns (tmp: Node)
      requires Holds(k, t) && k.InLeft? && k.sibling.Fork? && k.sibling.left.Fork?
      requires k.node == parent && k.sibling.node == tmp0
      modifies this, nodes
      ensures Holds(NephewOut(k), t) && tmp == k.sibling.left.node
      ensures nodes == old(nodes) && InOrder(tree) == old(InOrder(tree))
    {
      ghost var a, s := Across(k, t), k.sibling;
      ghost var b := InLeft(a, s.node, s.color, s.right);
      Refocus(k, t);
      Refocus(a, s);
      Look(a, s);
      Refocus(b, s.left);
      var oleft := tmp0.entry.left;
      if oleft != null {
        SetColor(oleft, Black, b, s.left);
      }
      ghost var s1 := s.(left := s.left.(color := Black));
      Refocus(b, s.left.(color := Black));
      SetColor(tmp0, Red, a, s1);
      oleft := RotateRight(tmp0, a, s1.(color := Red));
      ghost var k1 := NephewOut(k);
      Refocus(a, k1.sibling);
      Refocus(k1, t);
      Look(k1, t);
      tmp := parent.entry.right;
    }

    /** Deletion repair, hole on the left: the outer nephew is red; the last rotation. */
    method RemoveRepayLeft(parent: Node, tmp0: Node, ghost k: Ctx, ghost t: Tree)
      requires Holds(k, t) && k.InLeft? && k.sibling.Fork? && k.sibling.right.Fork?
      requires k.node == parent && k.sibling.node == tmp0
      modifies this, nodes
      ensures Holds(k.up, Repaid(k, t))
      ensures nodes == old(nodes) && InOrder(tree) == old(InOrder(tree))
    {
      ghost var s := k.sibling;
      Look(k, t);
      Refocus(k, t);
      Refocus(Across(k, t), s);
      SetColor(tmp0, parent.entry.color, Across(k, t), s);
      ghost var s1 := s.(color := k.color);
      Refocus(Across(k, t), s1);
      ghost var k1 := Beside(k, s1);
      SetColor(parent, Black, k.up, Fill(k1, t));
      ghost var a := Tint(Across(k, t), Black);
      Refocus(a, s1);
      Look(a, s1);
      ghost var b := InRight(a, s1.left, s1.node, s1.color);
      Refocus(b, s.right);
      var outer := tmp0.entry.right;
      if outer != null {
        SetColor(outer, Black, b, s.right);
      }
      ghost var s2 := s1.(right := s.right.(color := Black));
      Refocus(b, s.right.(color := Black));
      Refocus(a, s2);
      var tmp := RotateLeft(parent, k.up, Fill(a, s2));
    }

    /** Deletion repair, hole on the right: a red sibling `tmp0` is rotated up. */
    method RemoveRedSiblingRight(parent: Node, tmp0: Node, ghost k: Ctx, ghost t: Tree)
      returns (tmp: Node)
      requires Holds(k, t) && k.InRight? && k.sibling.Fork? && k.sibling.right.Fork?
      requires k.node == parent && k.sibling.node == tmp0
      modifies this, nodes
      ensures Holds(RedSiblingUp(k), t) && tmp == k.sibling.right.node
      ensures nodes == old(nodes) && InOrder(tree) == old(InOrder(tree))
    {
      Refocus(k, t);
      Refocus(Across(k, t), k.sibling);
      SetBlackRed(tmp0, parent, Across(k, t), k.sibling);
      ghost var w := Fill(Tint(Across(k, t), Red), k.sibling.(color := Black));
      Refocus(Tint(Across(k, t), Red), k.sibling.(color := Black));
      tmp := RotateRight(parent, k.up, w);
      ghost var k1 := RedSiblingUp(k);
      Refocus(k1.up, Fill(k1, t));
      Refocus(k1, t);
      Look(k1, t);
      tmp := parent.entry.left;
    }

    /** Deletion repair, hole on the right: the inner nephew is rotated outside. */
    method RemoveNephewRight(parent: Node, tmp0: Node, ghost k: Ctx, ghost t: Tree)
      returns (tmp: Node)
      requires Holds(k, t) && k.InRight? && k.sibling.Fork? && k.sibling.right.Fork?
      requires k.node == parent && k.sibling.node == tmp0
      modifies this, nodes
      ensures Holds(NephewOut(k), t) && tmp == k.sibling.right.node
      ensures nodes == old(nodes) && InOrder(tree) == old(InOrder(tree))
    {
      ghost var a, s := Across(k, t), k.sibling;
      ghost var b := InRight(a, s.left, s.node, s.color);
      Refocus(k, t);
      Refocus(a, s);
      Look(a, s);
      Refocus(b, s.right);
      var oright := tmp0.entry.right;
      if oright != null {
        SetColor(oright, Black, b, s.right);
      }
      ghost var s1 := s.(right := s.right.(color := Black));
      Refocus(b, s.right.(color := Black));
      SetColor(tmp0, Red, a, s1);
      oright := RotateLeft(tmp0, a, s1.(color := Red));
      ghost var k1 := NephewOut(k);
      Refocus(a, k1.sibling);
      Refocus(k1, t);
      Look(k1, t);
      tmp := parent.entry.left;
    }

    /** Deletion repair, hole on the right: the outer nephew is red; the last rotation. */
    method RemoveRepayRight(parent: Node, tmp0: Node, ghost k: Ctx, ghost t: Tree)
      requires Holds(k, t) && k.InRight? && k.sibling.Fork? && k.sibling.left.Fork?
      requires k.node == parent && k.sibling.node == tmp0
      modifies this, nodes
      ensures Holds(k.up, Repaid(k, t))
      ensures nodes == old(nodes) && InOrder(tree) == old(InOrder(tree))
    {
      ghost var s := k.sibling;
      Look(k, t);
      Refocus(k, t);
      Refocus(Across(k, t), s);
      SetColor(tmp0, parent.entry.color, Across(k, t), s);
      ghost var s1 := s.(color := k.color);
      Refocus(Across(k, t), s1);
      ghost var k1 := Beside(k, s1);
      SetColor(parent, Black, k.up, Fill(k1, t));
      ghost var a := Tint(Across(k, t), Black);
      Refocus(a, s1);
      Look(a, s1);
      ghost var b := InLeft(a, s1.node, s1.color, s1.right);
      Refocus(b, s.left);
      var outer := tmp0.entry.left;
      if outer != null {
        SetColor(outer, Black, b, s.left);
      }
      ghost var s2 := s1.(left := s.left.(color := Black));
      Refocus(b, s.left.(color := Black));
      Refocus(a, s2);
      var tmp := RotateRight(parent, k.up, Fill(a, s2));
    }

    /** The sibling of the hole and its children. */
    lemma LookSibling(k: Ctx, t: Tree)
      requires Holds(k, t) && !k.Top? && k.sibling.Fork?
      ensures k.node.entry == Frame(k, Root(t)) && k.sibling.node != Root(t)
      ensures k.sibling.node.entry.left == Root(k.sibling.left)
      ensures k.sibling.node.entry.right == Root(k.sibling.right)
      ensures k.sibling.node.entry.color == k.sibling.color
      ensures k.sibling.left.Fork? ==> k.sibling.left.node.entry.color == k.sibling.left.color
      ensures k.sibling.right.Fork? ==> k.sibling.right.node.entry.color == k.sibling.right.color
    {
      var a, s := Across(k, t), k.sibling;
      Look(k, t);
      Refocus(k, t);
      Refocus(a, s);
      Look(a, s);
      Refocus(InLeft(a, s.node, s.color, s.right), s.left);
      Look(InLeft(a, s.node, s.color, s.right), s.left);
      Refocus(InRight(a, s.left, s.node, s.color), s.right);
      Look(InRight(a, s.left, s.node, s.color), s.right);
    }

    /** Deletion repair, both nephews black: the sibling `tmp` becomes red. */
    method RemoveRedden(parent: Node, tmp: Node, ghost k: Ctx, ghost t: Tree)
      returns (ghost t': Tree)
      requires Holds(k, t) && !k.Top? && k.sibling.Fork?
      requires k.node == parent && k.sibling.node == tmp
      modifies this, nodes
      ensures t' == Fill(Beside(k, k.sibling.(color := Red)), t) && Holds(k.up, t')
      ensures nodes == old(nodes) && InOrder(tree) == old(InOrder(tree))
    {
      Refocus(k, t);
      Refocus(Across(k, t), k.sibling);
      SetColor(tmp, Red, Across(k, t), k.sibling);
      Refocus(Across(k, t), k.sibling.(color := Red));
      t' := Fill(Beside(k, k.sibling.(color := Red)), t);
    }

    /** The rounds left: none once a red node takes the shortage. */
    ghost function Measure(k: Ctx, t: Tree): nat {
      if IsRed(t) then 0 else 1 + Depth(k)
    }

    lemma AtRoot(k: Ctx, t: Tree)
      requires Holds(k, t)
      ensures Root(t) == root <==> k.Top?
    {
      if !k.Top? {
        RootAbove(k, Root(t));
      }
    }

    /** One round of the deletion repair with the hole on the left. The third
        result says that the loop is left with `break`. */
    method RemoveStepLeft(parent0: Node, elm0: Node?, ghost k: Ctx, ghost t: Tree)
      returns (parent: Node?, elm: Node?, done: bool, ghost k': Ctx, ghost t': Tree)
      requires Holds(k, t) && ShortAt(k, t) && !IsRed(t) && k.InLeft?
      requires parent0 == k.node && elm0 == Root(t)
      modifies this, nodes
      ensures Holds(k', t') && ShortAt(k', t') && elm == Root(t')
      ensures done ==> k' == Top && RedBlackTree(t')
      ensures !done ==> parent == Above(k') && Measure(k', t') < Measure(k, t)
      ensures nodes == old(nodes) && InOrder(tree) == old(InOrder(tree))
    {
      parent, elm := parent0, elm0;
      k', t' := k, t;
      SiblingExists(k, t);
      LookSibling(k, t);
      var tmp := parent0.entry.right;
      if tmp.entry.color.Red? {
        RedSiblingStep(k, t);
        tmp := RemoveRedSiblingLeft(parent0, tmp, k, t);
        k' := RedSiblingUp(k);
        LookSibling(k', t);
      }
      if (tmp.entry.left == null || tmp.entry.left.entry.color.Black?)
         && (tmp.entry.right == null || tmp.entry.right.entry.color.Black?) {
        RedderStep(k', t);
        t' := RemoveRedden(parent0, tmp, k', t);
        elm := parent;
        k' := k'.up;
        Look(k', t');
        parent := elm.entry.parent;
        done := false;
      } else {
        if tmp.entry.right == null || tmp.entry.right.entry.color.Black? {
          NephewStep(k', t);
          tmp := RemoveNephewLeft(parent0, tmp, k', t);
          k' := NephewOut(k');
        }
        RepaidStep(k', t);
        RemoveRepayLeft(parent0, tmp, k', t);
        Settle(k'.up, Repaid(k', t));
        k', t' := Top, tree;
        elm := root;
        done := true;
      }
    }

    /** One round of the deletion repair with the hole on the right. The third
        result says that the loop is left with `break`. */
    method RemoveStepRight(parent0: Node, elm0: Node?, ghost k: Ctx, ghost t: Tree)
      returns (parent: Node?, elm: Node?, done: bool, ghost k': Ctx, ghost t': Tree)
      requires Holds(k, t) && ShortAt(k, t) && !IsRed(t) && k.InRight?
      requires parent0 == k.node && elm0 == Root(t)
      modifies this, nodes
      ensures Holds(k', t') && ShortAt(k', t') && elm == Root(t')
      ensures done ==> k' == Top && RedBlackTree(t')
      ensures !done ==> parent == Above(k') && Measure(k', t') < Measure(k, t)
      ensures nodes == old(nodes) && InOrder(tree) == old(InOrder(tree))
    {
      parent, elm := parent0, elm0;
      k', t' := k, t;
      SiblingExists(k, t);
      LookSibling(k, t);
      var tmp := parent0.entry.left;
      if tmp.entry.color.Red? {
        RedSiblingStep(k, t);
        tmp := RemoveRedSiblingRight(parent0, tmp, k, t);
        k' := RedSiblingUp(k);
        LookSibling(k', t);
      }
      if (tmp.entry.left == null || tmp.entry.left.entry.color.Black?)
         && (tmp.entry.right == null || tmp.entry.right.entry.color.Black?) {
        RedderStep(k', t);
        t' := RemoveRedden(parent0, tmp, k', t);
        elm := parent;
        k' := k'.up;
        Look(k', t');
        parent := elm.entry.parent;
        done := false;
      } else {
        if tmp.entry.left == null || tmp.entry.left.entry.color.Black? {
          NephewStep(k', t);
          tmp := RemoveNephewRight(parent0, tmp, k', t);
          k' := NephewOut(k');
        }
        RepaidStep(k', t);
        RemoveRepayRight(parent0, tmp, k', t);
        Settle(k'.up, Repaid(k', t));
        k', t' := Top, tree;
        elm := root;
        done := true;
      }
    }

    /** `RB_REMOVE_COLOR`, with the number of rounds. */
    method RemoveColor(parent0: Node?, elm0: Node?, ghost k0: Ctx, ghost t0: Tree) returns (ghost rounds: nat)
      requires Holds(k0, t0) && ShortAt(k0, t0) && parent0 == Above(k0) && elm0 == Root(t0)
      modifies this, nodes
      ensures Holds(Top, tree) && RedBlackTree(tree) && rounds <= Depth(k0) + 1
      ensures nodes == old(nodes) && InOrder(tree) == old(InOrder(tree))
    {
      var parent, elm := parent0, elm0;
      ghost var k, t := k0, t0;
      rounds := 0;
      Look(k, t);
      AtRoot(k, t);
      while (elm == null || elm.entry.color.Black?) && elm != root
        invariant Holds(k, t) && ShortAt(k, t) && parent == Above(k) && elm == Root(t)
        invariant elm == root <==> k.Top?
        invariant elm != null ==> elm.entry.color == t.color
        invariant nodes == old(nodes) && InOrder(tree) == old(InOrder(tree))
        invariant rounds + Measure(k, t) <= Depth(k0) + 1
        decreases Measure(k, t)
      {
        rounds := rounds + 1;
        SiblingExists(k, t);
        LookSibling(k, t);
        var done;
        if parent.entry.left == elm {
          parent, elm, done, k, t := RemoveStepLeft(parent, elm, k, t);
        } else {
          parent, elm, done, k, t := RemoveStepRight(parent, elm, k, t);
        }
        Look(k, t);
        AtRoot(k, t);
        if done {
          break;
        }
      }
      BlackenFocus(k, t);
      if elm != null {
        SetColor(elm, Black, k, t);
        t := t.(color := Black);
      }
      Settle(k, t);
    }

    // ------------------------------------------------- the public operations

    /** A red-black search tree whose links are all in place. */
    ghost predicate Valid()
      reads this, nodes
    {
      Holds(Top, tree) && RedBlackTree(tree) && Sorted(InOrder(tree))
    }

    /** `RB_INIT`. */
    constructor ()
      ensures Valid() && tree == Leaf && fresh(nodes)
    {
      root := null;
      tree := Leaf;
      nodes := {};
    }

    /** `RB_INSERT`: hangs `elm` where its key belongs, at position `at` of the order, or
        returns the node that already has its key and writes nothing. The comparisons and
        the rounds of the repair together are `steps`; `HeightBound` says how few. */
    method Insert(elm: Node) returns (r: Node?, ghost at: nat, ghost steps: nat)
      requires Valid()
      modifies this, nodes, elm
      ensures Valid()
      ensures r == null <==> forall n | n in old(InOrder(tree)) :: n.key != elm.key
      ensures r != null ==>
                && r in nodes && r.key == elm.key && elm.entry == old(elm.entry)
                && tree == old(tree) && nodes == old(nodes) && Snap(nodes) == old(Snap(nodes))
      ensures r == null ==>
                && elm !in old(nodes) && nodes == old(nodes) + {elm}
                && at <= |old(InOrder(tree))|
                && InOrder(tree) == old(InOrder(tree)[..at] + [elm] + InOrder(tree)[at..])
      ensures steps <= 2 * old(Height(tree))
    {
      at, steps := 0, 0;
      ghost var k, t := Top, tree;
      var tmp := root;
      var parent: Node? := null;
      var comp := 0;
      while tmp != null
        invariant Holds(k, t) && Plug(k, t) == tree
        invariant tmp == Root(t) && parent == Above(k) && Around(k, elm.key)
        invariant (k.InLeft? ==> comp < 0) && (k.InRight? ==> comp > 0)
        invariant steps == Depth(k) && steps + Height(t) <= Height(tree)
        modifies {}
        decreases t
      {
        Look(k, t);
        steps := steps + 1;
        parent := tmp;
        comp := Cmp(elm, parent);
        Descend(k, t, elm.key);
        if comp < 0 {
          tmp := tmp.entry.left;
          k, t := InLeft(k, t.node, t.color, t.right), t.left;
        } else if comp > 0 {
          tmp := tmp.entry.right;
          k, t := InRight(k, t.left, t.node, t.color), t.right;
        } else {
          Settle(k, t);
          InOrderNodes(tree, tmp);
          return tmp, 0, steps;
        }
        Refocus(k, t);
      }
      at := |Before(k)|;
      NotThere(k, elm);
      ghost var rounds := InsertAt(elm, parent, comp, k);
      steps := steps + rounds;
      r := null;
    }

    /** The end of `RB_INSERT`: `elm` is hung in the hole found, and the colors are
        repaired. */
    method InsertAt(elm: Node, parent: Node?, comp: int, ghost k: Ctx) returns (ghost rounds: nat)
      requires Valid() && Holds(k, Leaf) && Around(k, elm.key) && parent == Above(k)
      requires (k.InLeft? ==> comp < 0) && (k.InRight? ==> comp > 0)
      modifies this, nodes, elm
      ensures Valid() && elm !in old(nodes) && nodes == old(nodes) + {elm} && rounds <= Depth(k)
      ensures var at := |Before(k)|;
              && at <= |old(InOrder(tree))|
              && InOrder(tree) == old(InOrder(tree))[..at] + [elm] + old(InOrder(tree))[at..]
    {
      Settle(k, Leaf);
      NotThere(k, elm);
      InsertedOrder(k, elm);
      Hang(elm, parent, comp, k);
      InsertBalance(k, elm);
      rounds := InsertColor(elm, k, Fork(Leaf, elm, Red, Leaf));
      Settle(Top, tree);
    }

    /** The key belongs in an empty hole, so no node of the tree has it. */
    lemma NotThere(k: Ctx, elm: Node)
      requires tree == Plug(k, Leaf) && Around(k, elm.key) && nodes == Nodes(tree)
      ensures elm !in nodes && forall n | n in InOrder(tree) :: n.key != elm.key
    {
      PlugInOrder(k, Leaf);
      InOrderNodes(tree, elm);
    }

    /** `RB_SET` and the link from the parent. */
    method Hang(elm: Node, parent: Node?, comp: int, ghost k: Ctx)
      requires Holds(k, Leaf) && elm !in nodes && parent == Above(k)
      requires (k.InLeft? ==> comp < 0) && (k.InRight? ==> comp > 0)
      modifies this, nodes, elm
      ensures Holds(k, Fork(Leaf, elm, Red, Leaf)) && nodes == old(nodes) + {elm}
    {
      ghost var m := Snap(nodes);
      Look(k, Leaf);
      elm.entry := Entry(null, null, parent, Red);
      if parent != null {
        if comp < 0 {
          parent.entry := parent.entry.(left := elm);
        } else {
          parent.entry := parent.entry.(right := elm);
        }
      } else {
        root := elm;
      }
      nodes := nodes + {elm};
      tree := Plug(k, Fork(Leaf, elm, Red, Leaf));
      Hung(m, Snap(nodes), k, elm);
    }

    /** `RB_FIND`, with the number of comparisons. */
    method Find(elm: Node) returns (r: Node?, ghost steps: nat)
      requires Valid()
      ensures r == null <==> forall n | n in InOrder(tree) :: n.key != elm.key
      ensures r != null ==> r in nodes && r.key == elm.key
      ensures steps <= Height(tree)
      ensures Pow2(steps) <= (|InOrder(tree)| + 1) * (|InOrder(tree)| + 1)
    {
      steps := 0;
      HeightBound(tree);
      ghost var k, t := Top, tree;
      var tmp := root;
      while tmp != null
        invariant Holds(k, t) && tmp == Root(t) && Around(k, elm.key)
        invariant steps + Height(t) <= Height(tree)
        decreases t
      {
        Look(k, t);
        steps := steps + 1;
        var comp := Cmp(elm, tmp);
        Descend(k, t, elm.key);
        if comp < 0 {
          tmp := tmp.entry.left;
          k, t := InLeft(k, t.node, t.color, t.right), t.left;
        } else if comp > 0 {
          tmp := tmp.entry.right;
          k, t := InRight(k, t.left, t.node, t.color), t.right;
        } else {
          Settle(k, t);
          InOrderNodes(tree, tmp);
          Pow2Monotone(steps, Height(tree));
          return tmp, steps;
        }
        Refocus(k, t);
      }
      Settle(k, t);
      NotThere(k, elm);
      Pow2Monotone(steps, Height(tree));
      r := null;
    }

    /** Beyond an empty hole the order goes on with the first node after it. */
    lemma FirstAfter(k: Ctx, x: int)
      requires tree == Plug(k, Leaf) && nodes == Nodes(tree)
      requires Around(k, x) && Sorted(InOrder(tree))
      ensures After(k) == [] ==> AllBelow(InOrder(tree), x)
      ensures After(k) != [] ==>
                && After(k)[0] in nodes && x < After(k)[0].key
                && forall n | n in InOrder(tree) :: n.key < x || After(k)[0].key <= n.key
    {
      PlugInOrder(k, Leaf);
      assert InOrder(tree) == Before(k) + After(k);
      if After(k) != [] {
        var r, s := After(k)[0], After(k)[1..];
        assert InOrder(tree) == Before(k) + [r] + s;
        SortedAround(Before(k), r, s);
        InOrderNodes(tree, r);
      }
    }

    /** `RB_NFIND`: the first node not below the key, if there is one. */
    method NFind(elm: Node) returns (r: Node?, ghost steps: nat)
      requires Valid()
      ensures r == null ==> AllBelow(InOrder(tree), elm.key)
      ensures r != null ==>
                && r in nodes && elm.key <= r.key
                && forall n | n in InOrder(tree) :: n.key < elm.key || r.key <= n.key
      ensures steps <= Height(tree)
      ensures Pow2(steps) <= (|InOrder(tree)| + 1) * (|InOrder(tree)| + 1)
    {
      steps := 0;
      HeightBound(tree);
      ghost var k, t := Top, tree;
      var tmp := root;
      var res: Node? := null;
      while tmp != null
        invariant Holds(k, t) && tmp == Root(t) && Around(k, elm.key)
        invariant res == if After(k) == [] then null else After(k)[0]
        invariant steps + Height(t) <= Height(tree)
        decreases t
      {
        Look(k, t);
        steps := steps + 1;
        var comp := Cmp(elm, tmp);
        Descend(k, t, elm.key);
        if comp < 0 {
          res := tmp;
          tmp := tmp.entry.left;
          k, t := InLeft(k, t.node, t.color, t.right), t.left;
        } else if comp > 0 {
          tmp := tmp.entry.right;
          k, t := InRight(k, t.left, t.node, t.color), t.right;
        } else {
          Settle(k, t);
          InOrderNodes(tree, tmp);
          Pow2Monotone(steps, Height(tree));
          return tmp, steps;
        }
        Refocus(k, t);
      }
      Settle(k, t);
      FirstAfter(k, elm.key);
      Pow2Monotone(steps, Height(tree));
      r := res;
    }

    /** Hangs the only child of `elm` in its place. */
    method Splice(elm: Node, child: Node?, parent: Node?, ghost k: Ctx, ghost t: Tree)
      requires Holds(k, t) && t.Fork? && t.node == elm && (t.left.Leaf? || t.right.Leaf?)
      requires child == Root(OnlyChild(t)) && parent == Above(k)
      modifies this, nodes
      ensures Holds(k, OnlyChild(t)) && nodes == old(nodes) - {elm}
      ensures elm.entry == old(elm.entry)
    {
      ghost var m := Snap(nodes);
      ghost var c := OnlyChild(t);
      Look(k, t);
      ChildInMemory(m, t, Above(k));
      if child != null {
        child.entry := child.entry.(parent := parent);
      }
      Replace(parent, elm, child);
      nodes := nodes - {elm};
      tree := Plug(k, c);
      Spliced(m, Snap(nodes), k, t, c);
    }

    /** Entry by entry: `elm` gets the entry of `was`, and the parent `p` and the
        children `l` and `r` of `was` are told. */
    method SubstituteLinks(was: Node, elm: Node, ghost l: Node, ghost r: Node?, ghost p: Node?)
      requires was.entry.left == l && was.entry.right == r && was.entry.parent == p
      requires elm !in {was, l, r, p} && was !in {l, r, p} && l !in {r, p} && (r == p ==> p == null)
      modifies this`root, elm, l, if r == null then {} else {r}, if p == null then {} else {p}
      ensures elm.entry == old(was.entry)
      ensures l.entry == old(l.entry).(parent := elm)
      ensures r != null ==> r.entry == old(r.entry).(parent := elm)
      ensures p == null ==> root == elm
      ensures p != null ==>
                && root == old(root)
                && p.entry == if old(p.entry.left) == was
                              then old(p.entry).(left := elm)
                              else old(p.entry).(right := elm)
    {
      elm.entry := was.entry;
      Replace(was.entry.parent, was, elm);
      was.entry.left.entry := was.entry.left.entry.(parent := elm);
      if was.entry.right != null {
        was.entry.right.entry := was.entry.right.entry.(parent := elm);
      }
    }

    /** Puts `elm` where `was` is, with the links and the color of `was`. */
    method Substitute(was: Node, elm: Node, ghost k: Ctx, ghost t: Tree)
      requires Holds(k, t) && t.Fork? && t.node == was && t.left.Fork? && elm !in nodes
      modifies this, nodes, elm
      ensures Holds(k, t.(node := elm)) && nodes == old(nodes) - {was} + {elm}
    {
      ghost var m := Snap(nodes);
      Look(k, t);
      ChildInMemory(m, t, Above(k));
      SubstituteLinks(was, elm, t.left.node, Root(t.right), Above(k));
      nodes := nodes - {was} + {elm};
      tree := Plug(k, t.(node := elm));
      Substituted(m, Snap(nodes), k, t, elm);
    }

    /** The leftmost node below `from`, with the number of steps down. */
    method Leftmost(from: Node, ghost base: Ctx, ghost sub: Tree)
      returns (elm: Node, ghost k: Ctx, ghost t: Tree, ghost steps: nat)
      requires Holds(base, sub) && sub.Fork? && sub.node == from
      ensures Holds(k, t) && t.Fork? && t.node == elm && t.left.Leaf?
      ensures LeftwardFrom(k, base) && Close(k, base, t) == sub
      ensures k != base ==> Above(k) in Nodes(sub)
      ensures elm in Nodes(sub) && steps <= Depth(k)
    {
      elm, k, t, steps := from, base, sub, 0;
      Look(k, t);
      var left := elm.entry.left;
      while left != null
        invariant Holds(k, t) && t.Fork? && t.node == elm && left == Root(t.left)
        invariant LeftwardFrom(k, base) && Close(k, base, t) == sub
        invariant Nodes(t) <= Nodes(sub) && (k != base ==> Above(k) in Nodes(sub))
        invariant steps <= Depth(k)
        decreases t
      {
        elm := left;
        steps := steps + 1;
        ghost var k1 := InLeft(k, t.node, t.color, t.right);
        Refocus(k1, t.left);
        LeftwardOn(k1, base);
        k, t := k1, t.left;
        Look(k, t);
        left := elm.entry.left;
      }
    }

    /** Focus moved across the leftmost path below a node. */
    lemma RefocusLeftward(k: Ctx, base: Ctx, t: Tree)
      requires LeftwardFrom(k, base)
      ensures Holds(k, t) <==> Holds(base, Close(k, base, t))
    {
      CloseFocus(Snap(nodes), k, base, t);
    }

    /** The successor `elm` of a node with two children is spliced out. */
    method TakeSuccessor(was: Node, ghost k: Ctx, ghost t: Tree)
      returns (elm: Node, parent: Node?, child: Node?, color: Color, ghost kk: Ctx, ghost tt: Tree,
               ghost steps: nat)
      requires Holds(k, t)
      requires t.Fork? && t.node == was && t.left.Fork? && t.right.Fork?
      modifies this, nodes
      ensures tt.Fork? && tt.node == elm && tt.left.Leaf? && Holds(kk, tt.right)
      ensures LeftwardFrom(kk, InRight(k, t.left, was, t.color)) && Plug(kk, tt) == old(tree)
      ensures parent == Above(kk) && child == Root(tt.right) && color == tt.color
      ensures elm.entry.parent == parent
      ensures parent == was <==> kk == InRight(k, t.left, was, t.color)
      ensures elm in old(nodes) && elm != was && nodes == old(nodes) - {elm}
      ensures steps <= Depth(kk) < old(Height(tree))
    {
      ghost var base := InRight(k, t.left, was, t.color);
      Look(k, t);
      Refocus(base, t.right);
      elm, kk, tt, steps := Leftmost(was.entry.right, base, t.right);
      DepthBound(kk, tt);
      Look(kk, tt);
      child := elm.entry.right;
      parent := elm.entry.parent;
      color := elm.entry.color;
      Splice(elm, child, parent, kk, tt);
    }

    /** A node with two children: its successor is spliced out and takes its place. */
    method RemoveInner(was: Node, ghost k: Ctx, ghost t: Tree)
      returns (parent: Node?, child: Node?, color: Color, ghost k': Ctx, ghost t': Tree, ghost steps: nat)
      requires Holds(k, t) && RedBlackTree(tree)
      requires t.Fork? && t.node == was && t.left.Fork? && t.right.Fork?
      modifies this, nodes
      ensures Holds(k', t') && parent == Above(k') && child == Root(t')
      ensures color.Red? ==> RedBlackTree(tree)
      ensures color.Black? ==> ShortAt(k', t')
      ensures nodes == old(nodes) - {was} && steps <= Depth(k') < old(Height(tree))
      ensures Without(old(InOrder(tree)), |Before(k)| + |InOrder(t.left)|, was, InOrder(tree))
    {
      var elm;
      ghost var kk, tt;
      elm, parent, child, color, kk, tt, steps := TakeSuccessor(was, k, t);
      InnerBalance(k, t, kk, tt);
      SuccessorOrder(k, t, kk, tt);
      if elm.entry.parent == was {
        parent := elm;
      }
      k' := ReplaceBySuccessor(was, elm, k, t, kk, tt);
      t' := tt.right;
    }

    /** `elm` gets the links and the color of `was`. */
    method ReplaceBySuccessor(was: Node, elm: Node, ghost k: Ctx, ghost t: Tree, ghost kk: Ctx, ghost tt: Tree)
      returns (ghost k': Ctx)
      requires t.Fork? && t.node == was && t.left.Fork? && tt.Fork? && tt.node == elm
      requires Holds(kk, tt.right) && elm !in nodes
      requires LeftwardFrom(kk, InRight(k, t.left, was, t.color))
      modifies this, nodes, elm
      ensures k' == Successor(k, t, kk, tt) && Depth(k') == Depth(kk)
      ensures Holds(k', tt.right) && nodes == old(nodes) - {was} + {elm}
      ensures Above(k') == if kk == InRight(k, t.left, was, t.color) then elm else Above(kk)
    {
      ghost var base, base' := InRight(k, t.left, was, t.color), InRight(k, t.left, elm, t.color);
      ghost var rest := Close(kk, base, tt.right);
      RefocusLeftward(kk, base, tt.right);
      Refocus(base, rest);
      Substitute(was, elm, k, Fill(base, rest));
      Refocus(base', rest);
      k' := Successor(k, t, kk, tt);
      RebaseDepth(kk, base, base');
      RebaseFacts(kk, base, base', tt.right);
      RefocusLeftward(k', base', tt.right);
    }

    /** A node with at most one child. */
    method RemoveOuter(elm: Node, ghost k: Ctx, ghost t: Tree)
      returns (parent: Node?, child: Node?, color: Color, ghost t': Tree)
      requires Holds(k, t) && RedBlackTree(tree)
      requires t.Fork? && t.node == elm && (t.left.Leaf? || t.right.Leaf?)
      modifies this, nodes
      ensures Holds(k, t') && parent == Above(k) && child == Root(t')
      ensures color.Red? ==> RedBlackTree(tree)
      ensures color.Black? ==> ShortAt(k, t')
      ensures nodes == old(nodes) - {elm}
      ensures Without(old(InOrder(tree)), |Before(k)| + |InOrder(t.left)|, elm, InOrder(tree))
    {
      Look(k, t);
      if elm.entry.left == null {
        child := elm.entry.right;
      } else {
        child := elm.entry.left;
      }
      parent := elm.entry.parent;
      color := elm.entry.color;
      SpliceBalance(k, t);
      SpliceOrder(k, t);
      Splice(elm, child, parent, k, t);
      t' := OnlyChild(t);
    }

    /** The first half of `RB_REMOVE`. */
    method Unlink(elm: Node, ghost k: Ctx, ghost t: Tree)
      returns (parent: Node?, child: Node?, color: Color, ghost k': Ctx, ghost t': Tree, ghost steps: nat)
      requires Holds(k, t) && RedBlackTree(tree) && t.Fork? && t.node == elm
      modifies this, nodes
      ensures Holds(k', t') && parent == Above(k') && child == Root(t')
      ensures color.Red? ==> RedBlackTree(tree)
      ensures color.Black? ==> ShortAt(k', t')
      ensures nodes == old(nodes) - {elm} && steps <= Depth(k') < old(Height(tree))
      ensures Without(old(InOrder(tree)), |Before(k)| + |InOrder(t.left)|, elm, InOrder(tree))
    {
      DepthBound(k, t);
      Look(k, t);
      if elm.entry.left != null && elm.entry.right != null {
        parent, child, color, k', t', steps := RemoveInner(elm, k, t);
      } else {
        k', steps := k, 0;
        parent, child, color, t' := RemoveOuter(elm, k, t);
      }
    }

    /** Every linked node can be brought into focus. */
    lemma FocusOn(n: Node) returns (k: Ctx, t: Tree)
      requires Holds(Top, tree) && n in nodes
      ensures Holds(k, t) && t.Fork? && t.node == n
    {
      k, t := Locate(Top, tree, n);
      Focus(Snap(nodes), k, t);
    }

    /** `RB_REMOVE`: unlinks `elm`, which was at position `at` of the order. The steps down
        to its successor and the rounds of the repair together are `steps`; `HeightBound`
        says how few. */
    method Remove(elm: Node) returns (r: Node, ghost at: nat, ghost steps: nat)
      requires Valid() && elm in nodes
      modifies this, nodes
      ensures Valid() && r == elm
      ensures nodes == old(nodes) - {elm}
      ensures Without(old(InOrder(tree)), at, elm, InOrder(tree))
      ensures steps <= 2 * old(Height(tree))
    {
      ghost var k, t := FocusOn(elm);
      at := |Before(k)| + |InOrder(t.left)|;
      r := elm;
      var child, parent, color;
      ghost var k', t';
      parent, child, color, k', t', steps := Unlink(elm, k, t);
      WithoutSorted(old(InOrder(tree)), at, elm, InOrder(tree));
      Settle(k', t');
      if color.Black? {
        ghost var rounds := RemoveColor(parent, child, k', t');
        steps := steps + rounds;
      }
    }
  }
}
