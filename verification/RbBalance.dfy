/** The red-black conditions, on trees and on trees with a hole. */
module RbBalance {
  import opened RbTrees

  ghost predicate IsRed(t: Tree) {
    t.Fork? && t.color.Red?
  }

  ghost function Weight(c: Color): nat {
    if c.Black? then 1 else 0
  }

  /** The number of black nodes on the leftmost path. */
  ghost function BlackHeight(t: Tree): nat {
    if t.Leaf? then 0 else BlackHeight(t.left) + Weight(t.color)
  }

  /** Every path has the same number of black nodes and, below the root, no red
      node has a red child. */
  ghost predicate Weak(t: Tree) {
    t.Leaf? || (Balanced(t.left) && Balanced(t.right) && BlackHeight(t.left) == BlackHeight(t.right))
  }

  ghost predicate Balanced(t: Tree) {
    match t
    case Leaf => true
    case Fork(l, _, c, r) =>
      && Balanced(l) && Balanced(r) && BlackHeight(l) == BlackHeight(r)
      && (c.Red? ==> !IsRed(l) && !IsRed(r))
  }

  /** A red-black tree: balanced, with a black root. */
  ghost predicate RedBlackTree(t: Tree) {
    Balanced(t) && !IsRed(t)
  }

  /** Filling the hole with a balanced tree of black height `h` gives a red-black
      tree, as long as the hole's root does not clash with the frame's color. */
  ghost predicate CtxBalanced(k: Ctx, h: nat) {
    k.Top? ||
    (&& Balanced(k.sibling) && BlackHeight(k.sibling) == h
     && (k.color.Red? ==> !IsRed(k.sibling) && !k.up.Top? && k.up.color.Black?)
     && CtxBalanced(k.up, h + Weight(k.color)))
  }

  /** The root of `t` fits under the innermost frame of `k`. */
  ghost predicate Fits(k: Ctx, t: Tree) {
    IsRed(t) ==> !k.Top? && k.color.Black?
  }

  /** The red-black conditions of a whole tree are those of its two parts. */
  lemma {:induction false} SplitBalance(k: Ctx, t: Tree)
    ensures RedBlackTree(Plug(k, t)) <==>
              Balanced(t) && CtxBalanced(k, BlackHeight(t)) && Fits(k, t)
    decreases k
  {
    match k
    case Top =>
    case InLeft(up, n, c, r) => SplitBalance(up, Fork(t, n, c, r));
    case InRight(up, l, n, c) => SplitBalance(up, Fork(l, n, c, t));
  }

  /** The state of the insertion repair: `t` is red and fine in itself, and the
      rest is fine; only `t` and the frame above it may clash. */
  ghost predicate RedAt(k: Ctx, t: Tree) {
    IsRed(t) && Balanced(t) && CtxBalanced(k, BlackHeight(t))
  }

  /** The state of the deletion repair: exactly the hole is one black short. */
  ghost predicate ShortAt(k: Ctx, t: Tree) {
    Weak(t) && CtxBalanced(k, BlackHeight(t) + 1)
  }

  // --------------------------------------------------------- insertion steps

  /** A red parent has a black parent of its own. */
  lemma GrandparentExists(k: Ctx, t: Tree)
    requires RedAt(k, t) && !k.Top? && k.color.Red?
    ensures !k.up.Top? && k.up.color.Black?
  {
  }

  /** Parent and uncle painted black, grandparent red. */
  ghost function Recolored(k: Ctx, t: Tree): Tree
    requires !k.Top? && !k.up.Top? && k.up.sibling.Fork?
  {
    Fill(Tint(Beside(k.up, k.up.sibling.(color := Black)), Red), Fill(Tint(k, Black), t))
  }

  lemma RecolorStep(k: Ctx, t: Tree)
    requires RedAt(k, t) && !k.Top? && k.color.Red? && !k.up.Top? && IsRed(k.up.sibling)
    ensures RedAt(k.up.up, Recolored(k, t))
  {
    assert CtxBalanced(k.up, BlackHeight(t));
    var p := Fill(Tint(k, Black), t);
    assert Balanced(p) && BlackHeight(p) == BlackHeight(t) + 1;
    var u := k.up.sibling.(color := Black);
    assert Balanced(u) && BlackHeight(u) == BlackHeight(t) + 1;
  }

  /** With a black uncle the outer grandchild stays red below a black parent. */
  lemma TurnStep(k: Ctx, t: Tree)
    requires RedAt(k, t) && !k.Top? && k.color.Red? && !k.up.Top? && !IsRed(k.up.sibling)
    ensures k.InLeft? && k.up.InLeft? ==>
              RedAt(InLeft(k.up.up, k.node, Black, Fork(k.sibling, k.up.node, Red, k.up.sibling)), t)
    ensures k.InRight? && k.up.InRight? ==>
              RedAt(InRight(k.up.up, Fork(k.up.sibling, k.up.node, Red, k.sibling), k.node, Black), t)
  {
    assert CtxBalanced(k.up, BlackHeight(t));
  }

  /** The inner grandchild rotated outside. */
  lemma InnerStep(k: Ctx, t: Tree)
    requires RedAt(k, t) && !k.Top? && k.color.Red?
    ensures k.InRight? ==> RedAt(InLeft(k.up, t.node, Red, t.right), Fork(k.sibling, k.node, Red, t.left))
    ensures k.InLeft? ==> RedAt(InRight(k.up, t.left, t.node, Red), Fork(t.right, k.node, Red, k.sibling))
  {
  }

  /** When the loop stops, painting the root black is all that is left to do. */
  lemma BlackenRoot(k: Ctx, t: Tree)
    requires RedAt(k, t) && (k.Top? || k.color.Black?)
    ensures Plug(k, t).Fork? && RedBlackTree(Plug(k, t).(color := Black))
  {
    if !k.Top? {
      SplitBalance(k, t);
      PlugFork(k, t);
    }
  }

  // ---------------------------------------------------------- deletion steps

  /** One black short below, so the sibling has a black node and is not NULL. */
  lemma SiblingExists(k: Ctx, t: Tree)
    requires ShortAt(k, t) && !k.Top?
    ensures k.sibling.Fork?
    ensures !IsRed(k.sibling) || k.color.Black?
    ensures IsRed(k.sibling) ==> k.sibling.left.Fork? && k.sibling.right.Fork?
  {
    if IsRed(k.sibling) {
      assert BlackHeight(k.sibling.left) == BlackHeight(k.sibling.right) > 0;
    }
  }

  /** A red sibling rotated up leaves the hole as short as before, below a red parent. */
  ghost function RedSiblingUp(k: Ctx): (r: Ctx)
    requires !k.Top? && k.sibling.Fork?
  {
    var s := k.sibling;
    if k.InLeft? then InLeft(InLeft(k.up, s.node, Black, s.right), k.node, Red, s.left)
    else InRight(InRight(k.up, s.left, s.node, Black), s.right, k.node, Red)
  }

  lemma RedSiblingStep(k: Ctx, t: Tree)
    requires ShortAt(k, t) && !k.Top? && IsRed(k.sibling)
    ensures ShortAt(RedSiblingUp(k), t) && !IsRed(RedSiblingUp(k).sibling)
  {
    SiblingExists(k, t);
  }

  ghost predicate BlackNephews(k: Ctx)
    requires !k.Top? && k.sibling.Fork?
  {
    !IsRed(k.sibling.left) && !IsRed(k.sibling.right)
  }

  /** Painting the sibling red moves the shortage one level up. */
  lemma RedderStep(k: Ctx, t: Tree)
    requires ShortAt(k, t) && !k.Top? && !IsRed(t) && k.sibling.Fork? && !IsRed(k.sibling)
    requires BlackNephews(k)
    ensures ShortAt(k.up, Fill(Beside(k, k.sibling.(color := Red)), t))
  {
    var s := k.sibling.(color := Red);
    assert Balanced(s) && BlackHeight(s) == BlackHeight(t);
  }

  /** The inner red nephew rotated outside. */
  ghost function NephewOut(k: Ctx): Ctx
    requires !k.Top? && k.sibling.Fork?
    requires if k.InLeft? then k.sibling.left.Fork? else k.sibling.right.Fork?
  {
    var s := k.sibling;
    if k.InLeft? then
      Beside(k, Fork(s.left.left, s.left.node, Black, Fork(s.left.right, s.node, Red, s.right)))
    else
      Beside(k, Fork(Fork(s.left, s.node, Red, s.right.left), s.right.node, Black, s.right.right))
  }

  lemma NephewStep(k: Ctx, t: Tree)
    requires ShortAt(k, t) && !k.Top? && k.sibling.Fork? && !IsRed(k.sibling)
    requires if k.InLeft? then IsRed(k.sibling.left) && !IsRed(k.sibling.right)
             else IsRed(k.sibling.right) && !IsRed(k.sibling.left)
    ensures ShortAt(NephewOut(k), t) && !IsRed(NephewOut(k).sibling)
  {
    var s := k.sibling;
    assert Balanced(s.left) && Balanced(s.right);
    assert Balanced(NephewOut(k).sibling.left) && Balanced(NephewOut(k).sibling.right);
  }

  /** The last rotation of the deletion repair pays the shortage off. */
  ghost function Repaid(k: Ctx, t: Tree): Tree
    requires !k.Top? && k.sibling.Fork?
    requires if k.InLeft? then k.sibling.right.Fork? else k.sibling.left.Fork?
  {
    var s := k.sibling;
    if k.InLeft? then
      Fork(Fork(t, k.node, Black, s.left), s.node, k.color, s.right.(color := Black))
    else
      Fork(s.left.(color := Black), s.node, k.color, Fork(s.right, k.node, Black, t))
  }

  lemma RepaidStep(k: Ctx, t: Tree)
    requires ShortAt(k, t) && !k.Top? && !IsRed(t) && k.sibling.Fork? && !IsRed(k.sibling)
    requires if k.InLeft? then IsRed(k.sibling.right) else IsRed(k.sibling.left)
    ensures RedBlackTree(Plug(k.up, Repaid(k, t)))
  {
    var s, r := k.sibling, Repaid(k, t);
    assert Balanced(s.left) && Balanced(s.right);
    assert BlackHeight(s.left) == BlackHeight(s.right) == BlackHeight(t);
    assert Balanced(r.left) && Balanced(r.right);
    SplitBalance(k.up, r);
  }

  /** When the loop stops, painting `t` black is all that is left to do. */
  lemma BlackenFocus(k: Ctx, t: Tree)
    requires ShortAt(k, t) && (k.Top? || IsRed(t))
    ensures t.Leaf? ==> RedBlackTree(Plug(k, t))
    ensures t.Fork? ==> RedBlackTree(Plug(k, t.(color := Black)))
  {
    if t.Fork? {
      SplitBalance(k, t.(color := Black));
    }
  }

  /** A new red leaf is where the insertion repair starts. */
  lemma InsertBalance(k: Ctx, n: Node)
    requires RedBlackTree(Plug(k, Leaf))
    ensures RedAt(k, Fork(Leaf, n, Red, Leaf))
  {
    SplitBalance(k, Leaf);
  }

  /** Splicing out a red node keeps the conditions; a black one leaves a shortage. */
  lemma SpliceBalance(k: Ctx, t: Tree)
    requires RedBlackTree(Plug(k, t)) && t.Fork? && (t.left.Leaf? || t.right.Leaf?)
    ensures t.color.Red? ==> RedBlackTree(Plug(k, OnlyChild(t)))
    ensures t.color.Black? ==> ShortAt(k, OnlyChild(t))
  {
    SplitBalance(k, t);
    SplitBalance(k, OnlyChild(t));
  }

  lemma {:induction false} RebaseBalance(k: Ctx, base: Ctx, base': Ctx, h: nat)
    requires LeftwardFrom(k, base) && SameButNode(base, base')
    ensures CtxBalanced(Rebase(k, base, base'), h) <==> CtxBalanced(k, h)
    ensures Rebase(k, base, base').Top? == k.Top?
    ensures !k.Top? ==> Rebase(k, base, base').color == k.color
    decreases k
  {
    if k != base {
      RebaseBalance(k.up, base, base', h + Weight(k.color));
    }
  }

  /** What putting the successor of `t.node`, the node of `tt` in `kk`, in its place
      does to the balance. */
  lemma InnerBalance(k: Ctx, t: Tree, kk: Ctx, tt: Tree)
    requires t.Fork? && tt.Fork? && tt.left.Leaf?
    requires LeftwardFrom(kk, InRight(k, t.left, t.node, t.color))
    requires RedBlackTree(Plug(kk, tt))
    ensures var k' := Successor(k, t, kk, tt);
            && (tt.color.Red? ==> RedBlackTree(Plug(k', tt.right)))
            && (tt.color.Black? ==> ShortAt(k', tt.right))
  {
    var base, base' := InRight(k, t.left, t.node, t.color), InRight(k, t.left, tt.node, t.color);
    SpliceBalance(kk, tt);
    RebaseBalance(kk, base, base', BlackHeight(tt.right));
    RebaseBalance(kk, base, base', BlackHeight(tt.right) + 1);
    SplitBalance(Successor(k, t, kk, tt), tt.right);
    SplitBalance(kk, tt.right);
  }

  // ------------------------------------------------------------------ height

  ghost function Height(t: Tree): nat {
    if t.Leaf? then 0
    else 1 + if Height(t.left) < Height(t.right) then Height(t.right) else Height(t.left)
  }

  /** A hole lies no deeper than the tree is high. */
  lemma {:induction false} DepthBound(k: Ctx, t: Tree)
    ensures Depth(k) + Height(t) <= Height(Plug(k, t))
    decreases k
  {
    if !k.Top? {
      DepthBound(k.up, Fill(k, t));
    }
  }

  ghost function Pow2(n: nat): nat {
    if n == 0 then 1 else 2 * Pow2(n - 1)
  }

  lemma {:induction false} Pow2Sum(a: nat, b: nat)
    ensures Pow2(a + b) == Pow2(a) * Pow2(b)
  {
    if a > 0 {
      Pow2Sum(a - 1, b);
      Doubled(Pow2(a - 1), Pow2(b));
    }
  }

  lemma Doubled(x: nat, y: nat)
    ensures 2 * (x * y) == (2 * x) * y
  {
  }

  lemma {:induction false} Pow2Monotone(a: nat, b: nat)
    requires a <= b
    ensures Pow2(a) <= Pow2(b)
  {
    if a < b {
      Pow2Monotone(a, b - 1);
    }
  }

  /** At most every other node of a path is red, and the black nodes alone would fill
      a complete tree. */
  lemma {:induction false} BlackHeightBounds(t: Tree)
    requires Balanced(t)
    ensures Height(t) <= 2 * BlackHeight(t) + if IsRed(t) then 1 else 0
    ensures Pow2(BlackHeight(t)) <= |InOrder(t)| + 1
  {
    if t.Fork? {
      BlackHeightBounds(t.left);
      BlackHeightBounds(t.right);
    }
  }

  /** The height of a red-black tree of `n` nodes is at most `2 lg (n+1)`. */
  lemma HeightBound(t: Tree)
    requires RedBlackTree(t)
    ensures Pow2(Height(t)) <= (|InOrder(t)| + 1) * (|InOrder(t)| + 1)
  {
    var b, n := BlackHeight(t), |InOrder(t)| + 1;
    BlackHeightBounds(t);
    Pow2Monotone(Height(t), b + b);
    Pow2Sum(b, b);
    assert Pow2(b) * Pow2(b) <= n * n by {
      Squares(Pow2(b), n);
    }
  }

  lemma Squares(a: nat, b: nat)
    requires a <= b
    ensures a * a <= b * b
  {
    assert b * b - a * a == (b - a) * (b + a);
  }
}
