/** Walking a splay tree: extremes, successors and the loop built on them. Every step
    restructures the tree and keeps its order. */
module SplayTraversal {
  import opened Sequences
  import opened SplayTrees
  import opened Splay

  /** `SPLAY_MIN` and `SPLAY_MAX`. */
  method MinMax(h: Head, val: int) returns (r: Node?)
    requires h.Valid() && val != 0
    modifies h, h.nodes
    ensures h.Valid() && h.nodes == old(h.nodes) && InOrder(h.tree) == old(InOrder(h.tree))
    ensures var s := InOrder(h.tree);
            r == if s == [] then null else if val < 0 then s[0] else s[|s| - 1]
  {
    if h.root == null {
      r := null;
    } else {
      ghost var least, greatest := Beyond(InOrder(h.tree));
      h.SplayMinMax(val, if val < 0 then least else greatest);
      r := h.root;
    }
  }

  /** `SPLAY_NEXT`: `i` is the position of `elm`. */
  method Next(h: Head, elm0: Node, ghost i: nat) returns (elm: Node?)
    requires h.Valid() && i < |InOrder(h.tree)| && InOrder(h.tree)[i] == elm0
    modifies h, h.nodes
    ensures h.Valid() && h.nodes == old(h.nodes) && InOrder(h.tree) == old(InOrder(h.tree))
    ensures elm == if i + 1 < |InOrder(h.tree)| then InOrder(h.tree)[i + 1] else null
  {
    h.Splay(elm0);
    OnTop(h, elm0, i);
    if elm0.entry.right != null {
      elm := Leftmost(h, elm0.entry.right, h.tree.right);
    } else {
      elm := null;
    }
  }

  /** A linked node splayed at its own key ends up on top. */
  lemma OnTop(h: Head, elm: Node, i: nat)
    requires h.Valid() && SplitAt(h.tree, elm.key)
    requires i < |InOrder(h.tree)| && InOrder(h.tree)[i] == elm
    ensures h.tree.node == elm && elm.entry == Entry(Root(h.tree.left), Root(h.tree.right))
    ensures i == |InOrder(h.tree.left)|
    ensures Linked(Snap(h.nodes), h.tree.right) && Nodes(h.tree.right) <= h.nodes
    ensures InOrder(h.tree)[i + 1..] == InOrder(h.tree.right)
  {
    h.AtRoot(elm.key);
    var s, j := InOrder(h.tree), |InOrder(h.tree.left)|;
    assert s[j] == h.tree.node;
    assert s[i].key == s[j].key;
  }

  /** The loop of `SPLAY_NEXT`: the first node of a linked part of the tree. */
  method Leftmost(h: Head, from: Node, ghost t0: Tree) returns (elm: Node)
    requires Linked(Snap(h.nodes), t0) && t0.Fork? && t0.node == from && Nodes(t0) <= h.nodes
    ensures InOrder(t0) != [] && elm == InOrder(t0)[0]
  {
    ghost var t := t0;
    elm := from;
    assert Snap(h.nodes)[t.node] == t.node.entry;
    while elm.entry.left != null
      invariant Linked(Snap(h.nodes), t) && t.Fork? && t.node == elm && Nodes(t) <= h.nodes
      invariant elm.entry.left == Root(t.left) && InOrder(t)[0] == InOrder(t0)[0]
      decreases t
    {
      elm := elm.entry.left;
      t := t.left;
      assert Snap(h.nodes)[t.node] == t.node.entry;
    }
  }

  /** `SPLAY_FOREACH` with a body that collects the nodes. */
  method Foreach(h: Head) returns (visited: seq<Node>)
    requires h.Valid()
    modifies h, h.nodes
    ensures h.Valid() && h.nodes == old(h.nodes) && InOrder(h.tree) == old(InOrder(h.tree))
    ensures visited == old(InOrder(h.tree))
  {
    ghost var s, i := InOrder(h.tree), 0;
    visited := [];
    var x := MinMax(h, -1);
    while x != null
      invariant h.Valid() && h.nodes == old(h.nodes) && InOrder(h.tree) == s
      invariant i <= |s| && visited == s[..i] && x == if i < |s| then s[i] else null
      decreases |s| - i
    {
      var current: Node := x;
      TakeOneMore(s, i);
      visited := visited + [current];
      x := Next(h, current, i);
      i := i + 1;
    }
    assert s[..i] == s;
  }
}
