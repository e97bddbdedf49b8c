/** Walking a red-black tree along its links: extremes, successors, predecessors and
    the loops built on them. */
module RbTraversal {
  import opened Sequences
  import opened RbTrees
  import opened RedBlack

  /** `RB_MINMAX`. */
  method MinMax(h: Head, val: int) returns (parent: Node?)
    requires h.Valid()
    ensures var s := InOrder(h.tree);
            parent == if s == [] then null else if val < 0 then s[0] else s[|s| - 1]
  {
    ghost var k, t := Top, h.tree;
    var tmp := h.root;
    parent := null;
    while tmp != null
      invariant h.Holds(k, t) && tmp == Root(t) && parent == Above(k)
      invariant if val < 0 then Before(k) == [] else After(k) == []
      invariant k.InLeft? ==> val < 0
      invariant k.InRight? ==> val >= 0
      decreases t
    {
      h.Look(k, t);
      parent := tmp;
      if val < 0 {
        tmp := tmp.entry.left;
        k, t := InLeft(k, t.node, t.color, t.right), t.left;
      } else {
        tmp := tmp.entry.right;
        k, t := InRight(k, t.left, t.node, t.color), t.right;
      }
      h.Refocus(k, t);
    }
    PlugInOrder(k, t);
  }

  /** The position of the node in focus. */
  lemma Position(h: Head, k: Ctx, t: Tree, i: nat)
    requires h.Holds(k, t) && t.Fork? && Sorted(InOrder(h.tree))
    requires i < |InOrder(h.tree)| && InOrder(h.tree)[i] == t.node
    ensures i == |Before(k)| + |InOrder(t.left)|
    ensures InOrder(h.tree) == Before(k) + InOrder(t) + After(k)
  {
    PlugInOrder(k, t);
    var s, j := InOrder(h.tree), |Before(k)| + |InOrder(t.left)|;
    assert s == Before(k) + (InOrder(t.left) + [t.node] + InOrder(t.right)) + After(k);
    assert s[j] == t.node;
    assert s[i].key == s[j].key;
  }

  /** The nodes at the edges of the focus, by position. */
  lemma Edges(k: Ctx, t: Tree)
    ensures var s, a, b := InOrder(Plug(k, t)), |Before(k)|, |Before(k)| + |InOrder(t)|;
            && b <= |s|
            && (k.Top? ==> a == 0 && b == |s|)
            && (k.InRight? ==> 0 < a && s[a - 1] == k.node)
            && (k.InLeft? ==> b < |s| && s[b] == k.node)
            && (t.Fork? && t.left.Leaf? ==> a < b && s[a] == t.node)
            && (t.Fork? && t.right.Leaf? ==> a < b && s[b - 1] == t.node)
  {
    PlugInOrder(k, t);
    var s, a, b := InOrder(Plug(k, t)), Before(k), InOrder(t);
    assert s == a + b + After(k);
    assert k.InRight? ==> s[|a| - 1] == a[|a| - 1];
    assert k.InLeft? ==> s[|a| + |b|] == After(k)[0];
    assert t.Fork? && t.left.Leaf? ==> b[0] == t.node && s[|a|] == b[0];
    assert t.Fork? && t.right.Leaf? ==> b[|b| - 1] == t.node && s[|a| + |b| - 1] == b[|b| - 1];
  }

  /** The descending half of `RB_NEXT`. */
  method NextBelow(elm0: Node, ghost h: Head, ghost k0: Ctx, ghost t0: Tree) returns (elm: Node)
    requires h.Holds(k0, t0) && t0.Fork? && t0.node == elm0 && t0.right.Fork?
    ensures var i := |Before(k0)| + |InOrder(t0.left)|;
            i + 1 < |InOrder(h.tree)| && elm == InOrder(h.tree)[i + 1]
  {
    h.Look(k0, t0);
    elm := elm0.entry.right;
    ghost var k, t := InRight(k0, t0.left, t0.node, t0.color), t0.right;
    h.Refocus(k, t);
    h.Look(k, t);
    while elm.entry.left != null
      invariant h.Holds(k, t) && t.Fork? && t.node == elm && elm.entry.left == Root(t.left)
      invariant |Before(k)| == |Before(k0)| + |InOrder(t0.left)| + 1
      decreases t
    {
      elm := elm.entry.left;
      k, t := InLeft(k, t.node, t.color, t.right), t.left;
      h.Refocus(k, t);
      h.Look(k, t);
    }
    Edges(k, t);
  }

  /** The climbing half of `RB_NEXT`. */
  method NextAbove(elm0: Node, ghost h: Head, ghost k0: Ctx, ghost t0: Tree) returns (elm: Node?)
    requires h.Holds(k0, t0) && t0.Fork? && t0.node == elm0
    ensures var i := |Before(k0)| + |InOrder(t0)|;
            elm == if i < |InOrder(h.tree)| then InOrder(h.tree)[i] else null
  {
    elm := elm0;
    ghost var k, t := k0, t0;
    h.LookUp(k, t);
    if elm.entry.parent != null && elm == elm.entry.parent.entry.left {
      elm := elm.entry.parent;
    } else {
      while elm.entry.parent != null && elm == elm.entry.parent.entry.right
        invariant h.Holds(k, t) && t.Fork? && t.node == elm && elm.entry.parent == Above(k)
        invariant !k.Top? ==> (elm == k.node.entry.right <==> k.InRight?)
        invariant |Before(k)| + |InOrder(t)| == |Before(k0)| + |InOrder(t0)|
        decreases Depth(k)
      {
        h.Refocus(k, t);
        elm := elm.entry.parent;
        k, t := k.up, Fill(k, t);
        h.LookUp(k, t);
      }
      elm := elm.entry.parent;
    }
    Edges(k, t);
  }

  /** `RB_NEXT`: `i` is the position of `elm`. */
  method Next(elm0: Node, ghost h: Head, ghost i: nat) returns (elm: Node?)
    requires h.Valid() && i < |InOrder(h.tree)| && InOrder(h.tree)[i] == elm0
    ensures elm == if i + 1 < |InOrder(h.tree)| then InOrder(h.tree)[i + 1] else null
  {
    InOrderNodes(h.tree, elm0);
    ghost var k, t := h.FocusOn(elm0);
    h.Look(k, t);
    Position(h, k, t, i);
    if elm0.entry.right != null {
      elm := NextBelow(elm0, h, k, t);
    } else {
      elm := NextAbove(elm0, h, k, t);
    }
  }

  /** The descending half of `RB_PREV`. */
  method PrevBelow(elm0: Node, ghost h: Head, ghost k0: Ctx, ghost t0: Tree) returns (elm: Node)
    requires h.Holds(k0, t0) && t0.Fork? && t0.node == elm0 && t0.left.Fork?
    ensures var i := |Before(k0)| + |InOrder(t0.left)|;
            0 < i <= |InOrder(h.tree)| && elm == InOrder(h.tree)[i - 1]
  {
    h.Look(k0, t0);
    elm := elm0.entry.left;
    ghost var k, t := InLeft(k0, t0.node, t0.color, t0.right), t0.left;
    h.Refocus(k, t);
    h.Look(k, t);
    while elm.entry.right != null
      invariant h.Holds(k, t) && t.Fork? && t.node == elm && elm.entry.right == Root(t.right)
      invariant |Before(k)| + |InOrder(t)| == |Before(k0)| + |InOrder(t0.left)|
      decreases t
    {
      elm := elm.entry.right;
      k, t := InRight(k, t.left, t.node, t.color), t.right;
      h.Refocus(k, t);
      h.Look(k, t);
    }
    Edges(k, t);
  }

  /** The climbing half of `RB_PREV`. */
  method PrevAbove(elm0: Node, ghost h: Head, ghost k0: Ctx, ghost t0: Tree) returns (elm: Node?)
    requires h.Holds(k0, t0) && t0.Fork? && t0.node == elm0
    ensures var i := |Before(k0)|;
            i <= |InOrder(h.tree)| && elm == if i > 0 then InOrder(h.tree)[i - 1] else null
  {
    elm := elm0;
    ghost var k, t := k0, t0;
    h.LookUp(k, t);
    if elm.entry.parent != null && elm == elm.entry.parent.entry.right {
      elm := elm.entry.parent;
    } else {
      while elm.entry.parent != null && elm == elm.entry.parent.entry.left
        invariant h.Holds(k, t) && t.Fork? && t.node == elm && elm.entry.parent == Above(k)
        invariant !k.Top? ==> (elm == k.node.entry.left <==> k.InLeft?)
        invariant |Before(k)| == |Before(k0)|
        decreases Depth(k)
      {
        h.Refocus(k, t);
        elm := elm.entry.parent;
        k, t := k.up, Fill(k, t);
        h.LookUp(k, t);
      }
      elm := elm.entry.parent;
    }
    Edges(k, t);
  }

  /** `RB_PREV`: `i` is the position of `elm`. */
  method Prev(elm0: Node, ghost h: Head, ghost i: nat) returns (elm: Node?)
    requires h.Valid() && i < |InOrder(h.tree)| && InOrder(h.tree)[i] == elm0
    ensures elm == if i > 0 then InOrder(h.tree)[i - 1] else null
  {
    InOrderNodes(h.tree, elm0);
    ghost var k, t := h.FocusOn(elm0);
    h.Look(k, t);
    Position(h, k, t, i);
    if elm0.entry.left != null {
      elm := PrevBelow(elm0, h, k, t);
    } else {
      elm := PrevAbove(elm0, h, k, t);
    }
  }

  /** Away from the ends, `RB_NEXT` and `RB_PREV` undo each other. */
  method ThereAndBack(elm: Node, ghost h: Head, ghost i: nat)
    returns (next: Node?, back: Node?, prev: Node?, forth: Node?)
    requires h.Valid() && i < |InOrder(h.tree)| && InOrder(h.tree)[i] == elm
    ensures i + 1 < |InOrder(h.tree)| <==> next != null
    ensures i > 0 <==> prev != null
    ensures next != null ==> elm.key < next.key && back == elm
    ensures prev != null ==> prev.key < elm.key && forth == elm
  {
    back, forth := null, null;
    next := Next(elm, h, i);
    if next != null {
      back := Prev(next, h, i + 1);
    }
    prev := Prev(elm, h, i);
    if prev != null {
      forth := Next(prev, h, i - 1);
    }
  }

  /** `RB_FOREACH` with a body that collects the nodes. */
  method Foreach(h: Head) returns (visited: seq<Node>)
    requires h.Valid()
    ensures visited == InOrder(h.tree)
  {
    visited := [];
    ghost var s := InOrder(h.tree);
    var x := MinMax(h, -1);
    while x != null
      invariant |visited| <= |s| && visited == s[..|visited|]
      invariant x == if |visited| < |s| then s[|visited|] else null
      decreases |s| - |visited|
    {
      var current: Node := x;
      TakeOneMore(s, |visited|);
      visited := visited + [current];
      x := Next(current, h, |visited| - 1);
    }
  }

  /** `RB_FOREACH_REVERSE` with a body that collects the nodes at the front. */
  method ForeachReverse(h: Head) returns (visited: seq<Node>)
    requires h.Valid()
    ensures visited == InOrder(h.tree)
  {
    visited := [];
    ghost var s := InOrder(h.tree);
    var x := MinMax(h, 1);
    while x != null
      invariant |visited| <= |s| && visited == s[|s| - |visited|..]
      invariant x == if |visited| < |s| then s[|s| - |visited| - 1] else null
      decreases |s| - |visited|
    {
      var current: Node := x;
      DropOneLess(s, |s| - |visited| - 1);
      visited := [current] + visited;
      x := Prev(current, h, |s| - |visited|);
    }
  }

  /** Those of the first `i` elements of `s` that are not in `doomed`, in order. */
  ghost function Survivors(s: seq<Node>, i: nat, doomed: set<Node>): seq<Node>
    requires i <= |s|
  {
    if i == 0 then []
    else if s[i - 1] in doomed then Survivors(s, i - 1, doomed)
    else Survivors(s, i - 1, doomed) + [s[i - 1]]
  }

  lemma {:induction false} SurvivorsAre(s: seq<Node>, i: nat, doomed: set<Node>, n: Node)
    requires i <= |s|
    ensures n in Survivors(s, i, doomed) <==> n in s[..i] && n !in doomed
  {
    if i > 0 {
      SurvivorsAre(s, i - 1, doomed, n);
      assert s[..i] == s[..i - 1] + [s[i - 1]];
    }
  }

  /** The order when the first `i` nodes of `s` have been visited. */
  ghost function Remaining(s: seq<Node>, i: nat, doomed: set<Node>): seq<Node>
    requires i <= |s|
  {
    Survivors(s, i, doomed) + s[i..]
  }

  lemma RemainingEnds(s: seq<Node>, doomed: set<Node>)
    ensures Remaining(s, 0, doomed) == s && Remaining(s, |s|, doomed) == Survivors(s, |s|, doomed)
  {
  }

  /** One round: the node at position `i` of `s` is visited, and removed if doomed. */
  lemma SurvivorsStep(s: seq<Node>, i: nat, doomed: set<Node>)
    requires i < |s|
    ensures var now, next, at := Remaining(s, i, doomed), Remaining(s, i + 1, doomed),
                                 |Survivors(s, i, doomed)|;
            && at < |now| && now[at] == s[i]
            && (if i + 1 < |s| then at + 1 < |now| && now[at + 1] == s[i + 1] else at + 1 == |now|)
            && (s[i] !in doomed ==> next == now)
            && (s[i] in doomed ==> Without(now, at, s[i], next))
  {
    var v := Survivors(s, i, doomed);
    assert s[i..] == [s[i]] + s[i + 1..];
    assert v + s[i..] == v + [s[i]] + s[i + 1..];
    WithoutMiddle(v, s[i], s[i + 1..]);
  }

  /** One round of `RB_FOREACH_SAFE`: the successor is saved before the body runs,
      and the body removes the node if it is doomed. */
  method SafeRound(h: Head, x: Node, doomed: set<Node>, ghost s: seq<Node>, ghost i: nat)
    returns (y: Node?)
    requires h.Valid() && i < |s| && x == s[i]
    requires InOrder(h.tree) == Remaining(s, i, doomed)
    modifies h, h.nodes
    ensures h.Valid() && h.nodes <= old(h.nodes)
    ensures y == if i + 1 < |s| then s[i + 1] else null
    ensures InOrder(h.tree) == Remaining(s, i + 1, doomed)
  {
    ghost var at := |Survivors(s, i, doomed)|;
    SurvivorsStep(s, i, doomed);
    y := Next(x, h, at);
    if x in doomed {
      InOrderNodes(h.tree, x);
      ghost var now := InOrder(h.tree);
      var r;
      ghost var at', steps;
      r, at', steps := h.Remove(x);
      assert now[at].key == now[at'].key;
    }
  }

  /** `RB_FOREACH_SAFE` with a body that removes the nodes of `doomed`: every node of
      the initial tree is visited once, in order, whatever is removed on the way. */
  method ForeachSafe(h: Head, doomed: set<Node>) returns (visited: seq<Node>)
    requires h.Valid()
    modifies h, h.nodes
    ensures h.Valid() && visited == old(InOrder(h.tree))
    ensures InOrder(h.tree) == Survivors(old(InOrder(h.tree)), |old(InOrder(h.tree))|, doomed)
    ensures h.nodes <= old(h.nodes)
  {
    ghost var s := InOrder(h.tree);
    RemainingEnds(s, doomed);
    var x := MinMax(h, -1);
    visited := SafeRounds(h, x, doomed, s);
  }

  /** The loop of `RB_FOREACH_SAFE`. */
  method SafeRounds(h: Head, first: Node?, doomed: set<Node>, ghost s: seq<Node>) returns (visited: seq<Node>)
    requires h.Valid() && first == (if 0 < |s| then s[0] else null)
    requires InOrder(h.tree) == Remaining(s, 0, doomed)
    modifies h, h.nodes
    ensures h.Valid() && visited == s && InOrder(h.tree) == Remaining(s, |s|, doomed)
    ensures h.nodes <= old(h.nodes)
  {
    ghost var i := 0;
    visited := [];
    var x := first;
    while x != null
      invariant h.Valid() && h.nodes <= old(h.nodes)
      invariant i <= |s| && visited == s[..i] && x == if i < |s| then s[i] else null
      invariant InOrder(h.tree) == Remaining(s, i, doomed)
      decreases |s| - i
    {
      var current: Node := x;
      TakeOneMore(s, i);
      x := SafeRound(h, current, doomed, s, i);
      visited := visited + [current];
      i := i + 1;
    }
  }

  /** Removing every node on the way empties the tree. */
  method RemoveAll(h: Head, all: set<Node>)
    requires h.Valid() && all == h.nodes
    modifies h, h.nodes
    ensures h.Valid() && h.root == null && h.tree == Leaf
  {
    ghost var s := InOrder(h.tree);
    forall n | n in s
      ensures n in all
    {
      InOrderNodes(h.tree, n);
    }
    var visited := ForeachSafe(h, all);
    if h.tree.Fork? {
      InOrderNodes(h.tree, h.tree.node);
      SurvivorsAre(s, |s|, all, h.tree.node);
    }
  }
}
