/** The splay tree itself. */
module Splay {
  import opened Sequences
  import opened SplayTrees

  /** Everything on the key's side of the root lies strictly beyond the key. */
  ghost predicate SplitAt(t: Tree, x: int) {
    && t.Fork?
    && (x <= t.node.key ==> AllBelow(InOrder(t.left), x))
    && (x >= t.node.key ==> AllAbove(InOrder(t.right), x))
  }

  /** The loop may stop here: the root has the key, or there is nothing on its side. */
  ghost predicate Reached(t: Tree, x: int) {
    && t.Fork?
    && (x < t.node.key ==> t.left.Leaf?)
    && (x > t.node.key ==> t.right.Leaf?)
  }

  /** The number of nodes on the way from the root to the key, or to where it would be. */
  ghost function Levels(t: Tree, x: int): nat {
    if t.Leaf? then 0
    else 1 + if x < t.node.key then Levels(t.left, x) else if x > t.node.key then Levels(t.right, x) else 0
  }

  ghost function Length(p: Spine): nat {
    if p.End? then 0 else 1 + Length(p.rest)
  }

  /** The node is passed on that way. */
  ghost predicate OnPath(t: Tree, x: int, n: Node) {
    && t.Fork?
    && (n == t.node || (x < t.node.key && OnPath(t.left, x, n)) || (x > t.node.key && OnPath(t.right, x, n)))
  }

  /** The node is on one of the first `d` levels. */
  ghost predicate Within(t: Tree, n: Node, d: nat) {
    t.Fork? && d > 0 && (n == t.node || Within(t.left, n, d - 1) || Within(t.right, n, d - 1))
  }

  /** Every node that was passed on the way to the key is about half as deep as the key
      was, or less. */
  ghost predicate PathHalved(t: Tree, x: int, u: Tree) {
    forall n | n in Nodes(t) && OnPath(t, x, n) :: Within(u, n, Levels(t, x) / 2 + 2)
  }

  /** A node of a spine, or the root of a tree that hangs off it. */
  ghost predicate InSpine(p: Spine, n: Node) {
    p.Add? && (n == p.node || (p.tree.Fork? && n == p.tree.node) || InSpine(p.rest, n))
  }

  /** Where a node is that was passed: on a spine, still on the way, or at the top. */
  ghost predicate Passed(l: Spine, t: Tree, r: Spine, x: int, done: bool, n: Node) {
    InSpine(l, n) || InSpine(r, n) || if done then Within(t, n, 2) else OnPath(t, x, n)
  }

  /** With `n` levels to descend in all: a spine gets one node for two levels, but that
      the last one may have come with a single level, if the key is now on its other side. */
  ghost predicate Halved(l: Spine, t: Tree, r: Spine, x: int, n: nat) {
    && t.Fork?
    && 2 * Length(l) + Levels(t, x) <= n + (if x <= t.node.key then 1 else 0)
    && 2 * Length(r) + Levels(t, x) <= n + (if x >= t.node.key then 1 else 0)
  }

  /** What the loop knows about the nodes passed on the way to the key in `t0`. */
  ghost predicate Tracked(t0: Tree, l: Spine, t: Tree, r: Spine, x: int, done: bool) {
    && Halved(l, t, r, x, Levels(t0, x))
    && forall n | n in Nodes(t0) && OnPath(t0, x, n) :: Passed(l, t, r, x, done, n)
  }

  /** The two kinds of rounds: without a rotation one level, with one two. */
  lemma HalvedLeft(l: Spine, t: Tree, r: Spine, x: int, n: nat)
    requires Halved(l, t, r, x, n) && x < t.node.key && t.left.Fork?
    ensures x >= t.left.node.key ==> Halved(l, t.left, Add(r, t.node, t.right), x, n)
    ensures x < t.left.node.key ==>
              var u := TurnRight(t);
              Halved(l, u, r, x, n) && (u.left.Fork? ==> Halved(l, u.left, Add(r, u.node, u.right), x, n))
  {
    if x < t.left.node.key {
      assert Levels(t.left, x) == 1 + Levels(t.left.left, x);
      assert Levels(TurnRight(t), x) == 1 + Levels(t.left.left, x);
    }
  }

  lemma HalvedRight(l: Spine, t: Tree, r: Spine, x: int, n: nat)
    requires Halved(l, t, r, x, n) && x > t.node.key && t.right.Fork?
    ensures x <= t.right.node.key ==> Halved(Add(l, t.node, t.left), t.right, r, x, n)
    ensures x > t.right.node.key ==>
              var u := TurnLeft(t);
              Halved(l, u, r, x, n) && (u.right.Fork? ==> Halved(Add(l, u.node, u.left), u.right, r, x, n))
  {
    if x > t.right.node.key {
      assert Levels(t.right, x) == 1 + Levels(t.right.right, x);
      assert Levels(TurnLeft(t), x) == 1 + Levels(t.right.right, x);
    }
  }

  lemma PassedLeft(l: Spine, t: Tree, r: Spine, x: int, n: Node)
    requires t.Fork? && x < t.node.key && Passed(l, t, r, x, false, n)
    ensures t.left.Leaf? ==> Passed(l, t, r, x, true, n)
    ensures t.left.Fork? && x >= t.left.node.key ==> Passed(l, t.left, Add(r, t.node, t.right), x, false, n)
    ensures t.left.Fork? && x < t.left.node.key ==>
              var u := TurnRight(t);
              if u.left.Fork? then Passed(l, u.left, Add(r, u.node, u.right), x, false, n)
              else Passed(l, u, r, x, true, n)
  {
    if !InSpine(l, n) && !InSpine(r, n) {
      assert n == t.node || OnPath(t.left, x, n);
      if t.left.Fork? && x < t.left.node.key {
        var u := TurnRight(t);
        assert n == t.node || n == u.node || OnPath(u.left, x, n);
        assert n == t.node ==> Within(u.right, n, 1);
      }
    }
  }

  lemma PassedRight(l: Spine, t: Tree, r: Spine, x: int, n: Node)
    requires t.Fork? && x > t.node.key && Passed(l, t, r, x, false, n)
    ensures t.right.Leaf? ==> Passed(l, t, r, x, true, n)
    ensures t.right.Fork? && x <= t.right.node.key ==> Passed(Add(l, t.node, t.left), t.right, r, x, false, n)
    ensures t.right.Fork? && x > t.right.node.key ==>
              var u := TurnLeft(t);
              if u.right.Fork? then Passed(Add(l, u.node, u.left), u.right, r, x, false, n)
              else Passed(l, u, r, x, true, n)
  {
    if !InSpine(l, n) && !InSpine(r, n) {
      assert n == t.node || OnPath(t.right, x, n);
      if t.right.Fork? && x > t.right.node.key {
        var u := TurnLeft(t);
        assert n == t.node || n == u.node || OnPath(u.right, x, n);
        assert n == t.node ==> Within(u.left, n, 1);
      }
    }
  }

  /** A round below the root keeps track of the nodes, whether it is the last one or not. */
  lemma TrackedLeft(t0: Tree, l: Spine, t: Tree, r: Spine, x: int)
    requires t.Fork? && x < t.node.key && Tracked(t0, l, t, r, x, false)
    ensures t.left.Leaf? ==> Tracked(t0, l, t, r, x, true)
    ensures t.left.Fork? && x >= t.left.node.key ==> Tracked(t0, l, t.left, Add(r, t.node, t.right), x, false)
    ensures t.left.Fork? && x < t.left.node.key ==>
              var u := TurnRight(t);
              if u.left.Fork? then Tracked(t0, l, u.left, Add(r, u.node, u.right), x, false)
              else Tracked(t0, l, u, r, x, true)
  {
    if t.left.Fork? {
      HalvedLeft(l, t, r, x, Levels(t0, x));
    }
    forall n | n in Nodes(t0) && OnPath(t0, x, n)
      ensures t.left.Leaf? ==> Passed(l, t, r, x, true, n)
      ensures t.left.Fork? && x >= t.left.node.key ==> Passed(l, t.left, Add(r, t.node, t.right), x, false, n)
      ensures t.left.Fork? && x < t.left.node.key ==>
                var u := TurnRight(t);
                if u.left.Fork? then Passed(l, u.left, Add(r, u.node, u.right), x, false, n)
                else Passed(l, u, r, x, true, n)
    {
      PassedLeft(l, t, r, x, n);
    }
  }

  lemma TrackedRight(t0: Tree, l: Spine, t: Tree, r: Spine, x: int)
    requires t.Fork? && x > t.node.key && Tracked(t0, l, t, r, x, false)
    ensures t.right.Leaf? ==> Tracked(t0, l, t, r, x, true)
    ensures t.right.Fork? && x <= t.right.node.key ==> Tracked(t0, Add(l, t.node, t.left), t.right, r, x, false)
    ensures t.right.Fork? && x > t.right.node.key ==>
              var u := TurnLeft(t);
              if u.right.Fork? then Tracked(t0, Add(l, u.node, u.left), u.right, r, x, false)
              else Tracked(t0, l, u, r, x, true)
  {
    if t.right.Fork? {
      HalvedRight(l, t, r, x, Levels(t0, x));
    }
    forall n | n in Nodes(t0) && OnPath(t0, x, n)
      ensures t.right.Leaf? ==> Passed(l, t, r, x, true, n)
      ensures t.right.Fork? && x <= t.right.node.key ==> Passed(Add(l, t.node, t.left), t.right, r, x, false, n)
      ensures t.right.Fork? && x > t.right.node.key ==>
                var u := TurnLeft(t);
                if u.right.Fork? then Passed(Add(l, u.node, u.left), u.right, r, x, false, n)
                else Passed(l, u, r, x, true, n)
    {
      PassedRight(l, t, r, x, n);
    }
  }

  lemma TrackedStart(t: Tree, x: int)
    requires t.Fork?
    ensures Tracked(t, End, t, End, x, false)
  {
  }

  /** The key is at the root: all that was passed is on the spines, or there. */
  lemma TrackedFound(t0: Tree, l: Spine, t: Tree, r: Spine, x: int)
    requires Tracked(t0, l, t, r, x, false) && x == t.node.key
    ensures Tracked(t0, l, t, r, x, true)
  {
  }

  lemma {:induction false} WithinMore(t: Tree, n: Node, d: nat, e: nat)
    requires Within(t, n, d) && d <= e
    ensures Within(t, n, e)
  {
    if n != t.node {
      if Within(t.left, n, d - 1) {
        WithinMore(t.left, n, d - 1, e - 1);
      } else {
        WithinMore(t.right, n, d - 1, e - 1);
      }
    }
  }

  /** Hanging a tree from a spine puts it below the nodes of the spine. */
  lemma {:induction false} WithinLeftHang(p: Spine, t: Tree, n: Node, d: nat)
    requires Within(t, n, d) || (d > 0 && InSpine(p, n))
    ensures Within(LeftHang(p, t), n, Length(p) + d)
    decreases p
  {
    if p.Add? {
      var u := Fork(p.tree, p.node, t);
      if n == p.node || (p.tree.Fork? && n == p.tree.node) || Within(t, n, d) {
        WithinLeftHang(p.rest, u, n, d + 1);
      } else {
        WithinLeftHang(p.rest, u, n, d);
        WithinMore(LeftHang(p.rest, u), n, Length(p.rest) + d, Length(p) + d);
      }
    }
  }

  lemma {:induction false} WithinRightHang(p: Spine, t: Tree, n: Node, d: nat)
    requires Within(t, n, d) || (d > 0 && InSpine(p, n))
    ensures Within(RightHang(p, t), n, Length(p) + d)
    decreases p
  {
    if p.Add? {
      var u := Fork(t, p.node, p.tree);
      if n == p.node || (p.tree.Fork? && n == p.tree.node) || Within(t, n, d) {
        WithinRightHang(p.rest, u, n, d + 1);
      } else {
        WithinRightHang(p.rest, u, n, d);
        WithinMore(RightHang(p.rest, u), n, Length(p.rest) + d, Length(p) + d);
      }
    }
  }

  lemma PassedAssembled(l: Spine, t: Tree, r: Spine, x: int, n: Node, d: nat)
    requires t.Fork? && Passed(l, t, r, x, true, n) && Length(l) + 2 <= d && Length(r) + 2 <= d
    ensures Within(Assembled(l, t, r), n, d)
  {
    if InSpine(l, n) || Within(t.left, n, 1) {
      WithinLeftHang(l, t.left, n, 1);
      WithinMore(LeftHang(l, t.left), n, Length(l) + 1, d - 1);
    } else if InSpine(r, n) || Within(t.right, n, 1) {
      WithinRightHang(r, t.right, n, 1);
      WithinMore(RightHang(r, t.right), n, Length(r) + 1, d - 1);
    }
  }

  /** So the assembled tree has every node that was passed near its top. */
  lemma AssembledHalved(t0: Tree, l: Spine, t: Tree, r: Spine, x: int)
    requires Tracked(t0, l, t, r, x, true)
    ensures PathHalved(t0, x, Assembled(l, t, r))
  {
    forall n | n in Nodes(t0) && OnPath(t0, x, n)
      ensures Within(Assembled(l, t, r), n, Levels(t0, x) / 2 + 2)
    {
      PassedAssembled(l, t, r, x, n, Levels(t0, x) / 2 + 2);
    }
  }

  /** Putting the parts together where the loop stopped splits the order at the key. */
  lemma AssembledSplit(l: Spine, t: Tree, r: Spine, x: int)
    requires Reached(t, x) && Sorted(LeftOrder(l) + InOrder(t) + RightOrder(r))
    requires AllBelow(LeftOrder(l), x) && AllAbove(RightOrder(r), x)
    ensures SplitAt(Assembled(l, t, r), x)
  {
    LeftHangOrder(l, t.left);
    RightHangOrder(r, t.right);
    Regroup(LeftOrder(l), InOrder(t.left), [t.node], InOrder(t.right), RightOrder(r));
    SortedAround(LeftOrder(l) + InOrder(t.left), t.node, InOrder(t.right) + RightOrder(r));
    if x < t.node.key {
      assert LeftOrder(l) + InOrder(t.left) == LeftOrder(l);
    } else if x > t.node.key {
      assert InOrder(t.right) + RightOrder(r) == RightOrder(r);
    }
  }

  /** After `SPLAY_ASSEMBLE` the memory without the sentinel holds the tree. */
  lemma SentinelDropped(m: Memory, m': Memory, rest: Memory, l: Spine, t: Tree, r: Spine, sentinel: Node)
    requires Parts(m, l, t, r, sentinel) && t.Fork?
    requires AssembleWritten(m, m', l, t, r, sentinel) && Agree(m', rest, {sentinel})
    ensures Linked(rest, Assembled(l, t, r)) && Distinct(Assembled(l, t, r))
    ensures Nodes(Assembled(l, t, r)) == SpineNodes(l) + Nodes(t) + SpineNodes(r)
    ensures InOrder(Assembled(l, t, r)) == LeftOrder(l) + InOrder(t) + RightOrder(r)
  {
    PartsAssembled(m, m', l, t, r, sentinel);
    AssembledOrder(l, t, r);
    Untouched(m', rest, {sentinel}, Assembled(l, t, r));
  }

  /** The tree with `elm` put above the root, the order split at its key. */
  ghost function WithRoot(t: Tree, elm: Node): Tree
    requires t.Fork?
  {
    if elm.key < t.node.key then Fork(t.left, elm, Fork(Leaf, t.node, t.right))
    else Fork(Fork(t.left, t.node, Leaf), elm, t.right)
  }

  ghost function RootPosition(t: Tree, elm: Node): nat
    requires t.Fork?
  {
    |InOrder(WithRoot(t, elm).left)|
  }

  /** Every old node is on the correct side of the new root. */
  lemma WithRootOrder(t: Tree, elm: Node)
    requires SplitAt(t, elm.key) && elm.key != t.node.key && Sorted(InOrder(t))
    ensures var s, at := InOrder(t), RootPosition(t, elm);
            && at <= |s| && InOrder(WithRoot(t, elm)) == s[..at] + [elm] + s[at..]
    ensures Sorted(InOrder(WithRoot(t, elm)))
  {
    var l, r := InOrder(t.left), InOrder(t.right);
    SortedAround(l, t.node, r);
    if elm.key < t.node.key {
      PutBefore(l, elm, t.node, r);
      assert InOrder(Fork(Leaf, t.node, t.right)) == [t.node] + r;
    } else {
      assert InOrder(Fork(t.left, t.node, Leaf)) == l + [t.node];
      SortedInsert(l + [t.node], elm, r);
    }
  }

  lemma PutBefore(l: seq<Node>, elm: Node, n: Node, r: seq<Node>)
    requires Sorted(l + [n] + r) && AllBelow(l, elm.key) && elm.key < n.key && AllAbove(r, n.key)
    ensures Sorted(l + [elm] + ([n] + r))
    ensures l + [elm] + ([n] + r) == (l + [n] + r)[..|l|] + [elm] + (l + [n] + r)[|l|..]
  {
    assert l + [n] + r == l + ([n] + r);
    SortedInsert(l, elm, [n] + r);
  }

  lemma SortedInsert(a: seq<Node>, n: Node, b: seq<Node>)
    requires Sorted(a + b) && AllBelow(a, n.key) && AllAbove(b, n.key)
    ensures Sorted(a + [n] + b)
    ensures a + [n] + b == (a + b)[..|a|] + [n] + (a + b)[|a|..]
  {
    var s, u := a + b, a + [n] + b;
    assert s[..|a|] == a && s[|a|..] == b;
    forall i, j | 0 <= i < j < |u|
      ensures u[i].key < u[j].key
    {
      assert i < |a| ==> u[i] == a[i] == s[i] && u[i] in a;
      assert j < |a| ==> u[j] == s[j];
      assert i > |a| ==> u[i] == b[i - |a| - 1] == s[i - 1];
      assert j > |a| ==> u[j] == b[j - |a| - 1] == s[j - 1] && u[j] in b;
    }
  }

  /** The order without the root. */
  lemma SortedWithout(a: seq<Node>, n: Node, b: seq<Node>)
    requires Sorted(a + [n] + b)
    ensures Sorted(a) && Sorted(b) && Sorted(a + b) && AllBelow(a, n.key)
    ensures var s := a + [n] + b; s[|a|] == n && a + b == s[..|a|] + s[|a| + 1..]
  {
    SortedAround(a, n, b);
    var s := a + [n] + b;
    assert s[..|a|] == a && s[|a| + 1..] == b;
    SortedParts(a, n, b);
  }

  lemma SortedParts(a: seq<Node>, n: Node, b: seq<Node>)
    requires Sorted(a + [n] + b)
    ensures Sorted(a) && Sorted(b) && Sorted(a + b)
  {
    var s, u := a + [n] + b, a + b;
    forall i, j | 0 <= i < j < |u|
      ensures u[i].key < u[j].key
    {
      assert u[i] == s[if i < |a| then i else i + 1];
      assert u[j] == s[if j < |a| then j else j + 1];
    }
    assert forall i | 0 <= i < |a| :: u[i] == a[i];
    assert forall i | 0 <= i < |b| :: u[|a| + i] == b[i];
  }

  /** A part below the key, splayed at the key, has nothing to the right of its root. */
  lemma NothingBeyond(before: Tree, after: Tree, x: int)
    requires InOrder(before) == InOrder(after) && AllBelow(InOrder(before), x) && SplitAt(after, x)
    ensures after.right.Leaf?
  {
    assert after.node in InOrder(after);
    if after.right.Fork? {
      assert after.right.node in InOrder(after.right);
    }
  }

  /** Hanging the saved right part from the root of the splayed left part. */
  lemma Joined(m: Memory, n: Memory, n': Memory, l: Tree, r: Tree)
    requires Linked(m, r) && Distinct(r) && Linked(n, l) && Distinct(l) && l.Fork? && l.right.Leaf?
    requires Nodes(l) !! Nodes(r)
    requires Agree(n, n', {l.node}) && forall x | x in Nodes(r) && x in m :: x in n' && n'[x] == m[x]
    requires l.node in n && l.node in n' && n'[l.node] == n[l.node].(right := Root(r))
    ensures Linked(n', Fork(l.left, l.node, r)) && Distinct(Fork(l.left, l.node, r))
    ensures Nodes(Fork(l.left, l.node, r)) == Nodes(l) + Nodes(r)
  {
    Untouched(n, n', {l.node}, l.left);
    Carried(m, n', r);
  }

  /** A tree is linked wherever its nodes have the same entries. */
  lemma Carried(m: Memory, n: Memory, t: Tree)
    requires Linked(m, t) && forall x | x in Nodes(t) && x in m :: x in n && n[x] == m[x]
    ensures Linked(n, t)
  {
    var x := set k | k in m && k !in Nodes(t);
    Untouched(m, n, x, t);
  }

  lemma JoinedOrder(l: Tree, r: Tree)
    requires l.Fork? && l.right.Leaf?
    ensures InOrder(Fork(l.left, l.node, r)) == InOrder(l) + InOrder(r)
  {
    assert InOrder(l) == InOrder(l.left) + [l.node];
  }

  lemma {:induction false} LinksInside(m: Memory, t: Tree, n: Node)
    requires Linked(m, t) && n in Nodes(t)
    ensures n in m
    ensures m[n].left == null || m[n].left in Nodes(t)
    ensures m[n].right == null || m[n].right in Nodes(t)
  {
    if n in Nodes(t.left) {
      LinksInside(m, t.left, n);
    } else if n in Nodes(t.right) {
      LinksInside(m, t.right, n);
    }
  }

  lemma RootsAmong(l: Spine, t: Tree, r: Spine)
    requires t.Fork?
    ensures var s := LeftOrder(l) + InOrder(t) + RightOrder(r);
            && t.node in s && (t.left.Fork? ==> t.left.node in s) && (t.right.Fork? ==> t.right.node in s)
  {
    assert t.left.Fork? ==> t.left.node in InOrder(t.left);
    assert t.right.Fork? ==> t.right.node in InOrder(t.right);
    assert t.node in InOrder(t);
  }

  /** Keys beyond all those there are. */
  lemma {:induction false} Beyond(s: seq<Node>) returns (least: int, greatest: int)
    ensures AllAbove(s, least) && AllBelow(s, greatest)
  {
    if s == [] {
      least, greatest := 0, 0;
    } else {
      least, greatest := Beyond(s[1..]);
      if s[0].key <= least {
        least := s[0].key - 1;
      }
      if s[0].key >= greatest {
        greatest := s[0].key + 1;
      }
    }
  }

  class Head {
    var root: Node?
    ghost var tree: Tree
    ghost var nodes: set<Node>

    /** A search tree whose links are all in place. */
    ghost predicate Valid()
      reads this, nodes
    {
      && root == Root(tree) && nodes == Nodes(tree)
      && Linked(Snap(nodes), tree) && Distinct(tree) && Sorted(InOrder(tree))
    }

    /** `SPLAY_INIT`. */
    constructor ()
      ensures Valid() && tree == Leaf && fresh(nodes)
    {
      root := null;
      tree := Leaf;
      nodes := {};
    }

    /** A splay in progress: `l` and `r` hang off the sentinel, `t` off the head. */
    ghost predicate Splaying(l: Spine, t: Tree, r: Spine, sentinel: Node)
      reads this, nodes, sentinel
    {
      && sentinel !in nodes && nodes == SpineNodes(l) + Nodes(t) + SpineNodes(r)
      && t.Fork? && root == t.node && Parts(Snap(nodes + {sentinel}), l, t, r, sentinel)
    }

    /** The links around the root. */
    lemma Look(l: Spine, t: Tree, r: Spine, sentinel: Node)
      requires Splaying(l, t, r, sentinel)
      ensures t.node in nodes && t.node.entry == Entry(Root(t.left), Root(t.right))
      ensures t.left.Fork? ==>
                && t.left.node in nodes && t.left.node != t.node
                && t.left.node.entry == Entry(Root(t.left.left), Root(t.left.right))
      ensures t.right.Fork? ==>
                && t.right.node in nodes && t.right.node != t.node
                && t.right.node.entry == Entry(Root(t.right.left), Root(t.right.right))
      ensures Last(l, sentinel) in nodes + {sentinel} && Last(l, sentinel) != t.node
      ensures Last(r, sentinel) in nodes + {sentinel} && Last(r, sentinel) != t.node
      ensures Last(l, sentinel) == Last(r, sentinel) ==> l.End? && r.End?
    {
      var m := Snap(nodes + {sentinel});
      assert m[t.node] == t.node.entry;
      assert t.left.Fork? ==> Linked(m, t.left) && m[t.left.node] == t.left.node.entry;
      assert t.right.Fork? ==> Linked(m, t.right) && m[t.right.node] == t.right.node.entry;
    }

    /** `SPLAY_ROTATE_RIGHT`. */
    method RotateRight(tmp: Node, ghost l: Spine, ghost t: Tree, ghost r: Spine, ghost sentinel: Node)
      requires Splaying(l, t, r, sentinel) && t.left.Fork? && t.left.node == tmp
      modifies this`root, nodes
      ensures Splaying(l, TurnRight(t), r, sentinel)
    {
      ghost var m := Snap(nodes + {sentinel});
      Look(l, t, r, sentinel);
      root.entry := root.entry.(left := tmp.entry.right);
      tmp.entry := tmp.entry.(right := root);
      root := tmp;
      RightTurned(m, Snap(nodes + {sentinel}), l, t, r, sentinel);
    }

    /** `SPLAY_ROTATE_LEFT`. */
    method RotateLeft(tmp: Node, ghost l: Spine, ghost t: Tree, ghost r: Spine, ghost sentinel: Node)
      requires Splaying(l, t, r, sentinel) && t.right.Fork? && t.right.node == tmp
      modifies this`root, nodes
      ensures Splaying(l, TurnLeft(t), r, sentinel)
    {
      ghost var m := Snap(nodes + {sentinel});
      Look(l, t, r, sentinel);
      root.entry := root.entry.(right := tmp.entry.left);
      tmp.entry := tmp.entry.(left := root);
      root := tmp;
      LeftTurned(m, Snap(nodes + {sentinel}), l, t, r, sentinel);
    }

    /** `SPLAY_LINKLEFT`: `right` is the last node of the part of larger nodes. */
    method LinkLeft(right0: Node, ghost l: Spine, ghost t: Tree, ghost r: Spine, ghost sentinel: Node)
      returns (right: Node)
      requires Splaying(l, t, r, sentinel) && t.left.Fork? && right0 == Last(r, sentinel)
      modifies this`root, nodes, sentinel
      ensures Splaying(l, t.left, Add(r, t.node, t.right), sentinel)
      ensures right == t.node
    {
      ghost var m := Snap(nodes + {sentinel});
      Look(l, t, r, sentinel);
      right := right0;
      right.entry := right.entry.(left := root);
      right := root;
      root := root.entry.left;
      LinkedLeft(m, Snap(nodes + {sentinel}), l, t, r, sentinel);
    }

    /** `SPLAY_LINKRIGHT`: `left` is the last node of the part of smaller nodes. */
    method LinkRight(left0: Node, ghost l: Spine, ghost t: Tree, ghost r: Spine, ghost sentinel: Node)
      returns (left: Node)
      requires Splaying(l, t, r, sentinel) && t.right.Fork? && left0 == Last(l, sentinel)
      modifies this`root, nodes, sentinel
      ensures Splaying(Add(l, t.node, t.left), t.right, r, sentinel)
      ensures left == t.node
    {
      ghost var m := Snap(nodes + {sentinel});
      Look(l, t, r, sentinel);
      left := left0;
      left.entry := left.entry.(right := root);
      left := root;
      root := root.entry.right;
      LinkedRight(m, Snap(nodes + {sentinel}), l, t, r, sentinel);
    }

    /** `SPLAY_ASSEMBLE` link by link. */
    method AssembleLinks(node: Node, left: Node, right: Node)
      requires root != null && root !in {node, left, right} && (left == right ==> left == node)
      modifies root, node, left, right
      ensures left.entry.right == old(root.entry.left) && right.entry.left == old(root.entry.right)
      ensures left != node ==>
                node.entry.right == old(node.entry.right) && left.entry.left == old(left.entry.left)
      ensures right != node ==>
                node.entry.left == old(node.entry.left) && right.entry.right == old(right.entry.right)
      ensures root.entry == Entry(node.entry.right, node.entry.left)
    {
      left.entry := left.entry.(right := root.entry.left);
      right.entry := right.entry.(left := root.entry.right);
      root.entry := root.entry.(left := node.entry.right);
      root.entry := root.entry.(right := node.entry.left);
    }

    /** `SPLAY_ASSEMBLE`: afterwards the sentinel is no longer part of the tree. */
    method Assemble(node: Node, left: Node, right: Node, ghost l: Spine, ghost t: Tree, ghost r: Spine)
      requires Splaying(l, t, r, node) && left == Last(l, node) && right == Last(r, node)
      requires Sorted(LeftOrder(l) + InOrder(t) + RightOrder(r))
      modifies this`tree, nodes, node
      ensures Valid() && tree == Assembled(l, t, r)
      ensures InOrder(tree) == LeftOrder(l) + InOrder(t) + RightOrder(r)
    {
      ghost var m := Snap(nodes + {node});
      Look(l, t, r, node);
      AssembleLinks(node, left, right);
      tree := Assembled(l, t, r);
      SentinelDropped(m, Snap(nodes + {node}), Snap(nodes), l, t, r, node);
    }

    /** What the splay loop keeps: the order, and everything off the sentinel beyond
        the key on its own side. */
    ghost predicate Progress(l: Spine, t: Tree, r: Spine, s: seq<Node>, x: int) {
      && LeftOrder(l) + InOrder(t) + RightOrder(r) == s && Sorted(s)
      && AllBelow(LeftOrder(l), x) && AllAbove(RightOrder(r), x)
    }

    /** Keeping the order of the middle tree keeps the progress. */
    lemma ProgressTurned(l: Spine, t: Tree, t': Tree, r: Spine, s: seq<Node>, x: int)
      requires Progress(l, t, r, s, x) && InOrder(t') == InOrder(t)
      ensures Progress(l, t', r, s, x)
    {
    }

    /** A root beyond the key leaves with everything behind it. */
    lemma ProgressLinked(l: Spine, t: Tree, r: Spine, s: seq<Node>, x: int)
      requires Progress(l, t, r, s, x) && t.Fork?
      ensures x < t.node.key ==> Progress(l, t.left, Add(r, t.node, t.right), s, x)
      ensures t.node.key < x ==> Progress(Add(l, t.node, t.left), t.right, r, s, x)
    {
      Regroup(LeftOrder(l), InOrder(t.left), [t.node], InOrder(t.right), RightOrder(r));
      SortedAround(LeftOrder(l) + InOrder(t.left), t.node, InOrder(t.right) + RightOrder(r));
      LinkedLeftOrder(l, t, r);
      LinkedRightOrder(l, t, r);
    }

    /** One round of `SPLAY` when the key is below the root; `true` means `break`. */
    method SplayStepLeft(elm: Node, right0: Node, ghost s: seq<Node>, ghost t0: Tree,
                         ghost l: Spine, ghost t: Tree, ghost r: Spine, ghost sentinel: Node)
      returns (done: bool, right: Node, ghost t': Tree, ghost r': Spine)
      requires Splaying(l, t, r, sentinel) && right0 == Last(r, sentinel)
      requires Progress(l, t, r, s, elm.key) && elm.key < t.node.key && Tracked(t0, l, t, r, elm.key, false)
      modifies this`root, nodes, sentinel
      ensures Splaying(l, t', r', sentinel) && right == Last(r', sentinel)
      ensures Progress(l, t', r', s, elm.key) && Tracked(t0, l, t', r', elm.key, done)
      ensures if done then Reached(t', elm.key) else Size(t') < Size(t)
    {
      right, t', r' := right0, t, r;
      TrackedLeft(t0, l, t, r, elm.key);
      Look(l, t, r, sentinel);
      var tmp := root.entry.left;
      if tmp == null {
        return true, right, t', r';
      }
      if Cmp(elm, tmp) < 0 {
        RotateRight(tmp, l, t, r, sentinel);
        TurnRightInOrder(t);
        t' := TurnRight(t);
        ProgressTurned(l, t, t', r, s, elm.key);
        Look(l, t', r, sentinel);
        if root.entry.left == null {
          return true, right, t', r';
        }
      }
      right := LinkLeft(right, l, t', r, sentinel);
      ProgressLinked(l, t', r, s, elm.key);
      t', r' := t'.left, Add(r, t'.node, t'.right);
      done := false;
    }

    /** One round of `SPLAY` when the key is above the root; `true` means `break`. */
    method SplayStepRight(elm: Node, left0: Node, ghost s: seq<Node>, ghost t0: Tree,
                          ghost l: Spine, ghost t: Tree, ghost r: Spine, ghost sentinel: Node)
      returns (done: bool, left: Node, ghost t': Tree, ghost l': Spine)
      requires Splaying(l, t, r, sentinel) && left0 == Last(l, sentinel)
      requires Progress(l, t, r, s, elm.key) && t.node.key < elm.key && Tracked(t0, l, t, r, elm.key, false)
      modifies this`root, nodes, sentinel
      ensures Splaying(l', t', r, sentinel) && left == Last(l', sentinel)
      ensures Progress(l', t', r, s, elm.key) && Tracked(t0, l', t', r, elm.key, done)
      ensures if done then Reached(t', elm.key) else Size(t') < Size(t)
    {
      left, t', l' := left0, t, l;
      TrackedRight(t0, l, t, r, elm.key);
      Look(l, t, r, sentinel);
      var tmp := root.entry.right;
      if tmp == null {
        return true, left, t', l';
      }
      if Cmp(elm, tmp) > 0 {
        RotateLeft(tmp, l, t, r, sentinel);
        TurnLeftInOrder(t);
        t' := TurnLeft(t);
        ProgressTurned(l, t, t', r, s, elm.key);
        Look(l, t', r, sentinel);
        if root.entry.right == null {
          return true, left, t', l';
        }
      }
      left := LinkRight(left, l, t', r, sentinel);
      ProgressLinked(l, t', r, s, elm.key);
      t', l' := t'.right, Add(l, t'.node, t'.left);
      done := false;
    }

    /** `SPLAY`: the top-down splay of a non-empty tree. */
    method Splay(elm: Node)
      requires Valid() && root != null
      modifies this`root, this`tree, nodes
      ensures Valid() && nodes == old(nodes) && InOrder(tree) == old(InOrder(tree))
      ensures SplitAt(tree, elm.key) && PathHalved(old(tree), elm.key, tree)
    {
      ghost var s, t0 := InOrder(tree), tree;
      var node := new Node(0);
      var left, right := node, node;
      ghost var l, t, r := End, tree, End;
      StartSplaying(node);
      TrackedStart(t, elm.key);
      var comp := Cmp(elm, root);
      while comp != 0
        invariant Splaying(l, t, r, node) && Progress(l, t, r, s, elm.key) && Tracked(t0, l, t, r, elm.key, false)
        invariant left == Last(l, node) && right == Last(r, node) && comp == Cmp(elm, t.node)
        decreases Size(t)
      {
        var done;
        if comp < 0 {
          done, right, t, r := SplayStepLeft(elm, right, s, t0, l, t, r, node);
        } else {
          done, left, t, l := SplayStepRight(elm, left, s, t0, l, t, r, node);
        }
        if done {
          break;
        }
        comp := Cmp(elm, root);
      }
      if comp == 0 {
        TrackedFound(t0, l, t, r, elm.key);
      }
      AssembledHalved(t0, l, t, r, elm.key);
      Assemble(node, left, right, l, t, r);
      AssembledSplit(l, t, r, elm.key);
    }

    /** With a fresh sentinel a splay starts from the whole tree. */
    lemma StartSplaying(node: Node)
      requires Valid() && root != null && node !in nodes
      ensures Splaying(End, tree, End, node)
      ensures LeftOrder(End) + InOrder(tree) + RightOrder(End) == InOrder(tree)
    {
      Untouched(Snap(nodes), Snap(nodes + {node}), {}, tree);
    }

    /** `SPLAY_MINMAX` brings the least (`comp < 0`) or the greatest node to the root; `x`
        is beyond all keys on that side. */
    method SplayMinMax(comp: int, ghost x: int)
      requires Valid() && root != null && comp != 0
      requires if comp < 0 then AllAbove(InOrder(tree), x) else AllBelow(InOrder(tree), x)
      modifies this`root, this`tree, nodes
      ensures Valid() && nodes == old(nodes) && InOrder(tree) == old(InOrder(tree))
      ensures tree.Fork? && if comp < 0 then tree.left.Leaf? else tree.right.Leaf?
      ensures PathHalved(old(tree), x, tree)
    {
      ghost var s, t0 := InOrder(tree), tree;
      var node := new Node(0);
      var left, right := node, node;
      ghost var l, t, r := End, tree, End;
      StartSplaying(node);
      TrackedStart(t, x);
      while true
        invariant Splaying(l, t, r, node) && LeftOrder(l) + InOrder(t) + RightOrder(r) == s
        invariant Tracked(t0, l, t, r, x, false)
        invariant left == Last(l, node) && right == Last(r, node)
        invariant if comp < 0 then l.End? else r.End?
        decreases Size(t)
      {
        var done;
        if comp < 0 {
          done, right, t, r := MinStep(right, s, t0, x, l, t, r, node);
        } else {
          done, left, t, l := MaxStep(left, s, t0, x, l, t, r, node);
        }
        if done {
          break;
        }
      }
      AssembledHalved(t0, l, t, r, x);
      Assemble(node, left, right, l, t, r);
    }

    /** One round of `SPLAY_MINMAX` towards the minimum; `true` means `break`. */
    method MinStep(right0: Node, ghost s: seq<Node>, ghost t0: Tree, ghost x: int,
                   ghost l: Spine, ghost t: Tree, ghost r: Spine, ghost sentinel: Node)
      returns (done: bool, right: Node, ghost t': Tree, ghost r': Spine)
      requires Splaying(l, t, r, sentinel) && right0 == Last(r, sentinel)
      requires LeftOrder(l) + InOrder(t) + RightOrder(r) == s
      requires Tracked(t0, l, t, r, x, false) && AllAbove(s, x)
      modifies this`root, nodes, sentinel
      ensures Splaying(l, t', r', sentinel) && right == Last(r', sentinel)
      ensures LeftOrder(l) + InOrder(t') + RightOrder(r') == s
      ensures Tracked(t0, l, t', r', x, done)
      ensures if done then t'.left.Leaf? else Size(t') < Size(t)
    {
      right, t', r' := right0, t, r;
      RootsAmong(l, t, r);
      TrackedLeft(t0, l, t, r, x);
      Look(l, t, r, sentinel);
      var tmp := root.entry.left;
      if tmp == null {
        return true, right, t', r';
      }
      RotateRight(tmp, l, t, r, sentinel);
      TurnRightInOrder(t);
      t' := TurnRight(t);
      Look(l, t', r, sentinel);
      if root.entry.left == null {
        return true, right, t', r';
      }
      right := LinkLeft(right, l, t', r, sentinel);
      LinkedLeftOrder(l, t', r);
      t', r' := t'.left, Add(r, t'.node, t'.right);
      done := false;
    }

    /** One round of `SPLAY_MINMAX` towards the maximum; `true` means `break`. */
    method MaxStep(left0: Node, ghost s: seq<Node>, ghost t0: Tree, ghost x: int,
                   ghost l: Spine, ghost t: Tree, ghost r: Spine, ghost sentinel: Node)
      returns (done: bool, left: Node, ghost t': Tree, ghost l': Spine)
      requires Splaying(l, t, r, sentinel) && left0 == Last(l, sentinel)
      requires LeftOrder(l) + InOrder(t) + RightOrder(r) == s
      requires Tracked(t0, l, t, r, x, false) && AllBelow(s, x)
      modifies this`root, nodes, sentinel
      ensures Splaying(l', t', r, sentinel) && left == Last(l', sentinel)
      ensures LeftOrder(l') + InOrder(t') + RightOrder(r) == s
      ensures Tracked(t0, l', t', r, x, done)
      ensures if done then t'.right.Leaf? else Size(t') < Size(t)
    {
      left, t', l' := left0, t, l;
      RootsAmong(l, t, r);
      TrackedRight(t0, l, t, r, x);
      Look(l, t, r, sentinel);
      var tmp := root.entry.right;
      if tmp == null {
        return true, left, t', l';
      }
      RotateLeft(tmp, l, t, r, sentinel);
      TurnLeftInOrder(t);
      t' := TurnLeft(t);
      Look(l, t', r, sentinel);
      if root.entry.right == null {
        return true, left, t', l';
      }
      left := LinkRight(left, l, t', r, sentinel);
      LinkedRightOrder(l, t', r);
      t', l' := t'.right, Add(l, t'.node, t'.left);
      done := false;
    }

    /** No link leads out of the tree, so a node outside `nodes` is unreachable. */
    lemma LinksStayInside(n: Node)
      requires Valid() && n in nodes
      ensures root in nodes
      ensures n.entry.left == null || n.entry.left in nodes
      ensures n.entry.right == null || n.entry.right in nodes
    {
      LinksInside(Snap(nodes), tree, n);
      assert Snap(nodes)[n] == n.entry;
    }

    // -------------------------------------------------------- the operations

    /** The root with its two parts. */
    lemma AtRoot(x: int)
      requires Valid() && SplitAt(tree, x)
      ensures root == tree.node && root in nodes
      ensures root.entry == Entry(Root(tree.left), Root(tree.right))
      ensures x == root.key <==> exists n :: n in InOrder(tree) && n.key == x
      ensures x < root.key ==> AllBelow(InOrder(tree.left), x)
      ensures x > root.key ==> AllAbove(InOrder(tree.right), x)
    {
      assert Snap(nodes)[tree.node] == tree.node.entry;
      SortedAround(InOrder(tree.left), tree.node, InOrder(tree.right));
      assert tree.node in InOrder(tree);
    }

    /** `SPLAY_FIND`. */
    method Find(elm: Node) returns (r: Node?)
      requires Valid()
      modifies this`root, this`tree, nodes
      ensures Valid() && nodes == old(nodes) && InOrder(tree) == old(InOrder(tree))
      ensures r != null <==> exists n :: n in InOrder(tree) && n.key == elm.key
      ensures r != null ==> r in nodes && r.key == elm.key && r == root
    {
      if root == null {
        return null;
      }
      Splay(elm);
      AtRoot(elm.key);
      if Cmp(elm, root) == 0 {
        return root;
      }
      return null;
    }

    /** The entries `SPLAY_INSERT` leaves behind make `elm` the root, with the old nodes
        on their proper sides. */
    lemma Inserted(m: Memory, m': Memory, t: Tree, elm: Node)
      requires Linked(m, t) && Distinct(t) && t.Fork? && elm !in Nodes(t) && Sorted(InOrder(t))
      requires SplitAt(t, elm.key) && elm.key != t.node.key
      requires Agree(m, m', {elm, t.node}) && {elm, t.node} <= m'.Keys
      requires elm.key < t.node.key ==>
                 && m'[elm] == Entry(Root(t.left), t.node)
                 && m'[t.node] == Entry(null, Root(t.right))
      requires elm.key > t.node.key ==>
                 && m'[elm] == Entry(t.node, Root(t.right))
                 && m'[t.node] == Entry(Root(t.left), null)
      ensures var t' := WithRoot(t, elm);
              && Linked(m', t') && Distinct(t') && Nodes(t') == Nodes(t) + {elm}
    {
      Untouched(m, m', {elm, t.node}, t.left);
      Untouched(m, m', {elm, t.node}, t.right);
      assert Nodes(Fork(Leaf, t.node, t.right)) == {t.node} + Nodes(t.right);
      assert Nodes(Fork(t.left, t.node, Leaf)) == Nodes(t.left) + {t.node};
    }

    /** `SPLAY_INSERT`: `elm` becomes the root, at position `at` of the order, unless a
        node has its key already; that node is returned then. */
    method Insert(elm: Node) returns (r: Node?, ghost at: nat)
      requires Valid()
      modifies this, nodes, elm
      ensures Valid()
      ensures r == null <==> forall n | n in old(InOrder(tree)) :: n.key != elm.key
      ensures r != null ==>
                && r in nodes && r.key == elm.key
                && nodes == old(nodes) && InOrder(tree) == old(InOrder(tree))
      ensures r == null ==>
                && elm !in old(nodes) && nodes == old(nodes) + {elm} && root == elm
                && at <= |old(InOrder(tree))|
                && InOrder(tree) == old(InOrder(tree)[..at] + [elm] + InOrder(tree)[at..])
    {
      if root == null {
        at := 0;
        elm.entry := Entry(null, null);
        tree := Fork(Leaf, elm, Leaf);
        nodes := nodes + {elm};
        assert InOrder(tree) == [elm];
        root := elm;
        r := null;
      } else {
        Splay(elm);
        r, at := InsertSplayed(elm);
      }
    }

    /** The part of `SPLAY_INSERT` behind the splay. */
    method InsertSplayed(elm: Node) returns (r: Node?, ghost at: nat)
      requires Valid() && root != null && SplitAt(tree, elm.key)
      modifies this, root, elm
      ensures Valid()
      ensures r == null <==> forall n | n in old(InOrder(tree)) :: n.key != elm.key
      ensures r != null ==>
                && r in nodes && r.key == elm.key
                && nodes == old(nodes) && InOrder(tree) == old(InOrder(tree))
      ensures r == null ==>
                && elm !in old(nodes) && nodes == old(nodes) + {elm} && root == elm
                && at <= |old(InOrder(tree))|
                && InOrder(tree) == old(InOrder(tree)[..at] + [elm] + InOrder(tree)[at..])
    {
      AtRoot(elm.key);
      var comp := Cmp(elm, root);
      if comp == 0 {
        return root, 0;
      }
      assert elm !in nodes by {
        InOrderNodes(tree, elm);
      }
      at := InsertAbove(elm, comp);
      root := elm;
      r := null;
    }

    /** The splayed tree gets `elm` as its new top. */
    method InsertAbove(elm: Node, comp: int) returns (ghost at: nat)
      requires Valid() && root != null && elm !in nodes
      requires SplitAt(tree, elm.key) && comp == Cmp(elm, root) != 0
      modifies this`tree, this`nodes, root, elm
      ensures elm == Root(tree) && nodes == Nodes(tree) == old(nodes) + {elm}
      ensures Linked(Snap(nodes), tree) && Distinct(tree) && Sorted(InOrder(tree))
      ensures at <= |old(InOrder(tree))|
      ensures InOrder(tree) == old(InOrder(tree)[..at] + [elm] + InOrder(tree)[at..])
    {
      ghost var m, t := Snap(nodes), tree;
      AtRoot(elm.key);
      SplitRoot(elm, comp);
      nodes := nodes + {elm};
      Inserted(m, Snap(nodes), t, elm);
      WithRootOrder(t, elm);
      at := RootPosition(t, elm);
      tree := WithRoot(t, elm);
    }

    /** The link writes of `SPLAY_INSERT` on either side of the key. */
    method SplitRoot(elm: Node, comp: int)
      requires root != null && root != elm
      modifies root, elm
      ensures comp < 0 ==>
                && elm.entry == Entry(old(root.entry.left), root)
                && root.entry == Entry(null, old(root.entry.right))
      ensures comp >= 0 ==>
                && elm.entry == Entry(root, old(root.entry.right))
                && root.entry == Entry(old(root.entry.left), null)
    {
      if comp < 0 {
        elm.entry := elm.entry.(left := root.entry.left);
        elm.entry := elm.entry.(right := root);
        root.entry := root.entry.(left := null);
      } else {
        elm.entry := elm.entry.(right := root.entry.right);
        elm.entry := elm.entry.(left := root);
        root.entry := root.entry.(right := null);
      }
    }

    /** `SPLAY_REMOVE`: takes the node with the key of `elm` out, from position `at` of
        the order, and returns `elm` itself; NULL when there is none. */
    method Remove(elm: Node) returns (r: Node?, ghost at: nat, ghost gone: Node?)
      requires Valid()
      modifies this, nodes
      ensures Valid()
      ensures r == if gone == null then null else elm
      ensures gone == null ==>
                && (forall n | n in old(InOrder(tree)) :: n.key != elm.key)
                && nodes == old(nodes) && InOrder(tree) == old(InOrder(tree))
      ensures gone != null ==>
                && gone.key == elm.key && gone in old(nodes) && nodes == old(nodes) - {gone}
                && at < |old(InOrder(tree))| && old(InOrder(tree))[at] == gone
                && InOrder(tree) == old(InOrder(tree)[..at] + InOrder(tree)[at + 1..])
    {
      at, gone := 0, null;
      if root == null {
        return null, at, gone;
      }
      Splay(elm);
      AtRoot(elm.key);
      if Cmp(elm, root) != 0 {
        return null, at, gone;
      }
      gone, at := root, |InOrder(tree.left)|;
      SortedWithout(InOrder(tree.left), tree.node, InOrder(tree.right));
      RemoveRoot(elm);
      r := elm;
    }

    /** Without its left part the root is replaced by its right part. */
    method RemoveRoot(elm: Node)
      requires Valid() && root != null && root.key == elm.key
      modifies this, nodes
      ensures Valid() && nodes == old(nodes) - {old(root)}
      ensures InOrder(tree) == old(InOrder(tree.left)) + old(InOrder(tree.right))
    {
      ghost var m, t := Snap(nodes), tree;
      assert m[t.node] == t.node.entry;
      SortedWithout(InOrder(t.left), t.node, InOrder(t.right));
      if root.entry.left == null {
        root := root.entry.right;
        tree, nodes := t.right, Nodes(t.right);
        Untouched(m, Snap(nodes), {t.node}, t.right);
      } else {
        JoinParts(elm);
      }
    }

    /** Otherwise the left part is splayed at the key and the right part hung from its
        new root, whose right link is NULL by then. */
    method JoinParts(elm: Node)
      requires Valid() && tree.Fork? && tree.left.Fork? && root.key == elm.key
      requires root.entry == Entry(Root(tree.left), Root(tree.right))
      requires Sorted(InOrder(tree.left) + InOrder(tree.right))
      modifies this, nodes
      ensures Valid() && nodes == old(nodes) - {old(root)}
      ensures InOrder(tree) == old(InOrder(tree.left)) + old(InOrder(tree.right))
    {
      ghost var m, t := Snap(nodes), tree;
      SortedWithout(InOrder(t.left), t.node, InOrder(t.right));
      var tmp := root.entry.right;
      SplayLeftPart(elm);
      HangRight(tmp, m, t.right);
    }

    /** The right part `r`, as it is in the memory `m`, is hung from the root. */
    method HangRight(tmp: Node?, ghost m: Memory, ghost r: Tree)
      requires Valid() && tree.Fork? && tree.right.Leaf? && tmp == Root(r)
      requires Linked(m, r) && Distinct(r) && nodes !! Nodes(r) && Sorted(InOrder(tree) + InOrder(r))
      requires forall x: Node | x in Nodes(r) && x in m :: x.entry == m[x]
      modifies this, root
      ensures Valid() && nodes == old(nodes) + Nodes(r)
      ensures InOrder(tree) == old(InOrder(tree)) + InOrder(r)
    {
      ghost var n, l := Snap(nodes), tree;
      assert n[l.node] == l.node.entry;
      root.entry := root.entry.(right := tmp);
      tree, nodes := Fork(l.left, l.node, r), nodes + Nodes(r);
      Joined(m, n, Snap(nodes), l, r);
      JoinedOrder(l, r);
    }

    /** The head is moved to the left part, which is splayed at the key. */
    method SplayLeftPart(elm: Node)
      requires Valid() && tree.Fork? && tree.left.Fork? && root.key == elm.key
      requires root.entry == Entry(Root(tree.left), Root(tree.right))
      requires Sorted(InOrder(tree.left)) && AllBelow(InOrder(tree.left), elm.key)
      modifies this, Nodes(tree.left)
      ensures Valid() && tree.Fork? && tree.right.Leaf? && nodes == Nodes(old(tree.left))
      ensures InOrder(tree) == old(InOrder(tree.left))
    {
      ghost var m, t := Snap(nodes), tree;
      root := root.entry.left;
      tree, nodes := t.left, Nodes(t.left);
      Untouched(m, Snap(nodes), {t.node} + Nodes(t.right), t.left);
      Splay(elm);
      NothingBeyond(t.left, tree, elm.key);
    }
  }
}
