/** The heap nodes of a splay tree, the ghost trees and spines that describe how they
    are linked, and the facts about linking and order. */
module SplayTrees {
  import opened Sequences

  /** `SPLAY_ENTRY`: two links. */
  datatype Entry = Entry(left: Node?, right: Node?)

  /** An element: the part of the record the comparator looks at, and the embedded
      `SPLAY_ENTRY`. */
  class Node {
    const key: int
    var entry: Entry

    constructor (key: int)
      ensures this.key == key && entry == Entry(null, null)
    {
      this.key := key;
      entry := Entry(null, null);
    }
  }

  /** The three-way comparator: the tree code looks at its sign only. */
  function Cmp(a: Node, b: Node): int {
    a.key - b.key
  }

  /** The entries of a set of nodes at one moment. */
  type Memory = map<Node, Entry>

  ghost function Snap(s: set<Node>): Memory
    reads s
  {
    map n | n in s :: n.entry
  }

  /** Outside `x` the second memory still holds what the first one held. */
  ghost predicate Agree(m: Memory, m': Memory, x: set<Node>) {
    forall n | n in m && n !in x :: n in m' && m'[n] == m[n]
  }

  datatype Tree = Leaf | Fork(left: Tree, node: Node, right: Tree)

  ghost function Root(t: Tree): Node? {
    if t.Leaf? then null else t.node
  }

  ghost function Nodes(t: Tree): set<Node> {
    match t
    case Leaf => {}
    case Fork(l, n, r) => Nodes(l) + {n} + Nodes(r)
  }

  ghost function Size(t: Tree): nat {
    if t.Leaf? then 0 else Size(t.left) + 1 + Size(t.right)
  }

  ghost function InOrder(t: Tree): seq<Node> {
    match t
    case Leaf => []
    case Fork(l, n, r) => InOrder(l) + [n] + InOrder(r)
  }

  ghost predicate Distinct(t: Tree) {
    match t
    case Leaf => true
    case Fork(l, n, r) =>
      && n !in Nodes(l) && n !in Nodes(r) && Nodes(l) !! Nodes(r)
      && Distinct(l) && Distinct(r)
  }

  /** The memory realises `t`. */
  ghost predicate Linked(m: Memory, t: Tree) {
    match t
    case Leaf => true
    case Fork(l, n, r) =>
      n in m && m[n] == Entry(Root(l), Root(r)) && Linked(m, l) && Linked(m, r)
  }

  lemma {:induction false} InOrderNodes(t: Tree, n: Node)
    ensures n in Nodes(t) <==> n in InOrder(t)
  {
    match t
    case Leaf =>
    case Fork(l, _, r) =>
      InOrderNodes(l, n);
      InOrderNodes(r, n);
  }

  lemma {:induction false} Untouched(m: Memory, m': Memory, x: set<Node>, t: Tree)
    requires Linked(m, t) && Agree(m, m', x) && x !! Nodes(t)
    ensures Linked(m', t)
  {
    if t.Fork? {
      Untouched(m, m', x, t.left);
      Untouched(m, m', x, t.right);
    }
  }

  // ------------------------------------------------------------------ spines

  /** A tree under construction: nodes linked in a row from the sentinel, each with a
      finished subtree on its outer side; the node added last comes first. */
  datatype Spine = End | Add(rest: Spine, node: Node, tree: Tree)

  /** Where the next node will be linked. */
  ghost function Last(p: Spine, sentinel: Node): Node {
    if p.End? then sentinel else p.node
  }

  ghost function SpineNodes(p: Spine): set<Node> {
    if p.End? then {} else {p.node} + Nodes(p.tree) + SpineNodes(p.rest)
  }

  ghost predicate SpineDistinct(p: Spine) {
    p.End? ||
    (&& p.node !in Nodes(p.tree) && p.node !in SpineNodes(p.rest)
     && Nodes(p.tree) !! SpineNodes(p.rest)
     && Distinct(p.tree) && SpineDistinct(p.rest))
  }

  /** The memory realises the part of smaller nodes, which hangs off the right link of
      the sentinel; the right link of its last node is still free. */
  ghost predicate LeftLinked(m: Memory, p: Spine, sentinel: Node) {
    p.End? ||
    (&& p.node in m && m[p.node].left == Root(p.tree) && Linked(m, p.tree)
     && Last(p.rest, sentinel) in m && m[Last(p.rest, sentinel)].right == p.node
     && LeftLinked(m, p.rest, sentinel))
  }

  /** Its mirror image: the part of larger nodes off the left link of the sentinel. */
  ghost predicate RightLinked(m: Memory, p: Spine, sentinel: Node) {
    p.End? ||
    (&& p.node in m && m[p.node].right == Root(p.tree) && Linked(m, p.tree)
     && Last(p.rest, sentinel) in m && m[Last(p.rest, sentinel)].left == p.node
     && RightLinked(m, p.rest, sentinel))
  }

  ghost function LeftOrder(p: Spine): seq<Node> {
    if p.End? then [] else LeftOrder(p.rest) + InOrder(p.tree) + [p.node]
  }

  ghost function RightOrder(p: Spine): seq<Node> {
    if p.End? then [] else [p.node] + InOrder(p.tree) + RightOrder(p.rest)
  }

  /** Finishing a spine by hanging `t` from its last node. */
  ghost function LeftHang(p: Spine, t: Tree): Tree {
    if p.End? then t else LeftHang(p.rest, Fork(p.tree, p.node, t))
  }

  ghost function RightHang(p: Spine, t: Tree): Tree {
    if p.End? then t else RightHang(p.rest, Fork(t, p.node, p.tree))
  }

  lemma {:induction false} LeftUntouched(m: Memory, m': Memory, x: set<Node>, p: Spine, sentinel: Node)
    requires LeftLinked(m, p, sentinel) && Agree(m, m', x) && x !! SpineNodes(p)
    requires p.Add? ==> sentinel in m && sentinel in m' && m'[sentinel].right == m[sentinel].right
    ensures LeftLinked(m', p, sentinel)
  {
    if p.Add? {
      Untouched(m, m', x, p.tree);
      LeftUntouched(m, m', x, p.rest, sentinel);
    }
  }

  lemma {:induction false} RightUntouched(m: Memory, m': Memory, x: set<Node>, p: Spine, sentinel: Node)
    requires RightLinked(m, p, sentinel) && Agree(m, m', x) && x !! SpineNodes(p)
    requires p.Add? ==> sentinel in m && sentinel in m' && m'[sentinel].left == m[sentinel].left
    ensures RightLinked(m', p, sentinel)
  {
    if p.Add? {
      Untouched(m, m', x, p.tree);
      RightUntouched(m, m', x, p.rest, sentinel);
    }
  }

  /** Writing the free link of the last node disturbs nothing else. */
  lemma LeftExtended(m: Memory, m': Memory, x: set<Node>, p: Spine, sentinel: Node)
    requires LeftLinked(m, p, sentinel) && SpineDistinct(p) && sentinel !in SpineNodes(p)
    requires Agree(m, m', x) && x * SpineNodes(p) <= {Last(p, sentinel)}
    requires sentinel in m && sentinel in m' && (p.Add? ==> m'[sentinel].right == m[sentinel].right)
    requires Last(p, sentinel) in m && Last(p, sentinel) in m'
    requires m'[Last(p, sentinel)].left == m[Last(p, sentinel)].left
    ensures LeftLinked(m', p, sentinel)
  {
    if p.Add? {
      Untouched(m, m', x, p.tree);
      LeftUntouched(m, m', x, p.rest, sentinel);
    }
  }

  lemma RightExtended(m: Memory, m': Memory, x: set<Node>, p: Spine, sentinel: Node)
    requires RightLinked(m, p, sentinel) && SpineDistinct(p) && sentinel !in SpineNodes(p)
    requires Agree(m, m', x) && x * SpineNodes(p) <= {Last(p, sentinel)}
    requires sentinel in m && sentinel in m' && (p.Add? ==> m'[sentinel].left == m[sentinel].left)
    requires Last(p, sentinel) in m && Last(p, sentinel) in m'
    requires m'[Last(p, sentinel)].right == m[Last(p, sentinel)].right
    ensures RightLinked(m', p, sentinel)
  {
    if p.Add? {
      Untouched(m, m', x, p.tree);
      RightUntouched(m, m', x, p.rest, sentinel);
    }
  }

  /** Once the last node is linked to `t`, the sentinel holds the finished tree. */
  lemma {:induction false} LeftFinished(m: Memory, p: Spine, sentinel: Node, t: Tree)
    requires LeftLinked(m, p, sentinel) && Linked(m, t)
    requires Last(p, sentinel) in m && m[Last(p, sentinel)].right == Root(t)
    ensures Linked(m, LeftHang(p, t))
    ensures sentinel in m && m[sentinel].right == Root(LeftHang(p, t))
    ensures Nodes(LeftHang(p, t)) == SpineNodes(p) + Nodes(t)
    ensures SpineDistinct(p) && Distinct(t) && SpineNodes(p) !! Nodes(t) ==> Distinct(LeftHang(p, t))
    decreases p
  {
    if p.Add? {
      LeftFinished(m, p.rest, sentinel, Fork(p.tree, p.node, t));
    }
  }

  lemma {:induction false} RightFinished(m: Memory, p: Spine, sentinel: Node, t: Tree)
    requires RightLinked(m, p, sentinel) && Linked(m, t)
    requires Last(p, sentinel) in m && m[Last(p, sentinel)].left == Root(t)
    ensures Linked(m, RightHang(p, t))
    ensures sentinel in m && m[sentinel].left == Root(RightHang(p, t))
    ensures Nodes(RightHang(p, t)) == SpineNodes(p) + Nodes(t)
    ensures SpineDistinct(p) && Distinct(t) && SpineNodes(p) !! Nodes(t) ==> Distinct(RightHang(p, t))
    decreases p
  {
    if p.Add? {
      RightFinished(m, p.rest, sentinel, Fork(t, p.node, p.tree));
    }
  }

  // --------------------------------------------------------------- the order

  lemma {:induction false} LeftHangOrder(p: Spine, t: Tree)
    ensures InOrder(LeftHang(p, t)) == LeftOrder(p) + InOrder(t)
    decreases p
  {
    if p.Add? {
      LeftHangOrder(p.rest, Fork(p.tree, p.node, t));
    }
  }

  lemma {:induction false} RightHangOrder(p: Spine, t: Tree)
    ensures InOrder(RightHang(p, t)) == InOrder(t) + RightOrder(p)
    decreases p
  {
    if p.Add? {
      RightHangOrder(p.rest, Fork(t, p.node, p.tree));
    }
  }

  ghost predicate Sorted(s: seq<Node>) {
    forall i, j | 0 <= i < j < |s| :: s[i].key < s[j].key
  }

  ghost predicate AllBelow(s: seq<Node>, x: int) {
    forall n | n in s :: n.key < x
  }

  ghost predicate AllAbove(s: seq<Node>, x: int) {
    forall n | n in s :: x < n.key
  }

  lemma SortedAround(a: seq<Node>, n: Node, b: seq<Node>)
    requires Sorted(a + [n] + b)
    ensures AllBelow(a, n.key) && AllAbove(b, n.key) && Sorted(a) && Sorted(b)
  {
    var s := a + [n] + b;
    assert s[|a|] == n;
    assert forall i | 0 <= i < |a| :: s[i] == a[i];
    assert forall i | 0 <= i < |b| :: s[|a| + 1 + i] == b[i];
  }

  // ----------------------------------------------------- the top-down splay

  /** The three trees of a splay in progress: `l` and `r` hang off the sentinel, `t`
      off the head. */
  ghost predicate Parts(m: Memory, l: Spine, t: Tree, r: Spine, sentinel: Node) {
    && sentinel in m && sentinel !in SpineNodes(l) + Nodes(t) + SpineNodes(r)
    && LeftLinked(m, l, sentinel) && Linked(m, t) && RightLinked(m, r, sentinel)
    && SpineDistinct(l) && Distinct(t) && SpineDistinct(r)
    && SpineNodes(l) !! Nodes(t) && SpineNodes(r) !! Nodes(t) && SpineNodes(l) !! SpineNodes(r)
  }

  ghost function TurnRight(t: Tree): Tree
    requires t.Fork? && t.left.Fork?
  {
    Fork(t.left.left, t.left.node, Fork(t.left.right, t.node, t.right))
  }

  ghost function TurnLeft(t: Tree): Tree
    requires t.Fork? && t.right.Fork?
  {
    Fork(Fork(t.left, t.node, t.right.left), t.right.node, t.right.right)
  }

  lemma TurnLeftInOrder(t: Tree)
    requires t.Fork? && t.right.Fork?
    ensures InOrder(TurnLeft(t)) == InOrder(t)
  {
    Reassociate(InOrder(t.left), [t.node], InOrder(t.right.left), [t.right.node], InOrder(t.right.right));
  }

  lemma TurnRightInOrder(t: Tree)
    requires t.Fork? && t.left.Fork?
    ensures InOrder(TurnRight(t)) == InOrder(t)
  {
    Reassociate(InOrder(t.left.left), [t.left.node], InOrder(t.left.right), [t.node], InOrder(t.right));
  }

  lemma OtherPartsUntouched(m: Memory, m': Memory, x: set<Node>, l: Spine, t: Tree, r: Spine, sentinel: Node)
    requires Parts(m, l, t, r, sentinel) && Agree(m, m', x) && x <= Nodes(t)
    ensures sentinel in m' && LeftLinked(m', l, sentinel) && RightLinked(m', r, sentinel)
  {
    LeftUntouched(m, m', x, l, sentinel);
    RightUntouched(m, m', x, r, sentinel);
  }

  lemma RightTurned(m: Memory, m': Memory, l: Spine, t: Tree, r: Spine, sentinel: Node)
    requires Parts(m, l, t, r, sentinel) && t.Fork? && t.left.Fork?
    requires Agree(m, m', {t.node, t.left.node})
    requires t.node in m' && m'[t.node] == Entry(Root(t.left.right), Root(t.right))
    requires t.left.node in m' && m'[t.left.node] == Entry(Root(t.left.left), t.node)
    ensures Parts(m', l, TurnRight(t), r, sentinel) && Nodes(TurnRight(t)) == Nodes(t)
  {
    var x := {t.node, t.left.node};
    assert Linked(m, t.left) && Distinct(t.left);
    Untouched(m, m', x, t.left.left);
    Untouched(m, m', x, t.left.right);
    Untouched(m, m', x, t.right);
    OtherPartsUntouched(m, m', x, l, t, r, sentinel);
  }

  lemma LeftTurned(m: Memory, m': Memory, l: Spine, t: Tree, r: Spine, sentinel: Node)
    requires Parts(m, l, t, r, sentinel) && t.Fork? && t.right.Fork?
    requires Agree(m, m', {t.node, t.right.node})
    requires t.node in m' && m'[t.node] == Entry(Root(t.left), Root(t.right.left))
    requires t.right.node in m' && m'[t.right.node] == Entry(t.node, Root(t.right.right))
    ensures Parts(m', l, TurnLeft(t), r, sentinel) && Nodes(TurnLeft(t)) == Nodes(t)
  {
    var x := {t.node, t.right.node};
    assert Linked(m, t.right) && Distinct(t.right);
    Untouched(m, m', x, t.right.right);
    Untouched(m, m', x, t.right.left);
    Untouched(m, m', x, t.left);
    OtherPartsUntouched(m, m', x, l, t, r, sentinel);
  }

  /** The root and its right subtree move to the part of larger nodes. */
  lemma LinkedLeft(m: Memory, m': Memory, l: Spine, t: Tree, r: Spine, sentinel: Node)
    requires Parts(m, l, t, r, sentinel) && t.Fork?
    requires Last(r, sentinel) in m && Agree(m, m', {Last(r, sentinel)})
    requires Last(r, sentinel) in m' && m'[Last(r, sentinel)] == m[Last(r, sentinel)].(left := t.node)
    ensures Parts(m', l, t.left, Add(r, t.node, t.right), sentinel)
  {
    var x := {Last(r, sentinel)};
    Untouched(m, m', x, t.left);
    Untouched(m, m', x, t.right);
    LeftUntouched(m, m', x, l, sentinel);
    RightExtended(m, m', x, r, sentinel);
  }

  /** The root and its left subtree move to the part of smaller nodes. */
  lemma LinkedRight(m: Memory, m': Memory, l: Spine, t: Tree, r: Spine, sentinel: Node)
    requires Parts(m, l, t, r, sentinel) && t.Fork?
    requires Last(l, sentinel) in m && Agree(m, m', {Last(l, sentinel)})
    requires Last(l, sentinel) in m' && m'[Last(l, sentinel)] == m[Last(l, sentinel)].(right := t.node)
    ensures Parts(m', Add(l, t.node, t.left), t.right, r, sentinel)
  {
    var x := {Last(l, sentinel)};
    Untouched(m, m', x, t.left);
    Untouched(m, m', x, t.right);
    RightUntouched(m, m', x, r, sentinel);
    LeftExtended(m, m', x, l, sentinel);
  }

  /** The tree put together from the three parts. */
  ghost function Assembled(l: Spine, t: Tree, r: Spine): Tree
    requires t.Fork?
  {
    Fork(LeftHang(l, t.left), t.node, RightHang(r, t.right))
  }

  lemma AssembledOrder(l: Spine, t: Tree, r: Spine)
    requires t.Fork?
    ensures InOrder(Assembled(l, t, r)) == LeftOrder(l) + InOrder(t) + RightOrder(r)
  {
    LeftHangOrder(l, t.left);
    RightHangOrder(r, t.right);
  }

  /** The links `SPLAY_ASSEMBLE` writes, and nothing else, have their new values. */
  ghost predicate AssembleWritten(m: Memory, m': Memory, l: Spine, t: Tree, r: Spine, sentinel: Node)
    requires t.Fork?
  {
    var last, first := Last(l, sentinel), Last(r, sentinel);
    && Agree(m, m', {t.node, sentinel, last, first})
    && {sentinel, last, first} <= m.Keys && {sentinel, last, first, t.node} <= m'.Keys
    && (l.Add? ==> m'[sentinel].right == m[sentinel].right && m'[last].left == m[last].left)
    && (r.Add? ==> m'[sentinel].left == m[sentinel].left && m'[first].right == m[first].right)
    && m'[last].right == Root(t.left) && m'[first].left == Root(t.right)
    && m'[t.node] == Entry(m'[sentinel].right, m'[sentinel].left)
  }

  /** After `SPLAY_ASSEMBLE` the parts form one tree. */
  lemma PartsAssembled(m: Memory, m': Memory, l: Spine, t: Tree, r: Spine, sentinel: Node)
    requires Parts(m, l, t, r, sentinel) && t.Fork?
    requires AssembleWritten(m, m', l, t, r, sentinel)
    ensures Linked(m', Assembled(l, t, r)) && Distinct(Assembled(l, t, r))
    ensures Nodes(Assembled(l, t, r)) == SpineNodes(l) + Nodes(t) + SpineNodes(r)
  {
    var x := {t.node, sentinel, Last(l, sentinel), Last(r, sentinel)};
    Untouched(m, m', x, t.left);
    Untouched(m, m', x, t.right);
    if l.Add? {
      LeftExtended(m, m', x, l, sentinel);
    }
    if r.Add? {
      RightExtended(m, m', x, r, sentinel);
    }
    PartsFinished(m', l, t, r, sentinel);
  }

  lemma PartsFinished(m: Memory, l: Spine, t: Tree, r: Spine, sentinel: Node)
    requires t.Fork? && LeftLinked(m, l, sentinel) && RightLinked(m, r, sentinel)
    requires Linked(m, t.left) && Linked(m, t.right)
    requires SpineDistinct(l) && Distinct(t) && SpineDistinct(r)
    requires SpineNodes(l) !! Nodes(t) && SpineNodes(r) !! Nodes(t) && SpineNodes(l) !! SpineNodes(r)
    requires Last(l, sentinel) in m && m[Last(l, sentinel)].right == Root(t.left)
    requires Last(r, sentinel) in m && m[Last(r, sentinel)].left == Root(t.right)
    requires sentinel in m && t.node in m && m[t.node] == Entry(m[sentinel].right, m[sentinel].left)
    ensures Linked(m, Assembled(l, t, r)) && Distinct(Assembled(l, t, r))
    ensures Nodes(Assembled(l, t, r)) == SpineNodes(l) + Nodes(t) + SpineNodes(r)
  {
    LeftFinished(m, l, sentinel, t.left);
    RightFinished(m, r, sentinel, t.right);
  }

  /** The two link macros keep the order of the three parts. */
  lemma LinkedLeftOrder(l: Spine, t: Tree, r: Spine)
    requires t.Fork?
    ensures LeftOrder(l) + InOrder(t.left) + RightOrder(Add(r, t.node, t.right))
         == LeftOrder(l) + InOrder(t) + RightOrder(r)
  {
    MoveOver(LeftOrder(l), InOrder(t.left), [t.node], InOrder(t.right), RightOrder(r));
  }

  lemma LinkedRightOrder(l: Spine, t: Tree, r: Spine)
    requires t.Fork?
    ensures LeftOrder(Add(l, t.node, t.left)) + InOrder(t.right) + RightOrder(r)
         == LeftOrder(l) + InOrder(t) + RightOrder(r)
  {
    MoveOver(LeftOrder(l), InOrder(t.left), [t.node], InOrder(t.right), RightOrder(r));
  }
}
