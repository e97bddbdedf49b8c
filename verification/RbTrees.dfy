/** The heap nodes of a red-black tree, the ghost trees and contexts that
    describe how they are linked, and the facts about linking. */
module RbTrees {
  import opened Sequences

  datatype Color = Red | Black

  /** `RB_ENTRY`: three links and the color. */
  datatype Entry = Entry(left: Node?, right: Node?, parent: Node?, color: Color)

  /** An element: the part of the record the comparator looks at, and the
      embedded `RB_ENTRY`. */
  class Node {
    const key: int
    var entry: Entry

    constructor (key: int)
      ensures this.key == key
    {
      this.key := key;
      entry := Entry(null, null, null, Black);
    }
  }

  /** The three-way comparator: the tree code looks at its sign only. */
  function Cmp(a: Node, b: Node): int {
    a.key - b.key
  }

  /** The entries of a set of nodes at one moment. */
  type Memory = map<Node, Entry>

  ghost function Snap(s: set<Node>): Memory
    reads s
  {
    map n | n in s :: n.entry
  }

  /** Outside `x` the second memory still holds what the first one held. */
  ghost predicate Agree(m: Memory, m': Memory, x: set<Node?>) {
    forall n | n in m && n !in x :: n in m' && m'[n] == m[n]
  }

  datatype Tree = Leaf | Fork(left: Tree, node: Node, color: Color, right: Tree)

  /** A tree with a hole; the frame next to the hole comes first. */
  datatype Ctx =
    | Top
    | InLeft(up: Ctx, node: Node, color: Color, sibling: Tree)
    | InRight(up: Ctx, sibling: Tree, node: Node, color: Color)

  ghost function Root(t: Tree): Node? {
    if t.Leaf? then null else t.node
  }

  ghost function Nodes(t: Tree): set<Node> {
    match t
    case Leaf => {}
    case Fork(l, n, _, r) => Nodes(l) + {n} + Nodes(r)
  }

  ghost predicate Distinct(t: Tree) {
    match t
    case Leaf => true
    case Fork(l, n, _, r) =>
      && n !in Nodes(l) && n !in Nodes(r) && Nodes(l) !! Nodes(r)
      && Distinct(l) && Distinct(r)
  }

  /** The memory realises `t`, hanging below `p`. */
  ghost predicate Linked(m: Memory, t: Tree, p: Node?) {
    match t
    case Leaf => true
    case Fork(l, n, c, r) =>
      n in m && m[n] == Entry(Root(l), Root(r), p, c) && Linked(m, l, n) && Linked(m, r, n)
  }

  // ---------------------------------------------------------------- contexts

  ghost function Plug(k: Ctx, t: Tree): Tree {
    match k
    case Top => t
    case InLeft(up, n, c, r) => Plug(up, Fork(t, n, c, r))
    case InRight(up, l, n, c) => Plug(up, Fork(l, n, c, t))
  }

  /** Plugging the innermost frame only. */
  ghost function Fill(k: Ctx, t: Tree): Tree
    requires !k.Top?
  {
    match k
    case InLeft(_, n, c, r) => Fork(t, n, c, r)
    case InRight(_, l, n, c) => Fork(l, n, c, t)
  }

  /** The context of the sibling of the hole, `t` being in the hole. */
  ghost function Across(k: Ctx, t: Tree): Ctx
    requires !k.Top?
  {
    match k
    case InLeft(up, n, c, _) => InRight(up, t, n, c)
    case InRight(up, _, n, c) => InLeft(up, n, c, t)
  }

  /** `k` with the innermost frame painted `c`. */
  ghost function Tint(k: Ctx, c: Color): (r: Ctx)
    requires !k.Top?
    ensures !r.Top?
  {
    match k
    case InLeft(up, n, _, r) => InLeft(up, n, c, r)
    case InRight(up, l, n, _) => InRight(up, l, n, c)
  }

  /** `k` with another sibling of the hole. */
  ghost function Beside(k: Ctx, s: Tree): (r: Ctx)
    requires !k.Top?
    ensures !r.Top?
  {
    match k
    case InLeft(up, n, c, _) => InLeft(up, n, c, s)
    case InRight(up, _, n, c) => InRight(up, s, n, c)
  }

  ghost function Above(k: Ctx): Node? {
    if k.Top? then null else k.node
  }

  ghost function Depth(k: Ctx): nat {
    if k.Top? then 0 else 1 + Depth(k.up)
  }

  ghost function CtxRoot(k: Ctx, hole: Node?): Node? {
    if k.Top? then hole else CtxRoot(k.up, k.node)
  }

  ghost function CtxNodes(k: Ctx): set<Node> {
    if k.Top? then {} else {k.node} + Nodes(k.sibling) + CtxNodes(k.up)
  }

  ghost predicate CtxDistinct(k: Ctx) {
    k.Top? ||
    (&& k.node !in Nodes(k.sibling) && k.node !in CtxNodes(k.up)
     && Nodes(k.sibling) !! CtxNodes(k.up)
     && Distinct(k.sibling) && CtxDistinct(k.up))
  }

  /** The entry of the innermost frame when `hole` hangs in the hole. */
  ghost function Frame(k: Ctx, hole: Node?): Entry
    requires !k.Top?
  {
    match k
    case InLeft(up, _, c, r) => Entry(hole, Root(r), Above(up), c)
    case InRight(up, l, _, c) => Entry(Root(l), hole, Above(up), c)
  }

  ghost predicate CtxLinked(m: Memory, k: Ctx, hole: Node?) {
    k.Top? ||
    (&& k.node in m && m[k.node] == Frame(k, hole)
     && Linked(m, k.sibling, k.node) && CtxLinked(m, k.up, k.node))
  }

  /** The memory realises `t` in the hole of `k`, all nodes being different. */
  ghost predicate Zipped(m: Memory, k: Ctx, t: Tree) {
    && CtxLinked(m, k, Root(t)) && Linked(m, t, Above(k))
    && Distinct(t) && CtxDistinct(k) && CtxNodes(k) !! Nodes(t)
  }

  /** Splitting the heap at a hole loses nothing and invents nothing. */
  lemma {:induction false} Focus(m: Memory, k: Ctx, t: Tree)
    ensures Linked(m, Plug(k, t), null) && Distinct(Plug(k, t)) <==> Zipped(m, k, t)
    ensures Nodes(Plug(k, t)) == CtxNodes(k) + Nodes(t)
    ensures Root(Plug(k, t)) == CtxRoot(k, Root(t))
    decreases k
  {
    match k
    case Top =>
    case InLeft(up, n, c, r) => Focus(m, up, Fork(t, n, c, r));
    case InRight(up, l, n, c) => Focus(m, up, Fork(l, n, c, t));
  }

  lemma {:induction false} PlugFork(k: Ctx, t: Tree)
    requires t.Fork?
    ensures Plug(k, t).Fork?
    decreases k
  {
    if !k.Top? {
      PlugFork(k.up, Fill(k, t));
    }
  }

  lemma {:induction false} RootAbove(k: Ctx, hole: Node?)
    requires !k.Top?
    ensures CtxRoot(k, hole) in CtxNodes(k)
  {
    if !k.up.Top? {
      RootAbove(k.up, k.node);
    }
  }

  // ------------------------------------------------------- what writes keep

  lemma {:induction false} Untouched(m: Memory, m': Memory, x: set<Node?>, t: Tree, p: Node?)
    requires Linked(m, t, p) && Agree(m, m', x)
    requires forall n | n in Nodes(t) :: n !in x
    ensures Linked(m', t, p)
  {
    if t.Fork? {
      Untouched(m, m', x, t.left, t.node);
      Untouched(m, m', x, t.right, t.node);
    }
  }

  lemma {:induction false} CtxUntouched(m: Memory, m': Memory, x: set<Node?>, k: Ctx, hole: Node?)
    requires CtxLinked(m, k, hole) && Agree(m, m', x)
    requires forall n | n in CtxNodes(k) :: n !in x
    ensures CtxLinked(m', k, hole)
  {
    if !k.Top? {
      Untouched(m, m', x, k.sibling, k.node);
      CtxUntouched(m, m', x, k.up, k.node);
    }
  }

  /** Overwriting the parent link of its root re-hangs a tree. */
  lemma {:induction false} Reparented(m: Memory, m': Memory, x: set<Node?>, t: Tree, p: Node?, q: Node?)
    requires Distinct(t) && Linked(m, t, p) && Agree(m, m', x)
    requires forall n | n in Nodes(t) && n != Root(t) :: n !in x
    requires t.Fork? ==> t.node in m' && m'[t.node] == m[t.node].(parent := q)
    ensures Linked(m', t, q)
  {
    if t.Fork? {
      Untouched(m, m', x, t.left, t.node);
      Untouched(m, m', x, t.right, t.node);
    }
  }

  /** Overwriting one child link of the innermost frame refills the hole. */
  lemma {:induction false} Refilled(m: Memory, m': Memory, x: set<Node?>, k: Ctx, was: Node?, now: Node?)
    requires CtxDistinct(k) && CtxLinked(m, k, was) && Agree(m, m', x)
    requires forall n | n in CtxNodes(k) && n != Above(k) :: n !in x
    requires !k.Top? ==> k.node in m' && m'[k.node] == Frame(k, now)
    ensures CtxLinked(m', k, now)
  {
    if !k.Top? {
      Untouched(m, m', x, k.sibling, k.node);
      CtxUntouched(m, m', x, k.up, k.node);
    }
  }

  // --------------------------------------------------------------- rotations

  ghost function TurnLeft(t: Tree): Tree
    requires t.Fork? && t.right.Fork?
  {
    t.right.(left := t.(right := t.right.left))
  }

  ghost function TurnRight(t: Tree): Tree
    requires t.Fork? && t.left.Fork?
  {
    t.left.(right := t.(left := t.left.right))
  }

  /** Two levels of a tree in its context, unfolded: where the nodes hang. */
  lemma OpenRight(m: Memory, k: Ctx, t: Tree)
    requires Zipped(m, k, t) && t.Fork? && t.right.Fork?
    ensures t.node in m && m[t.node] == Entry(Root(t.left), t.right.node, Above(k), t.color)
    ensures t.right.node in m
    ensures m[t.right.node]
         == Entry(Root(t.right.left), Root(t.right.right), t.node, t.right.color)
    ensures t.right.left.Fork? ==> t.right.left.node in m
    ensures !k.Top? ==> k.node in m && m[k.node] == Frame(k, t.node)
    ensures k.InRight? ==> Root(k.sibling) != t.node
    ensures t.right.node !in {t.node, Root(t.right.left), Above(k)}
    ensures t.node !in {Root(t.right.left), Above(k)}
    ensures !k.Top? ==> Above(k) != Root(t.right.left)
  {
    assert Linked(m, t.right, t.node) && Distinct(t.right);
    assert Linked(m, t.right.left, t.right.node);
  }

  /** The four entries a left rotation writes, and nothing else, have their new values. */
  ghost predicate LeftTurnWritten(m: Memory, m': Memory, k: Ctx, t: Tree)
    requires t.Fork? && t.right.Fork?
  {
    var b := t.right.left;
    && Agree(m, m', {Above(k), t.node, t.right.node, Root(b)})
    && t.node in m' && m'[t.node] == Entry(Root(t.left), Root(b), t.right.node, t.color)
    && t.right.node in m'
    && m'[t.right.node] == Entry(t.node, Root(t.right.right), Above(k), t.right.color)
    && (b.Fork? ==> b.node in m && b.node in m' && m'[b.node] == m[b.node].(parent := t.node))
    && (!k.Top? ==> k.node in m' && m'[k.node] == Frame(k, t.right.node))
  }

  lemma LeftTurned(m: Memory, m': Memory, k: Ctx, t: Tree)
    requires Zipped(m, k, t) && t.Fork? && t.right.Fork?
    requires LeftTurnWritten(m, m', k, t)
    ensures Zipped(m', k, TurnLeft(t)) && Nodes(TurnLeft(t)) == Nodes(t)
  {
    assert Linked(m, t.right, t.node) && Distinct(t.right);
    var x := {Above(k), t.node, t.right.node, Root(t.right.left)};
    Untouched(m, m', x, t.left, t.node);
    Reparented(m, m', x, t.right.left, t.right.node, t.node);
    Untouched(m, m', x, t.right.right, t.right.node);
    Refilled(m, m', x, k, t.node, t.right.node);
  }

  /** The mirror image of `OpenRight`. */
  lemma OpenLeft(m: Memory, k: Ctx, t: Tree)
    requires Zipped(m, k, t) && t.Fork? && t.left.Fork?
    ensures t.node in m && m[t.node] == Entry(t.left.node, Root(t.right), Above(k), t.color)
    ensures t.left.node in m
    ensures m[t.left.node]
         == Entry(Root(t.left.left), Root(t.left.right), t.node, t.left.color)
    ensures t.left.right.Fork? ==> t.left.right.node in m
    ensures !k.Top? ==> k.node in m && m[k.node] == Frame(k, t.node)
    ensures k.InRight? ==> Root(k.sibling) != t.node
    ensures t.left.node !in {t.node, Root(t.left.right), Above(k)}
    ensures t.node !in {Root(t.left.right), Above(k)}
    ensures !k.Top? ==> Above(k) != Root(t.left.right)
  {
    assert Linked(m, t.left, t.node) && Distinct(t.left);
    assert Linked(m, t.left.right, t.left.node);
  }

  /** The four entries a right rotation writes, and nothing else, have their new values. */
  ghost predicate RightTurnWritten(m: Memory, m': Memory, k: Ctx, t: Tree)
    requires t.Fork? && t.left.Fork?
  {
    var b := t.left.right;
    && Agree(m, m', {Above(k), t.node, t.left.node, Root(b)})
    && t.node in m' && m'[t.node] == Entry(Root(b), Root(t.right), t.left.node, t.color)
    && t.left.node in m'
    && m'[t.left.node] == Entry(Root(t.left.left), t.node, Above(k), t.left.color)
    && (b.Fork? ==> b.node in m && b.node in m' && m'[b.node] == m[b.node].(parent := t.node))
    && (!k.Top? ==> k.node in m' && m'[k.node] == Frame(k, t.left.node))
  }

  lemma RightTurned(m: Memory, m': Memory, k: Ctx, t: Tree)
    requires Zipped(m, k, t) && t.Fork? && t.left.Fork?
    requires RightTurnWritten(m, m', k, t)
    ensures Zipped(m', k, TurnRight(t)) && Nodes(TurnRight(t)) == Nodes(t)
  {
    assert Linked(m, t.left, t.node) && Distinct(t.left);
    var x := {Above(k), t.node, t.left.node, Root(t.left.right)};
    Untouched(m, m', x, t.right, t.node);
    Reparented(m, m', x, t.left.right, t.left.node, t.node);
    Untouched(m, m', x, t.left.left, t.left.node);
    Refilled(m, m', x, k, t.node, t.left.node);
  }

  // ----------------------------------------------- other writes at the focus

  /** Repainting the root of the focus. */
  lemma Painted(m: Memory, m': Memory, k: Ctx, t: Tree, c: Color)
    requires Zipped(m, k, t) && t.Fork? && Agree(m, m', {t.node})
    requires t.node in m' && m'[t.node] == m[t.node].(color := c)
    ensures Zipped(m', k, t.(color := c))
  {
    Untouched(m, m', {t.node}, t.left, t.node);
    Untouched(m, m', {t.node}, t.right, t.node);
    CtxUntouched(m, m', {t.node}, k, t.node);
  }

  /** What hangs below a node that has at most one child. */
  ghost function OnlyChild(t: Tree): Tree
    requires t.Fork?
  {
    if t.left.Leaf? then t.right else t.left
  }

  lemma ChildInMemory(m: Memory, t: Tree, p: Node?)
    requires Linked(m, t, p) && Distinct(t) && t.Fork?
    ensures t.left.Fork? ==> t.left.node in m && t.left.node != t.node && t.left.node != Root(t.right)
    ensures t.right.Fork? ==> t.right.node in m && t.right.node != t.node
  {
  }

  /** Hanging the only child of a node in its place. */
  lemma Spliced(m: Memory, m': Memory, k: Ctx, t: Tree, child: Tree)
    requires Zipped(m, k, t) && t.Fork? && child == OnlyChild(t)
    requires t.left.Leaf? || t.right.Leaf?
    requires Agree(m, m', {Above(k), t.node, Root(child)})
    requires child.Fork? ==>
               && child.node in m && child.node in m'
               && m'[child.node] == m[child.node].(parent := Above(k))
    requires !k.Top? ==> k.node in m' && m'[k.node] == Frame(k, Root(child))
    ensures Zipped(m', k, child)
    ensures CtxNodes(k) + Nodes(child) == CtxNodes(k) + Nodes(t) - {t.node}
  {
    var x := {Above(k), t.node, Root(child)};
    Reparented(m, m', x, child, t.node, Above(k));
    Refilled(m, m', x, k, t.node, Root(child));
  }

  /** Giving the entry of a node to a new node and telling the neighbours. */
  lemma Substituted(m: Memory, m': Memory, k: Ctx, t: Tree, n: Node)
    requires Zipped(m, k, t) && t.Fork? && n !in CtxNodes(k) && n !in Nodes(t)
    requires Agree(m, m', {Above(k), t.node, n, Root(t.left), Root(t.right)})
    requires t.node in m && n in m' && m'[n] == m[t.node]
    requires t.left.Fork? ==>
               && t.left.node in m && t.left.node in m'
               && m'[t.left.node] == m[t.left.node].(parent := n)
    requires t.right.Fork? ==>
               && t.right.node in m && t.right.node in m'
               && m'[t.right.node] == m[t.right.node].(parent := n)
    requires !k.Top? ==> k.node in m' && m'[k.node] == Frame(k, n)
    ensures Zipped(m', k, t.(node := n))
    ensures CtxNodes(k) + Nodes(t.(node := n)) == CtxNodes(k) + Nodes(t) - {t.node} + {n}
  {
    var x := {Above(k), t.node, n, Root(t.left), Root(t.right)};
    Reparented(m, m', x, t.left, t.node, n);
    Reparented(m, m', x, t.right, t.node, n);
    Refilled(m, m', x, k, t.node, n);
  }

  /** Hanging a new red node in an empty hole. */
  lemma Hung(m: Memory, m': Memory, k: Ctx, n: Node)
    requires Zipped(m, k, Leaf) && n !in CtxNodes(k) && Agree(m, m', {Above(k), n})
    requires n in m' && m'[n] == Entry(null, null, Above(k), Red)
    requires !k.Top? ==> k.node in m' && m'[k.node] == Frame(k, n)
    ensures Zipped(m', k, Fork(Leaf, n, Red, Leaf))
  {
    Refilled(m, m', {Above(k), n}, k, null, n);
  }

  // -------------------------------------------------------------- in order

  ghost function InOrder(t: Tree): seq<Node> {
    match t
    case Leaf => []
    case Fork(l, n, _, r) => InOrder(l) + [n] + InOrder(r)
  }

  /** The nodes before the hole, in order. */
  ghost function Before(k: Ctx): seq<Node> {
    match k
    case Top => []
    case InLeft(up, _, _, _) => Before(up)
    case InRight(up, l, n, _) => Before(up) + InOrder(l) + [n]
  }

  /** The nodes after the hole, in order. */
  ghost function After(k: Ctx): seq<Node> {
    match k
    case Top => []
    case InLeft(up, n, _, r) => [n] + InOrder(r) + After(up)
    case InRight(up, _, _, _) => After(up)
  }

  lemma {:induction false} PlugInOrder(k: Ctx, t: Tree)
    ensures InOrder(Plug(k, t)) == Before(k) + InOrder(t) + After(k)
    decreases k
  {
    match k
    case Top =>
    case InLeft(up, n, c, r) => PlugInOrder(up, Fork(t, n, c, r));
    case InRight(up, l, n, c) => PlugInOrder(up, Fork(l, n, c, t));
  }

  lemma PlugSameOrder(k: Ctx, t: Tree, u: Tree)
    requires InOrder(t) == InOrder(u)
    ensures InOrder(Plug(k, t)) == InOrder(Plug(k, u))
  {
    PlugInOrder(k, t);
    PlugInOrder(k, u);
  }

  lemma TurnLeftInOrder(t: Tree)
    requires t.Fork? && t.right.Fork?
    ensures InOrder(TurnLeft(t)) == InOrder(t)
  {
    Reassociate(InOrder(t.left), [t.node], InOrder(t.right.left), [t.right.node], InOrder(t.right.right));
  }

  lemma TurnRightInOrder(t: Tree)
    requires t.Fork? && t.left.Fork?
    ensures InOrder(TurnRight(t)) == InOrder(t)
  {
    Reassociate(InOrder(t.left.left), [t.left.node], InOrder(t.left.right), [t.node], InOrder(t.right));
  }

  lemma {:induction false} InOrderNodes(t: Tree, n: Node)
    ensures n in Nodes(t) <==> n in InOrder(t)
  {
    match t
    case Leaf =>
    case Fork(l, _, _, r) =>
      InOrderNodes(l, n);
      InOrderNodes(r, n);
  }

  // --------------------------------------------------------------- descents

  ghost predicate Sorted(s: seq<Node>) {
    forall i, j | 0 <= i < j < |s| :: s[i].key < s[j].key
  }

  ghost predicate AllBelow(s: seq<Node>, x: int) {
    forall n | n in s :: n.key < x
  }

  ghost predicate AllAbove(s: seq<Node>, x: int) {
    forall n | n in s :: x < n.key
  }

  /** The hole is where the key `x` would be. */
  ghost predicate Around(k: Ctx, x: int) {
    AllBelow(Before(k), x) && AllAbove(After(k), x)
  }

  lemma SortedAround(a: seq<Node>, n: Node, b: seq<Node>)
    requires Sorted(a + [n] + b)
    ensures AllBelow(a, n.key) && AllAbove(b, n.key)
  {
    var s := a + [n] + b;
    assert s[|a|] == n;
    assert forall i | 0 <= i < |a| :: s[i] == a[i];
    assert forall i | 0 <= i < |b| :: s[|a| + 1 + i] == b[i];
  }

  /** What bounds the nodes on one side of `n` also bounds them together with `n`. */
  lemma BoundedWith(a: seq<Node>, n: Node, b: seq<Node>, x: int)
    requires AllBelow(a, n.key) && AllAbove(b, n.key)
    ensures n.key < x ==> AllBelow(a + [n], x)
    ensures x < n.key ==> AllAbove([n] + b, x)
  {
  }

  /** Around a node in focus: what is before it is below, what is after it is above. */
  lemma FocusSplit(k: Ctx, t: Tree)
    requires Sorted(InOrder(Plug(k, t))) && t.Fork?
    ensures AllBelow(Before(k) + InOrder(t.left), t.node.key)
    ensures AllAbove(InOrder(t.right) + After(k), t.node.key)
  {
    PlugInOrder(k, t);
    Regroup(Before(k), InOrder(t.left), [t.node], InOrder(t.right), After(k));
    SortedAround(Before(k) + InOrder(t.left), t.node, InOrder(t.right) + After(k));
  }

  /** Going to the side the comparator points to keeps the key's place in focus. */
  lemma Descend(k: Ctx, t: Tree, x: int)
    requires Sorted(InOrder(Plug(k, t))) && t.Fork? && Around(k, x)
    ensures x < t.node.key ==> Around(InLeft(k, t.node, t.color, t.right), x)
    ensures t.node.key < x ==> Around(InRight(k, t.left, t.node, t.color), x)
  {
    FocusSplit(k, t);
    BoundedWith(Before(k) + InOrder(t.left), t.node, InOrder(t.right) + After(k), x);
    BeyondNode(k, t);
  }

  /** The order on both sides of the two subtrees of a node in focus. */
  lemma BeyondNode(k: Ctx, t: Tree)
    requires t.Fork?
    ensures var l, r := InLeft(k, t.node, t.color, t.right), InRight(k, t.left, t.node, t.color);
            && Before(l) == Before(k) && After(l) == [t.node] + (InOrder(t.right) + After(k))
            && Before(r) == Before(k) + InOrder(t.left) + [t.node] && After(r) == After(k)
  {
  }

  /** Filling an empty hole inserts one node into the order, in its place. */
  lemma InsertedOrder(k: Ctx, n: Node)
    requires Sorted(InOrder(Plug(k, Leaf))) && Around(k, n.key)
    ensures forall c: Color ::
              var s, u := InOrder(Plug(k, Leaf)), InOrder(Plug(k, Fork(Leaf, n, c, Leaf)));
              && |Before(k)| <= |s| && Sorted(u)
              && u == s[..|Before(k)|] + [n] + s[|Before(k)|..]
  {
    PlugInOrder(k, Leaf);
    var s := InOrder(Plug(k, Leaf));
    assert s == Before(k) + After(k);
    forall c: Color
      ensures InOrder(Plug(k, Fork(Leaf, n, c, Leaf))) == s[..|Before(k)|] + [n] + s[|Before(k)|..]
      ensures Sorted(InOrder(Plug(k, Fork(Leaf, n, c, Leaf))))
    {
      PlugInOrder(k, Fork(Leaf, n, c, Leaf));
      assert InOrder(Fork(Leaf, n, c, Leaf)) == [n];
      SortedInsert(Before(k), n, After(k));
    }
  }

  lemma SortedInsert(a: seq<Node>, n: Node, b: seq<Node>)
    requires Sorted(a + b) && AllBelow(a, n.key) && AllAbove(b, n.key)
    ensures Sorted(a + [n] + b)
  {
    var s, u := a + b, a + [n] + b;
    forall i, j | 0 <= i < j < |u|
      ensures u[i].key < u[j].key
    {
      assert i < |a| ==> u[i] == a[i] == s[i] && u[i] in a;
      assert j < |a| ==> u[j] == s[j];
      assert i > |a| ==> u[i] == b[i - |a| - 1] == s[i - 1];
      assert j > |a| ==> u[j] == b[j - |a| - 1] == s[j - 1] && u[j] in b;
    }
  }

  /** Every node of a tree is the root of the focus in some context. */
  lemma {:induction false} Locate(k: Ctx, t: Tree, n: Node) returns (k': Ctx, t': Tree)
    requires n in Nodes(t)
    ensures Plug(k', t') == Plug(k, t) && t'.Fork? && t'.node == n
    decreases t
  {
    if t.node == n {
      k', t' := k, t;
    } else if n in Nodes(t.left) {
      k', t' := Locate(InLeft(k, t.node, t.color, t.right), t.left, n);
    } else {
      k', t' := Locate(InRight(k, t.left, t.node, t.color), t.right, n);
    }
  }

  // ------------------------------------------------ leftmost path below a node

  /** `k` reaches its hole from that of `base` by going left only. */
  ghost predicate LeftwardFrom(k: Ctx, base: Ctx) {
    k == base || (k.InLeft? && LeftwardFrom(k.up, base))
  }

  /** Plugging the frames of `k` that lie below `base`. */
  ghost function Close(k: Ctx, base: Ctx, t: Tree): Tree
    requires LeftwardFrom(k, base)
    decreases k
  {
    if k == base then t else Close(k.up, base, Fill(k, t))
  }

  /** The frames of `k` below `base`, put below `base'`. */
  ghost function Rebase(k: Ctx, base: Ctx, base': Ctx): (r: Ctx)
    requires LeftwardFrom(k, base)
    ensures LeftwardFrom(r, base')
  {
    if k == base then base' else InLeft(Rebase(k.up, base, base'), k.node, k.color, k.sibling)
  }

  lemma {:induction false} LeftwardDepth(k: Ctx, base: Ctx)
    requires LeftwardFrom(k, base)
    ensures Depth(base) <= Depth(k)
  {
    if k != base {
      LeftwardDepth(k.up, base);
    }
  }

  lemma {:induction false} RebaseDepth(k: Ctx, base: Ctx, base': Ctx)
    requires LeftwardFrom(k, base) && Depth(base) == Depth(base')
    ensures Depth(Rebase(k, base, base')) == Depth(k)
    decreases k
  {
    if k != base {
      RebaseDepth(k.up, base, base');
    }
  }

  /** One more step to the left. */
  lemma LeftwardOn(k: Ctx, base: Ctx)
    requires k.InLeft? && LeftwardFrom(k.up, base)
    ensures LeftwardFrom(k, base) && k != base
  {
    LeftwardDepth(k.up, base);
  }

  lemma {:induction false} CloseFocus(m: Memory, k: Ctx, base: Ctx, t: Tree)
    requires LeftwardFrom(k, base)
    ensures Plug(base, Close(k, base, t)) == Plug(k, t)
    ensures Zipped(m, base, Close(k, base, t)) <==> Zipped(m, k, t)
    ensures CtxNodes(base) + Nodes(Close(k, base, t)) == CtxNodes(k) + Nodes(t)
    ensures CtxRoot(base, Root(Close(k, base, t))) == CtxRoot(k, Root(t))
    decreases k
  {
    if k != base {
      CloseFocus(m, k.up, base, Fill(k, t));
    }
  }

  /** Two contexts of a right child that differ only in the node above it. */
  ghost predicate SameButNode(base: Ctx, base': Ctx) {
    base.InRight? && base'.InRight? && base' == InRight(base.up, base.sibling, base'.node, base.color)
  }

  lemma {:induction false} RebaseFacts(k: Ctx, base: Ctx, base': Ctx, t: Tree)
    requires LeftwardFrom(k, base) && SameButNode(base, base')
    ensures Close(Rebase(k, base, base'), base', t) == Close(k, base, t)
    ensures Above(Rebase(k, base, base')) == if k == base then base'.node else Above(k)
    ensures Before(k) == Before(base) && Before(Rebase(k, base, base')) == Before(base')
    ensures After(Rebase(k, base, base')) == After(k)
    decreases k
  {
    if k != base {
      RebaseFacts(k.up, base, base', Fill(k, t));
      LeftwardOn(Rebase(k, base, base'), base');
    }
  }

  /** `u` is `s` without its element at `at`, which is `n`. */
  ghost predicate Without(s: seq<Node>, at: nat, n: Node, u: seq<Node>) {
    at < |s| && s[at] == n && u == s[..at] + s[at + 1..]
  }

  lemma WithoutMiddle(a: seq<Node>, n: Node, b: seq<Node>)
    ensures Without(a + [n] + b, |a|, n, a + b)
  {
    var s := a + [n] + b;
    assert s[..|a|] == a && s[|a| + 1..] == b;
  }

  lemma WithoutBefore(a: seq<Node>, n: Node, m: Node, b: seq<Node>, c: seq<Node>)
    ensures Without(a + [n] + ([m] + b) + c, |a|, n, a + [m] + b + c)
  {
    var s, r := a + [n] + ([m] + b) + c, [m] + b + c;
    assert s == a + [n] + r;
    assert a + [m] + b + c == a + r;
    WithoutMiddle(a, n, r);
  }

  /** Splicing out a node with at most one child takes it out of the order. */
  lemma SpliceOrder(k: Ctx, t: Tree)
    requires t.Fork? && (t.left.Leaf? || t.right.Leaf?)
    ensures Without(InOrder(Plug(k, t)), |Before(k)| + |InOrder(t.left)|, t.node,
                    InOrder(Plug(k, OnlyChild(t))))
  {
    PlugInOrder(k, t);
    PlugInOrder(k, OnlyChild(t));
    assert InOrder(OnlyChild(t)) == InOrder(t.left) + InOrder(t.right);
    WithoutInside(Before(k), InOrder(t.left), t.node, InOrder(t.right), After(k));
  }

  lemma WithoutInside(p: seq<Node>, l: seq<Node>, n: Node, r: seq<Node>, q: seq<Node>)
    ensures Without(p + (l + [n] + r) + q, |p| + |l|, n, p + (l + r) + q)
  {
    Regroup(p, l, [n], r, q);
    assert p + (l + r) + q == p + l + (r + q);
    WithoutMiddle(p + l, n, r + q);
  }

  /** The context of the hole after the successor of `t.node`, the node of `tt` in
      `kk`, has taken its place. */
  ghost function Successor(k: Ctx, t: Tree, kk: Ctx, tt: Tree): Ctx
    requires t.Fork? && tt.Fork?
    requires LeftwardFrom(kk, InRight(k, t.left, t.node, t.color))
  {
    Rebase(kk, InRight(k, t.left, t.node, t.color), InRight(k, t.left, tt.node, t.color))
  }

  /** Splicing out the successor of a node and putting it in that node's place takes
      the node out of the order. */
  lemma SuccessorOrder(k: Ctx, t: Tree, kk: Ctx, tt: Tree)
    requires t.Fork? && tt.Fork? && tt.left.Leaf?
    requires LeftwardFrom(kk, InRight(k, t.left, t.node, t.color)) && Plug(kk, tt) == Plug(k, t)
    ensures Without(InOrder(Plug(k, t)), |Before(k)| + |InOrder(t.left)|, t.node,
                    InOrder(Plug(Successor(k, t, kk, tt), tt.right)))
  {
    var k' := Successor(k, t, kk, tt);
    RebaseFacts(kk, InRight(k, t.left, t.node, t.color), InRight(k, t.left, tt.node, t.color), tt);
    PlugInOrder(k', tt.right);
    PlugInOrder(kk, tt);
    assert InOrder(tt) == [tt.node] + InOrder(tt.right);
    WithoutBefore(Before(k) + InOrder(t.left), t.node, tt.node, InOrder(tt.right), After(kk));
  }

  lemma WithoutSorted(s: seq<Node>, at: nat, n: Node, u: seq<Node>)
    requires Sorted(s) && Without(s, at, n, u)
    ensures Sorted(u)
  {
    forall i, j | 0 <= i < j < |u|
      ensures u[i].key < u[j].key
    {
      assert u[i] == s[if i < at then i else i + 1];
      assert u[j] == s[if j < at then j else j + 1];
    }
  }
}
