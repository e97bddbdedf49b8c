/** The mathematical set of keys that both kinds of tree implement. */
module SortedSets {

  datatype Op = Insert(key: int) | Find(key: int) | Remove(key: int)

  /** The set after the operation. */
  ghost function SetAfter(s: set<int>, op: Op): set<int> {
    match op
    case Insert(k) => s + {k}
    case Find(_) => s
    case Remove(k) => s - {k}
  }

  /** Inserting succeeds on an absent key, finding and removing on a present one. */
  ghost function SetAnswer(s: set<int>, op: Op): bool {
    op.Insert? <==> op.key !in s
  }

  ghost function SetAfterAll(s: set<int>, ops: seq<Op>): set<int> {
    if ops == [] then s else SetAfter(SetAfterAll(s, ops[..|ops| - 1]), ops[|ops| - 1])
  }

  ghost function SetAnswers(s: set<int>, ops: seq<Op>): seq<bool> {
    if ops == [] then []
    else SetAnswers(s, ops[..|ops| - 1]) + [SetAnswer(SetAfterAll(s, ops[..|ops| - 1]), ops[|ops| - 1])]
  }

  /** Running one more operation. */
  lemma OneMore(s: set<int>, ops: seq<Op>, i: nat)
    requires i < |ops|
    ensures SetAfterAll(s, ops[..i + 1]) == SetAfter(SetAfterAll(s, ops[..i]), ops[i])
    ensures SetAnswers(s, ops[..i + 1]) == SetAnswers(s, ops[..i]) + [SetAnswer(SetAfterAll(s, ops[..i]), ops[i])]
  {
    var p := ops[..i + 1];
    assert p[..|p| - 1] == ops[..i] && p[|p| - 1] == ops[i];
  }
}

/** A red-black tree driven as a set of keys. */
module RbSets {
  import opened RbTrees
  import opened RedBlack
  import opened SortedSets

  ghost function Keys(h: Head): set<int>
    reads h
  {
    set n | n in h.nodes :: n.key
  }

  /** A key is there if and only if a node in the order has it. */
  lemma KeyInOrder(h: Head, key: int)
    requires h.Valid()
    ensures key in Keys(h) <==> exists n :: n in InOrder(h.tree) && n.key == key
  {
    if n: Node :| n in h.nodes && n.key == key {
      InOrderNodes(h.tree, n);
    }
    if n :| n in InOrder(h.tree) && n.key == key {
      InOrderNodes(h.tree, n);
    }
  }

  method InsertKey(h: Head, key: int) returns (b: bool)
    requires h.Valid()
    modifies h, h.nodes
    ensures h.Valid() && fresh(h.nodes - old(h.nodes))
    ensures Keys(h) == old(Keys(h)) + {key} && b == (key !in old(Keys(h)))
  {
    KeyInOrder(h, key);
    var probe := new Node(key);
    var r;
    ghost var at, steps;
    r, at, steps := h.Insert(probe);
    b := r == null;
  }

  method FindKey(h: Head, key: int) returns (r: Node?)
    requires h.Valid()
    ensures r != null <==> key in Keys(h)
    ensures r != null ==> r in h.nodes && r.key == key
  {
    KeyInOrder(h, key);
    var probe := new Node(key);
    ghost var steps;
    r, steps := h.Find(probe);
  }

  /** `RB_FIND` followed by `RB_REMOVE`. */
  method RemoveKey(h: Head, key: int) returns (b: bool)
    requires h.Valid()
    modifies h, h.nodes
    ensures h.Valid() && h.nodes <= old(h.nodes)
    ensures Keys(h) == old(Keys(h)) - {key} && b == (key in old(Keys(h)))
  {
    var r := FindKey(h, key);
    b := r != null;
    if r != null {
      OneNodePerKey(h, r);
      ghost var at, steps;
      r, at, steps := h.Remove(r);
    }
  }

  method Apply(h: Head, op: Op) returns (b: bool)
    requires h.Valid()
    modifies h, h.nodes
    ensures h.Valid() && fresh(h.nodes - old(h.nodes))
    ensures Keys(h) == SetAfter(old(Keys(h)), op)
    ensures b == SetAnswer(old(Keys(h)), op)
  {
    match op
    case Insert(key) =>
      b := InsertKey(h, key);
    case Find(key) =>
      var r := FindKey(h, key);
      b := r != null;
    case Remove(key) =>
      b := RemoveKey(h, key);
  }

  /** No other node has the key of `r`. */
  lemma OneNodePerKey(h: Head, r: Node)
    requires h.Valid() && r in h.nodes
    ensures forall n | n in h.nodes && n.key == r.key :: n == r
  {
    forall n | n in h.nodes && n.key == r.key
      ensures n == r
    {
      InOrderNodes(h.tree, n);
      InOrderNodes(h.tree, r);
      var s := InOrder(h.tree);
      var i :| 0 <= i < |s| && s[i] == n;
      var j :| 0 <= j < |s| && s[j] == r;
      assert i == j;
    }
  }

  /** Every run gives the answers of a mathematical set and ends with its keys. */
  method Run(h: Head, ops: seq<Op>) returns (bs: seq<bool>)
    requires h.Valid()
    modifies h, h.nodes
    ensures h.Valid() && Keys(h) == SetAfterAll(old(Keys(h)), ops)
    ensures bs == SetAnswers(old(Keys(h)), ops)
  {
    bs := [];
    ghost var s := Keys(h);
    for i := 0 to |ops|
      invariant h.Valid() && fresh(h.nodes - old(h.nodes))
      invariant Keys(h) == SetAfterAll(s, ops[..i]) && bs == SetAnswers(s, ops[..i])
    {
      OneMore(s, ops, i);
      var b := Apply(h, ops[i]);
      bs := bs + [b];
    }
    assert ops[..|ops|] == ops;
  }
}

/** A splay tree driven as a set of keys. */
module SplaySets {
  import opened SplayTrees
  import opened Splay
  import opened SortedSets

  ghost function Keys(h: Head): set<int>
    reads h
  {
    set n | n in h.nodes :: n.key
  }

  /** A key is there if and only if a node in the order has it. */
  lemma KeyInOrder(h: Head, key: int)
    requires h.Valid()
    ensures key in Keys(h) <==> exists n :: n in InOrder(h.tree) && n.key == key
  {
    if n: Node :| n in h.nodes && n.key == key {
      InOrderNodes(h.tree, n);
    }
    if n :| n in InOrder(h.tree) && n.key == key {
      InOrderNodes(h.tree, n);
    }
  }

  method InsertKey(h: Head, key: int) returns (b: bool)
    requires h.Valid()
    modifies h, h.nodes
    ensures h.Valid() && fresh(h.nodes - old(h.nodes))
    ensures Keys(h) == old(Keys(h)) + {key} && b == (key !in old(Keys(h)))
  {
    KeyInOrder(h, key);
    var probe := new Node(key);
    var r;
    ghost var at;
    r, at := h.Insert(probe);
    b := r == null;
  }

  method FindKey(h: Head, key: int) returns (b: bool)
    requires h.Valid()
    modifies h, h.nodes
    ensures h.Valid() && h.nodes == old(h.nodes)
    ensures b == (key in Keys(h))
  {
    KeyInOrder(h, key);
    var probe := new Node(key);
    var r := h.Find(probe);
    b := r != null;
  }

  method RemoveKey(h: Head, key: int) returns (b: bool)
    requires h.Valid()
    modifies h, h.nodes
    ensures h.Valid() && h.nodes <= old(h.nodes)
    ensures Keys(h) == old(Keys(h)) - {key} && b == (key in old(Keys(h)))
  {
    KeyInOrder(h, key);
    OneNodePerKey(h);
    var probe := new Node(key);
    var r;
    ghost var at, gone;
    r, at, gone := h.Remove(probe);
    b := r != null;
  }

  /** No two nodes have the same key. */
  lemma OneNodePerKey(h: Head)
    requires h.Valid()
    ensures forall n, n' | n in h.nodes && n' in h.nodes && n.key == n'.key :: n == n'
  {
    forall n, n' | n in h.nodes && n' in h.nodes && n.key == n'.key
      ensures n == n'
    {
      InOrderNodes(h.tree, n);
      InOrderNodes(h.tree, n');
      var s := InOrder(h.tree);
      var i :| 0 <= i < |s| && s[i] == n;
      var j :| 0 <= j < |s| && s[j] == n';
      assert i == j;
    }
  }

  method Apply(h: Head, op: Op) returns (b: bool)
    requires h.Valid()
    modifies h, h.nodes
    ensures h.Valid() && fresh(h.nodes - old(h.nodes))
    ensures Keys(h) == SetAfter(old(Keys(h)), op)
    ensures b == SetAnswer(old(Keys(h)), op)
  {
    match op
    case Insert(key) =>
      b := InsertKey(h, key);
    case Find(key) =>
      b := FindKey(h, key);
    case Remove(key) =>
      b := RemoveKey(h, key);
  }

  /** Every run gives the answers of a mathematical set and ends with its keys. */
  method Run(h: Head, ops: seq<Op>) returns (bs: seq<bool>)
    requires h.Valid()
    modifies h, h.nodes
    ensures h.Valid() && Keys(h) == SetAfterAll(old(Keys(h)), ops)
    ensures bs == SetAnswers(old(Keys(h)), ops)
  {
    bs := [];
    ghost var s := Keys(h);
    for i := 0 to |ops|
      invariant h.Valid() && fresh(h.nodes - old(h.nodes))
      invariant Keys(h) == SetAfterAll(s, ops[..i]) && bs == SetAnswers(s, ops[..i])
    {
      OneMore(s, ops, i);
      var b := Apply(h, ops[i]);
      bs := bs + [b];
    }
    assert ops[..|ops|] == ops;
  }
}

/** The two kinds of tree side by side. */
module SameAnswers {
  import opened SortedSets
  import RbSets
  import RedBlack
  import Splay
  import SplaySets

  /** Both trees, started empty, answer every sequence of operations alike. */
  method Compare(ops: seq<Op>) returns (rb: seq<bool>, splay: seq<bool>)
    ensures rb == splay == SetAnswers({}, ops)
  {
    var h := new RedBlack.Head();
    var g := new Splay.Head();
    assert RbSets.Keys(h) == {} && SplaySets.Keys(g) == {};
    rb := RbSets.Run(h, ops);
    splay := SplaySets.Run(g, ops);
  }
}
