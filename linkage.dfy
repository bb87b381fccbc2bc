/**
 * Node linkage of the intrusive AVL tree: the node record with its
 * structural fields l, r, p and h, the ghost shape that abstracts a linked
 * subtree, the tree invariants (BST order, AVL balance, height
 * correctness, parent consistency, acyclicity) and the height
 * bookkeeping primitives avl_get_h, avl_fix_h and avl_get_b.
 */
module Linkage {

  /** A caller-owned record with its embedded tree node. The key lives in the
      record and never changes; l, r, p and h are the t_avl_node fields. */
  class Node {
    const key: int
    var l: Node?
    var r: Node?
    var p: Node?
    var h: int

    constructor (key: int)
      ensures this.key == key
    {
      this.key := key;
    }
  }

  /** Ghost abstraction of a linked subtree: its shape and the node objects
      at each position. */
  datatype Shape = Nil | Br(left: Shape, node: Node, right: Shape)

  ghost function Root(t: Shape): Node?
  {
    if t.Nil? then null else t.node
  }

  ghost function Nodes(t: Shape): set<Node>
  {
    match t
    case Nil => {}
    case Br(a, n, b) => Nodes(a) + {n} + Nodes(b)
  }

  /** The nodes strictly below the root of t. */
  ghost function Below(t: Shape): (s: set<Node>)
    ensures s <= Nodes(t)
  {
    match t
    case Nil => {}
    case Br(a, _, b) => Nodes(a) + Nodes(b)
  }

  ghost function Keys(t: Shape): set<int>
  {
    match t
    case Nil => {}
    case Br(a, n, b) => Keys(a) + {n.key} + Keys(b)
  }

  /** The nodes of t in in-order (ascending position) order. */
  ghost function InOrder(t: Shape): seq<Node>
  {
    match t
    case Nil => []
    case Br(a, n, b) => InOrder(a) + [n] + InOrder(b)
  }

  /** Height of a subtree: 0 when absent, 1 for a leaf. */
  ghost function Height(t: Shape): nat
  {
    match t
    case Nil => 0
    case Br(a, _, b) => 1 + Max(Height(a), Height(b))
  }

  /** The singleton of a present node, empty for an absent one. */
  ghost function Opt(n: Node?): set<Node>
  {
    if n == null then {} else {n}
  }

  /** The tree's comparator on keys: negative, zero or positive as x lies
      below, at or above y. */
  function Cmp(x: int, y: int): (c: int)
    ensures c < 0 <==> x < y
    ensures c == 0 <==> x == y
    ensures c > 0 <==> x > y
  {
    if x < y then -1 else if x > y then 1 else 0
  }

  function Max(x: int, y: int): int
  {
    if x > y then x else y
  }

  /** Acyclicity: no node occurs at two positions. */
  ghost predicate Unique(t: Shape)
  {
    match t
    case Nil => true
    case Br(a, n, b) =>
      n !in Nodes(a) && n !in Nodes(b) && Nodes(a) !! Nodes(b) && Unique(a) && Unique(b)
  }

  /** Every key of t is below x. */
  ghost predicate AllBelow(t: Shape, x: int)
  {
    match t
    case Nil => true
    case Br(a, n, b) => AllBelow(a, x) && n.key < x && AllBelow(b, x)
  }

  /** Every key of t is above x. */
  ghost predicate AllAbove(t: Shape, x: int)
  {
    match t
    case Nil => true
    case Br(a, n, b) => AllAbove(a, x) && x < n.key && AllAbove(b, x)
  }

  /** BST ordering: left keys below, right keys above, at every node. */
  ghost predicate Ordered(t: Shape)
  {
    match t
    case Nil => true
    case Br(a, n, b) => AllBelow(a, n.key) && AllAbove(b, n.key) && Ordered(a) && Ordered(b)
  }

  /** AVL balance: children heights differ by at most one, at every node. */
  ghost predicate Balanced(t: Shape)
  {
    match t
    case Nil => true
    case Br(a, _, b) => -1 <= Height(b) - Height(a) <= 1 && Balanced(a) && Balanced(b)
  }

  /** The parent reference of the root of t (if any) is n. */
  ghost predicate ParentIs(t: Shape, n: Node)
    reads Nodes(t)`p
  {
    t.Br? ==> t.node.p == n
  }

  /** The root of t points at the roots of its two subtrees, and they point
      back at it. Says nothing about the root's own h and p. */
  ghost predicate LinkedAt(t: Shape)
    requires t.Br?
    reads t.node`l, t.node`r, Below(t)`p
  {
    t.node.l == Root(t.left) && t.node.r == Root(t.right) &&
    ParentIs(t.left, t.node) && ParentIs(t.right, t.node)
  }

  /** Every node of t is linked to its children, every non-root node's
      parent reference is its parent, and every stored height is correct.
      The root's own parent reference is constrained by the enclosing
      structure, not here. */
  ghost predicate Wf(t: Shape)
    reads Nodes(t)`l, Nodes(t)`r, Nodes(t)`h, Below(t)`p
  {
    match t
    case Nil => true
    case Br(a, n, b) =>
      LinkedAt(t) && n.h == Height(t) && Wf(a) && Wf(b)
  }

  /** avl_get_h: the height stored in a node, 0 for an absent one. */
  function GetH(n: Node?): (hn: int)
    reads n
    ensures n == null ==> hn == 0
  {
    if n == null then 0 else n.h
  }

  /** avl_get_b: the balance factor, right height minus left height. */
  function GetB(n: Node): int
    reads n, n.l, n.r
  {
    GetH(n.r) - GetH(n.l)
  }

  /** avl_fix_h: recompute the stored height of n from its children. */
  method FixH(n: Node)
    modifies n`h
    ensures n.h == 1 + Max(old(GetH(n.l)), old(GetH(n.r)))
  {
    var hl := GetH(n.l);
    var hr := GetH(n.r);
    n.h := (if hl > hr then hl else hr) + 1;
  }

  /** Every node of a shape in hand is an allocated object, so a method that
      modifies other objects leaves it alone. */
  lemma {:induction false} Alloc(t: Shape)
    ensures forall o :: o in Nodes(t) ==> allocated(o)
    ensures forall o :: o in Below(t) ==> allocated(o)
  {
    match t
    case Nil =>
    case Br(a, n, b) =>
      Alloc(a);
      Alloc(b);
  }

  /** Well-formedness of a subtree survives a change confined to the nodes
      in m, provided none of them lies below its root and its root, if it
      is one of them, keeps its links and height. */
  twostate lemma WfKept(t: Shape, new m: set<Node>)
    requires old(Wf(t))
    requires forall o: Node {:trigger o in m} :: old(allocated(o)) && o !in m ==> unchanged(o)
    requires Below(t) !! m
    requires t.Br? && t.node in m ==> unchanged(t.node`l, t.node`r, t.node`h)
    ensures Wf(t)
  {
    OldAlloc(t);
    assert unchanged(Below(t));
  }

  /** The nodes of a shape held across two states were allocated in the
      earlier one. */
  twostate lemma {:induction false} OldAlloc(t: Shape)
    ensures forall o :: o in Nodes(t) ==> old(allocated(o))
  {
    match t
    case Nil =>
    case Br(a, n, b) =>
      OldAlloc(a);
      OldAlloc(b);
  }

  /** Linking a node above two well-formed subtrees, with the right height
      stored, makes a well-formed subtree. */
  lemma WfJoin(a: Shape, n: Node, b: Shape)
    requires Wf(a) && Wf(b)
    requires n.l == Root(a) && n.r == Root(b) && ParentIs(a, n) && ParentIs(b, n)
    requires n.h == 1 + Max(Height(a), Height(b))
    ensures Wf(Br(a, n, b))
  {
  }

  /** The root of a subtree without repeated nodes is not below itself. */
  lemma RootApart(t: Shape)
    requires Unique(t)
    ensures Opt(Root(t)) <= Nodes(t) && Opt(Root(t)) !! Below(t)
  {
  }

  /** For a well-formed subtree, avl_get_h and avl_get_b agree with the
      abstract height and balance. */
  lemma StoredHeight(t: Shape)
    requires Wf(t)
    ensures GetH(Root(t)) == Height(t)
    ensures t.Br? ==> GetB(t.node) == Height(t.right) - Height(t.left)
  {
    if t.Br? {
      assert Wf(t.left) && Wf(t.right);
    }
  }

  /** Every node of a subtree contributes its key. */
  lemma {:induction false} NodeKey(t: Shape, x: Node)
    requires x in Nodes(t)
    ensures x.key in Keys(t)
  {
    match t
    case Br(a, n, b) =>
      if x in Nodes(a) {
        NodeKey(a, x);
      } else if x in Nodes(b) {
        NodeKey(b, x);
      }
  }

  /** AllBelow and AllAbove say what their names say about the key set. */
  lemma {:induction false} BoundsKeys(t: Shape, x: int)
    ensures AllBelow(t, x) <==> forall k :: k in Keys(t) ==> k < x
    ensures AllAbove(t, x) <==> forall k :: k in Keys(t) ==> x < k
  {
    match t
    case Nil =>
    case Br(a, n, b) =>
      BoundsKeys(a, x);
      BoundsKeys(b, x);
      assert n.key in Keys(t);
      assert forall k :: k in Keys(a) ==> k in Keys(t);
      assert forall k :: k in Keys(b) ==> k in Keys(t);
  }

  lemma KeyBelow(t: Shape, x: int, k: int)
    requires AllBelow(t, x) && k in Keys(t)
    ensures k < x
  {
    BoundsKeys(t, x);
  }

  lemma KeyAbove(t: Shape, x: int, k: int)
    requires AllAbove(t, x) && k in Keys(t)
    ensures x < k
  {
    BoundsKeys(t, x);
  }

  /** Bounds carry over to shapes with fewer keys. */
  lemma BoundsSubset(s: Shape, t: Shape, x: int)
    requires Keys(s) <= Keys(t)
    ensures AllBelow(t, x) ==> AllBelow(s, x)
    ensures AllAbove(t, x) ==> AllAbove(s, x)
  {
    BoundsKeys(s, x);
    BoundsKeys(t, x);
  }

  /** Bounds carry over between shapes with the same key set. */
  lemma SameKeysBounds(s: Shape, t: Shape, x: int)
    requires Keys(s) == Keys(t)
    ensures AllBelow(s, x) == AllBelow(t, x) && AllAbove(s, x) == AllAbove(t, x)
  {
    BoundsKeys(s, x);
    BoundsKeys(t, x);
  }

  lemma {:induction false} BelowMono(t: Shape, x: int, y: int)
    requires AllBelow(t, x) && x <= y
    ensures AllBelow(t, y)
  {
    match t
    case Nil =>
    case Br(a, _, b) =>
      BelowMono(a, x, y);
      BelowMono(b, x, y);
  }

  lemma {:induction false} AboveMono(t: Shape, x: int, y: int)
    requires AllAbove(t, y) && x <= y
    ensures AllAbove(t, x)
  {
    match t
    case Nil =>
    case Br(a, _, b) =>
      AboveMono(a, x, y);
      AboveMono(b, x, y);
  }

  /** BST ordering rules out a node occurring twice. */
  lemma {:induction false} OrderedUnique(t: Shape)
    requires Ordered(t)
    ensures Unique(t)
  {
    match t
    case Nil =>
    case Br(a, n, b) =>
      OrderedUnique(a);
      OrderedUnique(b);
      BoundsKeys(a, n.key);
      BoundsKeys(b, n.key);
      if n in Nodes(a) {
        NodeKey(a, n);
      }
      if n in Nodes(b) {
        NodeKey(b, n);
      }
      forall x | x in Nodes(a) && x in Nodes(b)
        ensures false
      {
        NodeKey(a, x);
        NodeKey(b, x);
      }
  }

  /** In a BST, two nodes with the same key are the same node. */
  lemma {:induction false} KeyDetermines(t: Shape, x: Node, y: Node)
    requires Ordered(t) && x in Nodes(t) && y in Nodes(t) && x.key == y.key
    ensures x == y
  {
    match t
    case Br(a, n, b) =>
      BoundsKeys(a, n.key);
      BoundsKeys(b, n.key);
      if x in Nodes(a) { NodeKey(a, x); }
      if x in Nodes(b) { NodeKey(b, x); }
      if y in Nodes(a) { NodeKey(a, y); }
      if y in Nodes(b) { NodeKey(b, y); }
      if x in Nodes(a) && y in Nodes(a) {
        KeyDetermines(a, x, y);
      } else if x in Nodes(b) && y in Nodes(b) {
        KeyDetermines(b, x, y);
      }
  }
}
