/**
 * Read-only walks over a linked tree: avl_leftmost, avl_node_next (into
 * the right subtree, or up through parent references) and avl_node_apply,
 * with the key facts about the whole tree they rely on and the search
 * window that avl_find_right keeps. Each walk is proved against the ghost
 * shape: what it returns is the least node, the successor, or the in-order
 * sequence.
 */
module Traversal {
  import opened Linkage
  import opened Shapes

  /** The node whose child x is, null for the root. */
  ghost function Parent(t: Shape, x: Node): Node?
    requires x in Nodes(t)
  {
    match t
    case Br(a, n, b) =>
      if n == x then null
      else if x in Nodes(a) then (if a.Br? && a.node == x then n else Parent(a, x))
      else (if b.Br? && b.node == x then n else Parent(b, x))
  }

  /** Every subtree of a well-formed tree is well formed. */
  lemma {:induction false} SubWf(t: Shape, x: Node)
    requires Wf(t) && x in Nodes(t)
    ensures Wf(Sub(t, x))
  {
    var Br(a, n, b) := t;
    if n != x {
      if x in Nodes(a) {
        SubWf(a, x);
      } else {
        SubWf(b, x);
      }
    }
  }

  /** In a well-formed tree without repeated nodes, the parent reference of
      every node but the root is its parent, and the subtree at x is one of
      the two subtrees of the subtree at its parent. */
  lemma {:induction false} ParentLinked(t: Shape, x: Node)
    requires Wf(t) && Unique(t) && x in Nodes(t)
    ensures Parent(t, x) == null <==> x == t.node
    ensures Parent(t, x) != null ==>
      Parent(t, x) in Nodes(t) && x.p == Parent(t, x) &&
      (Sub(t, Parent(t, x)).left == Sub(t, x) || Sub(t, Parent(t, x)).right == Sub(t, x))
  {
    var Br(a, n, b) := t;
    if n != x {
      if x in Nodes(a) {
        if a.node != x {
          ParentLinked(a, x);
          assert Parent(t, x) in Nodes(a);
        }
      } else {
        if b.node != x {
          ParentLinked(b, x);
          assert Parent(t, x) in Nodes(b);
        }
      }
    }
  }

  /** The successor of a node with a right subtree is the least node of
      that subtree. */
  lemma SuccessorDown(t: Shape, x: Node)
    requires Ordered(t) && x in Nodes(t) && Sub(t, x).right.Br?
    ensures Successor(t, x.key, MinNode(Sub(t, x).right))
  {
    var s := Sub(t, x);
    var m := MinNode(s.right);
    Contiguous(t, x);
    NodeKey(s.right, m);
    KeyAbove(s.right, x.key, m.key);
    assert m in Nodes(s) && x in Nodes(s);
    NodeKey(s, x);
    NodeKey(s, m);
    MinLeast(s, x.key);
    MaxGreatest(s, m.key);
    forall k | k in Keys(t) && x.key < k
      ensures m.key <= k
    {
      if k in Keys(s.left) {
        KeyBelow(s.left, x.key, k);
      } else if k in Keys(s.right) {
        MinLeast(s.right, k);
      }
    }
  }

  /** The successor of the greatest node of a left subtree is the root of
      the subtree it hangs from. */
  lemma SuccessorUp(t: Shape, q: Node)
    requires Ordered(t) && q in Nodes(t) && Sub(t, q).left.Br?
    ensures Successor(t, MaxNode(Sub(t, q).left).key, q)
  {
    var s := Sub(t, q);
    var x := MaxNode(s.left);
    Contiguous(t, q);
    NodeKey(s.left, x);
    KeyBelow(s.left, q.key, x.key);
    assert q in Nodes(s) && x in Nodes(s);
    NodeKey(s, x);
    NodeKey(s, q);
    MinLeast(s, x.key);
    MaxGreatest(s, q.key);
    forall k | k in Keys(t) && x.key < k
      ensures q.key <= k
    {
      if k in Keys(s.left) {
        MaxGreatest(s.left, k);
      } else if k in Keys(s.right) {
        KeyAbove(s.right, q.key, k);
      }
    }
  }

  /** The greatest node of a whole BST has no successor. */
  lemma SuccessorNone(t: Shape)
    requires t.Br? && Ordered(t)
    ensures Successor(t, MaxNode(t).key, null)
  {
    forall k | k in Keys(t)
      ensures k <= MaxNode(t).key
    {
      MaxGreatest(t, k);
    }
  }

  /** avl_leftmost: follow left links down from h. */
  method Leftmost(h: Node?, ghost t: Shape) returns (r: Node?)
    requires h == Root(t) && Wf(t)
    ensures t.Nil? ==> r == null
    ensures t.Br? ==> r == MinNode(t)
  {
    r := h;
    if r != null {
      ghost var s := t;
      while r.l != null
        invariant s.Br? && r == s.node && Wf(s) && MinNode(s) == MinNode(t)
        decreases Height(s)
      {
        r, s := r.l, s.left;
      }
    }
  }

  /** avl_node_next: the node after x in key order, inside the whole tree t
      whose root has no parent. */
  method NodeNext(x: Node?, ghost t: Shape) returns (r: Node?)
    requires Wf(t) && Ordered(t) && (t.Br? ==> t.node.p == null)
    requires x == null || x in Nodes(t)
    ensures x == null ==> r == null
    ensures x != null ==> Successor(t, x.key, r)
  {
    if x == null {
      return null;
    }
    OrderedUnique(t);
    SubWf(t, x);
    if x.r != null {
      SuccessorDown(t, x);
      assert Wf(Sub(t, x).right);
      r := Leftmost(x.r, Sub(t, x).right);
      return;
    }
    var h := x;
    ParentLinked(t, h);
    while h.p != null && h == h.p.r
      invariant h in Nodes(t) && x == MaxNode(Sub(t, h))
      invariant h.p == Parent(t, h) && Wf(t) && Unique(t)
      decreases Height(t) - Height(Sub(t, h))
    {
      var q := h.p;
      ParentLinked(t, h);
      SubWf(t, q);
      UpRight(t, h, q);
      assert Height(Sub(t, q)) <= Height(t);
      h := q;
      ParentLinked(t, h);
    }
    if h.p == null {
      ParentLinked(t, h);
      SuccessorNone(t);
    } else {
      var q := h.p;
      ParentLinked(t, h);
      SubWf(t, q);
      UpLeft(t, h, q);
      SuccessorUp(t, q);
    }
    r := h.p;
  }

  /** One step up from a right child keeps the greatest node. */
  lemma UpRight(t: Shape, h: Node, q: Node)
    requires Wf(t) && Ordered(t) && h in Nodes(t) && q in Nodes(t) && Wf(Sub(t, q))
    requires Sub(t, q).left == Sub(t, h) || Sub(t, q).right == Sub(t, h)
    requires h == q.r
    ensures Sub(t, q).right == Sub(t, h)
    ensures MaxNode(Sub(t, q)) == MaxNode(Sub(t, h))
    ensures Height(Sub(t, h)) < Height(Sub(t, q))
  {
    var s := Sub(t, q);
    OrderedUnique(s);
    if s.left == Sub(t, h) {
      assert false;
    }
  }

  /** Stopping below a parent that h is not the right child of: h heads its
      left subtree. */
  lemma UpLeft(t: Shape, h: Node, q: Node)
    requires Wf(t) && Unique(t) && h in Nodes(t) && q in Nodes(t) && Wf(Sub(t, q))
    requires Sub(t, q).left == Sub(t, h) || Sub(t, q).right == Sub(t, h)
    requires h != q.r
    ensures Sub(t, q).left == Sub(t, h)
  {
  }

  /** The search window of avl_find_right at subtree s: lo (if any) is the
      last node passed on the way down whose key is below k, hi the last one
      above; every key of t outside s lies at or below lo or at or above hi,
      and s lies strictly between them. */
  ghost predicate Window(t: Shape, s: Shape, k: int, lo: Node?, hi: Node?)
  {
    (k in Keys(t) ==> k in Keys(s)) &&
    (lo != null ==> lo in Nodes(t) && lo.key < k) &&
    (hi != null ==> hi in Nodes(t) && k < hi.key) &&
    (forall j :: j in Keys(t) && j !in Keys(s) && j < k ==> lo != null && j <= lo.key) &&
    (forall j :: j in Keys(t) && j !in Keys(s) && k < j ==> hi != null && hi.key <= j) &&
    (forall j :: j in Keys(s) ==> (lo != null ==> lo.key < j) && (hi != null ==> j < hi.key))
  }

  /** Turning right at a node below k narrows the window from below. */
  lemma WindowRight(t: Shape, s: Shape, k: int, lo: Node?, hi: Node?)
    requires s.Br? && Ordered(s) && Nodes(s) <= Nodes(t) && s.node.key < k
    requires Window(t, s, k, lo, hi)
    ensures Window(t, s.right, k, s.node, hi)
  {
    var Br(a, x, b) := s;
    BoundsKeys(a, x.key);
    BoundsKeys(b, x.key);
    assert x.key in Keys(s);
    forall j | j in Keys(t) && j !in Keys(b) && j < k
      ensures j <= x.key
    {
      if j !in Keys(s) {
        assert lo != null && j <= lo.key;
      }
    }
    forall j | j in Keys(t) && j !in Keys(b) && k < j
      ensures hi != null && hi.key <= j
    {
      assert j !in Keys(s);
    }
    forall j | j in Keys(b)
      ensures x.key < j && (hi != null ==> j < hi.key)
    {
      assert j in Keys(s);
    }
  }

  /** Turning left at a node above k narrows the window from above. */
  lemma WindowLeft(t: Shape, s: Shape, k: int, lo: Node?, hi: Node?)
    requires s.Br? && Ordered(s) && Nodes(s) <= Nodes(t) && k < s.node.key
    requires Window(t, s, k, lo, hi)
    ensures Window(t, s.left, k, lo, s.node)
  {
    var Br(a, x, b) := s;
    BoundsKeys(a, x.key);
    BoundsKeys(b, x.key);
    assert x.key in Keys(s);
    forall j | j in Keys(t) && j !in Keys(a) && k < j
      ensures x.key <= j
    {
      if j !in Keys(s) {
        assert hi != null && hi.key <= j;
      }
    }
    forall j | j in Keys(t) && j !in Keys(a) && j < k
      ensures lo != null && j <= lo.key
    {
      assert j !in Keys(s);
    }
    forall j | j in Keys(a)
      ensures j < x.key && (lo != null ==> lo.key < j)
    {
      assert j in Keys(s);
    }
  }

  /** When the search for k has run out below a node lo it last turned
      right at, the successor of lo is the ceiling of k. */
  lemma CeilingAfter(t: Shape, k: int, lo: Node, hi: Node?, r: Node?)
    requires Window(t, Nil, k, lo, hi)
    requires Successor(t, lo.key, r)
    ensures Ceiling(t, k, r)
  {
    if r != null {
      NodeKey(t, r);
    }
  }

  /** avl_node_apply: visit the subtree at h in order; the sequence returned
      is the sequence of records the callback receives. The right child is
      read before the callback runs, as the source does. */
  method NodeApply(h: Node?, ghost t: Shape) returns (visited: seq<Node>)
    requires h == Root(t) && Wf(t)
    ensures visited == InOrder(t)
    decreases t
  {
    if h == null {
      return [];
    }
    assert Wf(t.left) && Wf(t.right);
    Alloc(t.right);
    visited := NodeApply(h.l, t.left);
    var r := h.r;
    visited := visited + [h];
    var rest := NodeApply(r, t.right);
    visited := visited + rest;
  }

  /** The in-order sequence lists exactly the nodes of the shape. */
  lemma {:induction false} InOrderNodes(t: Shape)
    ensures forall i :: 0 <= i < |InOrder(t)| ==> InOrder(t)[i] in Nodes(t)
    ensures forall x :: x in Nodes(t) ==> x in InOrder(t)
  {
    match t
    case Nil =>
    case Br(a, n, b) =>
      InOrderNodes(a);
      InOrderNodes(b);
      var s, sa, sb := InOrder(t), InOrder(a), InOrder(b);
      forall i | 0 <= i < |s|
        ensures s[i] in Nodes(t)
      {
        if i < |sa| {
          assert s[i] == sa[i];
        } else if i > |sa| {
          assert s[i] == sb[i - |sa| - 1];
        }
      }
  }

  /** A node of the shape holding the key k. */
  lemma {:induction false} KeyHolder(t: Shape, k: int) returns (x: Node)
    requires k in Keys(t)
    ensures x in Nodes(t) && x.key == k
  {
    var Br(a, n, b) := t;
    if k in Keys(a) {
      x := KeyHolder(a, k);
    } else if k in Keys(b) {
      x := KeyHolder(b, k);
    } else {
      x := n;
    }
  }

  /** In a BST the in-order sequence is strictly ascending by key. */
  lemma {:induction false} InOrderAscending(t: Shape)
    requires Ordered(t)
    ensures forall i, j :: 0 <= i < j < |InOrder(t)| ==> InOrder(t)[i].key < InOrder(t)[j].key
  {
    match t
    case Nil =>
    case Br(a, n, b) =>
      InOrderAscending(a);
      InOrderAscending(b);
      InOrderNodes(a);
      InOrderNodes(b);
      var s := InOrder(t);
      var sa, sb := InOrder(a), InOrder(b);
      forall i | 0 <= i < |sa|
        ensures sa[i].key < n.key
      {
        NodeKey(a, sa[i]);
        KeyBelow(a, n.key, sa[i].key);
      }
      forall j | 0 <= j < |sb|
        ensures n.key < sb[j].key
      {
        NodeKey(b, sb[j]);
        KeyAbove(b, n.key, sb[j].key);
      }
      forall i, j | 0 <= i < j < |s|
        ensures s[i].key < s[j].key
      {
        if j < |sa| {
        } else if i < |sa| {
          if j > |sa| {
            assert s[j] == sb[j - |sa| - 1];
          }
        } else if i > |sa| {
          assert s[i] == sb[i - |sa| - 1] && s[j] == sb[j - |sa| - 1];
        } else {
          assert s[j] == sb[j - |sa| - 1];
        }
      }
  }

  /** First, next and apply agree: the least node heads the in-order
      sequence, and the successor of each node is the one after it there,
      or null for the last. */
  lemma InOrderWalk(t: Shape, i: int)
    requires Ordered(t) && 0 <= i < |InOrder(t)|
    ensures Least(t, InOrder(t)[0])
    ensures Successor(t, InOrder(t)[i].key, if i + 1 < |InOrder(t)| then InOrder(t)[i + 1] else null)
  {
    var s := InOrder(t);
    InOrderAscending(t);
    InOrderNodes(t);
    forall k | k in Keys(t)
      ensures s[0].key <= k
      ensures s[i].key < k ==> i + 1 < |s| && s[i + 1].key <= k
    {
      var x := KeyHolder(t, k);
      var j :| 0 <= j < |s| && s[j] == x;
      if s[i].key < k {
        assert i < j;
        assert j == i + 1 || s[i + 1].key < s[j].key;
      }
    }
    assert s[0] in Nodes(t);
    if i + 1 < |s| {
      assert s[i + 1] in Nodes(t);
    }
  }
}
