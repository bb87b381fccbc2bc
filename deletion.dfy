/**
 * Deletion: avl_first_del, which unlinks the leftmost node of a subtree,
 * and the recursive avl_node_del, which splices the successor into the
 * place of the matched node; both rebalance on the way back up and are
 * proved to build exactly the shapes Shapes.WithoutMin and Shapes.Deleted
 * describe. The unlinked node's own fields are left as they were.
 */
module Deletion {
  import opened Linkage
  import opened Shapes
  import opened Rotation
  import opened Traversal

  /** Removing the minimum takes out exactly the leftmost node, in any
      subtree without repeated nodes. */
  lemma {:induction false} WithoutMinNodes(t: Shape)
    requires t.Br? && Unique(t)
    ensures Nodes(WithoutMin(t)) == Nodes(t) - {MinNode(t)}
    ensures Unique(WithoutMin(t))
  {
    var Br(a, n, b) := t;
    if a.Br? {
      WithoutMinNodes(a);
      SubtreeLoses(t, WithoutMin(a), MinNode(a), false);
      RebalancedKeeps(Br(WithoutMin(a), n, b));
    }
  }

  /** Hang the shrunk left subtree a' (possibly empty) back under h, point
      its root back at h and rebalance there. */
  method RelinkLeft(h: Node, x: Node?, ghost a': Shape, ghost b: Shape) returns (res: Node)
    requires x == Root(a') && Wf(a') && Wf(b) && Unique(Br(a', h, b))
    requires h.r == Root(b) && ParentIs(b, h)
    modifies Nodes(Br(a', h, b))
    ensures res == Rebalanced(Br(a', h, b)).node
    ensures Wf(Rebalanced(Br(a', h, b)))
  {
    RootApart(a');
    h.l := x;
    if h.l != null {
      h.l.p := h;
    }
    WfKept(a', {h} + Opt(x));
    WfKept(b, {h} + Opt(x));
    res := Fix(h, Br(a', h, b));
  }

  /** Hang the shrunk right subtree b' back under h and rebalance, the
      mirror image of RelinkLeft. */
  method RelinkRight(h: Node, x: Node?, ghost a: Shape, ghost b': Shape) returns (res: Node)
    requires x == Root(b') && Wf(a) && Wf(b') && Unique(Br(a, h, b'))
    requires h.l == Root(a) && ParentIs(a, h)
    modifies Nodes(Br(a, h, b'))
    ensures res == Rebalanced(Br(a, h, b')).node
    ensures Wf(Rebalanced(Br(a, h, b')))
  {
    RootApart(b');
    h.r := x;
    if h.r != null {
      h.r.p := h;
    }
    WfKept(a, {h} + Opt(x));
    WfKept(b', {h} + Opt(x));
    res := Fix(h, Br(a, h, b'));
  }

  /** avl_first_del: unlink the leftmost node of the subtree at h and return
      the new root of what remains (null if nothing does). The parent
      reference of that root is left for the caller to set. */
  method FirstDel(h: Node, ghost t: Shape) returns (res: Node?)
    requires t.Br? && h == t.node && Wf(t) && Unique(t)
    modifies Nodes(t)
    decreases t
    ensures res == Root(WithoutMin(t)) && Wf(WithoutMin(t))
  {
    ghost var a, b := t.left, t.right;
    assert Wf(a) && Wf(b);
    if h.l == null {
      return h.r;
    }
    WithoutMinNodes(a);
    var x := FirstDel(h.l, a);
    WfKept(b, Nodes(a));
    res := RelinkLeft(h, x, WithoutMin(a), b);
  }

  /** The shape facts the descent into the left subtree relies on. */
  lemma DelLeftFacts(t: Shape, k: int)
    requires t.Br? && Ordered(t) && k < t.node.key
    ensures var (a', x) := Deleted(t.left, k);
      Unique(t) && Nodes(a') <= Nodes(t.left) && Unique(Br(a', t.node, t.right)) &&
      Deleted(t, k) == (Rebalanced(Br(a', t.node, t.right)), x)
  {
    OrderedUnique(t);
    DeletedNode(t.left, k);
    DeletedOrdered(t.left, k);
    OrderedUnique(Deleted(t.left, k).0);
  }

  /** Mirror image of DelLeftFacts for the right subtree. */
  lemma DelRightFacts(t: Shape, k: int)
    requires t.Br? && Ordered(t) && k > t.node.key
    ensures var (b', x) := Deleted(t.right, k);
      Unique(t) && Nodes(b') <= Nodes(t.right) && Unique(Br(t.left, t.node, b')) &&
      Deleted(t, k) == (Rebalanced(Br(t.left, t.node, b')), x)
  {
    OrderedUnique(t);
    DeletedNode(t.right, k);
    DeletedOrdered(t.right, k);
    OrderedUnique(Deleted(t.right, k).0);
  }

  /** The shape facts the splice at the matched node relies on. */
  lemma DelHereFacts(t: Shape)
    requires t.Br? && t.right.Br? && Ordered(t)
    ensures var u := Br(t.left, MinNode(t.right), WithoutMin(t.right));
      Unique(t) && Unique(u) && MinNode(t.right) in Nodes(t.right) &&
      Nodes(WithoutMin(t.right)) <= Nodes(t.right) &&
      Deleted(t, t.node.key) == (Rebalanced(u), t.node)
  {
    OrderedUnique(t);
    DeletedSplice(t);
    OrderedUnique(Br(t.left, MinNode(t.right), WithoutMin(t.right)));
    WithoutMinNodes(t.right);
  }

  /** avl_node_del: remove the node with key k from the subtree at head (the
      shape t); return the new root of that subtree and the removed node,
      null if there is none. The parent reference of the new root is left
      for the caller to set. */
  method NodeDel(head: Node?, ghost t: Shape, k: int) returns (res: Node?, del: Node?)
    requires head == Root(t) && Wf(t) && Ordered(t)
    modifies Nodes(t)
    decreases t, 1
    ensures res == Root(Deleted(t, k).0) && del == Deleted(t, k).1
    ensures Wf(Deleted(t, k).0)
  {
    if head == null {
      return null, null;
    }
    var c := Cmp(k, head.key);
    if c < 0 {
      res, del := DelLeft(head, t, k);
    } else if c > 0 {
      res, del := DelRight(head, t, k);
    } else {
      res, del := DelHere(head, t);
    }
  }

  /** The branch of avl_node_del that descends left. */
  method DelLeft(head: Node, ghost t: Shape, k: int) returns (res: Node, del: Node?)
    requires t.Br? && head == t.node && Wf(t) && Ordered(t) && k < head.key
    modifies Nodes(t)
    decreases t, 0
    ensures Deleted(t, k).0.Br? && res == Deleted(t, k).0.node && del == Deleted(t, k).1
    ensures Wf(Deleted(t, k).0)
  {
    ghost var a, b := t.left, t.right;
    DelLeftFacts(t, k);
    assert Wf(a) && Wf(b);
    var x;
    x, del := NodeDel(head.l, a, k);
    WfKept(b, Nodes(a));
    res := RelinkLeft(head, x, Deleted(a, k).0, b);
  }

  /** The branch of avl_node_del that descends right. */
  method DelRight(head: Node, ghost t: Shape, k: int) returns (res: Node, del: Node?)
    requires t.Br? && head == t.node && Wf(t) && Ordered(t) && k > head.key
    modifies Nodes(t)
    decreases t, 0
    ensures Deleted(t, k).0.Br? && res == Deleted(t, k).0.node && del == Deleted(t, k).1
    ensures Wf(Deleted(t, k).0)
  {
    ghost var a, b := t.left, t.right;
    DelRightFacts(t, k);
    assert Wf(a) && Wf(b);
    var x;
    x, del := NodeDel(head.r, b, k);
    WfKept(a, Nodes(b));
    res := RelinkRight(head, x, a, Deleted(b, k).0);
  }

  /** The branch of avl_node_del at the matched node: without a right child
      the left subtree takes its place; otherwise the leftmost node f of the
      right subtree is unlinked there and adopts both sides. */
  method DelHere(head: Node, ghost t: Shape) returns (res: Node?, del: Node)
    requires t.Br? && head == t.node && Wf(t) && Ordered(t)
    modifies Nodes(t)
    ensures res == Root(Deleted(t, head.key).0) && del == Deleted(t, head.key).1
    ensures Wf(Deleted(t, head.key).0)
  {
    ghost var a, b := t.left, t.right;
    assert Wf(a) && Wf(b);
    var l := head.l;
    var r := head.r;
    del := head;
    if r == null {
      return l, del;
    }
    DelHereFacts(t);
    Alloc(b);
    var f := Leftmost(r, b);
    var x := FirstDel(r, b);
    WfKept(a, Nodes(b));
    res := Splice(f, x, l, a, WithoutMin(b));
  }

  /** The successor f takes the place of the removed node: it adopts the
      rest of the right subtree w and then the left subtree a, and is
      rebalanced. */
  method Splice(f: Node, x: Node?, l: Node?, ghost a: Shape, ghost w: Shape) returns (res: Node)
    requires x == Root(w) && l == Root(a) && Wf(a) && Wf(w) && Unique(Br(a, f, w))
    modifies Nodes(Br(a, f, w))
    ensures res == Rebalanced(Br(a, f, w)).node
    ensures Wf(Rebalanced(Br(a, f, w)))
  {
    RootApart(a);
    RootApart(w);
    f.r := x;
    if f.r != null {
      f.r.p := f;
    }
    f.l := l;
    if f.l != null {
      f.l.p := f;
    }
    WfKept(a, {f} + Opt(x) + Opt(l));
    WfKept(w, {f} + Opt(x) + Opt(l));
    res := Fix(f, Br(a, f, w));
  }
}
