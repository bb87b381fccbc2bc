/**
 * Insertion: avl_node_replace, the recursive avl_node_ins and the
 * rebalancing on the way back up, proved to build exactly the shape that
 * Shapes.Inserted describes.
 */
module Insertion {
  import opened Linkage
  import opened Shapes
  import opened Rotation

  /** avl_node_replace: n takes over o's links and height, o's children and
      parent are pointed at n, and o is left detached as a lone leaf. When n
      and o are the same record nothing happens. t is the subtree rooted at
      o; o's parent lies outside it. */
  method NodeReplace(n: Node, o: Node, ghost t: Shape)
    requires t.Br? && t.node == o && LinkedAt(t) && Unique(t)
    requires o.p != null ==> o.p !in Nodes(t)
    requires n != o ==> n !in Nodes(t) && n != o.p
    modifies n, o, Opt(o.l)`p, Opt(o.r)`p, Opt(o.p)`l, Opt(o.p)`r
    ensures n == o ==> unchanged(o) && unchanged(Opt(Root(t.left)), Opt(Root(t.right)), Opt(o.p))
    ensures n != o ==> n.l == Root(t.left) && n.r == Root(t.right) && n.p == old(o.p) && n.h == old(o.h)
    ensures n != o ==> ParentIs(t.left, n) && ParentIs(t.right, n)
    ensures n != o ==> o.l == null && o.r == null && o.p == null && o.h == 1
    ensures n != o && old(o.p) != null ==>
      if old(o.p.l) == o then old(o.p).l == n && old(o.p).r == old(o.p.r)
      else old(o.p).r == n && old(o.p).l == old(o.p.l)
  {
    if n == o {
      return;
    }
    RootApart(t.left);
    RootApart(t.right);
    n.l, n.r, n.p, n.h := o.l, o.r, o.p, o.h;
    if n.l != null {
      n.l.p := n;
    }
    if n.r != null {
      n.r.p := n;
    }
    if o.p != null {
      if o.p.l == o {
        o.p.l := n;
      } else {
        o.p.r := n;
      }
    }
    o.p, o.l, o.r := null, null, null;
    o.h := 1;
  }

  /** The shape facts the descent into the left subtree relies on: what the
      recursive call returns slots into place without clashing with the
      rest of the subtree. */
  lemma InsLeftFacts(t: Shape, d: Node)
    requires t.Br? && Ordered(t) && d.key < t.node.key
    ensures var (a', o) := Inserted(t.left, d);
      a'.Br? && Ordered(a') && Unique(a') && Unique(t) &&
      Nodes(a') <= Nodes(t.left) + {d} && (o != null ==> o in Nodes(t.left) && (o != d ==> o !in Nodes(a'))) &&
      t.node !in Nodes(a') && d !in Nodes(t.right) && Unique(Br(a', t.node, t.right)) &&
      Inserted(t, d) == (Rebalanced(Br(a', t.node, t.right)), o)
  {
    var Br(a, n, b) := t;
    OrderedUnique(t);
    InsertedOrdered(a, d);
    InsertedNodes(a, d);
    OrderedUnique(Inserted(a, d).0);
    if d in Nodes(b) {
      NodeKey(b, d);
      KeyAbove(b, n.key, d.key);
    }
  }

  /** Mirror image of InsLeftFacts for the right subtree. */
  lemma InsRightFacts(t: Shape, d: Node)
    requires t.Br? && Ordered(t) && d.key > t.node.key
    ensures var (b', o) := Inserted(t.right, d);
      b'.Br? && Ordered(b') && Unique(b') && Unique(t) &&
      Nodes(b') <= Nodes(t.right) + {d} && (o != null ==> o in Nodes(t.right) && (o != d ==> o !in Nodes(b'))) &&
      t.node !in Nodes(b') && d !in Nodes(t.left) && Unique(Br(t.left, t.node, b')) &&
      Inserted(t, d) == (Rebalanced(Br(t.left, t.node, b')), o)
  {
    var Br(a, n, b) := t;
    OrderedUnique(t);
    InsertedOrdered(b, d);
    InsertedNodes(b, d);
    OrderedUnique(Inserted(b, d).0);
    if d in Nodes(a) {
      NodeKey(a, d);
      KeyBelow(a, n.key, d.key);
    }
  }

  /** The shape facts the replacing branch relies on: a record with the key
      of t's root is either that very node or foreign to t. */
  lemma InsHereFacts(t: Shape, d: Node)
    requires t.Br? && Ordered(t) && d.key == t.node.key
    ensures Unique(t) && (d != t.node ==> d !in Nodes(t)) && Unique(Br(t.left, d, t.right))
    ensures Inserted(t, d) == (Rebalanced(Br(t.left, d, t.right)), t.node)
  {
    OrderedUnique(t);
    if d in Nodes(t) {
      NodeKey(t, d);
      KeyDetermines(t, d, t.node);
    }
  }

  /** avl_node_ins: insert d into the subtree rooted at h (the shape t) and
      return the new root of that subtree together with the node d
      displaced, if its key was already present. h's parent, if any, lies
      outside t and points at h; when d displaces h itself, that parent's
      link to h is redirected to d. */
  method NodeIns(h: Node?, ghost t: Shape, d: Node) returns (res: Node, displaced: Node?)
    requires h == Root(t) && Wf(t) && Ordered(t)
    requires h != null && h.p != null ==> h.p !in Nodes(t) && d != h.p && (h.p.l == h || h.p.r == h)
    modifies Nodes(t), d, Opt(if h == null then null else h.p)`l, Opt(if h == null then null else h.p)`r
    decreases t, 1
    ensures Inserted(t, d).0.Br? && res == Inserted(t, d).0.node && displaced == Inserted(t, d).1
    ensures Wf(Inserted(t, d).0)
    ensures res.p == (if h == null then null else old(h.p))
    ensures displaced != null && displaced != d ==>
      displaced.l == null && displaced.r == null && displaced.p == null && displaced.h == 1
    ensures h != null && old(h.p) != null ==>
      (old(h.p.l) != h ==> old(h.p).l == old(h.p.l)) && (old(h.p.r) != h ==> old(h.p).r == old(h.p.r))
  {
    if h == null {
      d.l, d.r, d.p := null, null, null;
      d.h := 1;
      return d, null;
    }
    var c := Cmp(d.key, h.key);
    if c < 0 {
      res, displaced := InsLeft(h, t, d);
    } else if c > 0 {
      res, displaced := InsRight(h, t, d);
    } else {
      res, displaced := InsHere(h, t, d);
    }
  }

  /** The branch of avl_node_ins that descends left: insert into the left
      subtree, hang the result back under h and rebalance at h. */
  method InsLeft(h: Node, ghost t: Shape, d: Node) returns (res: Node, displaced: Node?)
    requires t.Br? && h == t.node && Wf(t) && Ordered(t) && d.key < h.key
    requires h.p != null ==> h.p !in Nodes(t) && d != h.p
    modifies Nodes(t), d, Opt(h.p)`l, Opt(h.p)`r
    decreases t, 0
    ensures Inserted(t, d).0.Br? && res == Inserted(t, d).0.node && displaced == Inserted(t, d).1
    ensures Wf(Inserted(t, d).0)
    ensures res.p == old(h.p)
    ensures displaced != null && displaced != d ==>
      displaced.l == null && displaced.r == null && displaced.p == null && displaced.h == 1
    ensures old(h.p) != null ==> unchanged(old(h.p))
  {
    ghost var a, b := t.left, t.right;
    InsLeftFacts(t, d);
    ghost var a' := Inserted(a, d).0;
    var x;
    x, displaced := NodeIns(h.l, a, d);
    WfKept(b, Nodes(a) + {d, h});
    res := AttachLeft(h, x, a', b);
  }

  /** The branch of avl_node_ins that descends right, the mirror image of
      InsLeft. */
  method InsRight(h: Node, ghost t: Shape, d: Node) returns (res: Node, displaced: Node?)
    requires t.Br? && h == t.node && Wf(t) && Ordered(t) && d.key > h.key
    requires h.p != null ==> h.p !in Nodes(t) && d != h.p
    modifies Nodes(t), d, Opt(h.p)`l, Opt(h.p)`r
    decreases t, 0
    ensures Inserted(t, d).0.Br? && res == Inserted(t, d).0.node && displaced == Inserted(t, d).1
    ensures Wf(Inserted(t, d).0)
    ensures res.p == old(h.p)
    ensures displaced != null && displaced != d ==>
      displaced.l == null && displaced.r == null && displaced.p == null && displaced.h == 1
    ensures old(h.p) != null ==> unchanged(old(h.p))
  {
    ghost var a, b := t.left, t.right;
    InsRightFacts(t, d);
    ghost var b' := Inserted(b, d).0;
    var x;
    x, displaced := NodeIns(h.r, b, d);
    WfKept(a, Nodes(b) + {d, h});
    res := AttachRight(h, x, a, b');
  }

  /** The branch of avl_node_ins where h has d's key: d takes h's place by
      avl_node_replace, then avl_fix(d). */
  method InsHere(h: Node, ghost t: Shape, d: Node) returns (res: Node, displaced: Node?)
    requires t.Br? && h == t.node && Wf(t) && Ordered(t) && d.key == h.key
    requires h.p != null ==> h.p !in Nodes(t) && d != h.p && (h.p.l == h || h.p.r == h)
    modifies Nodes(t), d, Opt(h.p)`l, Opt(h.p)`r
    decreases t, 0
    ensures Inserted(t, d).0.Br? && res == Inserted(t, d).0.node && displaced == Inserted(t, d).1
    ensures Wf(Inserted(t, d).0)
    ensures res.p == old(h.p)
    ensures displaced != d ==> displaced.l == null && displaced.r == null && displaced.p == null && displaced.h == 1
    ensures old(h.p) != null ==>
      (old(h.p.l) != h ==> old(h.p).l == old(h.p.l)) && (old(h.p.r) != h ==> old(h.p).r == old(h.p.r))
  {
    ghost var a, b := t.left, t.right;
    InsHereFacts(t, d);
    displaced := h;
    NodeReplace(d, h, t);
    WfKept(a, {d, h} + Opt(old(h.p)) + Opt(Root(a)) + Opt(Root(b)));
    WfKept(b, {d, h} + Opt(old(h.p)) + Opt(Root(a)) + Opt(Root(b)));
    res := Fix(d, Br(a, d, b));
  }

  /** Hang the grown left subtree a' back under h, point its root back at h
      and rebalance there. */
  method AttachLeft(h: Node, x: Node, ghost a': Shape, ghost b: Shape) returns (res: Node)
    requires a'.Br? && x == a'.node && Wf(a') && Wf(b) && Unique(Br(a', h, b))
    requires h.r == Root(b) && ParentIs(b, h)
    modifies Nodes(Br(a', h, b))
    ensures res == Rebalanced(Br(a', h, b)).node && res.p == old(h.p)
    ensures Wf(Rebalanced(Br(a', h, b)))
  {
    RootApart(a');
    h.l := x;
    h.l.p := h;
    WfKept(a', {h, x});
    WfKept(b, {h, x});
    res := Fix(h, Br(a', h, b));
  }

  /** Hang the grown right subtree b' back under h and rebalance, the mirror
      image of AttachLeft. */
  method AttachRight(h: Node, x: Node, ghost a: Shape, ghost b': Shape) returns (res: Node)
    requires b'.Br? && x == b'.node && Wf(a) && Wf(b') && Unique(Br(a, h, b'))
    requires h.l == Root(a) && ParentIs(a, h)
    modifies Nodes(Br(a, h, b'))
    ensures res == Rebalanced(Br(a, h, b')).node && res.p == old(h.p)
    ensures Wf(Rebalanced(Br(a, h, b')))
  {
    RootApart(b');
    h.r := x;
    h.r.p := h;
    WfKept(a, {h, x});
    WfKept(b', {h, x});
    res := Fix(h, Br(a, h, b'));
  }
}
