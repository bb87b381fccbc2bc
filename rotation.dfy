/**
 * The rotations avl_rot_r and avl_rot_l and the rebalancing step avl_fix,
 * as methods on linked nodes, each proved to leave behind the shape that
 * the corresponding function of Shapes describes, well formed.
 */
module Rotation {
  import opened Linkage
  import opened Shapes

  /** The distinctness facts a right rotation at t relies on. */
  lemma RightRotationApart(t: Shape)
    requires t.Br? && t.left.Br? && Unique(t)
    ensures Unique(t.left.left) && Unique(t.left.right) && Unique(t.right)
    ensures t.node != t.left.node
    ensures t.node !in Nodes(t.left.left) && t.node !in Nodes(t.left.right) && t.node !in Nodes(t.right)
    ensures t.left.node !in Nodes(t.left.left) && t.left.node !in Nodes(t.left.right) && t.left.node !in Nodes(t.right)
    ensures Nodes(t.left.left) !! Nodes(t.left.right) && Nodes(t.left.left) !! Nodes(t.right)
    ensures Nodes(t.left.right) !! Nodes(t.right)
    ensures Below(t.left.left) !! {t.node, t.left.node} + Opt(Root(t.left.right))
    ensures Below(t.right) !! {t.node, t.left.node} + Opt(Root(t.left.right))
    ensures Below(t.left.right) !! {t.node, t.left.node} + Opt(Root(t.left.right))
    ensures Opt(Root(t.left.left)) !! {t.node, t.left.node} + Opt(Root(t.left.right))
    ensures Opt(Root(t.right)) !! {t.node, t.left.node} + Opt(Root(t.left.right))
  {
    RootApart(t.left.right);
  }

  /** The distinctness facts a left rotation at t relies on. */
  lemma LeftRotationApart(t: Shape)
    requires t.Br? && t.right.Br? && Unique(t)
    ensures Unique(t.left) && Unique(t.right.left) && Unique(t.right.right)
    ensures t.node != t.right.node
    ensures t.node !in Nodes(t.left) && t.node !in Nodes(t.right.left) && t.node !in Nodes(t.right.right)
    ensures t.right.node !in Nodes(t.left) && t.right.node !in Nodes(t.right.left) && t.right.node !in Nodes(t.right.right)
    ensures Nodes(t.left) !! Nodes(t.right.left) && Nodes(t.left) !! Nodes(t.right.right)
    ensures Nodes(t.right.left) !! Nodes(t.right.right)
    ensures Below(t.left) !! {t.node, t.right.node} + Opt(Root(t.right.left))
    ensures Below(t.right.right) !! {t.node, t.right.node} + Opt(Root(t.right.left))
    ensures Below(t.right.left) !! {t.node, t.right.node} + Opt(Root(t.right.left))
    ensures Opt(Root(t.left)) !! {t.node, t.right.node} + Opt(Root(t.right.left))
    ensures Opt(Root(t.right.right)) !! {t.node, t.right.node} + Opt(Root(t.right.left))
  {
    RootApart(t.right.left);
  }

  /** After the pointer and height updates of avl_rot_r the rotated shape is
      well formed, given that only the old root, its left child and the root
      of the moved middle subtree (the nodes in m) were touched. */
  twostate lemma RightRotationWf(t: Shape, new m: set<Node>)
    requires t.Br? && t.left.Br? && Unique(t)
    requires m == {t.node, t.left.node} + Opt(Root(t.left.right))
    requires old(LinkedAt(t)) && old(Wf(t.left)) && old(Wf(t.right))
    requires forall o: Node {:trigger o in m} :: old(allocated(o)) && o !in m ==> unchanged(o)
    requires t.node.l == Root(t.left.right) && t.node.r == Root(t.right) && t.node.p == t.left.node
    requires t.left.node.l == Root(t.left.left) && t.left.node.r == t.node
    requires t.left.right.Br? ==> t.left.right.node.p == t.node
    requires t.left.right.Br? ==> unchanged(t.left.right.node`l, t.left.right.node`r, t.left.right.node`h)
    requires t.node.h == 1 + Max(Height(t.left.right), Height(t.right))
    requires t.left.node.h == 1 + Max(Height(t.left.left), t.node.h)
    ensures Wf(RotatedRight(t))
  {
    ghost var a, b, c := t.left.left, t.left.right, t.right;
    RightRotationApart(t);
    assert old(Wf(a)) && old(Wf(b));
    WfKept(a, m);
    WfKept(b, m);
    WfKept(c, m);
    WfJoin(b, t.node, c);
    WfJoin(a, t.left.node, Br(b, t.node, c));
  }

  /** Mirror image of RightRotationWf for avl_rot_l. */
  twostate lemma LeftRotationWf(t: Shape, new m: set<Node>)
    requires t.Br? && t.right.Br? && Unique(t)
    requires m == {t.node, t.right.node} + Opt(Root(t.right.left))
    requires old(LinkedAt(t)) && old(Wf(t.left)) && old(Wf(t.right))
    requires forall o: Node {:trigger o in m} :: old(allocated(o)) && o !in m ==> unchanged(o)
    requires t.node.r == Root(t.right.left) && t.node.l == Root(t.left) && t.node.p == t.right.node
    requires t.right.node.r == Root(t.right.right) && t.right.node.l == t.node
    requires t.right.left.Br? ==> t.right.left.node.p == t.node
    requires t.right.left.Br? ==> unchanged(t.right.left.node`l, t.right.left.node`r, t.right.left.node`h)
    requires t.node.h == 1 + Max(Height(t.left), Height(t.right.left))
    requires t.right.node.h == 1 + Max(t.node.h, Height(t.right.right))
    ensures Wf(RotatedLeft(t))
  {
    ghost var a, b, c := t.left, t.right.left, t.right.right;
    LeftRotationApart(t);
    assert old(Wf(b)) && old(Wf(c));
    WfKept(a, m);
    WfKept(b, m);
    WfKept(c, m);
    WfJoin(a, t.node, b);
    WfJoin(Br(a, t.node, b), t.right.node, c);
  }

  /** avl_rot_r: promote the left child l of r; r takes over l's right
      subtree, l inherits r's parent reference and both heights are
      recomputed. Touches only r, l and the moved subtree's parent link. */
  method RotR(r: Node, ghost t: Shape) returns (l: Node)
    requires t.Br? && t.node == r && t.left.Br?
    requires LinkedAt(t) && Wf(t.left) && Wf(t.right) && Unique(t)
    modifies r, t.left.node, Opt(Root(t.left.right))`p
    ensures l == t.left.node && l.p == old(r.p)
    ensures Wf(RotatedRight(t))
  {
    ghost var a, b, c := t.left.left, t.left.right, t.right;
    RightRotationApart(t);
    StoredHeight(a);
    StoredHeight(b);
    StoredHeight(c);
    l := r.l;
    r.l := l.r;
    if l.r != null {
      l.r.p := r;
    }
    l.r := r;
    l.p := r.p;
    r.p := l;
    FixH(r);
    FixH(l);
    RightRotationWf(t, {t.node, t.left.node} + Opt(Root(t.left.right)));
  }

  /** avl_rot_l: promote the right child r of l, the mirror image of RotR. */
  method RotL(l: Node, ghost t: Shape) returns (r: Node)
    requires t.Br? && t.node == l && t.right.Br?
    requires LinkedAt(t) && Wf(t.left) && Wf(t.right) && Unique(t)
    modifies l, t.right.node, Opt(Root(t.right.left))`p
    ensures r == t.right.node && r.p == old(l.p)
    ensures Wf(RotatedLeft(t))
  {
    ghost var a, b, c := t.left, t.right.left, t.right.right;
    LeftRotationApart(t);
    StoredHeight(a);
    StoredHeight(b);
    StoredHeight(c);
    r := l.r;
    l.r := r.l;
    if r.l != null {
      r.l.p := l;
    }
    r.l := l;
    r.p := l.p;
    l.p := r;
    FixH(l);
    FixH(r);
    LeftRotationWf(t, {t.node, t.right.node} + Opt(Root(t.right.left)));
  }

  /** Between the two rotations of a double rotation at a right-heavy t:
      once the right child has been rotated right and relinked under t's
      root, the shape that the left rotation expects is well formed. */
  twostate lemma InnerRightWf(t: Shape, new m: set<Node>)
    requires t.Br? && t.right.Br? && t.right.left.Br? && Unique(t)
    requires m == {t.node} + Nodes(t.right)
    requires old(LinkedAt(t)) && old(Wf(t.left))
    requires forall o: Node {:trigger o in m} :: old(allocated(o)) && o !in m ==> unchanged(o)
    requires Wf(RotatedRight(t.right))
    requires t.node.l == Root(t.left) && t.node.r == t.right.left.node && t.right.left.node.p == t.node
    ensures Unique(Inner(t, RotatedRight(t.right), true))
    ensures LinkedAt(Inner(t, RotatedRight(t.right), true))
    ensures Wf(t.left) && Wf(RotatedRight(t.right))
  {
    OldAlloc(t);
    RotatedRightKeeps(t.right);
    WfKept(t.left, m);
  }

  /** Mirror image of InnerRightWf for a left-heavy t. */
  twostate lemma InnerLeftWf(t: Shape, new m: set<Node>)
    requires t.Br? && t.left.Br? && t.left.right.Br? && Unique(t)
    requires m == {t.node} + Nodes(t.left)
    requires old(LinkedAt(t)) && old(Wf(t.right))
    requires forall o: Node {:trigger o in m} :: old(allocated(o)) && o !in m ==> unchanged(o)
    requires Wf(RotatedLeft(t.left))
    requires t.node.r == Root(t.right) && t.node.l == t.left.right.node && t.left.right.node.p == t.node
    ensures Unique(Inner(t, RotatedLeft(t.left), false))
    ensures LinkedAt(Inner(t, RotatedLeft(t.left), false))
    ensures Wf(t.right) && Wf(RotatedLeft(t.left))
  {
    OldAlloc(t);
    RotatedLeftKeeps(t.left);
    WfKept(t.right, m);
  }

  /** The first step of a double rotation at a right-heavy node:
      rotate its right child right and hang the result back under it. */
  method RotRightChild(node: Node, ghost t: Shape)
    requires t.Br? && t.node == node && t.right.Br? && t.right.left.Br?
    requires LinkedAt(t) && Wf(t.left) && Wf(t.right) && Unique(t)
    modifies node`r, t.right.node, t.right.left.node, Opt(Root(t.right.left.right))`p
    ensures Nodes(Inner(t, RotatedRight(t.right), true)) == Nodes(t)
    ensures LinkedAt(Inner(t, RotatedRight(t.right), true)) && Unique(Inner(t, RotatedRight(t.right), true))
    ensures Wf(t.left) && Wf(RotatedRight(t.right))
  {
    ghost var b := t.right;
    assert Unique(b) && Unique(b.left);
    RotatedRightKeeps(b);
    node.r := RotR(node.r, b);
    InnerRightWf(t, {node} + Nodes(b));
  }

  /** The first step of a double rotation at a left-heavy node:
      rotate its left child left and hang the result back under it. */
  method RotLeftChild(node: Node, ghost t: Shape)
    requires t.Br? && t.node == node && t.left.Br? && t.left.right.Br?
    requires LinkedAt(t) && Wf(t.left) && Wf(t.right) && Unique(t)
    modifies node`l, t.left.node, t.left.right.node, Opt(Root(t.left.right.left))`p
    ensures Nodes(Inner(t, RotatedLeft(t.left), false)) == Nodes(t)
    ensures LinkedAt(Inner(t, RotatedLeft(t.left), false)) && Unique(Inner(t, RotatedLeft(t.left), false))
    ensures Wf(t.right) && Wf(RotatedLeft(t.left))
  {
    ghost var a := t.left;
    assert Unique(a) && Unique(a.right);
    RotatedLeftKeeps(a);
    node.l := RotL(node.l, a);
    InnerLeftWf(t, {node} + Nodes(a));
  }

  /** The right-heavy half of avl_fix: a left rotation at node, preceded by
      a right rotation at its right child when that child leans left. */
  method FixRightHeavy(node: Node, ghost t: Shape) returns (res: Node)
    requires t.Br? && t.node == node && Bal(t) > 1
    requires LinkedAt(t) && Wf(t.left) && Wf(t.right) && Unique(t)
    modifies Nodes(t)
    ensures res == Rebalanced(t).node && res.p == old(node.p)
    ensures Wf(Rebalanced(t))
  {
    StoredHeight(t.right);
    ghost var u := t;
    if GetB(node.r) < 0 {
      assert t.right.left.Br? && Opt(Root(t.right.left.right)) <= Nodes(t.right.left.right);
      assert Nodes(t.right.left.right) <= Nodes(t.right.left) <= Nodes(t.right) <= Nodes(t);
      RotRightChild(node, t);
      u := Inner(t, RotatedRight(t.right), true);
    }
    res := RotL(node, u);
  }

  /** The left-heavy half of avl_fix, the mirror image of FixRightHeavy. */
  method FixLeftHeavy(node: Node, ghost t: Shape) returns (res: Node)
    requires t.Br? && t.node == node && Bal(t) < -1
    requires LinkedAt(t) && Wf(t.left) && Wf(t.right) && Unique(t)
    modifies Nodes(t)
    ensures res == Rebalanced(t).node && res.p == old(node.p)
    ensures Wf(Rebalanced(t))
  {
    StoredHeight(t.left);
    ghost var u := t;
    if GetB(node.l) > 0 {
      assert t.left.right.Br? && Opt(Root(t.left.right.left)) <= Nodes(t.left.right.left);
      assert Nodes(t.left.right.left) <= Nodes(t.left.right) <= Nodes(t.left) <= Nodes(t);
      RotLeftChild(node, t);
      u := Inner(t, RotatedLeft(t.left), false);
    }
    res := RotR(node, u);
  }

  /** avl_fix: recompute the height of node and, if its children's heights
      differ by more than one, restore balance by a single or double
      rotation. Returns the new root of the subtree, which inherits node's
      parent reference. */
  method Fix(node: Node, ghost t: Shape) returns (res: Node)
    requires t.Br? && t.node == node
    requires LinkedAt(t) && Wf(t.left) && Wf(t.right) && Unique(t)
    modifies Nodes(t)
    ensures res == Rebalanced(t).node && res.p == old(node.p)
    ensures Wf(Rebalanced(t))
  {
    ghost var a, b := t.left, t.right;
    Alloc(t);
    StoredHeight(a);
    StoredHeight(b);
    FixH(node);
    ghost var m := {node};
    WfKept(a, m);
    WfKept(b, m);
    var bal := GetB(node);
    assert bal == Bal(t);
    if bal > 1 {
      res := FixRightHeavy(node, t);
    } else if bal < -1 {
      res := FixLeftHeavy(node, t);
    } else {
      res := node;
    }
  }
}
