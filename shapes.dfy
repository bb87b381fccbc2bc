/**
 * Pure specification of the AVL engine on ghost shapes. Each function
 * computes the shape that the corresponding routine of avltree.c leaves
 * behind; the lemmas state what those shapes satisfy (same in-order
 * sequence, key set updated, BST order kept, AVL balance restored, height
 * change bounded).
 */
module Shapes {
  import opened Linkage

  /** Shape after avl_rot_r: the left child is promoted. */
  ghost function RotatedRight(t: Shape): Shape
    requires t.Br? && t.left.Br?
  {
    Br(t.left.left, t.left.node, Br(t.left.right, t.node, t.right))
  }

  /** A right rotation keeps the in-order sequence. */
  lemma RotatedRightInOrder(t: Shape)
    requires t.Br? && t.left.Br?
    ensures InOrder(RotatedRight(t)) == InOrder(t)
  {
  }

  /** A right rotation keeps the nodes and the keys, BST order and the
      absence of repeated nodes. */
  lemma {:induction false} RotatedRightKeeps(t: Shape)
    requires t.Br? && t.left.Br?
    ensures Nodes(RotatedRight(t)) == Nodes(t) && Keys(RotatedRight(t)) == Keys(t)
    ensures Ordered(t) ==> Ordered(RotatedRight(t))
    ensures Unique(t) ==> Unique(RotatedRight(t))
  {
    var Br(Br(a, x, b), y, c) := t;
    if Ordered(t) {
      assert Ordered(t.left) && AllBelow(t.left, y.key);
      AboveMono(c, x.key, y.key);
      assert Ordered(Br(b, y, c));
    }
    if Unique(t) {
      assert Unique(t.left);
    }
  }

  /** Shape after avl_rot_l: the right child is promoted. */
  ghost function RotatedLeft(t: Shape): Shape
    requires t.Br? && t.right.Br?
  {
    Br(Br(t.left, t.node, t.right.left), t.right.node, t.right.right)
  }

  /** A left rotation keeps the in-order sequence. */
  lemma RotatedLeftInOrder(t: Shape)
    requires t.Br? && t.right.Br?
    ensures InOrder(RotatedLeft(t)) == InOrder(t)
  {
  }

  /** The mirror image of RotatedRightKeeps. */
  lemma {:induction false} RotatedLeftKeeps(t: Shape)
    requires t.Br? && t.right.Br?
    ensures Nodes(RotatedLeft(t)) == Nodes(t) && Keys(RotatedLeft(t)) == Keys(t)
    ensures Ordered(t) ==> Ordered(RotatedLeft(t))
    ensures Unique(t) ==> Unique(RotatedLeft(t))
  {
    var Br(a, x, Br(b, y, c)) := t;
    if Ordered(t) {
      assert Ordered(t.right) && AllAbove(t.right, x.key);
      BelowMono(a, x.key, y.key);
      assert Ordered(Br(a, x, b));
    }
    if Unique(t) {
      assert Unique(t.right);
    }
  }

  /** Balance factor of a non-empty shape: right height minus left height. */
  ghost function Bal(t: Shape): int
    requires t.Br?
  {
    Height(t.right) - Height(t.left)
  }

  /** t with one child replaced by c. */
  ghost function Inner(t: Shape, c: Shape, right: bool): Shape
    requires t.Br?
  {
    if right then Br(t.left, t.node, c) else Br(c, t.node, t.right)
  }

  /** Shape after avl_fix: a single rotation when the heavy child leans the
      same way, a double rotation when it leans the opposite way. */
  ghost function Rebalanced(t: Shape): Shape
    requires t.Br?
  {
    if Bal(t) > 1 then
      RotatedLeft(if Bal(t.right) < 0 then Inner(t, RotatedRight(t.right), true) else t)
    else if Bal(t) < -1 then
      RotatedRight(if Bal(t.left) > 0 then Inner(t, RotatedLeft(t.left), false) else t)
    else
      t
  }

  /** Rebalancing keeps the in-order sequence. */
  lemma {:induction false} RebalancedInOrder(t: Shape)
    requires t.Br?
    ensures InOrder(Rebalanced(t)) == InOrder(t)
  {
    var Br(a, n, b) := t;
    if Bal(t) > 1 {
      var u := t;
      if Bal(b) < 0 {
        RotatedRightInOrder(b);
        u := Inner(t, RotatedRight(b), true);
      }
      RotatedLeftInOrder(u);
    } else if Bal(t) < -1 {
      var u := t;
      if Bal(a) > 0 {
        RotatedLeftInOrder(a);
        u := Inner(t, RotatedLeft(a), false);
      }
      RotatedRightInOrder(u);
    }
  }

  /** Rebalancing keeps the nodes, the keys, BST order and the absence of
      repeated nodes. */
  lemma {:induction false} RebalancedKeeps(t: Shape)
    requires t.Br?
    ensures Rebalanced(t).Br?
    ensures Nodes(Rebalanced(t)) == Nodes(t) && Keys(Rebalanced(t)) == Keys(t)
    ensures Ordered(t) ==> Ordered(Rebalanced(t))
    ensures Unique(t) ==> Unique(Rebalanced(t))
  {
    var Br(a, n, b) := t;
    if Bal(t) > 1 {
      var u := t;
      if Bal(b) < 0 {
        RotatedRightKeeps(b);
        var c := RotatedRight(b);
        SameKeysBounds(c, b, n.key);
        u := Inner(t, c, true);
      }
      RotatedLeftKeeps(u);
    } else if Bal(t) < -1 {
      var u := t;
      if Bal(a) > 0 {
        RotatedLeftKeeps(a);
        var c := RotatedLeft(a);
        SameKeysBounds(c, a, n.key);
        u := Inner(t, c, false);
      }
      RotatedRightKeeps(u);
    }
  }

  /** Rebalancing changes neither the nodes nor the keys. */
  lemma RebalancedNodes(t: Shape)
    requires t.Br?
    ensures Nodes(Rebalanced(t)) == Nodes(t) && Keys(Rebalanced(t)) == Keys(t)
  {
    RebalancedKeeps(t);
  }

  /** Rebalancing a right-heavy node by two whose children are AVL trees. */
  lemma RebalancedRightHeavy(t: Shape)
    requires t.Br? && Balanced(t.left) && Balanced(t.right) && Bal(t) == 2
    ensures Balanced(Rebalanced(t))
    ensures Height(t.right) <= Height(Rebalanced(t)) <= Height(t)
  {
    var Br(a, n, b) := t;
    var Br(c, m, d) := b;
    if Bal(b) < 0 {
      var Br(c1, q, c2) := c;
      var u := Br(Br(a, n, c1), q, Br(c2, m, d));
      assert Rebalanced(t) == u;
      assert Height(u.left) == Height(a) + 1;
      assert Height(u.right) == Height(a) + 1;
    } else {
      var u := Br(Br(a, n, c), m, d);
      assert Rebalanced(t) == u;
      assert Height(u.left) == Height(c) + 1;
    }
  }

  /** Rebalancing a left-heavy node by two whose children are AVL trees. */
  lemma RebalancedLeftHeavy(t: Shape)
    requires t.Br? && Balanced(t.left) && Balanced(t.right) && Bal(t) == -2
    ensures Balanced(Rebalanced(t))
    ensures Height(t.left) <= Height(Rebalanced(t)) <= Height(t)
  {
    var Br(a, n, b) := t;
    var Br(c, m, d) := a;
    if Bal(a) > 0 {
      var Br(d1, q, d2) := d;
      var u := Br(Br(c, m, d1), q, Br(d2, n, b));
      assert Rebalanced(t) == u;
      assert Height(u.left) == Height(b) + 1;
      assert Height(u.right) == Height(b) + 1;
    } else {
      var u := Br(c, m, Br(d, n, b));
      assert Rebalanced(t) == u;
      assert Height(u.right) == Height(d) + 1;
    }
  }

  /** Rebalancing a node whose children are AVL trees with heights at most
      two apart yields an AVL tree; a node already in balance is left as it
      is, and the height is at least the taller child's and at most one more. */
  lemma RebalancedBalanced(t: Shape)
    requires t.Br? && Balanced(t.left) && Balanced(t.right) && -2 <= Bal(t) <= 2
    ensures Balanced(Rebalanced(t))
    ensures -1 <= Bal(t) <= 1 ==> Rebalanced(t) == t
    ensures Max(Height(t.left), Height(t.right)) <= Height(Rebalanced(t)) <= Height(t)
  {
    if Bal(t) == 2 {
      RebalancedRightHeavy(t);
    } else if Bal(t) == -2 {
      RebalancedLeftHeavy(t);
    }
  }

  /** Shape after avl_node_ins: descend by key, attach a fresh leaf for d, or
      put d in the place of the node with the same key; rebalance on the way
      back up. The second component is the displaced node (null if none). */
  ghost function Inserted(t: Shape, d: Node): (Shape, Node?)
  {
    match t
    case Nil => (Br(Nil, d, Nil), null)
    case Br(a, n, b) =>
      if d.key < n.key then
        var (a', o) := Inserted(a, d);
        (Rebalanced(Br(a', n, b)), o)
      else if d.key > n.key then
        var (b', o) := Inserted(b, d);
        (Rebalanced(Br(a, n, b')), o)
      else
        (Rebalanced(Br(a, d, b)), n)
  }

  /** t with node o replaced by d at its position, nothing else changed. */
  ghost function Replaced(t: Shape, o: Node, d: Node): Shape
  {
    match t
    case Nil => Nil
    case Br(a, n, b) => Br(Replaced(a, o, d), if n == o then d else n, Replaced(b, o, d))
  }

  lemma {:induction false} ReplacedAbsent(t: Shape, o: Node, d: Node)
    requires o !in Nodes(t)
    ensures Replaced(t, o, d) == t
  {
    match t
    case Nil =>
    case Br(a, n, b) =>
      ReplacedAbsent(a, o, d);
      ReplacedAbsent(b, o, d);
  }

  /** Insertion into a BST: the key set grows by d's key and order holds;
      the displaced node is null exactly when the key was absent, and
      otherwise is the resident node with d's key. */
  lemma {:induction false} InsertedOrdered(t: Shape, d: Node)
    requires Ordered(t)
    ensures var r := Inserted(t, d);
      r.0.Br? && Ordered(r.0) && Keys(r.0) == Keys(t) + {d.key} &&
      (r.1 == null <==> d.key !in Keys(t)) &&
      (r.1 != null ==> r.1 in Nodes(t) && r.1.key == d.key)
  {
    match t
    case Nil =>
    case Br(a, n, b) =>
      if d.key < n.key {
        InsertedOrdered(a, d);
        var (a', o) := Inserted(a, d);
        GrownLeft(t, a', d.key);
        RebalancedKeeps(Br(a', n, b));
        if d.key in Keys(b) {
          KeyAbove(b, n.key, d.key);
        }
      } else if d.key > n.key {
        InsertedOrdered(b, d);
        var (b', o) := Inserted(b, d);
        GrownRight(t, b', d.key);
        RebalancedKeeps(Br(a, n, b'));
        if d.key in Keys(a) {
          KeyBelow(a, n.key, d.key);
        }
      } else {
        assert Ordered(Br(a, d, b));
        RebalancedKeeps(Br(a, d, b));
      }
  }

  /** Replacing the left subtree of a BST by an ordered one that holds one
      more key, below the root's, keeps it ordered. */
  lemma GrownLeft(t: Shape, a': Shape, k: int)
    requires t.Br? && Ordered(t) && Ordered(a') && Keys(a') == Keys(t.left) + {k} && k < t.node.key
    ensures Ordered(Br(a', t.node, t.right))
  {
    BoundsKeys(t.left, t.node.key);
    BoundsKeys(a', t.node.key);
  }

  /** The mirror image of GrownLeft. */
  lemma GrownRight(t: Shape, b': Shape, k: int)
    requires t.Br? && Ordered(t) && Ordered(b') && Keys(b') == Keys(t.right) + {k} && t.node.key < k
    ensures Ordered(Br(t.left, t.node, b'))
  {
    BoundsKeys(t.right, t.node.key);
    BoundsKeys(b', t.node.key);
  }

  /** The node set after insertion: d is added, and the displaced node (if
      any) leaves. */
  lemma {:induction false} InsertedNodes(t: Shape, d: Node)
    requires Ordered(t)
    ensures var r := Inserted(t, d);
      Nodes(r.0) == (if r.1 == null then Nodes(t) + {d} else Nodes(t) - {r.1} + {d})
  {
    match t
    case Nil =>
    case Br(a, n, b) =>
      OrderedUnique(t);
      if d.key < n.key {
        InsertedNodes(a, d);
        InsertedOrdered(a, d);
        RebalancedNodes(Br(Inserted(a, d).0, n, b));
      } else if d.key > n.key {
        InsertedNodes(b, d);
        InsertedOrdered(b, d);
        RebalancedNodes(Br(a, n, Inserted(b, d).0));
      } else {
        RebalancedNodes(Br(a, d, b));
      }
  }

  /** Insertion into an AVL tree keeps it balanced and grows the height by at
      most one. */
  lemma {:induction false} InsertedBalanced(t: Shape, d: Node)
    requires Balanced(t)
    ensures Balanced(Inserted(t, d).0)
    ensures Height(t) <= Height(Inserted(t, d).0) <= Height(t) + 1
  {
    match t
    case Nil =>
    case Br(a, n, b) =>
      if d.key < n.key {
        InsertedBalanced(a, d);
        GrownRebalanced(t, Br(Inserted(a, d).0, n, b));
      } else if d.key > n.key {
        InsertedBalanced(b, d);
        GrownRebalanced(t, Br(a, n, Inserted(b, d).0));
      } else {
        GrownRebalanced(t, Br(a, d, b));
      }
  }

  /** Rebalancing an AVL tree in which one subtree has gained at most one
      level yields an AVL tree at most one level higher. */
  lemma GrownRebalanced(t: Shape, u: Shape)
    requires t.Br? && u.Br? && Balanced(t) && Balanced(u.left) && Balanced(u.right)
    requires (u.left == t.left && Height(t.right) <= Height(u.right) <= Height(t.right) + 1) ||
             (u.right == t.right && Height(t.left) <= Height(u.left) <= Height(t.left) + 1)
    ensures Balanced(Rebalanced(u))
    ensures Height(t) <= Height(Rebalanced(u)) <= Height(t) + 1
  {
    RebalancedBalanced(u);
  }

  /** With a collision in an AVL tree the only change insertion makes is
      that d takes the displaced node's place. */
  lemma {:induction false} InsertedReplaces(t: Shape, d: Node)
    requires Ordered(t) && Balanced(t) && Inserted(t, d).1 != null
    ensures Inserted(t, d).0 == Replaced(t, Inserted(t, d).1, d)
    ensures Height(Inserted(t, d).0) == Height(t)
  {
    match t
    case Br(a, n, b) =>
      OrderedUnique(t);
      if d.key < n.key {
        var (a', o) := Inserted(a, d);
        InsertedReplaces(a, d);
        InsertedOrdered(a, d);
        assert -1 <= Bal(Br(a', n, b)) <= 1;
        assert Rebalanced(Br(a', n, b)) == Br(a', n, b);
        ReplacedAbsent(b, o, d);
      } else if d.key > n.key {
        var (b', o) := Inserted(b, d);
        InsertedReplaces(b, d);
        InsertedOrdered(b, d);
        assert -1 <= Bal(Br(a, n, b')) <= 1;
        assert Rebalanced(Br(a, n, b')) == Br(a, n, b');
        ReplacedAbsent(a, o, d);
      } else {
        assert -1 <= Bal(Br(a, d, b)) <= 1;
        assert Rebalanced(Br(a, d, b)) == Br(a, d, b);
        ReplacedAbsent(a, n, d);
        ReplacedAbsent(b, n, d);
      }
  }

  /** Inserting a node that is already in the tree changes nothing and
      displaces that very node. */
  lemma {:induction false} InsertedResident(t: Shape, d: Node)
    requires Ordered(t) && Balanced(t) && d in Nodes(t)
    ensures Inserted(t, d) == (t, d)
  {
    InsertedOrdered(t, d);
    NodeKey(t, d);
    InsertedReplaces(t, d);
    var o := Inserted(t, d).1;
    KeyDetermines(t, o, d);
    ReplacedSame(t, d);
  }

  lemma {:induction false} ReplacedSame(t: Shape, d: Node)
    ensures Replaced(t, d, d) == t
  {
    match t
    case Nil =>
    case Br(a, n, b) =>
      ReplacedSame(a, d);
      ReplacedSame(b, d);
  }

  /** The leftmost node: the one avl_leftmost reaches. */
  ghost function MinNode(t: Shape): (m: Node)
    requires t.Br?
    ensures m in Nodes(t)
  {
    if t.left.Nil? then t.node else MinNode(t.left)
  }

  /** The leftmost node comes first in in-order. */
  lemma {:induction false} MinNodeFirst(t: Shape)
    requires t.Br?
    ensures InOrder(t) != [] && MinNode(t) == InOrder(t)[0]
  {
    if t.left.Br? {
      MinNodeFirst(t.left);
    }
  }

  /** The rightmost node. */
  ghost function MaxNode(t: Shape): (m: Node)
    requires t.Br?
    ensures m in Nodes(t)
  {
    if t.right.Nil? then t.node else MaxNode(t.right)
  }

  /** The rightmost node comes last in in-order. */
  lemma {:induction false} MaxNodeLast(t: Shape)
    requires t.Br?
    ensures InOrder(t) != [] && MaxNode(t) == InOrder(t)[|InOrder(t)| - 1]
  {
    if t.right.Br? {
      MaxNodeLast(t.right);
    }
  }

  /** In a BST the leftmost node holds the least key. */
  lemma {:induction false} MinLeast(t: Shape, k: int)
    requires t.Br? && Ordered(t) && k in Keys(t)
    ensures MinNode(t).key <= k
  {
    var Br(a, n, b) := t;
    if k in Keys(b) {
      KeyAbove(b, n.key, k);
    }
    if a.Br? {
      var m := MinNode(a);
      NodeKey(a, m);
      KeyBelow(a, n.key, m.key);
      if k in Keys(a) {
        MinLeast(a, k);
      }
    }
  }

  /** In a BST the rightmost node holds the greatest key. */
  lemma {:induction false} MaxGreatest(t: Shape, k: int)
    requires t.Br? && Ordered(t) && k in Keys(t)
    ensures k <= MaxNode(t).key
  {
    var Br(a, n, b) := t;
    if k in Keys(a) {
      KeyBelow(a, n.key, k);
    }
    if b.Br? {
      var m := MaxNode(b);
      NodeKey(b, m);
      KeyAbove(b, n.key, m.key);
      if k in Keys(b) {
        MaxGreatest(b, k);
      }
    }
  }

  /** Shape after avl_first_del: the leftmost node is unlinked, its right
      subtree takes its place, and every node on the way is rebalanced. */
  ghost function WithoutMin(t: Shape): Shape
    requires t.Br?
  {
    if t.left.Nil? then t.right else Rebalanced(Br(WithoutMin(t.left), t.node, t.right))
  }

  /** Removing the minimum drops the first node of the in-order sequence. */
  lemma {:induction false} WithoutMinInOrder(t: Shape)
    requires t.Br?
    ensures InOrder(WithoutMin(t)) == InOrder(t)[1..]
  {
    var Br(a, n, b) := t;
    if a.Br? {
      WithoutMinInOrder(a);
      RebalancedInOrder(Br(WithoutMin(a), n, b));
      assert InOrder(a)[1..] + [n] + InOrder(b) == (InOrder(a) + [n] + InOrder(b))[1..];
    }
  }

  /** Removing the minimum of an AVL tree keeps it balanced and lowers the
      height by at most one. */
  lemma {:induction false} WithoutMinFacts(t: Shape)
    requires t.Br? && Balanced(t)
    ensures Balanced(WithoutMin(t))
    ensures Height(t) - 1 <= Height(WithoutMin(t)) <= Height(t)
  {
    var Br(a, n, b) := t;
    if a.Br? {
      WithoutMinFacts(a);
      RebalancedBalanced(Br(WithoutMin(a), n, b));
    }
  }

  /** Shape after avl_node_del: descend by key; at the match, either the left
      subtree takes the node's place (no right child) or the leftmost node f
      of the right subtree is unlinked and spliced in, adopting the left
      subtree and the rest of the right one; rebalance on the way back up.
      The second component is the removed node (null if the key is absent). */
  ghost function Deleted(t: Shape, k: int): (Shape, Node?)
  {
    match t
    case Nil => (Nil, null)
    case Br(a, n, b) =>
      if k < n.key then
        var (a', x) := Deleted(a, k);
        (Rebalanced(Br(a', n, b)), x)
      else if k > n.key then
        var (b', x) := Deleted(b, k);
        (Rebalanced(Br(a, n, b')), x)
      else if b.Nil? then
        (a, n)
      else
        (Rebalanced(Br(a, MinNode(b), WithoutMin(b))), n)
  }

  /** Deletion from a BST: the key leaves the key set and order holds. */
  lemma {:induction false} DeletedOrdered(t: Shape, k: int)
    requires Ordered(t)
    ensures Ordered(Deleted(t, k).0) && Keys(Deleted(t, k).0) == Keys(t) - {k}
  {
    match t
    case Nil =>
    case Br(a, n, b) =>
      if k < n.key {
        DeletedOrdered(a, k);
        ShrunkLeft(t, Deleted(a, k).0);
        RebalancedKeeps(Br(Deleted(a, k).0, n, b));
        if k in Keys(b) {
          KeyAbove(b, n.key, k);
        }
      } else if k > n.key {
        DeletedOrdered(b, k);
        ShrunkRight(t, Deleted(b, k).0);
        RebalancedKeeps(Br(a, n, Deleted(b, k).0));
        if k in Keys(a) {
          KeyBelow(a, n.key, k);
        }
      } else if b.Br? {
        DeletedSplice(t);
        RebalancedKeeps(Br(a, MinNode(b), WithoutMin(b)));
      } else if n.key in Keys(a) {
        KeyBelow(a, n.key, n.key);
      }
  }

  /** The removed node is null exactly when the key was absent, and
      otherwise is the node with that key, the only node that leaves. */
  lemma {:induction false} DeletedNode(t: Shape, k: int)
    requires Ordered(t)
    ensures (Deleted(t, k).1 == null) == (k !in Keys(t))
    ensures Deleted(t, k).1 != null ==> Deleted(t, k).1 in Nodes(t) && Deleted(t, k).1.key == k
    ensures Nodes(Deleted(t, k).0) == Nodes(t) - Opt(Deleted(t, k).1)
  {
    match t
    case Nil =>
    case Br(a, n, b) =>
      OrderedUnique(t);
      if k < n.key {
        DeletedNode(a, k);
        var (a', x) := Deleted(a, k);
        SubtreeLoses(t, a', x, false);
        if k in Keys(b) {
          KeyAbove(b, n.key, k);
        }
      } else if k > n.key {
        DeletedNode(b, k);
        var (b', x) := Deleted(b, k);
        SubtreeLoses(t, b', x, true);
        if k in Keys(a) {
          KeyBelow(a, n.key, k);
        }
      } else if b.Br? {
        DeletedSplice(t);
        RebalancedKeeps(Br(a, MinNode(b), WithoutMin(b)));
      }
  }

  /** When a subtree loses the node x (if any), the rebalanced whole loses
      exactly x. */
  lemma SubtreeLoses(t: Shape, c: Shape, x: Node?, right: bool)
    requires t.Br? && Unique(t)
    requires Nodes(c) == Nodes(if right then t.right else t.left) - Opt(x)
    requires x != null ==> x in Nodes(if right then t.right else t.left)
    ensures Nodes(Rebalanced(Inner(t, c, right))) == Nodes(t) - Opt(x)
  {
    RebalancedKeeps(Inner(t, c, right));
  }

  /** When a subtree of a BST loses the key k, the rebalanced whole loses
      exactly k and stays ordered. */
  lemma SubtreeLosesKey(t: Shape, c: Shape, k: int, right: bool)
    requires t.Br? && Ordered(t) && Ordered(Inner(t, c, right))
    requires Keys(c) == Keys(if right then t.right else t.left) - {k}
    requires k != t.node.key && k !in Keys(if right then t.left else t.right)
    ensures Keys(Rebalanced(Inner(t, c, right))) == Keys(t) - {k}
    ensures Ordered(Rebalanced(Inner(t, c, right)))
  {
    RebalancedKeeps(Inner(t, c, right));
  }

  /** Replacing the left subtree of a BST by an ordered one with fewer keys
      keeps it ordered. */
  lemma ShrunkLeft(t: Shape, a': Shape)
    requires t.Br? && Ordered(t) && Ordered(a') && Keys(a') <= Keys(t.left)
    ensures Ordered(Br(a', t.node, t.right))
  {
    BoundsSubset(a', t.left, t.node.key);
  }

  /** The mirror image of ShrunkLeft. */
  lemma ShrunkRight(t: Shape, b': Shape)
    requires t.Br? && Ordered(t) && Ordered(b') && Keys(b') <= Keys(t.right)
    ensures Ordered(Br(t.left, t.node, b'))
  {
    BoundsSubset(b', t.right, t.node.key);
  }

  /** The splice at a matched node with a right subtree: the successor f
      adopts both sides, and only the matched node leaves. */
  lemma {:induction false} DeletedSplice(t: Shape)
    requires t.Br? && t.right.Br? && Ordered(t)
    ensures var u := Br(t.left, MinNode(t.right), WithoutMin(t.right));
      Ordered(u) && Keys(u) == Keys(t) - {t.node.key} && Nodes(u) == Nodes(t) - {t.node}
  {
    var Br(a, n, b) := t;
    OrderedUnique(t);
    WithoutMinKeys(b);
    WithoutMinAbove(b);
    var f := MinNode(b);
    NodeKey(b, f);
    KeyAbove(b, n.key, f.key);
    BelowMono(a, n.key, f.key);
    if n.key in Keys(a) {
      KeyBelow(a, n.key, n.key);
    }
    if n.key in Keys(b) {
      KeyAbove(b, n.key, n.key);
    }
  }

  /** What remains after removing the minimum lies above it. */
  lemma {:induction false} WithoutMinAbove(t: Shape)
    requires t.Br? && Ordered(t)
    ensures AllAbove(WithoutMin(t), MinNode(t).key)
  {
    var u := WithoutMin(t);
    var m := MinNode(t);
    WithoutMinKeys(t);
    forall k | k in Keys(u)
      ensures m.key < k
    {
      MinLeast(t, k);
    }
    BoundsKeys(u, m.key);
  }

  /** Removing the minimum: exactly that node and its key go, order holds. */
  lemma {:induction false} WithoutMinKeys(t: Shape)
    requires t.Br? && Ordered(t)
    ensures Ordered(WithoutMin(t))
    ensures Keys(WithoutMin(t)) == Keys(t) - {MinNode(t).key}
    ensures Nodes(WithoutMin(t)) == Nodes(t) - {MinNode(t)}
  {
    OrderedUnique(t);
    var Br(a, n, b) := t;
    if a.Br? {
      WithoutMinKeys(a);
      var f := MinNode(a);
      NodeKey(a, f);
      KeyBelow(a, n.key, f.key);
      if f.key in Keys(b) {
        KeyAbove(b, n.key, f.key);
      }
      ShrunkLeft(t, WithoutMin(a));
      SubtreeLoses(t, WithoutMin(a), f, false);
      SubtreeLosesKey(t, WithoutMin(a), f.key, false);
    } else if n.key in Keys(b) {
      KeyAbove(b, n.key, n.key);
    }
  }

  /** Deletion from an AVL tree keeps it balanced and lowers the height by
      at most one. */
  lemma {:induction false} DeletedBalanced(t: Shape, k: int)
    requires Balanced(t)
    ensures Balanced(Deleted(t, k).0)
    ensures Height(t) - 1 <= Height(Deleted(t, k).0) <= Height(t)
  {
    match t
    case Nil =>
    case Br(a, n, b) =>
      if k < n.key {
        DeletedBalanced(a, k);
        ShrunkRebalanced(t, Br(Deleted(a, k).0, n, b));
      } else if k > n.key {
        DeletedBalanced(b, k);
        ShrunkRebalanced(t, Br(a, n, Deleted(b, k).0));
      } else if b.Br? {
        WithoutMinFacts(b);
        ShrunkRebalanced(t, Br(a, MinNode(b), WithoutMin(b)));
      }
  }

  /** Rebalancing an AVL tree in which one subtree has lost at most one
      level yields an AVL tree at most one level lower. */
  lemma ShrunkRebalanced(t: Shape, u: Shape)
    requires t.Br? && u.Br? && Balanced(t) && Balanced(u.left) && Balanced(u.right)
    requires (u.left == t.left && Height(t.right) - 1 <= Height(u.right) <= Height(t.right)) ||
             (u.right == t.right && Height(t.left) - 1 <= Height(u.left) <= Height(t.left))
    ensures Balanced(Rebalanced(u))
    ensures Height(t) - 1 <= Height(Rebalanced(u)) <= Height(t)
  {
    RebalancedBalanced(u);
  }

  /** Deleting an absent key from an AVL tree leaves the shape as it is. */
  lemma {:induction false} DeletedAbsent(t: Shape, k: int)
    requires Balanced(t) && Deleted(t, k).1 == null
    ensures Deleted(t, k).0 == t
  {
    match t
    case Nil =>
    case Br(a, n, b) =>
      if k < n.key {
        DeletedAbsent(a, k);
        assert Rebalanced(t) == t;
      } else if k > n.key {
        DeletedAbsent(b, k);
        assert Rebalanced(t) == t;
      }
  }

  /** The subtree of t whose root is the node x. */
  ghost function Sub(t: Shape, x: Node): (s: Shape)
    requires x in Nodes(t)
    ensures s.Br? && s.node == x
    ensures Nodes(s) <= Nodes(t) && Keys(s) <= Keys(t) && Height(s) <= Height(t)
    ensures Ordered(t) ==> Ordered(s)
  {
    match t
    case Br(a, n, b) =>
      if n == x then t else if x in Nodes(a) then Sub(a, x) else Sub(b, x)
  }

  /** The keys of a subtree form a contiguous range of the keys of the whole
      BST: every other key lies below its minimum or above its maximum. */
  lemma {:induction false} Contiguous(t: Shape, x: Node)
    requires Ordered(t) && x in Nodes(t)
    ensures forall k :: k in Keys(t) && k !in Keys(Sub(t, x)) ==>
      k < MinNode(Sub(t, x)).key || MaxNode(Sub(t, x)).key < k
  {
    var Br(a, n, b) := t;
    BoundsKeys(a, n.key);
    BoundsKeys(b, n.key);
    if n != x {
      var s := Sub(t, x);
      NodeKey(s, MinNode(s));
      NodeKey(s, MaxNode(s));
      if x in Nodes(a) {
        Contiguous(a, x);
      } else {
        OrderedUnique(t);
        Contiguous(b, x);
      }
    }
  }

  /** r holds the smallest key of t, or is null when t is empty. */
  ghost predicate Least(t: Shape, r: Node?)
  {
    if r == null then t.Nil?
    else r in Nodes(t) && forall k :: k in Keys(t) ==> r.key <= k
  }

  /** r holds the smallest key of t above x, or is null when there is none. */
  ghost predicate Successor(t: Shape, x: int, r: Node?)
  {
    if r == null then forall k :: k in Keys(t) ==> k <= x
    else r in Nodes(t) && x < r.key && forall k :: k in Keys(t) && x < k ==> r.key <= k
  }

  /** r holds the smallest key of t at or above x, or is null when there is none. */
  ghost predicate Ceiling(t: Shape, x: int, r: Node?)
  {
    if r == null then forall k :: k in Keys(t) ==> k < x
    else r in Nodes(t) && x <= r.key && forall k :: k in Keys(t) && x <= k ==> r.key <= k
  }
}
