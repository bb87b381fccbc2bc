/**
 * The tree handle t_avl_tree: a root reference over caller-owned records,
 * with the public operations avl_ins, avl_find, avl_find_right, avl_first,
 * avl_next, avl_del and avl_apply. A valid tree is a well-formed, ordered,
 * balanced linked structure whose root has no parent.
 */
module Tree {
  import opened Linkage
  import opened Shapes
  import opened Traversal
  import opened Insertion
  import opened Deletion

  class AvlTree {
    var root: Node?
    /** The linked structure below root, as a shape. */
    ghost var shape: Shape

    ghost predicate Valid()
      reads this, Nodes(shape)
    {
      root == Root(shape) && Wf(shape) && Ordered(shape) && Balanced(shape) &&
      (root != null ==> root.p == null)
    }

    /** avl_tree_new: an empty tree. */
    constructor ()
      ensures Valid() && shape == Nil
    {
      root := null;
      shape := Nil;
    }

    /** avl_ins: insert the record d; a record with the same key is displaced
        and returned (and left detached), otherwise null is returned. */
    method Ins(d: Node) returns (displaced: Node?)
      requires Valid()
      modifies this, Nodes(shape), d
      ensures Valid()
      ensures (shape, displaced) == Inserted(old(shape), d)
      ensures Keys(shape) == old(Keys(shape)) + {d.key}
      ensures displaced == null <==> d.key !in old(Keys(shape))
      ensures displaced == null ==> Nodes(shape) == old(Nodes(shape)) + {d}
      ensures displaced != null ==>
        displaced in old(Nodes(shape)) && displaced.key == d.key &&
        Nodes(shape) == old(Nodes(shape)) - {displaced} + {d}
      ensures displaced != null && displaced != d ==>
        displaced.l == null && displaced.r == null && displaced.p == null && displaced.h == 1
      ensures d in old(Nodes(shape)) ==> shape == old(shape) && displaced == d
    {
      ghost var s := shape;
      InsertedOrdered(s, d);
      InsertedNodes(s, d);
      InsertedBalanced(s, d);
      if d in Nodes(s) {
        InsertedResident(s, d);
      }
      var res;
      res, displaced := NodeIns(root, s, d);
      root := res;
      shape := Inserted(s, d).0;
    }

    /** avl_find: the record with key k, or null when there is none. */
    method Find(k: int) returns (r: Node?)
      requires Valid()
      ensures r == null <==> k !in Keys(shape)
      ensures r != null ==> r in Nodes(shape) && r.key == k
    {
      r := root;
      ghost var s := shape;
      while r != null
        invariant r == Root(s) && Wf(s) && Ordered(s) && Nodes(s) <= Nodes(shape)
        invariant k in Keys(shape) <==> k in Keys(s)
        decreases Height(s)
      {
        var c := Cmp(k, r.key);
        if c == 0 {
          break;
        }
        BoundsKeys(s.left, r.key);
        BoundsKeys(s.right, r.key);
        if c > 0 {
          r, s := r.r, s.right;
        } else {
          r, s := r.l, s.left;
        }
      }
      if r != null {
        assert r in Nodes(s);
        NodeKey(s, r);
      }
    }

    /** avl_find_right: the record with the least key at or above k, or null
        when every key is below k. The search remembers the last node it
        passed; when k is absent the answer is that node if the search last
        turned left there, and its successor otherwise. The comparison
        result starts at 0, which only matters for an empty tree, where both
        choices give null. */
    method FindRight(k: int) returns (r: Node?)
      requires Valid()
      ensures Ceiling(shape, k, r)
    {
      var res := 0;
      var x := root;
      var p := x;
      ghost var s := shape;
      ghost var lo: Node? := null;
      ghost var hi: Node? := null;
      while x != null
        invariant x == Root(s) && Wf(s) && Ordered(s) && Nodes(s) <= Nodes(shape) && Valid()
        invariant Window(shape, s, k, lo, hi)
        invariant res == 0 ==> s == shape && p == root
        invariant res > 0 ==> p == lo && lo != null
        invariant res < 0 ==> p == hi && hi != null
        decreases Height(s)
      {
        res := Cmp(k, x.key);
        if res == 0 {
          break;
        }
        p := x;
        if res > 0 {
          WindowRight(shape, s, k, lo, hi);
          lo := x;
          x, s := x.r, s.right;
        } else {
          WindowLeft(shape, s, k, lo, hi);
          hi := x;
          x, s := x.l, s.left;
        }
      }
      if x == null {
        if res < 0 {
          x := p;
        } else {
          x := NodeNext(p, shape);
          if res > 0 {
            CeilingAfter(shape, k, lo, hi, x);
          }
        }
      } else {
        assert x in Nodes(s);
      }
      r := x;
    }

    /** avl_first: the record with the least key, null for an empty tree;
        it heads the in-order sequence. */
    method First() returns (r: Node?)
      requires Valid()
      ensures Least(shape, r)
      ensures shape.Br? ==> r == InOrder(shape)[0]
    {
      r := Leftmost(root, shape);
      if r != null {
        forall k | k in Keys(shape)
          ensures r.key <= k
        {
          MinLeast(shape, k);
        }
        MinNodeFirst(shape);
      }
    }

    /** avl_next: the record following prev in key order, null after the
        last one or when prev is null. */
    method Next(prev: Node?) returns (r: Node?)
      requires Valid() && (prev == null || prev in Nodes(shape))
      ensures prev == null ==> r == null
      ensures prev != null ==> Successor(shape, prev.key, r)
    {
      r := NodeNext(prev, shape);
    }

    /** avl_del: remove the record with key k and return it, or null when
        there is none; the new root gets no parent. The removed record's own
        links are left as they were. */
    method Del(k: int) returns (del: Node?)
      requires Valid()
      modifies this, Nodes(shape)
      ensures Valid()
      ensures (shape, del) == Deleted(old(shape), k)
      ensures Keys(shape) == old(Keys(shape)) - {k}
      ensures del == null <==> k !in old(Keys(shape))
      ensures del != null ==> del in old(Nodes(shape)) && del.key == k
      ensures Nodes(shape) == old(Nodes(shape)) - Opt(del)
      ensures del == null ==> shape == old(shape)
    {
      ghost var s := shape;
      DeleteFacts(s, k);
      ghost var s' := Deleted(s, k).0;
      var res;
      res, del := NodeDel(root, s, k);
      root := res;
      Detach(root, s');
      shape := s';
    }

    /** avl_apply: the records the callback receives, in the order it
        receives them: every record once, by ascending key. */
    method Apply() returns (visited: seq<Node>)
      requires Valid()
      ensures visited == InOrder(shape)
      ensures forall i, j :: 0 <= i < j < |visited| ==> visited[i].key < visited[j].key
      ensures forall x :: x in Nodes(shape) ==> x in visited
      ensures forall i :: 0 <= i < |visited| ==> visited[i] in Nodes(shape)
    {
      visited := NodeApply(root, shape);
      InOrderAscending(shape);
      InOrderNodes(shape);
    }
  }

  /** The last step of avl_del: the new root of the whole tree gets no
      parent, which leaves the rest as it was. */
  method Detach(n: Node?, ghost u: Shape)
    requires n == Root(u) && Wf(u) && Opt(n) !! Below(u)
    modifies Opt(n)`p
    ensures Wf(u) && (n != null ==> n.p == null)
  {
    if n != null {
      n.p := null;
    }
  }

  /** Everything avl_del promises about the shape, gathered for the tree. */
  lemma DeleteFacts(t: Shape, k: int)
    requires Ordered(t) && Balanced(t)
    ensures var (u, x) := Deleted(t, k);
      Ordered(u) && Balanced(u) && Keys(u) == Keys(t) - {k} &&
      (x == null <==> k !in Keys(t)) && (x != null ==> x in Nodes(t) && x.key == k) &&
      Nodes(u) == Nodes(t) - Opt(x) && (x == null ==> u == t) &&
      Opt(Root(u)) !! Below(u)
  {
    DeletedOrdered(t, k);
    DeletedNode(t, k);
    DeletedBalanced(t, k);
    if Deleted(t, k).1 == null {
      DeletedAbsent(t, k);
    }
    OrderedUnique(Deleted(t, k).0);
    RootApart(Deleted(t, k).0);
  }
}
