# Intrusive AVL tree, modelled in Dafny

This project models `avltree.c`. It is an intrusive, height-balanced binary
search tree. Each caller-owned record embeds a tree node whose fields are
`l`, `r` and `p` (left child, right child, parent) and `h` (the height of the
subtree rooted there). A tree handle holds the root reference. The modelled
operations are:

- insertion `avl_ins`, which replaces and returns a record with an equal key;
- deletion `avl_del`, which splices in the in-order successor;
- exact lookup `avl_find` and lower-bound lookup `avl_find_right`;
- ordered traversal with `avl_first` / `avl_next`;
- in-order visitation `avl_apply`.

Each operation goes through the internal routines: height bookkeeping, the
two single rotations, the rebalancing step `avl_fix`, `avl_node_replace`,
the recursive `avl_node_ins` / `avl_node_del` / `avl_first_del`,
`avl_leftmost`, `avl_node_next` and `avl_node_apply`.

How the model is built:

- **Nodes.** Records are objects of the class `Linkage.Node`. It has an
  immutable integer `key` and the mutable fields `l`, `r`, `p` and `h`.
  Every routine that rewrites those fields in place is a Dafny `method` with
  a `modifies` clause.
- **Shapes.** A linked subtree is abstracted by a ghost datatype
  `Shape = Nil | Br(left, node, right)`. The predicate `Wf(t)` ties the heap
  to a shape. It says that each node's `l` and `r` are the roots of its
  sub-shapes, each non-root node's `p` is its parent, and each stored `h` is
  the true height.
- **Reference functions.** `Shapes` defines, for every mutating routine, a
  pure function giving the shape the routine leaves behind: `RotatedRight`,
  `RotatedLeft`, `Rebalanced`, `Inserted`, `WithoutMin` and `Deleted`. Each
  method is proved to produce exactly that shape, with `Wf` holding on the
  result.
- **Lemmas.** Lemmas about the reference functions give what the library
  promises:
  - the in-order sequence is kept;
  - the key set gains or loses exactly the key;
  - BST order is kept;
  - AVL balance is restored;
  - the height changes by at most one.
- **The handle.** The tree handle is the class `Tree.AvlTree`. Its `Valid()`
  invariant is `Wf`, `Ordered`, `Balanced` and a root with no parent.

Modules follow the structure of the C file:

- `Linkage`: the node, shapes, invariants and height helpers;
- `Shapes`: the reference functions and their lemmas;
- `Rotation`: `avl_rot_r`, `avl_rot_l` and `avl_fix`;
- `Insertion`: `avl_node_replace` and `avl_node_ins`;
- `Traversal`: `avl_leftmost`, `avl_node_next` and `avl_node_apply`;
- `Deletion`: `avl_first_del` and `avl_node_del`;
- `Tree`: the public API.

Keys are integers compared with their natural order. `Linkage.Cmp` plays the
part of the comparator: it returns a negative, zero or positive result.

## Model

| member | source | states |
|---|---|---|
| Linkage.GetH | avltree.c:30-33 | an absent node has height 0 |
| Linkage.FixH | avltree.c:37-42 | the new `h` is one more than the larger of the children's stored heights; only `h` changes |
| Linkage.StoredHeight | avltree.c:30-49 | in a well-formed subtree, `avl_get_h` of the root is the real height, and `avl_get_b` is right height minus left height |
| Linkage.Cmp | avltree.c:163 | the comparison is negative, zero or positive exactly when the first key is below, equal to or above the second |
| Linkage.OrderedUnique | avltree.c:163-179 | a BST holds no node twice |
| Linkage.KeyDetermines | avltree.c:174-179 | in a BST two nodes with the same key are the same node |
| Rotation.RotR | avltree.c:81-93 | returns the promoted left child, which gets the old root's parent; the moved inner child, both parent links and both heights are rewritten so that the heap is a well-formed copy of `RotatedRight` |
| Rotation.RotL | avltree.c:96-107 | the mirror image: returns the promoted right child with the old root's parent; the heap is well formed with shape `RotatedLeft` |
| Shapes.RotatedRightInOrder | avltree.c:81-93 | a right rotation keeps the in-order sequence of nodes |
| Shapes.RotatedLeftInOrder | avltree.c:96-107 | a left rotation keeps the in-order sequence of nodes |
| Shapes.RotatedRightKeeps | avltree.c:81-93 | a right rotation keeps the node set and key set, BST order and the absence of repeated nodes |
| Shapes.RotatedLeftKeeps | avltree.c:96-107 | the same for a left rotation |
| Rotation.RotRightChild | avltree.c:116-117 | the inner step of a double rotation: rotating the right child right leaves the whole subtree linked, with the same nodes |
| Rotation.RotLeftChild | avltree.c:122-123 | rotating the left child left leaves the whole subtree linked, with the same nodes |
| Rotation.FixRightHeavy | avltree.c:114-119 | for a right-heavy node: a right rotation of the child first if that child leans left, then a left rotation; the root returned keeps the old parent, and the heap is well formed with shape `Rebalanced` |
| Rotation.FixLeftHeavy | avltree.c:120-125 | the mirror image for a left-heavy node |
| Rotation.Fix | avltree.c:110-127 | `avl_fix` refreshes the height, and rotates when the balance factor is beyond ±1. It returns the new subtree root with the old parent, and the heap is well formed with shape `Rebalanced(t)` |
| Shapes.RebalancedInOrder | avltree.c:110-127 | rebalancing keeps the in-order sequence |
| Shapes.RebalancedKeeps | avltree.c:110-127 | rebalancing keeps the node set and key set, BST order and the absence of repeated nodes |
| Shapes.RebalancedRightHeavy | avltree.c:114-119 | with AVL children and balance +2, the single or double rotation gives an AVL tree no taller than before and no lower than the right child |
| Shapes.RebalancedLeftHeavy | avltree.c:120-125 | the mirror image for balance −2 |
| Shapes.RebalancedBalanced | avltree.c:110-127 | with AVL children whose heights differ by at most 2, the result is AVL; within ±1 nothing moves; the height lies between the taller child's and the old height |
| Insertion.NodeReplace | avltree.c:131-149 | for distinct records, `n` takes `o`'s children, parent and height. Both children and the parent link now point at `n`, and `o` is left with null links and height 1. The same record leaves everything unchanged |
| Insertion.NodeIns | avltree.c:153-182 | the heap becomes a well-formed copy of `Inserted(t, d)`, and the displaced node is the one `Inserted` names. The new root keeps the subtree's old parent, a displaced record other than `d` is detached, and the parent's other child link is untouched |
| Insertion.InsLeft | avltree.c:164-168 | the left-descending branch, with the same promise as `NodeIns` |
| Insertion.InsRight | avltree.c:169-173 | the right-descending branch, with the same promise as `NodeIns` |
| Insertion.InsHere | avltree.c:174-181 | the equal-key branch: `d` replaces `h` and is rebalanced, and `h` is returned as displaced |
| Insertion.AttachLeft | avltree.c:166-167 | after the grown left subtree is hung back under `h`, rebalancing gives `Rebalanced` of the new shape |
| Insertion.AttachRight | avltree.c:171-172 | the same for the grown right subtree |
| Insertion.InsLeftFacts | avltree.c:164-168 | inserting below a larger key builds `Rebalanced` of the node over the grown left subtree; the rest of the tree is disjoint from it |
| Insertion.InsRightFacts | avltree.c:169-173 | the mirror image for the right subtree |
| Insertion.InsHereFacts | avltree.c:174-181 | a record with the root's key is the root itself or foreign to the subtree; the result is `Rebalanced` with `d` in the root's place |
| Shapes.InsertedOrdered | avltree.c:153-182 | insertion keeps BST order and adds the key. The displaced node is null exactly when the key was absent, and otherwise is the resident node with that key |
| Shapes.InsertedNodes | avltree.c:153-182 | the node set gains `d` and loses the displaced node, if any |
| Shapes.InsertedBalanced | avltree.c:153-182 | insertion keeps AVL balance and raises the height by at most one |
| Shapes.InsertedReplaces | avltree.c:174-181 | when a key collides, the result is the old shape with the displaced node swapped for `d` in place: no rotation happens and the height is unchanged |
| Shapes.InsertedResident | avltree.c:133-134 | re-inserting a record that is already in the tree changes nothing and returns that record |
| Shapes.ReplacedSame | avltree.c:133-134 | swapping a node for itself is the identity |
| Tree.AvlTree.Ins | avltree.c:192-197 | keeps `Valid()`, and the new shape and the returned record are `Inserted(old shape, d)`. The key set gains `d.key`. The result is null exactly when the key was absent; otherwise it is the resident record with that key, now detached, and `d` takes its place. Re-inserting a resident record is a no-op that returns it |
| Tree.AvlTree.Find | avltree.c:208-220 | returns null exactly when the key is absent, and otherwise a node of the tree with that key |
| Traversal.Leftmost | avltree.c:224-230 | returns null on an empty subtree and otherwise its minimum node |
| Shapes.MinNodeFirst | avltree.c:224-230 | the leftmost node heads the in-order sequence |
| Shapes.MinLeast | avltree.c:224-230 | in a BST the leftmost node holds the least key |
| Shapes.MaxGreatest | avltree.c:242-245 | in a BST the rightmost node holds the greatest key |
| Traversal.NodeNext | avltree.c:234-246 | null gives null; otherwise the result is the node with the least key above `x`'s, or null when `x` holds the maximum |
| Traversal.SuccessorDown | avltree.c:239-240 | with a right subtree, the successor is that subtree's leftmost node |
| Traversal.SuccessorUp | avltree.c:242-245 | the successor of the maximum of a left subtree is that subtree's parent |
| Traversal.SuccessorNone | avltree.c:242-245 | the maximum of the tree has no successor |
| Traversal.ParentLinked | avltree.c:242-245 | in a well-formed tree, only the root has no parent, and every other node's `p` is the parent whose subtree holds it as a direct child |
| Traversal.UpRight | avltree.c:242-243 | climbing from a right child keeps the same subtree maximum and strictly raises the height |
| Traversal.UpLeft | avltree.c:242-245 | a node that is not its parent's right child is its left child |
| Traversal.WindowRight | avltree.c:269-270 | turning right at a key below the query raises the lower bound of the search window |
| Traversal.WindowLeft | avltree.c:269-270 | turning left at a key above the query lowers the upper bound of the search window |
| Traversal.CeilingAfter | avltree.c:272-273 | when the search falls off after turning right at `lo`, the successor of `lo` is the least key at or above the query |
| Tree.AvlTree.FindRight | avltree.c:258-276 | the result is the node with the least key at or above the query, or null when every key is below it |
| Tree.AvlTree.First | avltree.c:286-289 | the result holds the least key, null only for an empty tree, and heads the in-order sequence |
| Tree.AvlTree.Next | avltree.c:300-303 | null gives null; otherwise the result is the successor of `prev` in key order |
| Traversal.InOrderWalk | avltree.c:286-303 | the first node of the in-order sequence is `avl_first`'s answer. The successor of each node is the next in-order node, or null after the last, so walking `next` from `first` visits the in-order sequence |
| Deletion.FirstDel | avltree.c:307-315 | unlinks the leftmost node and rebalances on the way up; the heap is a well-formed copy of `WithoutMin(t)`, and the result is its root |
| Deletion.RelinkLeft | avltree.c:311-314 | after the shrunk left subtree is hung back under `h` and rebalanced, the result is `Rebalanced` of the new shape |
| Deletion.RelinkRight | avltree.c:336-338 | the same for the shrunk right subtree |
| Deletion.WithoutMinNodes | avltree.c:307-315 | removing the minimum takes out exactly the leftmost node |
| Shapes.WithoutMinInOrder | avltree.c:307-315 | removing the minimum drops the first element of the in-order sequence |
| Shapes.WithoutMinKeys | avltree.c:307-315 | removing the minimum keeps BST order and drops exactly the least key and its node |
| Shapes.WithoutMinFacts | avltree.c:307-315 | removing the minimum keeps AVL balance and lowers the height by at most one |
| Shapes.WithoutMinAbove | avltree.c:349-355 | every key left after removing the minimum lies above it, so the successor can adopt the rest of the right subtree |
| Deletion.NodeDel | avltree.c:319-359 | the heap becomes a well-formed copy of `Deleted(t, k)`; the result is its root, and the returned node is the one `Deleted` names |
| Deletion.DelLeft | avltree.c:328-333 | the left-descending branch, with the same promise as `NodeDel` |
| Deletion.DelRight | avltree.c:334-339 | the right-descending branch, with the same promise as `NodeDel` |
| Deletion.DelHere | avltree.c:340-357 | the matching branch: without a right child the left subtree takes the node's place; otherwise the successor is spliced in |
| Deletion.Splice | avltree.c:350-356 | the successor adopts the remaining right subtree and the left subtree, then is rebalanced |
| Deletion.DelLeftFacts | avltree.c:328-333 | deleting below a larger key builds `Rebalanced` of the node over the shrunk left subtree |
| Deletion.DelRightFacts | avltree.c:334-339 | the mirror image for the right subtree |
| Deletion.DelHereFacts | avltree.c:347-356 | at the match, the result is `Rebalanced` of the successor over the left subtree and the rest of the right |
| Shapes.DeletedOrdered | avltree.c:319-359 | deletion keeps BST order and removes exactly the key |
| Shapes.DeletedNode | avltree.c:319-359 | the removed node is null exactly when the key is absent; otherwise it is the tree's node with that key, and it alone leaves the node set |
| Shapes.DeletedSplice | avltree.c:347-356 | splicing the successor in keeps order and removes only the matched node and its key |
| Shapes.DeletedBalanced | avltree.c:319-359 | deletion keeps AVL balance and lowers the height by at most one |
| Shapes.DeletedAbsent | avltree.c:321-339 | deleting an absent key from an AVL tree leaves its shape unchanged, since no rebalancing fires |
| Tree.DeleteFacts | avltree.c:370-376 | the deletion result is ordered and balanced, loses exactly the key and the node returned, and is the old shape when nothing was removed |
| Tree.Detach | avltree.c:373-374 | clearing the new root's parent reference keeps the rest well formed |
| Tree.AvlTree.Del | avltree.c:370-376 | keeps `Valid()`, including a root with no parent. The new shape and the returned node are `Deleted(old shape, k)`. The key set loses `k`, and exactly the returned node leaves. The result is null exactly when the key was absent, and then the tree is unchanged |
| Traversal.NodeApply | avltree.c:400-408 | the records are visited exactly in the in-order sequence of the subtree |
| Traversal.InOrderNodes | avltree.c:400-408 | the in-order sequence lists exactly the nodes of the tree |
| Traversal.InOrderAscending | avltree.c:412 | in a BST the in-order sequence has strictly ascending keys |
| Tree.AvlTree.Apply | avltree.c:417-420 | the callback receives every record of the tree once, in strictly ascending key order |
| Tree.AvlTree.constructor | avltree.c:387-396 | a new tree is empty and valid |

## Left out

- The offset arithmetic of `avl_node2str`, `avl_node2key`, `avl_str2node` and `avl_str2key` (avltree.c:53-77) and the offsets stored by `avl_tree_new` are not modelled. A record is a `Node` that carries its key, so converting between record and node is the identity.
- The comparator function pointer is replaced by integer keys under their natural order, through `Linkage.Cmp`. A comparator that is not a total order is not modelled.
- The side effects of the `apply` callback are not modelled, including a callback that frees the record. `NodeApply` and `Apply` return the sequence of records the callback would receive, in order.
- Traversal.NodeApply: reading `h->r` before the callback does not show in the model. Without a callback nothing can change `h->r`, so reading it before or after the visit gives the same answer.
- Tree.AvlTree.FindRight: in C, `res` is read uninitialised on an empty tree. The model starts it at 0; on an empty tree both branches then give null.
- Tree.AvlTree.Del: the removed record keeps its stale `l`, `r`, `p` and `h`, and the model promises nothing about them. A record displaced by `Ins` is detached, as `avl_node_replace` does.
- Insertion.NodeIns: in C, `avl_node_replace` redirects the parent's child link to the new record, and then the caller overwrites that link with the value `avl_fix` returns. The model keeps both writes. Its contract states only that the parent's other link is untouched; that parent is re-linked by the caller as in C.
- Some source functions are split into several methods, one per branch, to keep each proof small: InsLeft, InsRight, InsHere, AttachLeft and AttachRight for `avl_node_ins`; DelLeft, DelRight, DelHere, RelinkLeft, RelinkRight and Splice for `avl_node_del` and `avl_first_del`; FixRightHeavy, FixLeftHeavy, RotRightChild and RotLeftChild for `avl_fix`. Together they perform the same writes in the same order.
- Owning-mode allocation and free hooks, and allocation failure, are not modelled. The C file does not implement them.
- Concurrency and thread safety are not modelled. The code has none.
- `avltree.h` is not part of this model. It holds only declarations and the struct layout; the field names `l`, `r`, `p` and `h` are kept.
- The logarithmic bound on the height is not proved. The model proves AVL balance and bounds each operation's height change to at most one, but does not relate height to the number of nodes.
- Heights are unbounded integers. The C `int` height cannot overflow for any tree that fits in memory.
