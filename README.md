# BST: a verified model of an unbalanced binary search tree

This project models the class template `BST<T>` of `src/bst.hpp`. The class is
an unbalanced binary search tree over heap-allocated nodes. Each node holds one
value and a left and a right child link, either of which may be null. The tree
owns a `root` link and a `node_count`. Its operations are:

- `insert`, through the recursive `insertHelper`. A duplicate is rejected with
  a console notice.
- `search`, an iterative walk.
- `getParent`, the walk that `remove` uses to find a node's parent.
- `remove`, with four cases:
  - the value is absent;
  - the node is a leaf;
  - the node has one child;
  - the node has two children. Its value is replaced by the largest value of
    its left subtree, and that node is spliced out.
- The in-order, pre-order and post-order traversals, which fill a vector.
- `get_size`.

The model keeps the code's imperative form:

- `Node` is a class with `data`, `left` and `right` fields.
- `BST` is a class with the fields `root` and `nodeCount`.
- The vector the traversals fill is a class `Vector` with a `seq` field. Its
  only operation is `PushBack`.
- The loops of `search`, `getParent` and the two-children case of `remove`
  are `while` loops with invariants.
- `insertHelper` and the traversal helpers are recursive methods that update
  the heap.

The element type `T` is fixed to `int`.

How the heap is related to the values:

- The ghost field `BST.Shape` holds a value of the datatype `Tree`. It records,
  position by position, which node object stands there and which value it
  holds.
- `Mirror(t)` states that the heap links and values reachable from `Root(t)`
  are exactly those that `t` records.
- `Distinct(t)` states that no node object occurs twice, so the links form a
  tree.
- `Ordered(t)` is the BST ordering: smaller values on the left, larger on the
  right, no value twice.

The class invariant `BST.Valid()` requires all of the following: `root ==
Root(Shape)`, `Mirror(Shape)`, `Distinct(Shape)`, `Ordered(Shape)`, and
`nodeCount` equal to the number of stored values.

Each operation is proved against a function on `Tree`:

- `Find` is where a search ends.
- `Ins` is the tree after `insertHelper`.
- `Delete` is the tree after `remove`. It is built from `Replace`,
  `RemoveRoot`, `RemoveMax` and `Rightmost`.
- `InorderOf`, `PreorderOf` and `PostorderOf` are the traversal orders.

Lemmas about these functions prove the properties the code promises.

## Model

| member | source | states |
|---|---|---|
| Bst.BST.constructor | src/bst.hpp:57-61 | the new tree is valid, empty and has count 0 |
| Bst.BST.InsertHelper | src/bst.hpp:142-174 | when the search path for x meets x, nothing changes and the same node comes back; otherwise a fresh leaf holding x is linked at the empty slot where the path ends, the count grows by one, and the heap now describes `Ins(t, x, leaf)` |
| Bst.BST.Link | src/bst.hpp:177-180 | after `root` is pointed at the returned node, the class invariant holds for the new shape |
| Bst.BST.Insert | src/bst.hpp:177-180 | the invariant is kept and the contents become old contents plus x; a duplicate leaves shape, root and count unchanged; a new value adds exactly one fresh node, a leaf holding x that the search for x now finds, and the count grows by one |
| Trees.Ins | src/bst.hpp:142-174 | insertion adds x to the stored values and at most the one new node |
| Trees.InsOrdered | src/bst.hpp:155-166 | inserting keeps the BST ordering |
| Trees.InsDistinct | src/bst.hpp:146-156 | linking a node not yet in the tree keeps the links a tree |
| Trees.InsPresent | src/bst.hpp:163-172 | inserting a stored value changes nothing |
| Trees.InsAbsent | src/bst.hpp:146-156 | inserting a new value adds exactly one node, a leaf holding x, found where the search for x ends |
| Trees.InsIdempotent | src/bst.hpp:177-180 | inserting the same value twice gives the same tree as inserting it once |
| Trees.Find | src/bst.hpp:184-212 | a search that stops on a node stops on one holding x; what it finds lies inside the tree and inherits `Distinct` and `Ordered` |
| Trees.FindSound | src/bst.hpp:184-212 | in an ordered tree the search finds a node exactly when x is stored |
| Bst.BST.Search | src/bst.hpp:184-212 | the loop returns the top node of `Find(Shape, x)`: non-null exactly when x is stored, and then a node of the tree holding x |
| Trees.ParentTree | src/bst.hpp:215-247 | the parent of the node found for x: its child on x's side is that node, it lies inside the tree, and it does not hold x |
| Trees.ParentStep | src/bst.hpp:226-245 | one step of the walk towards a stored x keeps x below; the child reached either holds x, making the current node the parent, or has the same parent for x |
| Bst.BST.GetParent | src/bst.hpp:215-247 | an empty tree or a lone root gives null; for a stored x at the root of a larger tree it gives the root itself; for a stored x below the root it gives `ParentTree(Shape, x)`'s node, a node of the tree one of whose children holds x |
| Trees.FindAtTop | src/bst.hpp:268-292 | the node found for x is the root exactly when x is the root's value, so the code's `target != root` test is the test `x != root value` |
| Trees.Replace | src/bst.hpp:266-316 | replacing the subtree found for x changes nothing when x is absent |
| Trees.ReplaceKeys | src/bst.hpp:266-316 | after relinking, the stored values are the old ones minus the found subtree's plus the new subtree's |
| Trees.ReplaceOrdered | src/bst.hpp:266-316 | relinking a subtree holding a subset of the found subtree's values keeps the BST ordering |
| Trees.ReplaceDistinct | src/bst.hpp:266-316 | relinking with part of the found subtree keeps the links a tree and adds no node |
| Trees.ReplaceNodes | src/bst.hpp:266-316 | after relinking, the nodes are the old ones minus the found subtree's plus the new subtree's |
| Trees.Rightmost | src/bst.hpp:320-330 | the node the loop of case 4 reaches has no right child, and its value is stored in the subtree |
| Trees.MaxParent | src/bst.hpp:320-330 | the last node the loop passes is the parent of that rightmost node |
| Trees.MaxIsGreatest | src/bst.hpp:320-330 | the rightmost node holds the largest value of an ordered subtree |
| Trees.RemoveMax | src/bst.hpp:338-361 | splicing out the rightmost node uses only nodes of the subtree |
| Trees.RemoveMaxSound | src/bst.hpp:338-361 | splicing it out removes exactly its value and keeps the ordering |
| Trees.RemoveMaxDistinct | src/bst.hpp:338-361 | splicing it out keeps the links a tree |
| Trees.RemoveMaxNodes | src/bst.hpp:338-361 | splicing it out frees exactly that node |
| Trees.RemoveRoot | src/bst.hpp:266-363 | what takes the place of the removed node uses only nodes of its subtree |
| Trees.RemoveRootSound | src/bst.hpp:266-363 | in each of cases 2 to 4, the subtree loses exactly its top value and stays ordered |
| Trees.PromotedMaxSound | src/bst.hpp:317-363 | in case 4, giving the node its predecessor's value and splicing the predecessor out keeps every other value and the ordering |
| Trees.RemoveRootDistinct | src/bst.hpp:266-363 | each case keeps the links a tree |
| Trees.RemoveRootNodes | src/bst.hpp:266-363 | each case frees exactly one node: the target in cases 2 and 3, the predecessor's node in case 4 |
| Trees.Delete | src/bst.hpp:251-364 | removing an absent value leaves the tree unchanged (case 1) |
| Trees.DeleteSound | src/bst.hpp:251-364 | removal takes exactly x out of the stored values and keeps the ordering |
| Trees.DeleteDistinct | src/bst.hpp:251-364 | removal keeps the links a tree and adds no node |
| Trees.DeleteNodes | src/bst.hpp:251-364 | removing a stored value frees exactly one node of the tree |
| Trees.DeleteIns | src/bst.hpp:142-174 | removing a value just inserted into a tree without it gives back the original tree |
| Trees.PredecessorIsMax | src/bst.hpp:317-336 | the value case 4 copies into the target is stored, is smaller than x, and is the largest stored value smaller than x |
| Trees.KeysCount | src/bst.hpp:367-370 | an ordered tree stores as many values as it has nodes |
| Mirrors.RelinkParent | src/bst.hpp:268-312 | when only the parent changed, pointing it on x's side at a subtree the heap describes yields a heap that describes the relinked tree |
| Mirrors.ReplaceInPlace | src/bst.hpp:317-363 | changes confined to the found subtree that keep its top node leave every link above it intact |
| Mirrors.RelinkMax | src/bst.hpp:338-361 | pointing the rightmost node's parent at the rightmost node's left child yields a heap that describes `RemoveMax` |
| Mirrors.PromoteMirror | src/bst.hpp:317-363 | after the value copy and the splice of case 4, which change only the target and the largest node's parent, the heap describes `RemoveRoot(f)` for the target's subtree f |
| Bst.BST.MaxOfLeft | src/bst.hpp:320-330 | the loop stops at `Rightmost` of the target's left subtree, a node without right child, and at its parent: the target itself when the left child has no right child |
| Bst.BST.Unlink | src/bst.hpp:266-316 | in cases 2 and 3, after the parent's link on the target's side (or `root`) points at the only child or null, the heap describes `Delete(t, x)`, root is its top, and the count drops by one |
| Bst.BST.SpliceMax | src/bst.hpp:338-361 | the parent's link that pointed at the largest node now points at its left child, null for a leaf, nothing else of the parent changes, and the count drops by one |
| Bst.BST.PromoteMax | src/bst.hpp:317-363 | in case 4, with f the subtree whose top is the target, the heap ends up describing `RemoveRoot(f)`: the target holds its predecessor's value and the predecessor's node is spliced out; the count drops by one |
| Bst.BST.Detach | src/bst.hpp:266-363 | with the target and its parent known, cases 2 to 4 leave a heap that describes `Delete(t, x)` with root as its top, and the count drops by one |
| Bst.BST.Remove | src/bst.hpp:251-364 | the invariant is kept, the new shape is `Delete(old shape, x)`, and the contents lose exactly x; an absent x changes nothing; a stored x frees exactly one node of the tree and the count drops by one |
| Traversals.InorderKeys | src/bst.hpp:75-84 | the in-order listing has one entry per node and lists exactly the stored values |
| Traversals.SameMultiset | src/bst.hpp:97-130 | the pre-order and post-order listings are permutations of the in-order listing |
| Traversals.TraversalKeys | src/bst.hpp:97-130 | the pre-order and post-order listings each have one entry per node and list exactly the stored values |
| Traversals.InorderSorted | src/bst.hpp:75-84 | the in-order listing of an ordered tree is strictly ascending |
| Bst.BST.InorderHelper | src/bst.hpp:75-84 | the vector is extended by the in-order listing of the subtree |
| Bst.BST.Inorder | src/bst.hpp:87-93 | a new vector holding the in-order listing, as many entries as the count, exactly the stored values, strictly ascending |
| Bst.BST.PreorderHelper | src/bst.hpp:97-107 | the vector is extended by the pre-order listing of the subtree |
| Bst.BST.Preorder | src/bst.hpp:110-116 | a new vector holding the pre-order listing, a permutation of the in-order listing with as many entries as the count and exactly the stored values, starting with the root's value |
| Bst.BST.PostorderHelper | src/bst.hpp:120-130 | the vector is extended by the post-order listing of the subtree |
| Bst.BST.Postorder | src/bst.hpp:133-139 | a new vector holding the post-order listing, a permutation of the in-order listing with as many entries as the count and exactly the stored values, ending with the root's value |
| Bst.BST.GetSize | src/bst.hpp:367-370 | the count returned is the number of stored values and of nodes |

## Left out

- The destructor (src/bst.hpp:64-71) is not modelled. It sets `root` to null before its loop, so the loop never runs and no node is removed or deleted.
- The console notice for a duplicate insert (src/bst.hpp:168) is output only. The model keeps the branch without it.
- `delete` of the removed node is not modelled, because the model has no deallocation. `Remove` instead returns the freed node as a ghost result and states that it leaves the tree's nodes.
- The type parameter `T` is fixed to `int`. Its `<`, `>` and `==` are those of the integers.
- `node_count` is an unbounded integer. The model does not capture a 32-bit `int` overflowing, which would take 2^31 nodes.
- The node class of `node.hpp` is not part of this model. Its getters and setters are taken to be plain field reads and writes, and the constructor to leave the fields to be set by the caller.
- Bst.BST.GetParent requires that x is stored unless the tree is empty or its root is a leaf. For an absent x in a larger tree, the code's walk reaches a null node and dereferences it (src/bst.hpp:240).
- Bst.BST.SpliceMax: the branch for a largest node that is the root (src/bst.hpp:345-348) cannot be reached, because that node lies inside the target's left subtree. The model marks it unreachable instead of modelling its update of `root`.
- Bst.BST.Detach: the code's last test in remove (src/bst.hpp:318) always holds once the first three cases fail, so the model uses a plain `else`. Likewise, SpliceMax's leaf branch does not retest `maxNode->get_right()`, which the loop has already made null.
- Bst.BST.Insert: for a duplicate the contract states that the shape, the root and the count are unchanged. Through `Valid()`, that means the nodes' values and links are too. It does not state `unchanged` on the individual node objects.
- The traversals return a fresh vector, as the code returns a newly allocated one. Ownership of that vector, which the caller must delete, is not modelled.
