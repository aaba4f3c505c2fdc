/** The binary search tree class: a root link and a node count over heap
    nodes, with insertion, search, parent lookup, removal, the three
    traversals and the size query. */
module Bst {
  import opened TreeNode
  import opened Trees
  import opened Traversals
  import opened Mirrors
  import opened Vectors

  class BST {
    var root: Node?
    var nodeCount: int

    /** The ghost tree that the nodes reachable from root form. */
    ghost var Shape: Tree
    /** The set of stored values. */
    ghost function Contents(): set<int>
      reads this
    {
      Keys(Shape)
    }

    /** The nodes the tree owns. */
    ghost function Repr(): set<Node>
      reads this
    {
      Nodes(Shape)
    }

    ghost predicate Valid()
      reads this, Repr()
    {
      root == Root(Shape) && Mirror(Shape) && Distinct(Shape) && Ordered(Shape) &&
      nodeCount == |Keys(Shape)|
    }

    /** An empty tree. */
    constructor ()
      ensures Valid() && fresh(Repr())
      ensures Contents() == {} && nodeCount == 0
    {
      root := null;
      nodeCount := 0;
      Shape := Empty;
    }

    /** Descends along x's search path; at the empty slot where it ends a new
        leaf holding x is created and counted, and each node on the way back up
        relinks its child to what the call below returned. A node already
        holding x stops the descent without changes. */
    method InsertHelper(x: int, node: Node?, ghost t: Tree) returns (r: Node, ghost t': Tree, ghost leaf: Node?)
      requires Mirror(t) && Distinct(t) && node == Root(t)
      modifies this`nodeCount, Nodes(t)
      ensures Mirror(t') && r == Root(t')
      ensures Find(t, x).Branch? ==>
        t' == t && leaf == null && nodeCount == old(nodeCount)
      ensures Find(t, x).Empty? ==>
        leaf != null && fresh(leaf) && leaf !in Nodes(t) && t' == Ins(t, x, leaf) &&
        nodeCount == old(nodeCount) + 1
      decreases t
    {
      NodesAllocated(t);
      if node == null {
        var tmp := new Node();
        tmp.data := x;
        tmp.left := null;
        tmp.right := null;
        nodeCount := nodeCount + 1;
        return tmp, Branch(Empty, tmp, x, Empty), tmp;
      } else if x < node.data {
        assert Find(t, x) == Find(t.left, x);
        var l, tl, m := InsertHelper(x, node.left, t.left);
        assert Mirror(t.right);
        node.left := l;
        t', leaf := Branch(tl, node, t.data, t.right), m;
      } else if x > node.data {
        assert Find(t, x) == Find(t.right, x);
        var rt, tr, m := InsertHelper(x, node.right, t.right);
        assert Mirror(t.left);
        node.right := rt;
        t', leaf := Branch(t.left, node, t.data, tr), m;
      } else {
        // a duplicate: insertHelper only prints a notice here
        t', leaf := t, null;
      }
      r := node;
    }

    /** Points root at r, the top of tree t, and records t as the new shape. */
    method Link(r: Node?, ghost t: Tree)
      requires Mirror(t) && Distinct(t) && Ordered(t) && r == Root(t) && nodeCount == |Keys(t)|
      modifies this
      ensures Valid() && root == r && Shape == t
      ensures nodeCount == old(nodeCount)
    {
      NodesAllocated(t);
      // after each field update, restating Mirror(t) keeps the solver's frame reasoning small
      root := r;
      assert Mirror(t);
      Shape := t;
      assert Mirror(t);
    }

    /** Adds x unless it is already stored. The ghost result is the new node,
        or null when x was a duplicate. */
    method Insert(x: int) returns (ghost added: Node?)
      requires Valid()
      modifies this, Repr()
      ensures Valid()
      ensures Contents() == old(Contents()) + {x}
      ensures nodeCount == if x in old(Contents()) then old(nodeCount) else old(nodeCount) + 1
      ensures x in old(Contents()) ==>
        added == null && Shape == old(Shape) && root == old(root)
      ensures x !in old(Contents()) ==>
        added != null && fresh(added) && Repr() == old(Repr()) + {added} &&
        Shape == Ins(old(Shape), x, added) && Find(Shape, x) == Branch(Empty, added, x, Empty)
    {
      ghost var t0 := Shape;
      assert Find(t0, x).Branch? <==> x in Keys(t0) by {
        FindSound(t0, x);
      }
      var r;
      ghost var t';
      r, t', added := InsertHelper(x, root, t0);
      assert Keys(t') == Keys(t0) + {x} by {
        if added == null {
          InsPresent(t0, x, t0.node);
        }
      }
      assert Ordered(t') && Distinct(t') && nodeCount == |Keys(t')| by {
        if added != null {
          InsOrdered(t0, x, added);
          InsDistinct(t0, x, added);
          InsAbsent(t0, x, added);
        }
      }
      assert added != null ==>
          Nodes(t') == Nodes(t0) + {added} && Find(t', x) == Branch(Empty, added, x, Empty) by {
        if added != null {
          InsAbsent(t0, x, added);
        }
      }
      Link(r, t');
    }

    /** Walks down from root comparing with x: the node holding x, or null. */
    method Search(x: int) returns (n: Node?)
      requires Valid()
      ensures Valid()
      ensures n == Root(Find(Shape, x))
      ensures n != null <==> x in Contents()
      ensures n != null ==> n in Repr() && n.data == x
    {
      FindSound(Shape, x);
      MirrorFind(Shape, x);
      if root == null {
        return null;
      }
      var node := root;
      ghost var s := Shape;
      while node != null
        invariant Mirror(s) && node == Root(s) && Find(Shape, x) == Find(s, x)
        decreases s
      {
        if node.data == x {
          return node;
        } else if x < node.data {
          node, s := node.left, s.left;
        } else {
          node, s := node.right, s.right;
        }
      }
      return null;
    }

    /** The parent of the node holding x. An empty tree or a lone root gives
        null whatever x is; otherwise x must be stored, since for an absent
        value the walk runs off the tree and dereferences null. When x is at
        the root the result is the root itself. */
    method GetParent(x: int) returns (p: Node?)
      requires Valid()
      requires x in Contents() || root == null || (root.left == null && root.right == null)
      ensures Valid()
      ensures root == null || (root.left == null && root.right == null) ==> p == null
      ensures x in Contents() && x == Shape.data && (root.left != null || root.right != null) ==> p == root
      ensures x in Contents() && x != Shape.data ==> p == ParentTree(Shape, x).node
      ensures x in Contents() && x != Shape.data ==>
        p in Repr() && ((p.left != null && p.left.data == x) || (p.right != null && p.right.data == x))
    {
      NodesAllocated(Shape);
      if x in Keys(Shape) && x != Shape.data {
        MirrorParent(Shape, x);
        MirrorFind(Shape, x);
        FindSound(Shape, x);
      }
      if root == null || (root.left == null && root.right == null) {
        return null;
      }
      var node: Node? := root;
      var parentTmp: Node? := null;
      ghost var s := Shape;
      ghost var moved := false;
      while node != null
        invariant s.Branch? && node == s.node && Mirror(s) && Ordered(s) && x in Keys(s)
        invariant !moved ==> s == Shape
        invariant moved ==> Shape.data != x && s.data != x && ParentTree(Shape, x) == ParentTree(s, x)
        decreases s
      {
        parentTmp := node;
        ghost var ps := s;
        if x < node.data {
          node, s := node.left, s.left;
        } else if x > node.data {
          node, s := node.right, s.right;
        }
        if ps.data != x {
          ParentStep(ps, x);
        }
        if node.data == x {
          return parentTmp;
        }
        moved := true;
      }
      assert false;
      return null;
    }

    /** The descent of remove's case 4: from target's left child follow right
        links to the largest node of the left subtree, keeping its parent. */
    method MaxOfLeft(target: Node, ghost f: Tree) returns (maxParent: Node, maxNode: Node)
      requires f.Branch? && f.node == target && f.left.Branch? && Mirror(f)
      ensures maxNode == Rightmost(f.left).node && maxNode.right == null
      ensures f.left.right.Empty? ==> maxParent == target
      ensures f.left.right.Branch? ==> maxParent == MaxParent(f.left).node
    {
      maxParent := target;
      maxNode := target.left;
      ghost var s := f.left;
      ghost var ps := f;
      ghost var moved := false;
      while maxNode.right != null
        invariant s.Branch? && Mirror(s) && maxNode == s.node && Rightmost(s) == Rightmost(f.left)
        invariant !moved ==> s == f.left && maxParent == target
        invariant moved ==> f.left.right.Branch? && ps.Branch? && ps.right == s
        invariant moved ==> maxParent == ps.node && MaxParent(f.left) == MaxParent(ps)
        decreases s
      {
        maxParent, maxNode := maxNode, maxNode.right;
        ps, s := s, s.right;
        moved := true;
      }
    }

    /** Cases 2 and 3 of remove: the link that pointed at target, which is
        the node found for x, now points at child, the top of s. That link is
        root when target is the root and otherwise the child pointer of
        parent on target's side. */
    method Unlink(ghost x: int, target: Node, parent: Node?, child: Node?, ghost t: Tree, ghost s: Tree)
      requires Mirror(t) && Distinct(t) && Ordered(t) && root == Root(t)
      requires Find(t, x).Branch? && target == Find(t, x).node
      requires target != root ==>
        t.Branch? && x in Keys(t) && t.data != x && parent == ParentTree(t, x).node
      requires s == RemoveRoot(Find(t, x)) && Mirror(s) && child == Root(s)
      modifies this`root, this`nodeCount, parent
      ensures root == Root(Delete(t, x)) && Mirror(Delete(t, x))
      ensures nodeCount == old(nodeCount) - 1
    {
      NodesAllocated(t);
      FindAtTop(t, x);
      if target != root {
        MirrorParent(t, x);
        MirrorAgrees(t, {parent});
        if parent.left == target {
          parent.left := child;
        } else {
          parent.right := child;
        }
        RelinkParent(t, x, s, {parent});
      } else {
        root := child;
      }
      assert Mirror(Delete(t, x));
      NodesAllocated(Delete(t, x));
      nodeCount := nodeCount - 1;
    }

    /** The end of remove's case 4: maxNode, the largest node of a left
        subtree, has no right child; the link of maxParent that points at it
        now points at its left child, null when it is a leaf. */
    method SpliceMax(maxParent: Node, maxNode: Node)
      requires maxNode.right == null && maxParent != maxNode && maxNode != root
      modifies maxParent, this`nodeCount
      ensures nodeCount == old(nodeCount) - 1
      ensures maxParent.data == old(maxParent.data)
      ensures old(maxParent.left) == maxNode ==>
        maxParent.left == maxNode.left && maxParent.right == old(maxParent.right)
      ensures old(maxParent.left) != maxNode ==>
        maxParent.right == maxNode.left && maxParent.left == old(maxParent.left)
    {
      if maxNode.left != null {
        if maxNode != root {
          if maxParent.left == maxNode {
            maxParent.left := maxNode.left;
          } else {
            maxParent.right := maxNode.left;
          }
          nodeCount := nodeCount - 1;
        } else {
          // the largest node of a left subtree is never the root
          assert false;
        }
      } else {
        // maxNode has no right child either, so it is a leaf
        if maxParent.left == maxNode {
          maxParent.left := null;
        } else {
          maxParent.right := null;
        }
        nodeCount := nodeCount - 1;
      }
    }

    /** Case 4 of remove: target, the node found for x, has two children. It
        takes the value of the largest node of its left subtree, and that
        node is spliced out by pointing its parent at its left child. */
    method PromoteMax(target: Node, ghost f: Tree)
      requires Mirror(f) && Distinct(f) && f.Branch? && target == f.node
      requires f.left.Branch? && f.right.Branch? && root !in Nodes(f.left)
      modifies this`nodeCount, Nodes(f)
      ensures Mirror(RemoveRoot(f))
      ensures nodeCount == old(nodeCount) - 1
    {
      NodesAllocated(f);
      var maxParent, maxNode := MaxOfLeft(target, f);
      ghost var changed := {target, maxParent};
      MirrorAgrees(f, changed);
      MirrorRightmost(f.left);
      if f.left.right.Branch? {
        MirrorMaxParent(f.left);
      }
      var tempData := maxNode.data;
      ghost var m := Rightmost(f.left);
      assert tempData == m.data && maxNode.left == Root(m.left) && target.right == Root(f.right);
      assert f.left.right.Empty? ==> maxParent.left == maxNode;
      assert f.left.right.Branch? ==>
        var p := MaxParent(f.left);
        maxParent.data == p.data && maxParent.left == Root(p.left) && maxParent.left != maxNode &&
        target.left == Root(f.left);
      target.data := tempData;
      SpliceMax(maxParent, maxNode);
      PromoteMirror(f, maxParent, changed);
    }

    /** The cases of remove once x has been found at target and its parent
        looked up: a leaf or a node with one child is unlinked, a node with
        two children takes over its predecessor, which is unlinked instead. */
    method Detach(ghost x: int, target: Node, targetParent: Node?, ghost t: Tree)
      requires Mirror(t) && Distinct(t) && Ordered(t) && root == Root(t)
      requires Find(t, x).Branch? && target == Find(t, x).node
      requires target != root ==>
        t.Branch? && x in Keys(t) && t.data != x && targetParent == ParentTree(t, x).node
      requires targetParent == null || targetParent in Nodes(t)
      modifies this`root, this`nodeCount, Nodes(t)
      ensures root == Root(Delete(t, x)) && Mirror(Delete(t, x))
      ensures nodeCount == old(nodeCount) - 1
    {
      ghost var f := Find(t, x);
      MirrorFind(t, x);
      if target.left == null && target.right == null {
        Unlink(x, target, targetParent, null, t, Empty);
      } else if target.left != null && target.right == null {
        Unlink(x, target, targetParent, target.left, t, f.left);
      } else if target.right != null && target.left == null {
        Unlink(x, target, targetParent, target.right, t, f.right);
      } else {
        // both children present: remove's last test (bst.hpp:318) always holds here
        MirrorAgrees(t, Nodes(f));
        FindAtTop(t, x);
        NodesAllocated(t);
        PromoteMax(target, f);
        ReplaceInPlace(t, x, RemoveRoot(f), Nodes(f));
      }
    }

    /** Removes x if it is stored; the ghost result is the node freed, or
        null when x was absent. */
    method Remove(x: int) returns (ghost freed: Node?)
      requires Valid()
      modifies this, Repr()
      ensures Valid()
      ensures Shape == Delete(old(Shape), x)
      ensures Contents() == old(Contents()) - {x}
      ensures x !in old(Contents()) ==>
        freed == null && Shape == old(Shape) && root == old(root) && nodeCount == old(nodeCount)
      ensures x in old(Contents()) ==>
        freed in old(Repr()) && Repr() == old(Repr()) - {freed} && nodeCount == old(nodeCount) - 1
    {
      ghost var t := Shape;
      NodesAllocated(t);
      var target := Search(x);
      if target == null {
        return null;
      }
      var targetParent := GetParent(x);
      ghost var t' := Delete(t, x);
      assert x in Keys(t) && Find(t, x).node == target && (target != root ==> t.data != x) by {
        FindSound(t, x);
        FindAtTop(t, x);
      }
      assert Ordered(t') && Distinct(t') && Keys(t') == Keys(t) - {x} && |Keys(t')| == nodeCount - 1 by {
        DeleteSound(t, x);
        DeleteDistinct(t, x);
      }
      assert Unlinked(Find(t, x)) in Nodes(t) && Nodes(t') == Nodes(t) - {Unlinked(Find(t, x))} by {
        DeleteNodes(t, x);
      }
      Detach(x, target, targetParent, t);
      Link(root, t');
      freed := Unlinked(Find(t, x));
    }

    // ------------------------------------------------------------ traversals

    /** Appends the values below node in in-order: left subtree, node, right subtree. */
    method InorderHelper(vec: Vector, node: Node?, ghost t: Tree)
      requires Mirror(t) && node == Root(t)
      modifies vec
      ensures vec.elems == old(vec.elems) + InorderOf(t)
      decreases t
    {
      if node == null {
        return;
      }
      NodesAllocated(t);
      assert Mirror(t.left) && Mirror(t.right);
      // appending to the vector leaves every node alone
      assert forall n :: n in Nodes(t) ==> n as object != vec as object;
      InorderHelper(vec, node.left, t.left);
      vec.PushBack(node.data);
      InorderHelper(vec, node.right, t.right);
    }

    /** A new vector holding the stored values in ascending order, one entry each. */
    method Inorder() returns (vec: Vector)
      requires Valid()
      ensures Valid()
      ensures fresh(vec) && vec.elems == InorderOf(Shape)
      ensures |vec.elems| == nodeCount
      ensures forall k :: k in vec.elems <==> k in Contents()
      ensures forall i, j :: 0 <= i < j < |vec.elems| ==> vec.elems[i] < vec.elems[j]
    {
      NodesAllocated(Shape);
      vec := new Vector();
      InorderHelper(vec, root, Shape);
      assert Valid();
      assert |vec.elems| == nodeCount && forall k :: k in vec.elems <==> k in Contents() by {
        InorderKeys(Shape);
        KeysCount(Shape);
      }
      InorderSorted(Shape);
    }

    /** Appends the values below node in pre-order: node, left subtree, right subtree. */
    method PreorderHelper(vec: Vector, node: Node?, ghost t: Tree)
      requires Mirror(t) && node == Root(t)
      modifies vec
      ensures vec.elems == old(vec.elems) + PreorderOf(t)
      decreases t
    {
      if node == null {
        return;
      }
      NodesAllocated(t);
      assert Mirror(t.left) && Mirror(t.right);
      // appending to the vector leaves every node alone
      assert forall n :: n in Nodes(t) ==> n as object != vec as object;
      vec.PushBack(node.data);
      PreorderHelper(vec, node.left, t.left);
      PreorderHelper(vec, node.right, t.right);
    }

    /** A new vector holding the stored values in pre-order: a permutation of
        the in-order listing that starts with the root's value. */
    method Preorder() returns (vec: Vector)
      requires Valid()
      ensures Valid()
      ensures fresh(vec) && vec.elems == PreorderOf(Shape)
      ensures multiset(vec.elems) == multiset(InorderOf(Shape))
      ensures |vec.elems| == nodeCount
      ensures forall k :: k in vec.elems <==> k in Contents()
      ensures root != null ==> |vec.elems| > 0 && vec.elems[0] == root.data
    {
      NodesAllocated(Shape);
      vec := new Vector();
      PreorderHelper(vec, root, Shape);
      assert Valid();
      SameMultiset(Shape);
      TraversalKeys(Shape);
      KeysCount(Shape);
    }

    /** Appends the values below node in post-order: left subtree, right subtree, node. */
    method PostorderHelper(vec: Vector, node: Node?, ghost t: Tree)
      requires Mirror(t) && node == Root(t)
      modifies vec
      ensures vec.elems == old(vec.elems) + PostorderOf(t)
      decreases t
    {
      if node == null {
        return;
      }
      NodesAllocated(t);
      assert Mirror(t.left) && Mirror(t.right);
      // appending to the vector leaves every node alone
      assert forall n :: n in Nodes(t) ==> n as object != vec as object;
      PostorderHelper(vec, node.left, t.left);
      PostorderHelper(vec, node.right, t.right);
      vec.PushBack(node.data);
    }

    /** A new vector holding the stored values in post-order: a permutation
        of the in-order listing that ends with the root's value. */
    method Postorder() returns (vec: Vector)
      requires Valid()
      ensures Valid()
      ensures fresh(vec) && vec.elems == PostorderOf(Shape)
      ensures multiset(vec.elems) == multiset(InorderOf(Shape))
      ensures |vec.elems| == nodeCount
      ensures forall k :: k in vec.elems <==> k in Contents()
      ensures root != null ==> |vec.elems| > 0 && vec.elems[|vec.elems| - 1] == root.data
    {
      NodesAllocated(Shape);
      vec := new Vector();
      PostorderHelper(vec, root, Shape);
      assert Valid();
      SameMultiset(Shape);
      TraversalKeys(Shape);
      KeysCount(Shape);
    }

    /** The number of stored values, kept in the node count. */
    method GetSize() returns (n: int)
      requires Valid()
      ensures Valid()
      ensures n == nodeCount && n == |Contents()| && n == Size(Shape)
    {
      KeysCount(Shape);
      return nodeCount;
    }
  }
}
