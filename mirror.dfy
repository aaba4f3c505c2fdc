/** The link between the heap of nodes and the ghost tree that describes it,
    and what the pointer updates of remove do to that link. */
module Mirrors {
  import opened TreeNode
  import opened Trees

  /** Starting from Root(t), the heap holds exactly the shape and values t records. */
  ghost predicate Mirror(t: Tree)
    reads Nodes(t)
  {
    match t
    case Empty => true
    case Branch(l, n, v, r) =>
      n.data == v && n.left == Root(l) && n.right == Root(r) && Mirror(l) && Mirror(r)
  }

  /** Every node a tree records is an allocated object. */
  lemma {:induction false} NodesAllocated(t: Tree)
    ensures forall n :: n in Nodes(t) ==> allocated(n)
  {
    match t
    case Empty =>
    case Branch(l, _, _, r) =>
      NodesAllocated(l);
      NodesAllocated(r);
  }

  lemma {:induction false} MirrorFind(t: Tree, x: int)
    requires Mirror(t)
    ensures Mirror(Find(t, x))
  {
    match t
    case Empty =>
    case Branch(l, _, v, r) =>
      if x < v {
        MirrorFind(l, x);
      } else if x > v {
        MirrorFind(r, x);
      }
  }

  lemma {:induction false} MirrorParent(t: Tree, x: int)
    requires Mirror(t) && t.Branch? && Ordered(t) && x in Keys(t) && t.data != x
    ensures Mirror(ParentTree(t, x))
    decreases t
  {
    var c := if x < t.data then t.left else t.right;
    if c.data != x {
      MirrorParent(c, x);
    }
  }

  lemma {:induction false} MirrorRightmost(t: Tree)
    requires Mirror(t) && t.Branch?
    ensures Mirror(Rightmost(t))
    decreases t
  {
    if t.right.Branch? {
      MirrorRightmost(t.right);
    }
  }

  lemma {:induction false} MirrorMaxParent(t: Tree)
    requires Mirror(t) && t.Branch? && t.right.Branch?
    ensures Mirror(MaxParent(t))
    decreases t
  {
    if t.right.right.Branch? {
      MirrorMaxParent(t.right);
    }
  }

  /** Every node of t outside `changed` still has the value and child links
      that t records. Since it reads only the nodes outside `changed`, it
      survives any update of the nodes in `changed`. */
  ghost predicate Agrees(t: Tree, changed: set<Node>)
    reads Nodes(t) - changed
  {
    match t
    case Empty => true
    case Branch(l, n, v, r) =>
      (n !in changed ==> n.data == v && n.left == Root(l) && n.right == Root(r)) &&
      Agrees(l, changed) && Agrees(r, changed)
  }

  lemma {:induction false} MirrorAgrees(t: Tree, changed: set<Node>)
    requires Mirror(t)
    ensures Agrees(t, changed)
  {
    match t
    case Empty =>
    case Branch(l, _, _, r) =>
      MirrorAgrees(l, changed);
      MirrorAgrees(r, changed);
  }

  /** A tree none of whose nodes changed still describes the heap. */
  lemma {:induction false} AgreesMirror(t: Tree, changed: set<Node>)
    requires Agrees(t, changed) && Nodes(t) !! changed
    ensures Mirror(t)
  {
    match t
    case Empty =>
    case Branch(l, _, _, r) =>
      AgreesMirror(l, changed);
      AgreesMirror(r, changed);
  }

  /** Relinking the parent of the node found for x: when, of t's nodes, only
      that parent changed, keeping its value and its other child and now
      pointing on x's side at a tree s that describes the heap, the heap
      describes t with s in place of the subtree found for x. */
  lemma {:induction false} RelinkParent(t: Tree, x: int, s: Tree, changed: set<Node>)
    requires t.Branch? && Ordered(t) && x in Keys(t) && t.data != x && Distinct(t)
    requires Agrees(t, changed) && Nodes(t) * changed <= {ParentTree(t, x).node}
    requires var p := ParentTree(t, x);
      p.node.data == p.data &&
      if x < p.data then p.node.left == Root(s) && p.node.right == Root(p.right)
      else p.node.right == Root(s) && p.node.left == Root(p.left)
    requires Mirror(s)
    ensures Mirror(Replace(t, x, s))
    decreases t
  {
    if x < t.data {
      AgreesMirror(t.right, changed);
      if t.left.data != x {
        RelinkParent(t.left, x, s, changed);
      }
    } else {
      AgreesMirror(t.left, changed);
      if t.right.data != x {
        RelinkParent(t.right, x, s, changed);
      }
    }
  }

  /** Changing only nodes inside the subtree found for x, while keeping its top
      node in place, leaves every link above it intact. */
  lemma {:induction false} ReplaceInPlace(t: Tree, x: int, s: Tree, changed: set<Node>)
    requires Find(t, x).Branch? && Distinct(t)
    requires Agrees(t, changed) && changed <= Nodes(Find(t, x))
    requires s.Branch? && s.node == Find(t, x).node && Mirror(s)
    ensures Mirror(Replace(t, x, s))
    decreases t
  {
    if x < t.data {
      AgreesMirror(t.right, changed);
      ReplaceInPlace(t.left, x, s, changed);
    } else if x > t.data {
      AgreesMirror(t.left, changed);
      ReplaceInPlace(t.right, x, s, changed);
    }
  }

  /** Splicing out the rightmost node of t: when, of t's nodes, only that
      node's parent changed, now pointing right at the rightmost node's left
      child, the heap describes RemoveMax(t). */
  lemma {:induction false} RelinkMax(t: Tree, changed: set<Node>)
    requires t.Branch? && t.right.Branch? && Distinct(t)
    requires Agrees(t, changed) && Nodes(t) * changed <= {MaxParent(t).node}
    requires var p := MaxParent(t);
      p.node.data == p.data && p.node.left == Root(p.left) &&
      p.node.right == Root(Rightmost(t).left)
    ensures Mirror(RemoveMax(t))
    decreases t
  {
    AgreesMirror(t.left, changed);
    if t.right.right.Empty? {
      AgreesMirror(t.right.left, changed);
    } else {
      RelinkMax(t.right, changed);
    }
  }

  /** Case 4 of remove, on the heap: f has two children. When, of f's nodes,
      only f's node and mp changed, where mp is the parent of the largest node
      of f's left subtree (f's node itself when that largest node is f's left
      child), f's node now holds that largest value and keeps its right child,
      and the largest node's left child has taken its place under mp, then the
      heap describes RemoveRoot(f). */
  lemma PromoteMirror(f: Tree, mp: Node, changed: set<Node>)
    requires Distinct(f) && f.Branch? && f.left.Branch? && f.right.Branch?
    requires mp == (if f.left.right.Branch? then MaxParent(f.left).node else f.node)
    requires changed == {f.node, mp} && Agrees(f, changed)
    requires f.node.data == Rightmost(f.left).data && f.node.right == Root(f.right)
    requires f.left.right.Empty? ==> f.node.left == Root(f.left.left)
    requires f.left.right.Branch? ==>
      var p := MaxParent(f.left);
      f.node.left == Root(f.left) &&
      mp.data == p.data && mp.left == Root(p.left) && mp.right == Root(Rightmost(f.left).left)
    ensures Mirror(RemoveRoot(f))
  {
    if f.left.right.Branch? {
      RelinkMax(f.left, changed);
    } else {
      AgreesMirror(f.left.left, changed);
    }
    AgreesMirror(f.right, changed);
  }
}
