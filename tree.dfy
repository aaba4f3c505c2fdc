/** The shape of a BST as a ghost value, and the value-level meaning of the
    tree operations: where a search ends, what an insertion adds and what a
    removal leaves in place of the removed node. */
module Trees {
  import opened TreeNode

  /** A tree of heap nodes: each branch names the node object standing at
      that position and the value that node holds. */
  datatype Tree = Empty | Branch(left: Tree, node: Node, data: int, right: Tree)

  /** The node at the top of t, or null for the empty tree. */
  function Root(t: Tree): Node?
  {
    if t.Empty? then null else t.node
  }

  ghost function Keys(t: Tree): set<int>
  {
    match t
    case Empty => {}
    case Branch(l, _, v, r) => Keys(l) + {v} + Keys(r)
  }

  ghost function Nodes(t: Tree): set<Node>
  {
    match t
    case Empty => {}
    case Branch(l, n, _, r) => Nodes(l) + {n} + Nodes(r)
  }

  /** Number of positions (nodes) in t. */
  ghost function Size(t: Tree): nat
  {
    match t
    case Empty => 0
    case Branch(l, _, _, r) => Size(l) + 1 + Size(r)
  }

  /** No node object stands at two positions: the links form a tree. */
  ghost predicate Distinct(t: Tree)
  {
    match t
    case Empty => true
    case Branch(l, n, _, r) =>
      n !in Nodes(l) && n !in Nodes(r) && Nodes(l) !! Nodes(r) && Distinct(l) && Distinct(r)
  }

  /** The BST ordering: everything left of a node is strictly smaller, everything
      right of it strictly larger (so no value occurs twice). */
  ghost predicate Ordered(t: Tree)
  {
    match t
    case Empty => true
    case Branch(l, _, v, r) =>
      (forall k :: k in Keys(l) ==> k < v) && (forall k :: k in Keys(r) ==> v < k) &&
      Ordered(l) && Ordered(r)
  }

  /** The subtree whose top holds x on the search path for x (compare for
      equality first, then go left on smaller, right otherwise), or Empty
      when that path runs out. */
  ghost function Find(t: Tree, x: int): (f: Tree)
    ensures f.Branch? ==> f.data == x
    ensures Keys(f) <= Keys(t) && Nodes(f) <= Nodes(t)
    ensures Distinct(t) ==> Distinct(f)
    ensures Ordered(t) ==> Ordered(f)
  {
    match t
    case Empty => Empty
    case Branch(l, _, v, r) =>
      if v == x then t else if x < v then Find(l, x) else Find(r, x)
  }

  /** In an ordered tree the search finds x exactly when x is stored. */
  lemma {:induction false} FindSound(t: Tree, x: int)
    requires Ordered(t)
    ensures Find(t, x).Branch? <==> x in Keys(t)
  {
    match t
    case Empty =>
    case Branch(l, _, v, r) =>
      if x < v {
        FindSound(l, x);
      } else if x > v {
        FindSound(r, x);
      }
  }

  /** The top of t is the node found for x exactly when x is the top's value. */
  lemma FindAtTop(t: Tree, x: int)
    requires Distinct(t) && t.Branch? && Find(t, x).Branch?
    ensures Find(t, x).node == t.node <==> x == t.data
    ensures t.node !in Nodes(Find(t, x).left) + Nodes(Find(t, x).right)
  {
    if x != t.data {
      var c := if x < t.data then t.left else t.right;
      assert Find(t, x) == Find(c, x);
      assert Find(t, x).node in Nodes(c);
    }
  }

  /** The parent of the node found for x: the subtree one of whose children
      is Find(t, x). Only defined when x is stored below the top. */
  ghost function ParentTree(t: Tree, x: int): (p: Tree)
    requires t.Branch? && Ordered(t) && x in Keys(t) && t.data != x
    ensures p.Branch? && p.data != x
    ensures (if x < p.data then p.left else p.right) == Find(t, x)
    ensures Nodes(p) <= Nodes(t)
    ensures Distinct(t) ==> Distinct(p) && p.node !in Nodes(Find(t, x))
    decreases t
  {
    var c := if x < t.data then t.left else t.right;
    assert x in Keys(c) by {
      assert x !in (if x < t.data then Keys(t.right) else Keys(t.left));
    }
    if c.data == x then t else ParentTree(c, x)
  }

  /** One step of the walk towards x: the child on x's side still holds x,
      and it either holds x itself (so t is the parent) or has the same
      parent for x as t. */
  lemma ParentStep(t: Tree, x: int)
    requires t.Branch? && Ordered(t) && x in Keys(t) && t.data != x
    ensures var c := if x < t.data then t.left else t.right;
      c.Branch? && Ordered(c) && x in Keys(c) &&
      (c.data == x ==> ParentTree(t, x) == t) &&
      (c.data != x ==> ParentTree(t, x) == ParentTree(c, x))
  {
    assert x !in (if x < t.data then Keys(t.right) else Keys(t.left));
  }

  // ---------------------------------------------------------------- insertion

  /** The tree after insertHelper: the search path for x ends at an empty slot,
      where a new leaf node m holding x is linked in; when the path meets x
      instead, nothing changes. */
  ghost function Ins(t: Tree, x: int, m: Node): (r: Tree)
    ensures Keys(r) == Keys(t) + {x}
    ensures Nodes(r) <= Nodes(t) + {m}
  {
    match t
    case Empty => Branch(Empty, m, x, Empty)
    case Branch(l, n, v, rt) =>
      if x < v then Branch(Ins(l, x, m), n, v, rt)
      else if x > v then Branch(l, n, v, Ins(rt, x, m))
      else t
  }

  lemma {:induction false} InsOrdered(t: Tree, x: int, m: Node)
    requires Ordered(t)
    ensures Ordered(Ins(t, x, m))
  {
    match t
    case Empty =>
    case Branch(l, _, v, r) =>
      if x < v {
        InsOrdered(l, x, m);
      } else if x > v {
        InsOrdered(r, x, m);
      }
  }

  lemma {:induction false} InsDistinct(t: Tree, x: int, m: Node)
    requires Distinct(t) && m !in Nodes(t)
    ensures Distinct(Ins(t, x, m))
  {
    match t
    case Empty =>
    case Branch(l, _, v, r) =>
      if x < v {
        InsDistinct(l, x, m);
      } else if x > v {
        InsDistinct(r, x, m);
      }
  }

  /** Inserting a stored value changes nothing. */
  lemma {:induction false} InsPresent(t: Tree, x: int, m: Node)
    requires Ordered(t) && x in Keys(t)
    ensures Ins(t, x, m) == t
  {
    match t
    case Empty =>
    case Branch(l, _, v, r) =>
      if x < v {
        InsPresent(l, x, m);
      } else if x > v {
        InsPresent(r, x, m);
      }
  }

  /** Inserting a new value adds exactly one node, a leaf holding x, found
      where the search for x now ends. */
  lemma {:induction false} InsAbsent(t: Tree, x: int, m: Node)
    requires x !in Keys(t)
    ensures Find(Ins(t, x, m), x) == Branch(Empty, m, x, Empty)
    ensures Size(Ins(t, x, m)) == Size(t) + 1
    ensures Nodes(Ins(t, x, m)) == Nodes(t) + {m}
  {
    match t
    case Empty =>
    case Branch(l, _, v, r) =>
      if x < v {
        InsAbsent(l, x, m);
      } else {
        InsAbsent(r, x, m);
      }
  }

  /** Inserting the same value twice gives the same tree as inserting it once. */
  lemma InsIdempotent(t: Tree, x: int, m: Node, m': Node)
    requires Ordered(t)
    ensures Ins(Ins(t, x, m), x, m') == Ins(t, x, m)
  {
    InsOrdered(t, x, m);
    InsPresent(Ins(t, x, m), x, m');
  }

  // ------------------------------------------------------------------ removal

  /** t with the subtree found for x replaced by s (the relinking of the
      parent's child pointer, or of root when x is at the top). */
  ghost function Replace(t: Tree, x: int, s: Tree): (r: Tree)
    ensures Find(t, x).Empty? ==> r == t
  {
    match t
    case Empty => Empty
    case Branch(l, n, v, rt) =>
      if x == v then s
      else if x < v then Branch(Replace(l, x, s), n, v, rt)
      else Branch(l, n, v, Replace(rt, x, s))
  }

  lemma {:induction false} ReplaceKeys(t: Tree, x: int, s: Tree)
    requires Ordered(t) && Find(t, x).Branch?
    ensures Keys(Replace(t, x, s)) == Keys(t) - Keys(Find(t, x)) + Keys(s)
  {
    match t
    case Branch(l, _, v, r) =>
      var f := Find(t, x);
      if x < v {
        ReplaceKeys(l, x, s);
        SplitDisjoint(Keys(f), v, Keys(r));
        UnionShuffle(Keys(l), Keys(f), Keys(s), {v} + Keys(r));
      } else if x > v {
        ReplaceKeys(r, x, s);
        SplitDisjoint(Keys(l), v, Keys(f));
        UnionShuffle(Keys(r), Keys(f), Keys(s), Keys(l) + {v});
      }
  }

  /** Values all below v and values all above v are apart. */
  lemma SplitDisjoint(a: set<int>, v: int, b: set<int>)
    requires forall k :: k in a ==> k < v
    requires forall k :: k in b ==> v < k
    ensures a !! b && v !in a && v !in b
  {
    forall k | k in a
      ensures k !in b
    {
    }
  }

  /** Taking K out of A and adding S commutes with a union that avoids K. */
  lemma UnionShuffle(a: set<int>, k: set<int>, s: set<int>, b: set<int>)
    requires k !! b
    ensures (a - k + s) + b == (a + b) - k + s
    ensures b + (a - k + s) == (b + a) - k + s
  {
  }

  lemma {:induction false} ReplaceOrdered(t: Tree, x: int, s: Tree)
    requires Ordered(t) && Find(t, x).Branch?
    requires Ordered(s) && Keys(s) <= Keys(Find(t, x))
    ensures Ordered(Replace(t, x, s))
  {
    match t
    case Branch(l, _, v, r) =>
      if x < v {
        ReplaceOrdered(l, x, s);
        ReplaceKeys(l, x, s);
      } else if x > v {
        ReplaceOrdered(r, x, s);
        ReplaceKeys(r, x, s);
      }
  }

  lemma {:induction false} ReplaceDistinct(t: Tree, x: int, s: Tree)
    requires Distinct(t) && Distinct(s) && Nodes(s) <= Nodes(Find(t, x))
    ensures Distinct(Replace(t, x, s)) && Nodes(Replace(t, x, s)) <= Nodes(t)
  {
    match t
    case Empty =>
    case Branch(l, _, v, r) =>
      if x < v {
        ReplaceDistinct(l, x, s);
      } else if x > v {
        ReplaceDistinct(r, x, s);
      }
  }

  /** The node reached from the top of t by following right children until
      there is none: it holds t's largest value and has no right child. */
  ghost function Rightmost(t: Tree): (m: Tree)
    requires t.Branch?
    ensures m.Branch? && m.right.Empty?
    ensures m.data in Keys(t) && Nodes(m) <= Nodes(t)
    decreases t
  {
    if t.right.Empty? then t else Rightmost(t.right)
  }

  /** The parent of Rightmost(t) when that is not t's top node. */
  ghost function MaxParent(t: Tree): (p: Tree)
    requires t.Branch? && t.right.Branch?
    ensures p.Branch? && p.right.Branch? && p.right == Rightmost(t)
    ensures Nodes(p) <= Nodes(t)
    ensures Distinct(t) ==> Distinct(p)
    decreases t
  {
    if t.right.right.Empty? then t else MaxParent(t.right)
  }

  lemma {:induction false} MaxIsGreatest(t: Tree)
    requires Ordered(t) && t.Branch?
    ensures forall k :: k in Keys(t) ==> k <= Rightmost(t).data
  {
    if t.right.Branch? {
      MaxIsGreatest(t.right);
    }
  }

  /** t with Rightmost(t) spliced out: its parent takes over its left child. */
  ghost function RemoveMax(t: Tree): (r: Tree)
    requires t.Branch?
    ensures Nodes(r) <= Nodes(t)
    decreases t
  {
    if t.right.Empty? then t.left
    else Branch(t.left, t.node, t.data, RemoveMax(t.right))
  }

  lemma {:induction false} RemoveMaxSound(t: Tree)
    requires Ordered(t) && t.Branch?
    ensures Keys(RemoveMax(t)) == Keys(t) - {Rightmost(t).data}
    ensures Ordered(RemoveMax(t))
  {
    if t.right.Branch? {
      RemoveMaxSound(t.right);
    }
  }

  lemma {:induction false} RemoveMaxDistinct(t: Tree)
    requires Distinct(t) && t.Branch?
    ensures Distinct(RemoveMax(t))
  {
    if t.right.Branch? {
      RemoveMaxDistinct(t.right);
    }
  }

  /** What takes the place of a removed subtree f, by remove's cases: a leaf
      leaves nothing, a node with one child is replaced by that child, and a
      node with two children keeps its position, takes the value of the
      largest node of its left subtree, and that node is spliced out. */
  ghost function RemoveRoot(f: Tree): (r: Tree)
    ensures Nodes(r) <= Nodes(f)
  {
    match f
    case Empty => Empty
    case Branch(l, n, v, rt) =>
      if l.Empty? && rt.Empty? then Empty
      else if rt.Empty? then l
      else if l.Empty? then rt
      else Branch(RemoveMax(l), n, Rightmost(l).data, rt)
  }

  lemma RemoveRootSound(f: Tree)
    requires Ordered(f) && f.Branch?
    ensures Keys(RemoveRoot(f)) == Keys(f) - {f.data}
    ensures Ordered(RemoveRoot(f))
  {
    var Branch(l, n, v, r) := f;
    SplitDisjoint(Keys(l), v, Keys(r));
    if l.Branch? && r.Branch? {
      PromotedMaxSound(l, n, v, r);
    } else if l.Branch? {
      assert Keys(f) - {v} == Keys(l);
    } else if r.Branch? {
      assert Keys(f) - {v} == Keys(r);
    }
  }

  /** The two-children case: the largest value of the left subtree moves up. */
  lemma PromotedMaxSound(l: Tree, n: Node, v: int, r: Tree)
    requires Ordered(Branch(l, n, v, r)) && l.Branch? && r.Branch?
    ensures var m := Rightmost(l).data;
      Keys(Branch(RemoveMax(l), n, m, r)) == Keys(l) + Keys(r) &&
      Ordered(Branch(RemoveMax(l), n, m, r))
  {
    var m := Rightmost(l).data;
    RemoveMaxSound(l);
    MaxIsGreatest(l);
    var l' := RemoveMax(l);
    assert forall k :: k in Keys(l') ==> k < m;
    assert forall k :: k in Keys(r) ==> m < k;
    assert Keys(l') + {m} == Keys(l);
  }

  lemma RemoveRootDistinct(f: Tree)
    requires Distinct(f) && f.Branch?
    ensures Distinct(RemoveRoot(f))
  {
    if f.left.Branch? && f.right.Branch? {
      RemoveMaxDistinct(f.left);
    }
  }

  /** The node remove frees for a found subtree f: f's own node in cases 2
      and 3, the largest node of its left subtree in case 4. */
  ghost function Unlinked(f: Tree): Node
    requires f.Branch?
  {
    if f.left.Branch? && f.right.Branch? then Rightmost(f.left).node else f.node
  }

  lemma {:induction false} RemoveMaxNodes(t: Tree)
    requires Distinct(t) && t.Branch?
    ensures Nodes(RemoveMax(t)) == Nodes(t) - {Rightmost(t).node}
  {
    if t.right.Branch? {
      RemoveMaxNodes(t.right);
    }
  }

  /** Removing the top value of f frees exactly one node. */
  lemma RemoveRootNodes(f: Tree)
    requires Distinct(f) && f.Branch?
    ensures Nodes(RemoveRoot(f)) == Nodes(f) - {Unlinked(f)}
  {
    if f.left.Branch? && f.right.Branch? {
      RemoveMaxNodes(f.left);
    }
  }

  lemma {:induction false} ReplaceNodes(t: Tree, x: int, s: Tree)
    requires Distinct(t) && Find(t, x).Branch?
    ensures Nodes(Replace(t, x, s)) == Nodes(t) - Nodes(Find(t, x)) + Nodes(s)
  {
    match t
    case Branch(l, n, v, r) =>
      if x < v {
        ReplaceNodes(l, x, s);
      } else if x > v {
        ReplaceNodes(r, x, s);
      }
  }

  /** The tree after remove(x). */
  ghost function Delete(t: Tree, x: int): (r: Tree)
    ensures x !in Keys(t) ==> r == t
  {
    Replace(t, x, RemoveRoot(Find(t, x)))
  }

  /** Removing x takes exactly x out of the contents and keeps the ordering. */
  lemma DeleteSound(t: Tree, x: int)
    requires Ordered(t)
    ensures Keys(Delete(t, x)) == Keys(t) - {x}
    ensures Ordered(Delete(t, x))
  {
    FindSound(t, x);
    var f := Find(t, x);
    if f.Branch? {
      RemoveRootSound(f);
      ReplaceKeys(t, x, RemoveRoot(f));
      ReplaceOrdered(t, x, RemoveRoot(f));
    }
  }

  lemma DeleteDistinct(t: Tree, x: int)
    requires Distinct(t)
    ensures Distinct(Delete(t, x)) && Nodes(Delete(t, x)) <= Nodes(t)
  {
    var f := Find(t, x);
    if f.Branch? {
      RemoveRootDistinct(f);
    }
    ReplaceDistinct(t, x, RemoveRoot(f));
  }

  /** Removing a stored value frees exactly one node, which was in the tree. */
  lemma DeleteNodes(t: Tree, x: int)
    requires Distinct(t) && Find(t, x).Branch?
    ensures Unlinked(Find(t, x)) in Nodes(t)
    ensures Nodes(Delete(t, x)) == Nodes(t) - {Unlinked(Find(t, x))}
  {
    var f := Find(t, x);
    RemoveRootNodes(f);
    ReplaceNodes(t, x, RemoveRoot(f));
  }

  /** Removing a value just inserted into a tree that lacked it gives back
      the tree as it was: the new leaf is unlinked again. */
  lemma {:induction false} DeleteIns(t: Tree, x: int, m: Node)
    requires x !in Keys(t)
    ensures Delete(Ins(t, x, m), x) == t
  {
    match t
    case Empty =>
    case Branch(l, _, v, r) =>
      if x < v {
        DeleteIns(l, x, m);
      } else {
        DeleteIns(r, x, m);
      }
  }

  /** In the two-children case the value copied into the removed node is the
      in-order predecessor of x: the largest stored value smaller than x. */
  lemma {:induction false} PredecessorIsMax(t: Tree, x: int)
    requires Ordered(t) && Find(t, x).Branch? && Find(t, x).left.Branch?
    ensures Rightmost(Find(t, x).left).data in Keys(t)
    ensures Rightmost(Find(t, x).left).data < x
    ensures forall k :: k in Keys(t) && k < x ==> k <= Rightmost(Find(t, x).left).data
  {
    match t
    case Branch(l, _, v, r) =>
      if x == v {
        MaxIsGreatest(l);
      } else if x < v {
        PredecessorIsMax(l, x);
      } else {
        PredecessorIsMax(r, x);
      }
  }

  // ------------------------------------------------------------------- counts

  /** An ordered tree stores as many distinct values as it has nodes. */
  lemma {:induction false} KeysCount(t: Tree)
    requires Ordered(t)
    ensures |Keys(t)| == Size(t)
  {
    match t
    case Empty =>
    case Branch(l, _, v, r) =>
      KeysCount(l);
      KeysCount(r);
      assert Keys(l) !! Keys(r) by {
        forall k | k in Keys(l) ensures k !in Keys(r) {
          assert k < v;
        }
      }
      assert v !in Keys(l) + Keys(r);
      assert |Keys(l) + Keys(r)| == |Keys(l)| + |Keys(r)|;
  }
}
