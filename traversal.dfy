/** The three depth-first orders in which the traversals list a tree's values. */
module Traversals {
  import opened Trees

  /** Left subtree, then the node, then the right subtree (inorderHelper). */
  ghost function InorderOf(t: Tree): seq<int>
  {
    match t
    case Empty => []
    case Branch(l, _, v, r) => InorderOf(l) + [v] + InorderOf(r)
  }

  /** The node, then the left subtree, then the right subtree (preorderHelper). */
  ghost function PreorderOf(t: Tree): seq<int>
  {
    match t
    case Empty => []
    case Branch(l, _, v, r) => [v] + PreorderOf(l) + PreorderOf(r)
  }

  /** Left subtree, right subtree, then the node (postorderHelper). */
  ghost function PostorderOf(t: Tree): seq<int>
  {
    match t
    case Empty => []
    case Branch(l, _, v, r) => PostorderOf(l) + PostorderOf(r) + [v]
  }

  /** The in-order listing has one entry per node and lists exactly the stored values. */
  lemma {:induction false} InorderKeys(t: Tree)
    ensures |InorderOf(t)| == Size(t)
    ensures forall k :: k in InorderOf(t) <==> k in Keys(t)
  {
    match t
    case Empty =>
    case Branch(l, _, _, r) =>
      InorderKeys(l);
      InorderKeys(r);
  }

  /** Pre- and post-order list the same values as in-order, with the same
      multiplicities: they are permutations of it. */
  lemma {:induction false} SameMultiset(t: Tree)
    ensures multiset(PreorderOf(t)) == multiset(InorderOf(t))
    ensures multiset(PostorderOf(t)) == multiset(InorderOf(t))
  {
    match t
    case Empty =>
    case Branch(l, _, v, r) =>
      SameMultiset(l);
      SameMultiset(r);
  }

  /** Pre- and post-order also have one entry per node and list exactly the
      stored values. */
  lemma {:induction false} TraversalKeys(t: Tree)
    ensures |PreorderOf(t)| == Size(t) && |PostorderOf(t)| == Size(t)
    ensures forall k :: k in PreorderOf(t) <==> k in Keys(t)
    ensures forall k :: k in PostorderOf(t) <==> k in Keys(t)
  {
    match t
    case Empty =>
    case Branch(l, _, _, r) =>
      TraversalKeys(l);
      TraversalKeys(r);
  }

  /** Strictly ascending sequences joined around a value that lies above
      everything on the left and below everything on the right stay ascending. */
  lemma JoinAscending(a: seq<int>, v: int, b: seq<int>)
    requires forall i, j :: 0 <= i < j < |a| ==> a[i] < a[j]
    requires forall i, j :: 0 <= i < j < |b| ==> b[i] < b[j]
    requires forall i :: 0 <= i < |a| ==> a[i] < v
    requires forall i :: 0 <= i < |b| ==> v < b[i]
    ensures var s := a + [v] + b;
      forall i, j :: 0 <= i < j < |s| ==> s[i] < s[j]
  {
    var s := a + [v] + b;
    forall i, j | 0 <= i < j < |s|
      ensures s[i] < s[j]
    {
      if j < |a| {
        assert s[i] == a[i] && s[j] == a[j];
      } else if i < |a| {
        assert s[i] == a[i];
        if j > |a| {
          assert s[j] == b[j - |a| - 1];
        }
      } else if i == |a| {
        assert s[j] == b[j - |a| - 1];
      } else {
        assert s[i] == b[i - |a| - 1] && s[j] == b[j - |a| - 1];
      }
    }
  }

  /** An ordered tree's in-order listing is strictly ascending. */
  lemma {:induction false} InorderSorted(t: Tree)
    requires Ordered(t)
    ensures forall i, j :: 0 <= i < j < |InorderOf(t)| ==> InorderOf(t)[i] < InorderOf(t)[j]
  {
    match t
    case Empty =>
    case Branch(l, _, v, r) =>
      var a, b := InorderOf(l), InorderOf(r);
      InorderSorted(l);
      InorderSorted(r);
      InorderKeys(l);
      InorderKeys(r);
      assert forall i :: 0 <= i < |a| ==> a[i] in Keys(l);
      assert forall i :: 0 <= i < |b| ==> b[i] in Keys(r);
      JoinAscending(a, v, b);
  }
}
