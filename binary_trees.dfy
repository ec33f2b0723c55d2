/**
  Value model of a pointer-linked binary tree of ints, shared by the unbalanced
  search tree and the splay tree (their node structs hold the same three fields),
  and the target of the AVL tree's Shape projection.

  `Nil` stands for a null child pointer. Every node exclusively owns its two
  subtrees, so a tree value is exactly the node graph reachable from a root.
*/
module BinaryTrees {

  datatype Tree = Nil | Node(left: Tree, value: int, right: Tree)

  /** The set of values stored in a tree. */
  ghost function Elems(t: Tree): set<int> {
    match t
    case Nil => {}
    case Node(l, v, r) => Elems(l) + {v} + Elems(r)
  }

  /** The values in in-order (left subtree, node, right subtree). */
  ghost function InOrder(t: Tree): seq<int> {
    match t
    case Nil => []
    case Node(l, v, r) => InOrder(l) + [v] + InOrder(r)
  }

  /** Number of nodes. */
  ghost function Count(t: Tree): nat {
    match t
    case Nil => 0
    case Node(l, _, r) => Count(l) + 1 + Count(r)
  }

  /** Height in edges; an empty tree has height -1, a single node 0. */
  ghost function Height(t: Tree): (h: int)
    ensures h >= -1
    ensures t.Node? ==> h >= 0
  {
    match t
    case Nil => -1
    case Node(l, _, r) => 1 + Max(Height(l), Height(r))
  }

  function Max(a: int, b: int): int {
    if a < b then b else a
  }

  /** Search-tree ordering: left subtree values are smaller, right subtree values larger. */
  ghost predicate IsBST(t: Tree) {
    match t
    case Nil => true
    case Node(l, v, r) =>
      && IsBST(l) && IsBST(r)
      && (forall y :: y in Elems(l) ==> y < v)
      && (forall y :: y in Elems(r) ==> v < y)
  }

  ghost predicate StrictlyIncreasing(s: seq<int>) {
    forall i, j :: 0 <= i < j < |s| ==> s[i] < s[j]
  }

  /**
    `x` is stored at a node `d` edges below the root of `t`.
    This is the meaning of the depth every lookup reports.
  */
  ghost predicate AtDepth(t: Tree, x: int, d: nat) {
    match t
    case Nil => false
    case Node(l, v, r) =>
      (d == 0 && v == x) || (d > 0 && (AtDepth(l, x, d - 1) || AtDepth(r, x, d - 1)))
  }

  /**
    Number of edges a comparison search for `x` descends: it stops at the node
    holding `x` or after stepping onto an empty child.
  */
  ghost function SearchDepth(t: Tree, x: int): nat {
    match t
    case Nil => 0
    case Node(l, v, r) =>
      if x < v then 1 + SearchDepth(l, x)
      else if v < x then 1 + SearchDepth(r, x)
      else 0
  }

  lemma {:induction false} InOrderElems(t: Tree)
    ensures forall x :: x in Elems(t) <==> x in InOrder(t)
    ensures |InOrder(t)| == Count(t)
  {
    match t
    case Nil =>
    case Node(l, v, r) =>
      InOrderElems(l);
      InOrderElems(r);
  }

  /** A strictly increasing `a + [v] + b` has increasing parts, all of `a` below `v` and all of `b` above it. */
  lemma SortedSplitParts(a: seq<int>, v: int, b: seq<int>)
    requires StrictlyIncreasing(a + [v] + b)
    ensures StrictlyIncreasing(a) && StrictlyIncreasing(b)
    ensures forall x :: x in a ==> x < v
    ensures forall x :: x in b ==> v < x
  {
    var s := a + [v] + b;
    assert forall i :: 0 <= i < |a| ==> s[i] == a[i];
    assert forall i :: 0 <= i < |b| ==> s[|a| + 1 + i] == b[i];
    assert s[|a|] == v;
    forall x | x in a ensures x < v {
      var i :| 0 <= i < |a| && a[i] == x;
      assert s[i] == x;
    }
    forall x | x in b ensures v < x {
      var i :| 0 <= i < |b| && b[i] == x;
      assert s[|a| + 1 + i] == x;
    }
  }

  /** The converse of SortedSplitParts: increasing parts on the right sides of `v` join up. */
  lemma SortedJoin(a: seq<int>, v: int, b: seq<int>)
    requires StrictlyIncreasing(a) && StrictlyIncreasing(b)
    requires forall x :: x in a ==> x < v
    requires forall x :: x in b ==> v < x
    ensures StrictlyIncreasing(a + [v] + b)
  {
    var s := a + [v] + b;
    forall i, j | 0 <= i < j < |s| ensures s[i] < s[j] {
      if j < |a| {
        assert s[i] == a[i] && s[j] == a[j];
      } else if j == |a| {
        assert s[i] == a[i] && s[j] == v;
        assert a[i] in a;
      } else if i < |a| {
        assert s[i] == a[i] && s[j] == b[j - |a| - 1];
        assert a[i] in a && b[j - |a| - 1] in b;
      } else if i == |a| {
        assert s[i] == v && s[j] == b[j - |a| - 1];
        assert b[j - |a| - 1] in b;
      } else {
        assert s[i] == b[i - |a| - 1] && s[j] == b[j - |a| - 1];
      }
    }
  }

  /** The search-tree property is exactly "the in-order sequence is strictly increasing". */
  lemma {:induction false} BstIffSorted(t: Tree)
    ensures IsBST(t) <==> StrictlyIncreasing(InOrder(t))
  {
    match t
    case Nil =>
    case Node(l, v, r) =>
      BstIffSorted(l);
      BstIffSorted(r);
      InOrderElems(l);
      InOrderElems(r);
      if StrictlyIncreasing(InOrder(t)) {
        SortedSplitParts(InOrder(l), v, InOrder(r));
      }
      if IsBST(t) {
        SortedJoin(InOrder(l), v, InOrder(r));
      }
  }

  /** Two trees with the same in-order sequence hold the same values, as many nodes, and are equally ordered. */
  lemma {:induction false} SameInOrder(t: Tree, u: Tree)
    requires InOrder(t) == InOrder(u)
    ensures Elems(t) == Elems(u)
    ensures Count(t) == Count(u)
    ensures IsBST(t) <==> IsBST(u)
  {
    InOrderElems(t);
    InOrderElems(u);
    forall x ensures x in Elems(t) <==> x in Elems(u) {
      assert x in Elems(t) <==> x in InOrder(t);
      assert x in Elems(u) <==> x in InOrder(u);
    }
    BstIffSorted(t);
    BstIffSorted(u);
  }

  lemma {:induction false} AtDepthIsMember(t: Tree, x: int, d: nat)
    requires AtDepth(t, x, d)
    ensures x in Elems(t)
  {
    match t
    case Node(l, v, r) =>
      if d > 0 {
        if AtDepth(l, x, d - 1) { AtDepthIsMember(l, x, d - 1); }
        else { AtDepthIsMember(r, x, d - 1); }
      }
  }

  /** In an ordered tree a value sits at one depth only: the one the comparison search reaches. */
  lemma {:induction false} AtDepthIsSearchDepth(t: Tree, x: int, d: nat)
    requires IsBST(t)
    ensures AtDepth(t, x, d) <==> (x in Elems(t) && d == SearchDepth(t, x))
  {
    match t
    case Nil =>
    case Node(l, v, r) =>
      if d > 0 {
        AtDepthIsSearchDepth(l, x, d - 1);
        AtDepthIsSearchDepth(r, x, d - 1);
      }
  }
}
