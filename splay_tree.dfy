/**
  The splay tree of SplayTree.h, as written.

  `splay` rewrites child pointers and returns the new subtree root while it
  threads a depth counter through its recursion; here it is a function
  returning both. The code's rotation choices are the mirror image of what
  its comments describe (it promotes the right child while descending left,
  and the other way round), so a splay often leaves the tree as it was; the
  lemmas at the end of this module exhibit the consequences.
*/
module Splay {
  import opened BinaryTrees

  /** A splayed subtree and the depth counter after the splay. */
  datatype Splayed = Splayed(tree: Tree, depth: int)

  /** `rotateWithLeftChild`: promotes the left child; a no-op on a null node or a null left child. */
  function RotateWithLeftChild(k2: Tree): (k1: Tree)
    ensures InOrder(k1) == InOrder(k2)
    ensures k2.Nil? || k2.left.Nil? ==> k1 == k2
    ensures k2.Node? && k2.left.Node? ==> k1.Node? && k1.value == k2.left.value && k1.right.Node? && k1.right.value == k2.value
  {
    if k2 == Nil || k2.left == Nil then k2
    else
      var k1 := k2.left;
      Node(k1.left, k1.value, Node(k1.right, k2.value, k2.right))
  }

  /** `rotateWithRightChild`: promotes the right child; a no-op on a null node or a null right child. */
  function RotateWithRightChild(k1: Tree): (k2: Tree)
    ensures InOrder(k2) == InOrder(k1)
    ensures k1.Nil? || k1.right.Nil? ==> k2 == k1
    ensures k1.Node? && k1.right.Node? ==> k2.Node? && k2.value == k1.right.value && k2.left.Node? && k2.left.value == k1.value
  {
    if k1 == Nil || k1.right == Nil then k1
    else
      var k2 := k1.right;
      Node(Node(k1.left, k1.value, k2.left), k2.value, k2.right)
  }

  /**
    `splay(x, t, depth)`, as written. Each call that steps past a non-null
    child adds one to the depth counter and recurses into a grandchild.
  */
  function Splay(x: int, t: Tree, depth: int): (s: Splayed)
    ensures InOrder(s.tree) == InOrder(t)
    ensures depth <= s.depth && 2 * (s.depth - depth) <= Height(t) + 1
    ensures t == Nil ==> s.tree == Nil
    ensures t.Node? && t.value == x ==> s == Splayed(t, depth)
    ensures s.depth == depth <==>
      (t == Nil || t.value == x || (x < t.value && t.left == Nil) || (t.value < x && t.right == Nil))
    decreases t
  {
    if t == Nil then Splayed(Nil, depth)
    else if x < t.value then
      if t.left == Nil then Splayed(t, depth)
      else
        var L := t.left;
        assert InOrder(t) == InOrder(L.left) + [L.value] + InOrder(L.right) + [t.value] + InOrder(t.right);
        var d := depth + 1;
        var step :=
          if x < L.value then
            var inner := Splay(x, L.left, d);
            assert InOrder(Node(inner.tree, L.value, L.right)) == InOrder(L);
            Splayed(RotateWithRightChild(Node(Node(inner.tree, L.value, L.right), t.value, t.right)), inner.depth)
          else if L.value < x then
            var inner := Splay(x, L.right, d);
            var L1 := Node(L.left, L.value, inner.tree);
            assert InOrder(L1) == InOrder(L);
            Splayed(Node(if inner.tree != Nil then RotateWithLeftChild(L1) else L1, t.value, t.right), inner.depth)
          else
            Splayed(t, d);
        assert InOrder(step.tree) == InOrder(t);
        var t1 := step.tree;
        Splayed(if t1.left == Nil then t1 else RotateWithRightChild(t1), step.depth)
    else if t.value < x then
      if t.right == Nil then Splayed(t, depth)
      else
        var R := t.right;
        assert InOrder(t) == InOrder(t.left) + [t.value] + InOrder(R.left) + [R.value] + InOrder(R.right);
        var d := depth + 1;
        var step :=
          if R.value < x then
            var inner := Splay(x, R.right, d);
            assert InOrder(Node(R.left, R.value, inner.tree)) == InOrder(R);
            Splayed(RotateWithLeftChild(Node(t.left, t.value, Node(R.left, R.value, inner.tree))), inner.depth)
          else if x < R.value then
            var inner := Splay(x, R.left, d);
            var R1 := Node(inner.tree, R.value, R.right);
            assert InOrder(R1) == InOrder(R);
            Splayed(Node(t.left, t.value, if inner.tree != Nil then RotateWithRightChild(R1) else R1), inner.depth)
          else
            Splayed(t, d);
        assert InOrder(step.tree) == InOrder(t);
        var t1 := step.tree;
        Splayed(if t1.right == Nil then t1 else RotateWithLeftChild(t1), step.depth)
    else
      Splayed(t, depth)
  }

  /**
    The tail of `insert` after the splay: a root equal to `x` is kept; any
    other root `s` is split under a new node holding `x`, which takes over the
    left subtree of `s` (when `x` is smaller) or its right subtree (otherwise).
  */
  function SplitAt(x: int, s: Tree): (r: Tree)
    requires s.Node?
    ensures r.Node? && r.value == x
    ensures s.value == x ==> r == s
    ensures s.value != x ==>
      var k := |InOrder(s.left)| + (if x < s.value then 0 else 1);
      InOrder(r) == InOrder(s)[..k] + [x] + InOrder(s)[k..]
    ensures Elems(r) == Elems(s) + {x}
  {
    if s.value == x then s
    else if x < s.value then
      var r := Node(s.left, x, Node(Nil, s.value, s.right));
      assert InOrder(Node(Nil, s.value, s.right)) == [s.value] + InOrder(s.right);
      var a, b := InOrder(s.left), InOrder(s.right);
      assert InOrder(s) == a + [s.value] + b;
      assert InOrder(r) == a + [x] + ([s.value] + b);
      assert InOrder(s)[..|a|] == a && InOrder(s)[|a|..] == [s.value] + b;
      assert Elems(Node(Nil, s.value, s.right)) == {s.value} + Elems(s.right);
      assert Elems(r) == Elems(s.left) + {x} + ({s.value} + Elems(s.right));
      r
    else
      var r := Node(Node(s.left, s.value, Nil), x, s.right);
      assert InOrder(Node(s.left, s.value, Nil)) == InOrder(s.left) + [s.value];
      var a, b := InOrder(s.left), InOrder(s.right);
      assert InOrder(s) == a + [s.value] + b;
      assert InOrder(r) == (a + [s.value]) + [x] + b;
      assert InOrder(s)[..|a| + 1] == a + [s.value] && InOrder(s)[|a| + 1..] == b;
      assert Elems(Node(s.left, s.value, Nil)) == Elems(s.left) + {s.value};
      assert Elems(r) == (Elems(s.left) + {s.value}) + {x} + Elems(s.right);
      r
  }

  /**
    `insert`, as written: an empty tree becomes a single node; otherwise the
    tree is splayed toward `x` and split around its new root.
  */
  function Insert(x: int, t: Tree): (r: Tree)
    ensures r.Node? && r.value == x
    ensures Elems(r) == Elems(t) + {x}
    ensures t == Nil ==> r == Node(Nil, x, Nil)
    ensures t.Node? ==>
      var s := Splay(x, t, 0).tree;
      && s.Node?
      && (s.value == x ==> r == s)
      && (s.value != x ==>
            var k := |InOrder(s.left)| + (if x < s.value then 0 else 1);
            InOrder(r) == InOrder(t)[..k] + [x] + InOrder(t)[k..])
  {
    if t == Nil then Node(Nil, x, Nil)
    else
      var s := Splay(x, t, 0).tree;
      SameInOrder(s, t);
      SplitAt(x, s)
  }

  /**
    Counted with multiplicity, `insert` adds exactly one copy of `x` unless
    the splayed root already holds `x`.
  */
  lemma InsertAddsOneCopy(x: int, t: Tree)
    requires t.Node?
    ensures var s := Splay(x, t, 0).tree;
      multiset(InOrder(Insert(x, t))) ==
        multiset(InOrder(t)) + (if s.value == x then multiset{} else multiset{x})
  {
    var s := Splay(x, t, 0).tree;
    if s.value != x {
      var k := |InOrder(s.left)| + (if x < s.value then 0 else 1);
      OneMoreCopy(InOrder(t), k, x);
    }
  }

  /** Inserting one element anywhere in a sequence adds one copy of it. */
  lemma OneMoreCopy(q: seq<int>, k: int, x: int)
    requires 0 <= k <= |q|
    ensures multiset(q[..k] + [x] + q[k..]) == multiset(q) + multiset{x}
  {
    assert q == q[..k] + q[k..];
  }

  class SplayTree {
    var root: Tree

    constructor ()
      ensures root == Nil
    {
      root := Nil;
    }

    /** `add`: the root becomes the result of inserting `c`. */
    method Add(c: int)
      modifies this
      ensures root == Insert(c, old(root))
      ensures Elems(root) == old(Elems(root)) + {c}
    {
      root := Insert(c, root);
    }

    /**
      `find`: always replaces the root with the splayed tree; returns 100 when
      that root is null or does not hold `x`, and the depth counter otherwise.
    */
    method Find(x: int) returns (result: int, depth: int)
      modifies this
      ensures root == Splay(x, old(root), 0).tree && depth == Splay(x, old(root), 0).depth
      ensures InOrder(root) == old(InOrder(root))
      ensures root == Nil || root.value != x ==> result == 100
      ensures root.Node? && root.value == x ==> result == depth
    {
      depth := 0;
      var s := Splay(x, root, depth);
      root, depth := s.tree, s.depth;
      if root == Nil || root.value != x {
        return 100, depth;
      }
      return depth, depth;
    }
  }

  /** The tree built by adding 1, 2 and 3: a left chain under 3. */
  ghost function LeftChain123(): Tree {
    Node(Node(Node(Nil, 1, Nil), 2, Nil), 3, Nil)
  }

  /**
    Adding 1, 2, 3 leaves 3 at the root of a left chain, and splaying for 1
    then changes nothing: 1 is present but is not brought to the root, so
    `find(1)` returns 100.
  */
  lemma FindMissesPresentKey()
    ensures Insert(3, Insert(2, Insert(1, Nil))) == LeftChain123()
    ensures IsBST(LeftChain123()) && 1 in Elems(LeftChain123())
    ensures Splay(1, LeftChain123(), 0) == Splayed(LeftChain123(), 1)
  {
    var t1 := Node(Nil, 1, Nil);
    assert Splay(2, t1, 0) == Splayed(t1, 0);
    var t2 := Node(t1, 2, Nil);
    assert Insert(2, t1) == t2;
    assert Splay(3, t2, 0) == Splayed(t2, 0);
    var t3 := LeftChain123();
    assert Insert(3, t2) == t3;
    assert Splay(1, t1, 1) == Splayed(t1, 1);
  }

  /**
    Adding 8, 1, 10 yields root 10 with 1 on its left and 8 on its right:
    the splay for 10 leaves 1 at the root, so the split puts 8 on the wrong
    side of 10 and the search-tree ordering is lost.
  */
  lemma InsertBreaksOrdering()
    ensures Insert(1, Insert(8, Nil)) == Node(Nil, 1, Node(Nil, 8, Nil))
    ensures IsBST(Insert(1, Insert(8, Nil)))
    ensures Insert(10, Insert(1, Insert(8, Nil))) == Node(Node(Nil, 1, Nil), 10, Node(Nil, 8, Nil))
    ensures !IsBST(Insert(10, Insert(1, Insert(8, Nil))))
  {
    var t8 := Node(Nil, 8, Nil);
    assert Splay(1, t8, 0) == Splayed(t8, 0);
    var t := Node(Nil, 1, t8);
    assert Insert(1, t8) == t;
    assert Splay(10, Nil, 1) == Splayed(Nil, 1);
    assert Splay(10, t, 0) == Splayed(t, 1);
    var r := Node(Node(Nil, 1, Nil), 10, t8);
    assert Insert(10, t) == r;
    assert 8 in Elems(r.right);
  }

  /**
    Adding 1 again to the tree built from 1, 2, 3 stores a second 1: the
    splay does not bring the existing 1 to the root, so the duplicate test
    at the root misses it.
  */
  lemma InsertDuplicates()
    ensures InOrder(Insert(1, LeftChain123())) == [1, 2, 1, 3]
  {
    FindMissesPresentKey();
    var t := LeftChain123();
    assert Insert(1, t) == Node(Node(Node(Nil, 1, Nil), 2, Nil), 1, Node(Nil, 3, Nil));
  }
}
