/**
  The splay tree of SplayTree.h with its rotation choices corrected.

  As written, `splay` promotes the right child while descending left and the
  left child while descending right (module Splay). Here each step rotates
  toward the side it descended: zig-zig rotates the grandparent first, zig-zag
  rotates the child toward the grandchild first, and both finish by promoting
  the child. Everything else (the depth counter, the split in `insert`, the
  sentinel 100 in `find`) is as in the source. With this correction the
  splayed root is always the value nearest to the key, which is what
  `insert` and `find` rely on.
*/
module SplayCorrected {
  import opened BinaryTrees
  import S = Splay

  /**
    `v` is an element of `s` that no other element separates from `x`: the
    key itself when it is present, otherwise its predecessor or successor.
  */
  ghost predicate NearestIn(v: int, x: int, s: set<int>) {
    && v in s
    && (x in s ==> v == x)
    && (forall y :: y in s ==> !(v < y < x) && !(x < y < v))
  }

  /** `splay`, with the rotations of each step chosen toward the side descended. */
  function Splay(x: int, t: Tree, depth: int): (s: S.Splayed)
    ensures InOrder(s.tree) == InOrder(t)
    ensures s.tree.Nil? <==> t.Nil?
    ensures depth <= s.depth && 2 * (s.depth - depth) <= Height(t) + 1
    ensures t.Node? && t.value == x ==> s == S.Splayed(t, depth)
    decreases t
  {
    if t == Nil then S.Splayed(Nil, depth)
    else if x < t.value then
      if t.left == Nil then S.Splayed(t, depth)
      else
        var L := t.left;
        assert InOrder(t) == InOrder(L.left) + [L.value] + InOrder(L.right) + [t.value] + InOrder(t.right);
        var d := depth + 1;
        var step :=
          if x < L.value then
            var inner := Splay(x, L.left, d);
            assert InOrder(Node(inner.tree, L.value, L.right)) == InOrder(L);
            S.Splayed(S.RotateWithLeftChild(Node(Node(inner.tree, L.value, L.right), t.value, t.right)), inner.depth)
          else if L.value < x then
            var inner := Splay(x, L.right, d);
            var L1 := Node(L.left, L.value, inner.tree);
            assert InOrder(L1) == InOrder(L);
            S.Splayed(Node(if inner.tree != Nil then S.RotateWithRightChild(L1) else L1, t.value, t.right), inner.depth)
          else
            S.Splayed(t, d);
        assert InOrder(step.tree) == InOrder(t);
        var t1 := step.tree;
        S.Splayed(if t1.left == Nil then t1 else S.RotateWithLeftChild(t1), step.depth)
    else if t.value < x then
      if t.right == Nil then S.Splayed(t, depth)
      else
        var R := t.right;
        assert InOrder(t) == InOrder(t.left) + [t.value] + InOrder(R.left) + [R.value] + InOrder(R.right);
        var d := depth + 1;
        var step :=
          if R.value < x then
            var inner := Splay(x, R.right, d);
            assert InOrder(Node(R.left, R.value, inner.tree)) == InOrder(R);
            S.Splayed(S.RotateWithRightChild(Node(t.left, t.value, Node(R.left, R.value, inner.tree))), inner.depth)
          else if x < R.value then
            var inner := Splay(x, R.left, d);
            var R1 := Node(inner.tree, R.value, R.right);
            assert InOrder(R1) == InOrder(R);
            S.Splayed(Node(t.left, t.value, if inner.tree != Nil then S.RotateWithLeftChild(R1) else R1), inner.depth)
          else
            S.Splayed(t, d);
        assert InOrder(step.tree) == InOrder(t);
        var t1 := step.tree;
        S.Splayed(if t1.right == Nil then t1 else S.RotateWithRightChild(t1), step.depth)
    else
      S.Splayed(t, depth)
  }

  /** A node whose value is `x`, or which has no child on `x`'s side, holds the value nearest to `x`. */
  lemma NearestAtNode(x: int, t: Tree)
    requires IsBST(t) && t.Node?
    requires x == t.value || (x < t.value && t.left == Nil) || (t.value < x && t.right == Nil)
    ensures NearestIn(t.value, x, Elems(t))
  {
    assert Elems(t) == Elems(t.left) + {t.value} + Elems(t.right);
  }

  /** Below `x < t.value`, a value nearest to `x` in the left subtree is nearest in the whole tree. */
  lemma NearestLiftLeft(w: int, x: int, t: Tree)
    requires IsBST(t) && t.Node? && x < t.value
    requires NearestIn(w, x, Elems(t.left))
    ensures NearestIn(w, x, Elems(t))
  {
    assert Elems(t) == Elems(t.left) + {t.value} + Elems(t.right);
  }

  /** Mirror image of NearestLiftLeft. */
  lemma NearestLiftRight(w: int, x: int, t: Tree)
    requires IsBST(t) && t.Node? && t.value < x
    requires NearestIn(w, x, Elems(t.right))
    ensures NearestIn(w, x, Elems(t))
  {
    assert Elems(t) == Elems(t.left) + {t.value} + Elems(t.right);
  }

  /** In an ordered tree the corrected splay brings the value nearest to `x` to the root. */
  lemma {:induction false} SplayNearest(x: int, t: Tree, depth: int)
    requires IsBST(t) && t.Node?
    ensures Splay(x, t, depth).tree.Node?
    ensures NearestIn(Splay(x, t, depth).tree.value, x, Elems(t))
    decreases t
  {
    var s := Splay(x, t, depth);
    if x < t.value && t.left != Nil {
      var L := t.left;
      var d := depth + 1;
      if x < L.value {
        var inner := Splay(x, L.left, d);
        var t1 := Node(inner.tree, L.value, Node(L.right, t.value, t.right));
        assert S.RotateWithLeftChild(Node(Node(inner.tree, L.value, L.right), t.value, t.right)) == t1;
        if L.left == Nil {
          assert s.tree == t1;
          NearestAtNode(x, L);
        } else {
          SplayNearest(x, L.left, d);
          SameInOrder(inner.tree, L.left);
          assert s.tree == S.RotateWithLeftChild(t1);
          assert s.tree.value == inner.tree.value;
          NearestLiftLeft(s.tree.value, x, L);
        }
      } else if L.value < x {
        var inner := Splay(x, L.right, d);
        var L1 := Node(L.left, L.value, inner.tree);
        if L.right == Nil {
          assert s.tree == S.RotateWithLeftChild(Node(L1, t.value, t.right));
          assert s.tree.value == L.value;
          NearestAtNode(x, L);
        } else {
          SplayNearest(x, L.right, d);
          SameInOrder(inner.tree, L.right);
          var L2 := S.RotateWithRightChild(L1);
          assert L2.value == inner.tree.value;
          assert s.tree == S.RotateWithLeftChild(Node(L2, t.value, t.right));
          assert s.tree.value == inner.tree.value;
          NearestLiftRight(s.tree.value, x, L);
        }
      } else {
        assert s.tree == S.RotateWithLeftChild(t);
        NearestAtNode(x, L);
      }
      NearestLiftLeft(s.tree.value, x, t);
    } else if t.value < x && t.right != Nil {
      var R := t.right;
      var d := depth + 1;
      if R.value < x {
        var inner := Splay(x, R.right, d);
        var t1 := Node(Node(t.left, t.value, R.left), R.value, inner.tree);
        assert S.RotateWithRightChild(Node(t.left, t.value, Node(R.left, R.value, inner.tree))) == t1;
        if R.right == Nil {
          assert s.tree == t1;
          NearestAtNode(x, R);
        } else {
          SplayNearest(x, R.right, d);
          SameInOrder(inner.tree, R.right);
          assert s.tree == S.RotateWithRightChild(t1);
          assert s.tree.value == inner.tree.value;
          NearestLiftRight(s.tree.value, x, R);
        }
      } else if x < R.value {
        var inner := Splay(x, R.left, d);
        var R1 := Node(inner.tree, R.value, R.right);
        if R.left == Nil {
          assert s.tree == S.RotateWithRightChild(Node(t.left, t.value, R1));
          assert s.tree.value == R.value;
          NearestAtNode(x, R);
        } else {
          SplayNearest(x, R.left, d);
          SameInOrder(inner.tree, R.left);
          var R2 := S.RotateWithLeftChild(R1);
          assert R2.value == inner.tree.value;
          assert s.tree == S.RotateWithRightChild(Node(t.left, t.value, R2));
          assert s.tree.value == inner.tree.value;
          NearestLiftLeft(s.tree.value, x, R);
        }
      } else {
        assert s.tree == S.RotateWithRightChild(t);
        NearestAtNode(x, R);
      }
      NearestLiftRight(s.tree.value, x, t);
    } else {
      NearestAtNode(x, t);
    }
  }

  /** `insert` over the corrected splay; the split after it is the source's (Splay.SplitAt). */
  function Insert(x: int, t: Tree): (r: Tree)
    ensures r.Node? && r.value == x
    ensures Elems(r) == Elems(t) + {x}
    ensures t == Nil ==> r == Node(Nil, x, Nil)
  {
    if t == Nil then Node(Nil, x, Nil)
    else
      var s := Splay(x, t, 0).tree;
      SameInOrder(s, t);
      S.SplitAt(x, s)
  }

  /**
    With the nearest value at the root, the split puts every smaller value
    on the left of the new root and every larger one on its right.
  */
  lemma SplitKeepsOrdering(x: int, s: Tree)
    requires IsBST(s) && s.Node? && NearestIn(s.value, x, Elems(s))
    ensures IsBST(S.SplitAt(x, s))
  {
    assert Elems(s) == Elems(s.left) + {s.value} + Elems(s.right);
    assert s.value != x ==> x !in Elems(s);
    if x < s.value {
      forall y | y in Elems(s.left) ensures y < x {
        assert y in Elems(s) && y < s.value;
      }
      var hi := Node(Nil, s.value, s.right);
      assert Elems(hi) == Elems(Nil) + {s.value} + Elems(s.right);
      assert IsBST(hi);
      assert S.SplitAt(x, s) == Node(s.left, x, hi);
    } else if s.value < x {
      forall y | y in Elems(s.right) ensures x < y {
        assert y in Elems(s) && s.value < y;
      }
      var lo := Node(s.left, s.value, Nil);
      assert Elems(lo) == Elems(s.left) + {s.value} + Elems(Nil);
      assert IsBST(lo);
      assert S.SplitAt(x, s) == Node(lo, x, s.right);
    }
  }

  /** The corrected `insert` keeps a search tree ordered. */
  lemma InsertKeepsOrdering(x: int, t: Tree)
    requires IsBST(t)
    ensures IsBST(Insert(x, t))
  {
    if t != Nil {
      var s := Splay(x, t, 0).tree;
      SplayNearest(x, t, 0);
      SameInOrder(s, t);
      SplitKeepsOrdering(x, s);
    }
  }

  /** Adding a value already present only splays it to the root: the values and their order are unchanged. */
  lemma InsertPresentUnchanged(x: int, t: Tree)
    requires IsBST(t) && x in Elems(t)
    ensures Insert(x, t) == Splay(x, t, 0).tree
    ensures InOrder(Insert(x, t)) == InOrder(t)
  {
    SplayNearest(x, t, 0);
  }

  /**
    The inputs that defeat the code as written: after adding 1, 2, 3 the
    corrected splay for 1 brings it to the root after one double step, and
    adding 8, 1, 10 keeps the ordering.
  */
  lemma CorrectedOnCounterexamples()
    ensures Splay(1, S.LeftChain123(), 0) ==
      S.Splayed(Node(Nil, 1, Node(Nil, 2, Node(Nil, 3, Nil))), 1)
    ensures Insert(10, Insert(1, Insert(8, Nil))) ==
      Node(Node(Node(Nil, 1, Nil), 8, Nil), 10, Nil)
  {
    var n1 := Node(Nil, 1, Nil);
    assert Splay(1, n1, 1) == S.Splayed(n1, 1);
    var t8 := Node(Nil, 8, Nil);
    assert Splay(1, t8, 0) == S.Splayed(t8, 0);
    var t := Node(Nil, 1, t8);
    assert Insert(1, t8) == t;
    assert Splay(10, Nil, 1) == S.Splayed(Nil, 1);
    assert Splay(10, t, 0) == S.Splayed(Node(n1, 8, Nil), 1);
  }

  /** The splay tree with the corrected splay; its ordering is an invariant. */
  class SplayTree {
    var root: Tree

    ghost predicate Valid()
      reads this
    {
      IsBST(root)
    }

    constructor ()
      ensures Valid() && root == Nil
    {
      root := Nil;
    }

    method Add(c: int)
      requires Valid()
      modifies this
      ensures Valid()
      ensures root == Insert(c, old(root))
      ensures Elems(root) == old(Elems(root)) + {c}
    {
      InsertKeepsOrdering(c, root);
      root := Insert(c, root);
    }

    /**
      `find`: splays toward `x`; a present `x` is now at the root and the
      depth counter is returned, an absent one gives 100.
    */
    method Find(x: int) returns (result: int, depth: int)
      requires Valid()
      modifies this
      ensures Valid()
      ensures root == Splay(x, old(root), 0).tree && depth == Splay(x, old(root), 0).depth
      ensures InOrder(root) == old(InOrder(root))
      ensures x in Elems(root) ==> root.Node? && root.value == x && result == depth
      ensures x !in Elems(root) ==> result == 100
    {
      depth := 0;
      var s := Splay(x, root, depth);
      SameInOrder(s.tree, root);
      if root != Nil {
        SplayNearest(x, root, depth);
      }
      root, depth := s.tree, s.depth;
      if root == Nil || root.value != x {
        return 100, depth;
      }
      return depth, depth;
    }
  }
}
