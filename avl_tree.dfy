/**
  The height-balanced tree of AVLTree.h.

  A node caches the height of its subtree. The rotations, `insert` and
  `balance` rewrite child pointers and return the new subtree root; here they
  are functions returning the rewritten subtree. `Shape` forgets the cached
  heights, so ordering, contents and depth are those of BinaryTrees.
*/
module Avl {
  import BT = BinaryTrees

  datatype AvlNode = Nil | Node(left: AvlNode, element: int, right: AvlNode, height: int)

  /** The tree without its cached heights. */
  ghost function Shape(t: AvlNode): BT.Tree {
    match t
    case Nil => BT.Nil
    case Node(l, e, r, _) => BT.Node(Shape(l), e, Shape(r))
  }

  /** The height the cache should hold: edges on the longest downward path, -1 when empty. */
  ghost function TrueHeight(t: AvlNode): int {
    BT.Height(Shape(t))
  }

  /** Every node's cached height is its subtree's real height. */
  ghost predicate HeightsCorrect(t: AvlNode) {
    match t
    case Nil => true
    case Node(l, _, r, h) => HeightsCorrect(l) && HeightsCorrect(r) && h == TrueHeight(t)
  }

  /** At every node the two subtree heights differ by at most one. */
  ghost predicate Balanced(t: AvlNode) {
    match t
    case Nil => true
    case Node(l, _, r, _) => Balanced(l) && Balanced(r) && -1 <= TrueHeight(l) - TrueHeight(r) <= 1
  }

  /** `height`: -1 for a null pointer, the cached height otherwise. */
  function Height(t: AvlNode): (h: int)
    ensures HeightsCorrect(t) ==> h == TrueHeight(t)
    ensures t == Nil ==> h == -1
  {
    match t
    case Nil => -1
    case Node(_, _, _, h) => h
  }

  /** `updateHeight`: recomputes a node's cache from its children's caches. */
  function UpdateHeight(t: AvlNode): (r: AvlNode)
    ensures Shape(r) == Shape(t)
    ensures t.Node? && HeightsCorrect(t.left) && HeightsCorrect(t.right) ==> HeightsCorrect(r)
  {
    match t
    case Nil => Nil
    case Node(l, e, rt, _) => Node(l, e, rt, BT.Max(Height(l), Height(rt)) + 1)
  }

  /** `balanceFactor`: left height minus right height. */
  function BalanceFactor(t: AvlNode): (bf: int)
    requires t.Node?
    ensures HeightsCorrect(t) ==> bf == TrueHeight(t.left) - TrueHeight(t.right)
  {
    Height(t.left) - Height(t.right)
  }

  /** `rotateWithLeftChild`: promotes the left child; the old root's cache is updated first. */
  function RotateWithLeftChild(k2: AvlNode): (k1: AvlNode)
    requires k2.Node? && k2.left.Node?
    ensures BT.InOrder(Shape(k1)) == BT.InOrder(Shape(k2))
    ensures k1.Node? && k1.element == k2.left.element
    ensures HeightsCorrect(k2.left) && HeightsCorrect(k2.right) ==> HeightsCorrect(k1)
  {
    var k1 := k2.left;
    var lowered := UpdateHeight(Node(k1.right, k2.element, k2.right, k2.height));
    UpdateHeight(Node(k1.left, k1.element, lowered, k1.height))
  }

  /** `rotateWithRightChild`: promotes the right child; the old root's cache is updated first. */
  function RotateWithRightChild(k1: AvlNode): (k2: AvlNode)
    requires k1.Node? && k1.right.Node?
    ensures BT.InOrder(Shape(k2)) == BT.InOrder(Shape(k1))
    ensures k2.Node? && k2.element == k1.right.element
    ensures HeightsCorrect(k1.left) && HeightsCorrect(k1.right) ==> HeightsCorrect(k2)
  {
    var k2 := k1.right;
    var lowered := UpdateHeight(Node(k1.left, k1.element, k2.left, k1.height));
    UpdateHeight(Node(lowered, k2.element, k2.right, k2.height))
  }

  /** `doubleWithLeftChild`: the left child rotates with its right child, then the root with its new left child. */
  function DoubleWithLeftChild(k3: AvlNode): (r: AvlNode)
    requires k3.Node? && k3.left.Node? && k3.left.right.Node?
    ensures BT.InOrder(Shape(r)) == BT.InOrder(Shape(k3))
    ensures r.Node? && r.element == k3.left.right.element
    ensures HeightsCorrect(k3.left) && HeightsCorrect(k3.right) ==> HeightsCorrect(r)
  {
    RotateWithLeftChild(k3.(left := RotateWithRightChild(k3.left)))
  }

  /** `doubleWithRightChild`: the right child rotates with its left child, then the root with its new right child. */
  function DoubleWithRightChild(k1: AvlNode): (r: AvlNode)
    requires k1.Node? && k1.right.Node? && k1.right.left.Node?
    ensures BT.InOrder(Shape(r)) == BT.InOrder(Shape(k1))
    ensures r.Node? && r.element == k1.right.left.element
    ensures HeightsCorrect(k1.left) && HeightsCorrect(k1.right) ==> HeightsCorrect(r)
  {
    RotateWithRightChild(k1.(right := RotateWithLeftChild(k1.right)))
  }

  /**
    `balance`: at a balance factor of +2 or -2 applies the single or double
    rotation the heavy child's own balance factor selects; the heavy child
    is never null there, because its height is at least 1.
  */
  function Balance(t: AvlNode): (r: AvlNode)
    requires t.Node? && HeightsCorrect(t)
    ensures BT.InOrder(Shape(r)) == BT.InOrder(Shape(t))
    ensures BT.Elems(Shape(r)) == BT.Elems(Shape(t))
    ensures BT.IsBST(Shape(r)) <==> BT.IsBST(Shape(t))
    ensures HeightsCorrect(r) && r.Node?
    ensures -1 <= BalanceFactor(t) <= 1 ==> r == t
  {
    var bf := BalanceFactor(t);
    var r :=
      if bf == 2 then
        assert t.left.Node?;
        if BalanceFactor(t.left) >= 0 then RotateWithLeftChild(t)
        else assert t.left.right.Node?; DoubleWithLeftChild(t)
      else if bf == -2 then
        assert t.right.Node?;
        if BalanceFactor(t.right) <= 0 then RotateWithRightChild(t)
        else assert t.right.left.Node?; DoubleWithRightChild(t)
      else t;
    BT.SameInOrder(Shape(r), Shape(t));
    r
  }

  /**
    `insert`: descends by comparison, attaches a new leaf of height 0, and on
    the way back up recomputes each ancestor's height and rebalances it.
  */
  function Insert(x: int, t: AvlNode): (r: AvlNode)
    requires HeightsCorrect(t)
    ensures HeightsCorrect(r) && r.Node?
    ensures BT.Elems(Shape(r)) == BT.Elems(Shape(t)) + {x}
    ensures BT.IsBST(Shape(t)) ==> BT.IsBST(Shape(r))
    decreases t
  {
    match t
    case Nil =>
      var leaf := Node(Nil, x, Nil, 0);
      assert TrueHeight(leaf) == BT.Height(BT.Node(BT.Nil, x, BT.Nil)) == 0;
      leaf
    case Node(l, e, rt, h) =>
      if x < e then
        var l1 := Insert(x, l);
        var u := UpdateHeight(Node(l1, e, rt, h));
        assert Shape(u) == BT.Node(Shape(l1), e, Shape(rt));
        assert BT.IsBST(Shape(t)) ==> forall y :: y in BT.Elems(Shape(l1)) ==> y < e;
        Balance(u)
      else if e < x then
        var r1 := Insert(x, rt);
        var u := UpdateHeight(Node(l, e, r1, h));
        assert Shape(u) == BT.Node(Shape(l), e, Shape(r1));
        assert BT.IsBST(Shape(t)) ==> forall y :: y in BT.Elems(Shape(r1)) ==> e < y;
        Balance(u)
      else t
  }

  lemma TrueHeightOfNode(t: AvlNode)
    requires t.Node?
    ensures TrueHeight(t) == 1 + BT.Max(TrueHeight(t.left), TrueHeight(t.right))
    ensures TrueHeight(t.left) >= -1 && TrueHeight(t.right) >= -1
  {
  }

  /** Left-left case: a single rotation balances a left-heavy node whose left child leans left or not at all. */
  lemma {:induction false} LeftLeftRestores(t: AvlNode)
    requires t.Node? && t.left.Node? && HeightsCorrect(t) && Balanced(t.left) && Balanced(t.right)
    requires BalanceFactor(t) == 2 && BalanceFactor(t.left) >= 0
    ensures Balanced(RotateWithLeftChild(t))
    ensures TrueHeight(t) - 1 <= TrueHeight(RotateWithLeftChild(t)) <= TrueHeight(t)
  {
    var L, C := t.left, t.right;
    var A, B := L.left, L.right;
    TrueHeightOfNode(t);
    TrueHeightOfNode(L);
    var r := RotateWithLeftChild(t);
    assert r.left == A && r.right.left == B && r.right.right == C;
    TrueHeightOfNode(r);
    TrueHeightOfNode(r.right);
  }

  /** Left-right case: a double rotation balances a left-heavy node whose left child leans right. */
  lemma {:induction false} LeftRightRestores(t: AvlNode)
    requires t.Node? && t.left.Node? && t.left.right.Node? && HeightsCorrect(t) && Balanced(t.left) && Balanced(t.right)
    requires BalanceFactor(t) == 2 && BalanceFactor(t.left) < 0
    ensures Balanced(DoubleWithLeftChild(t))
    ensures TrueHeight(t) - 1 <= TrueHeight(DoubleWithLeftChild(t)) <= TrueHeight(t)
  {
    var L, C := t.left, t.right;
    var A, B := L.left, L.right;
    TrueHeightOfNode(t);
    TrueHeightOfNode(L);
    TrueHeightOfNode(B);
    var r := DoubleWithLeftChild(t);
    assert r.left.left == A && r.left.right == B.left;
    assert r.right.left == B.right && r.right.right == C;
    TrueHeightOfNode(r);
    TrueHeightOfNode(r.left);
    TrueHeightOfNode(r.right);
  }

  /** Right-right case, the mirror of the left-left case. */
  lemma {:induction false} RightRightRestores(t: AvlNode)
    requires t.Node? && t.right.Node? && HeightsCorrect(t) && Balanced(t.left) && Balanced(t.right)
    requires BalanceFactor(t) == -2 && BalanceFactor(t.right) <= 0
    ensures Balanced(RotateWithRightChild(t))
    ensures TrueHeight(t) - 1 <= TrueHeight(RotateWithRightChild(t)) <= TrueHeight(t)
  {
    var A, R := t.left, t.right;
    var B, C := R.left, R.right;
    TrueHeightOfNode(t);
    TrueHeightOfNode(R);
    var r := RotateWithRightChild(t);
    assert r.right == C && r.left.left == A && r.left.right == B;
    TrueHeightOfNode(r);
    TrueHeightOfNode(r.left);
  }

  /** Right-left case, the mirror of the left-right case. */
  lemma {:induction false} RightLeftRestores(t: AvlNode)
    requires t.Node? && t.right.Node? && t.right.left.Node? && HeightsCorrect(t) && Balanced(t.left) && Balanced(t.right)
    requires BalanceFactor(t) == -2 && BalanceFactor(t.right) > 0
    ensures Balanced(DoubleWithRightChild(t))
    ensures TrueHeight(t) - 1 <= TrueHeight(DoubleWithRightChild(t)) <= TrueHeight(t)
  {
    var A, R := t.left, t.right;
    var B, C := R.left, R.right;
    TrueHeightOfNode(t);
    TrueHeightOfNode(R);
    TrueHeightOfNode(B);
    var r := DoubleWithRightChild(t);
    assert r.left.left == A && r.left.right == B.left;
    assert r.right.left == B.right && r.right.right == C;
    TrueHeightOfNode(r);
    TrueHeightOfNode(r.left);
    TrueHeightOfNode(r.right);
  }

  /**
    One rebalancing step restores the balance of a node whose children are
    balanced and whose balance factor is within -2..2, lowering its height by
    at most one.
  */
  lemma {:induction false} BalanceRestores(t: AvlNode)
    requires t.Node? && HeightsCorrect(t) && Balanced(t.left) && Balanced(t.right)
    requires -2 <= BalanceFactor(t) <= 2
    ensures Balanced(Balance(t))
    ensures TrueHeight(t) - 1 <= TrueHeight(Balance(t)) <= TrueHeight(t)
  {
    var bf := BalanceFactor(t);
    TrueHeightOfNode(t);
    if bf == 2 {
      if BalanceFactor(t.left) >= 0 {
        LeftLeftRestores(t);
      } else {
        LeftRightRestores(t);
      }
    } else if bf == -2 {
      if BalanceFactor(t.right) <= 0 {
        RightRightRestores(t);
      } else {
        RightLeftRestores(t);
      }
    }
  }

  /**
    Insertion keeps every node balanced with correct cached heights and grows
    the height by at most one.
  */
  lemma {:induction false} InsertKeepsAvl(x: int, t: AvlNode)
    requires HeightsCorrect(t) && Balanced(t)
    ensures Balanced(Insert(x, t))
    ensures TrueHeight(t) <= TrueHeight(Insert(x, t)) <= TrueHeight(t) + 1
  {
    match t
    case Nil =>
    case Node(l, e, rt, h) =>
      TrueHeightOfNode(t);
      if x < e {
        InsertKeepsAvl(x, l);
        var u := UpdateHeight(Node(Insert(x, l), e, rt, h));
        TrueHeightOfNode(u);
        BalanceRestores(u);
      } else if e < x {
        InsertKeepsAvl(x, rt);
        var u := UpdateHeight(Node(l, e, Insert(x, rt), h));
        TrueHeightOfNode(u);
        BalanceRestores(u);
      }
  }

  /**
    Inserting a value that is already present returns the tree unchanged:
    the node holding it is returned as is, and every ancestor's height
    recomputation and rebalancing is then a no-op.
  */
  lemma {:induction false} InsertPresentUnchanged(x: int, t: AvlNode)
    requires HeightsCorrect(t) && Balanced(t) && BT.IsBST(Shape(t))
    requires x in BT.Elems(Shape(t))
    ensures Insert(x, t) == t
  {
    match t
    case Node(l, e, rt, h) =>
      TrueHeightOfNode(t);
      assert BT.Elems(Shape(t)) == BT.Elems(Shape(l)) + {e} + BT.Elems(Shape(rt));
      if x < e {
        assert x !in BT.Elems(Shape(rt));
        InsertPresentUnchanged(x, l);
        assert UpdateHeight(Node(l, e, rt, h)) == t;
      } else if e < x {
        assert x !in BT.Elems(Shape(l));
        InsertPresentUnchanged(x, rt);
        assert UpdateHeight(Node(l, e, rt, h)) == t;
      }
  }

  class AVLTree {
    var root: AvlNode

    ghost predicate Valid()
      reads this
    {
      BT.IsBST(Shape(root)) && HeightsCorrect(root) && Balanced(root)
    }

    constructor ()
      ensures Valid() && root == Nil
    {
      root := Nil;
    }

    /** `add`: the root becomes the result of inserting `c`. */
    method Add(c: int)
      requires Valid()
      modifies this
      ensures Valid()
      ensures root == Insert(c, old(root))
      ensures BT.Elems(Shape(root)) == old(BT.Elems(Shape(root))) + {c}
    {
      InsertKeepsAvl(c, root);
      root := Insert(c, root);
    }

    /**
      `find`: walks down from the root counting edges. Returns the depth of
      `x` when present and 100 otherwise; `depth` ends at the number of edges
      descended either way.
    */
    method Find(x: int) returns (result: int, depth: int)
      requires Valid()
      ensures depth == BT.SearchDepth(Shape(root), x)
      ensures x in BT.Elems(Shape(root)) ==> result == depth && BT.AtDepth(Shape(root), x, depth)
      ensures x !in BT.Elems(Shape(root)) ==> result == 100
    {
      var current := root;
      depth := 0;
      while current != Nil
        invariant BT.IsBST(Shape(current))
        invariant depth + BT.SearchDepth(Shape(current), x) == BT.SearchDepth(Shape(root), x)
        invariant x in BT.Elems(Shape(root)) <==> x in BT.Elems(Shape(current))
        decreases current
      {
        if x < current.element {
          current := current.left;
          depth := depth + 1;
        } else if current.element < x {
          current := current.right;
          depth := depth + 1;
        } else {
          BT.AtDepthIsSearchDepth(Shape(root), x, depth);
          return depth, depth;
        }
      }
      return 100, depth;
    }
  }

  /**
    Adding 1, 2, 3 to an empty tree takes the right-right case at the third
    insertion: 2 becomes the root with height 1 over the leaves 1 and 3, and
    lookups find 2 at depth 0 and 1 and 3 at depth 1.
  */
  lemma AscendingThree()
    ensures Insert(3, Insert(2, Insert(1, Nil))) ==
      Node(Node(Nil, 1, Nil, 0), 2, Node(Nil, 3, Nil, 0), 1)
    ensures var t := Shape(Insert(3, Insert(2, Insert(1, Nil))));
      BT.SearchDepth(t, 2) == 0 && BT.SearchDepth(t, 1) == 1 && BT.SearchDepth(t, 3) == 1
  {
    var leaf1, leaf2, leaf3 := Node(Nil, 1, Nil, 0), Node(Nil, 2, Nil, 0), Node(Nil, 3, Nil, 0);
    assert Insert(1, Nil) == leaf1;
    assert Insert(2, Nil) == leaf2;
    assert Insert(3, Nil) == leaf3;
    var t2 := Node(Nil, 1, leaf2, 1);
    assert UpdateHeight(Node(Nil, 1, leaf2, 0)) == t2;
    assert Balance(t2) == t2;
    assert Insert(2, leaf1) == t2;
    var r2 := Node(Nil, 2, leaf3, 1);
    assert UpdateHeight(Node(Nil, 2, leaf3, 0)) == r2;
    assert Balance(r2) == r2;
    assert Insert(3, leaf2) == r2;
    var u := Node(Nil, 1, r2, 2);
    assert UpdateHeight(Node(Nil, 1, r2, 1)) == u;
    assert BalanceFactor(u) == -2 && BalanceFactor(r2) == -1;
    assert Balance(u) == RotateWithRightChild(u);
    assert RotateWithRightChild(u) == Node(leaf1, 2, leaf3, 1);
    assert Insert(3, t2) == Node(leaf1, 2, leaf3, 1);
  }
}
