/**
  The unbalanced binary search tree of BinarySearchTree.h.

  The private recursive helpers that rewrite a child pointer through a
  `BinaryNode*&` parameter are functions returning the rewritten subtree;
  the class's methods store it back into `root` and do the `size`
  bookkeeping. `copyNode`, which bumps `size` once per node it copies, is a
  recursive method of the class.
*/
module Bst {
  import opened BinaryTrees

  /** A rewritten subtree, and whether a node was created or deleted in it. */
  datatype Update = Update(tree: Tree, changed: bool)

  /**
    Helper `destroy`: deletes the left subtree, then the right one, then the
    node itself. The result lists the values of the deleted nodes in that order.
  */
  function Destroy(n: Tree): (released: seq<int>)
    ensures multiset(released) == multiset(InOrder(n))
  {
    match n
    case Nil => []
    case Node(l, v, r) => Destroy(l) + Destroy(r) + [v]
  }

  /**
    Helper `find(c, n, depth)`: descends by comparison, adding one to `depth`
    per edge; on reaching a null child it sets `depth` to -1.
  */
  method FindFrom(c: int, n: Tree, depth: int) returns (found: bool, d: int)
    ensures found ==> c in Elems(n) && d == depth + SearchDepth(n, c)
    ensures !found ==> d == -1
    ensures IsBST(n) ==> (found <==> c in Elems(n))
    decreases n
  {
    if n == Nil {
      return false, -1;
    }
    if c < n.value {
      found, d := FindFrom(c, n.left, depth + 1);
      return;
    }
    if n.value < c {
      found, d := FindFrom(c, n.right, depth + 1);
      return;
    }
    return true, depth;
  }

  /** Helper `find(c, n)`: the same search, starting from depth 0. */
  method FindIn(c: int, n: Tree) returns (found: bool)
    ensures found ==> c in Elems(n)
    ensures IsBST(n) ==> (found <==> c in Elems(n))
  {
    var depth := 0;
    found, depth := FindFrom(c, n, depth);
  }

  /**
    Helper `add(c, n)`: descends by comparison and hangs a new leaf on the
    null child it reaches; a value equal to a node's leaves the tree as it is.
  */
  function AddAt(c: int, n: Tree): (r: Update)
    ensures Elems(r.tree) == Elems(n) + {c}
    ensures r.changed ==> Count(r.tree) == Count(n) + 1
    ensures !r.changed ==> r.tree == n && c in Elems(n)
    ensures IsBST(n) ==> IsBST(r.tree) && (r.changed <==> c !in Elems(n))
  {
    match n
    case Nil => Update(Node(Nil, c, Nil), true)
    case Node(l, v, rt) =>
      if c < v then
        var u := AddAt(c, l);
        Update(Node(u.tree, v, rt), u.changed)
      else if v < c then
        var u := AddAt(c, rt);
        Update(Node(l, v, u.tree), u.changed)
      else
        Update(n, false)
  }

  /** Helper `findMax`: follows right children to the rightmost node. */
  function FindMax(n: Tree): (m: int)
    requires n != Nil
    ensures m in Elems(n)
    ensures m == InOrder(n)[|InOrder(n)| - 1]
    ensures IsBST(n) ==> forall y :: y in Elems(n) ==> y <= m
  {
    if n.right == Nil then n.value else FindMax(n.right)
  }

  /**
    Helper `remove(c, n)`. A node with two children takes the maximum of its
    left subtree as its value and that value is then removed from the left
    subtree; a node with at most one child is replaced by that child.
  */
  function RemoveAt(c: int, n: Tree): (r: Update)
    ensures Elems(r.tree) <= Elems(n)
    ensures Count(r.tree) == Count(n) - (if r.changed then 1 else 0)
    ensures IsBST(n) ==>
      && IsBST(r.tree)
      && Elems(r.tree) == Elems(n) - {c}
      && (r.changed <==> c in Elems(n))
      && (!r.changed ==> r.tree == n)
    decreases n
  {
    match n
    case Nil => Update(Nil, false)
    case Node(l, v, rt) =>
      if c < v then
        var u := RemoveAt(c, l);
        Update(Node(u.tree, v, rt), u.changed)
      else if v < c then
        var u := RemoveAt(c, rt);
        Update(Node(l, v, u.tree), u.changed)
      else if l != Nil && rt != Nil then
        var m := FindMax(l);
        var u := RemoveAt(m, l);
        Update(Node(u.tree, m, rt), u.changed)
      else
        Update(if l != Nil then l else rt, true)
  }

  /** The tree with its rightmost node spliced out (replaced by that node's left child). */
  ghost function WithoutRightmost(n: Tree): Tree
    requires n != Nil
  {
    if n.right == Nil then n.left else Node(n.left, n.value, WithoutRightmost(n.right))
  }

  /**
    The recursive call of the two-child case removes the left subtree's
    maximum, which sits on the rightmost node: that node has no right child,
    so it is spliced out directly and the recursion never meets a second
    two-child node.
  */
  lemma {:induction false} RemoveMaxSplicesRightmost(n: Tree)
    requires n != Nil && IsBST(n)
    ensures RemoveAt(FindMax(n), n) == Update(WithoutRightmost(n), true)
  {
    var m := FindMax(n);
    if n.right != Nil {
      assert n.value < m;
      RemoveMaxSplicesRightmost(n.right);
    }
  }

  class BinarySearchTree {
    var root: Tree
    /** The live node counter (`unsigned long size`). */
    var size: nat

    /** Ordered, and `size` counts at least the nodes present (`timber` does not reset it). */
    ghost predicate Valid()
      reads this
    {
      IsBST(root) && Count(root) <= size
    }

    constructor ()
      ensures Valid() && root == Nil && size == 0
    {
      root := Nil;
      size := 0;
    }

    /** Copy constructor: `size` starts at 0 and `copyNode` counts every copied node. */
    constructor Copy(b: BinarySearchTree)
      requires b.Valid()
      ensures Valid() && root == b.root && size == Count(b.root)
    {
      size := 0;
      root := Nil;
      new;
      root := CopyNode(b.root);
    }

    /** Helper `copyNode`: a node-by-node copy, adding one to `size` per node. */
    method CopyNode(n: Tree) returns (r: Tree)
      modifies this`size
      ensures r == n && size == old(size) + Count(n)
      decreases n
    {
      if n == Nil {
        return Nil;
      }
      size := size + 1;
      var l := CopyNode(n.left);
      var rt := CopyNode(n.right);
      r := Node(l, n.value, rt);
    }

    /** `timber`: deletes every node; `size` is left as it was. */
    method Timber()
      requires Valid()
      modifies this`root
      ensures Valid() && root == Nil && size == old(size)
    {
      var released := Destroy(root);
      root := Nil;
    }

    function IsEmpty(): (empty: bool)
      reads this
      ensures empty <==> Elems(root) == {}
    {
      root == Nil
    }

    function GetSize(): (s: nat)
      requires Valid()
      reads this
      ensures Count(root) <= s
    {
      size
    }

    /** Public `find(c, depth)`: the depth of `c` on success, -1 otherwise. */
    method FindDepth(c: int) returns (found: bool, depth: int)
      requires Valid()
      ensures found <==> c in Elems(root)
      ensures found ==> depth >= 0 && AtDepth(root, c, depth)
      ensures !found ==> depth == -1
    {
      depth := 0;
      found, depth := FindFrom(c, root, depth);
      if found {
        AtDepthIsSearchDepth(root, c, depth);
      }
    }

    /** Public `find(c)`. */
    method Find(c: int) returns (found: bool)
      requires Valid()
      ensures found <==> c in Elems(root)
    {
      found := FindIn(c, root);
    }

    /** Public `add`: true and one more node when `c` was absent; false and nothing changed otherwise. */
    method Add(c: int) returns (added: bool)
      requires Valid()
      modifies this
      ensures Valid()
      ensures added <==> c !in old(Elems(root))
      ensures root == AddAt(c, old(root)).tree
      ensures Elems(root) == old(Elems(root)) + {c}
      ensures added ==> size == old(size) + 1 && Count(root) == old(Count(root)) + 1
      ensures !added ==> root == old(root) && size == old(size)
    {
      var u := AddAt(c, root);
      root := u.tree;
      if u.changed {
        size := size + 1;
      }
      added := u.changed;
    }

    /** Public `remove`: deletes `c` if present, one node fewer; otherwise nothing changes. */
    method Remove(c: int)
      requires Valid()
      modifies this
      ensures Valid()
      ensures root == RemoveAt(c, old(root)).tree
      ensures Elems(root) == old(Elems(root)) - {c}
      ensures c in old(Elems(root)) ==> size == old(size) - 1 && Count(root) == old(Count(root)) - 1
      ensures c !in old(Elems(root)) ==> root == old(root) && size == old(size)
    {
      var u := RemoveAt(c, root);
      root := u.tree;
      if u.changed {
        size := size - 1;
      }
    }

    /**
      `operator=`: destroys this tree, resets `size` and copies `rhs`.
      Assigning a tree to itself destroys it before it is copied, so it ends empty.
    */
    method Assign(rhs: BinarySearchTree)
      requires Valid() && rhs.Valid()
      modifies this
      ensures Valid()
      ensures rhs != this ==> root == old(rhs.root) && size == Count(root)
      ensures rhs == this ==> root == Nil && size == 0
    {
      var released := Destroy(root);
      root := Nil;
      size := 0;
      root := CopyNode(rhs.root);
    }
  }

  /**
    Adding 1, 2, ..., n in order builds a right-leaning chain: n is n - 1
    edges below the root and 1 is the root (for n = 7: depths 6 and 0).
  */
  method AscendingChainDepths(n: int) returns (dLast: int, dFirst: int)
    requires 1 <= n
    ensures dLast == n - 1 && dFirst == 0
  {
    var t := new BinarySearchTree();
    var i := 1;
    while i <= n
      invariant 1 <= i <= n + 1
      invariant t.Valid()
      invariant t.root == Chain(1, i)
      decreases n + 1 - i
    {
      ChainAdd(1, i);
      var _ := t.Add(i);
      i := i + 1;
    }
    ChainDepth(1, n + 1, n);
    ChainDepth(1, n + 1, 1);
    var found;
    found, dLast := t.FindDepth(n);
    AtDepthIsSearchDepth(t.root, n, dLast);
    found, dFirst := t.FindDepth(1);
    AtDepthIsSearchDepth(t.root, 1, dFirst);
  }

  /** The right chain holding lo, lo+1, ..., hi-1. */
  ghost function Chain(lo: int, hi: int): Tree
    decreases hi - lo
  {
    if hi <= lo then Nil else Node(Nil, lo, Chain(lo + 1, hi))
  }

  lemma {:induction false} ChainAdd(lo: int, hi: int)
    requires lo <= hi
    ensures AddAt(hi, Chain(lo, hi)) == Update(Chain(lo, hi + 1), true)
    decreases hi - lo
  {
    if lo < hi {
      ChainAdd(lo + 1, hi);
    }
  }

  lemma {:induction false} ChainDepth(lo: int, hi: int, x: int)
    requires lo <= x < hi
    ensures x in Elems(Chain(lo, hi))
    ensures SearchDepth(Chain(lo, hi), x) == x - lo
    decreases hi - lo
  {
    if lo < x {
      ChainDepth(lo + 1, hi, x);
    }
  }
}
