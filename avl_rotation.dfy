/** The four rotations of src/Utility/AVLTree.hpp.

    Each single rotation re-links three child slots and then recomputes two
    cached heights: first the demoted node's, then the promoted node's, which
    reads the height just written. A double rotation is the inner single
    rotation applied to the child followed by the outer one applied to the
    node. */
module AvlRotation {
  import opened AvlNode

  /** Search order survives moving `b` above `a` and back; cached heights play no part. */
  lemma BstRotation(a: int, b: int, x: Tree, y: Tree, z: Tree, h1: int, h2: int, h3: int, h4: int)
    ensures IsBST(Node(b, Node(a, x, y, h1), z, h2)) <==> IsBST(Node(a, x, Node(b, y, z, h3), h4))
  {
    assert Keys(Node(a, x, y, h1)) == Keys(x) + {a} + Keys(y);
    assert Keys(Node(b, y, z, h3)) == Keys(y) + {b} + Keys(z);
  }

  /** `rotateWithLeftChild` (case LL): the left child becomes the subtree root. */
  function RotateWithLeftChild(t: Tree): (r: Tree)
    requires t.Node? && t.left.Node?
    ensures r.Node? && r.right.Node?
    ensures InOrder(r) == InOrder(t)
    ensures Keys(r) == Keys(t)
    ensures IsBST(t) ==> IsBST(r)
    ensures HeightsOk(t.left.left) && HeightsOk(t.left.right) && HeightsOk(t.right) ==>
              HeightsOk(r)
  {
    var leftChild := t.left;
    BstRotation(leftChild.key, t.key, leftChild.left, leftChild.right, t.right, leftChild.height,
                t.height, Max(HeightOf(leftChild.right), HeightOf(t.right)) + 1,
                Max(HeightOf(leftChild.left), Max(HeightOf(leftChild.right), HeightOf(t.right)) + 1) + 1);
    var node := Node(t.key, leftChild.right, t.right,
                     Max(HeightOf(leftChild.right), HeightOf(t.right)) + 1);
    Node(leftChild.key, leftChild.left, node, Max(HeightOf(leftChild.left), node.height) + 1)
  }

  /** `rotateWithRightChild` (case RR): the right child becomes the subtree root. */
  function RotateWithRightChild(t: Tree): (r: Tree)
    requires t.Node? && t.right.Node?
    ensures r.Node? && r.left.Node?
    ensures InOrder(r) == InOrder(t)
    ensures Keys(r) == Keys(t)
    ensures IsBST(t) ==> IsBST(r)
    ensures HeightsOk(t.right.right) && HeightsOk(t.right.left) && HeightsOk(t.left) ==>
              HeightsOk(r)
  {
    var rightChild := t.right;
    BstRotation(t.key, rightChild.key, t.left, rightChild.left, rightChild.right,
                Max(HeightOf(t.left), HeightOf(rightChild.left)) + 1,
                Max(HeightOf(rightChild.right), Max(HeightOf(t.left), HeightOf(rightChild.left)) + 1) + 1,
                rightChild.height, t.height);
    var node := Node(t.key, t.left, rightChild.left,
                     Max(HeightOf(t.left), HeightOf(rightChild.left)) + 1);
    Node(rightChild.key, node, rightChild.right, Max(HeightOf(rightChild.right), node.height) + 1)
  }

  /** `doubleWithLeftChild` (case LR): the left child's right child is promoted to the
      subtree root, with the left child and the node as its two children. */
  function DoubleWithLeftChild(t: Tree): (r: Tree)
    requires t.Node? && t.left.Node? && t.left.right.Node?
    ensures InOrder(r) == InOrder(t)
    ensures Keys(r) == Keys(t)
    ensures IsBST(t) ==> IsBST(r)
    ensures r.Node? && r.left.Node? && r.right.Node?
    ensures r.key == t.left.right.key && r.left.key == t.left.key && r.right.key == t.key
    ensures r.left.left == t.left.left && r.left.right == t.left.right.left
    ensures r.right.left == t.left.right.right && r.right.right == t.right
    ensures HeightsOk(t.left.left) && HeightsOk(t.left.right) && HeightsOk(t.right) ==>
              HeightsOk(r)
  {
    RotateWithLeftChild(t.(left := RotateWithRightChild(t.left)))
  }

  /** `doubleWithRightChild` (case RL): the right child's left child is promoted to the
      subtree root, with the node and the right child as its two children. */
  function DoubleWithRightChild(t: Tree): (r: Tree)
    requires t.Node? && t.right.Node? && t.right.left.Node?
    ensures InOrder(r) == InOrder(t)
    ensures Keys(r) == Keys(t)
    ensures IsBST(t) ==> IsBST(r)
    ensures r.Node? && r.left.Node? && r.right.Node?
    ensures r.key == t.right.left.key && r.left.key == t.key && r.right.key == t.right.key
    ensures r.left.left == t.left && r.left.right == t.right.left.left
    ensures r.right.left == t.right.left.right && r.right.right == t.right.right
    ensures HeightsOk(t.right.right) && HeightsOk(t.right.left) && HeightsOk(t.left) ==>
              HeightsOk(r)
  {
    RotateWithRightChild(t.(right := RotateWithLeftChild(t.right)))
  }

  /** A single rotation at a node whose left child is two taller than its right child
      and does not lean right restores balance; the subtree ends up two taller than the
      left child's inner subtree. */
  lemma RotateWithLeftChildBalances(t: Tree)
    requires t.Node? && t.left.Node?
    requires HeightsOk(t.left) && HeightsOk(t.right) && Balanced(t.left)
    requires HeightOf(t.left) == HeightOf(t.right) + 2
    requires HeightOf(t.left.left) >= HeightOf(t.left.right)
    ensures var r := RotateWithLeftChild(t);
            HeightsOk(r) && HeightOf(r) == HeightOf(t.left.right) + 2 &&
            (Balanced(t.right) ==> Balanced(r))
  {
    var l := t.left;
    var n := Node(t.key, l.right, t.right, Max(HeightOf(l.right), HeightOf(t.right)) + 1);
    if Balanced(t.right) {
      assert Balanced(n);
    }
    assert RotateWithLeftChild(t) == Node(l.key, l.left, n, Max(HeightOf(l.left), n.height) + 1);
  }

  /** Mirror image of `RotateWithLeftChildBalances`. */
  lemma RotateWithRightChildBalances(t: Tree)
    requires t.Node? && t.right.Node?
    requires HeightsOk(t.right) && HeightsOk(t.left) && Balanced(t.right)
    requires HeightOf(t.right) == HeightOf(t.left) + 2
    requires HeightOf(t.right.right) >= HeightOf(t.right.left)
    ensures var r := RotateWithRightChild(t);
            HeightsOk(r) && HeightOf(r) == HeightOf(t.right.left) + 2 &&
            (Balanced(t.left) ==> Balanced(r))
  {
    var rc := t.right;
    var n := Node(t.key, t.left, rc.left, Max(HeightOf(t.left), HeightOf(rc.left)) + 1);
    if Balanced(t.left) {
      assert Balanced(n);
    }
    assert RotateWithRightChild(t) == Node(rc.key, n, rc.right, Max(HeightOf(rc.right), n.height) + 1);
  }

  /** A double rotation at a node whose left child is two taller than its right child
      and leans right restores balance without changing the left child's height. */
  lemma DoubleWithLeftChildBalances(t: Tree)
    requires t.Node? && t.left.Node? && t.left.right.Node?
    requires HeightsOk(t.left) && HeightsOk(t.right) && Balanced(t.left)
    requires HeightOf(t.left) == HeightOf(t.right) + 2
    requires HeightOf(t.left.right) == HeightOf(t.left.left) + 1
    ensures var r := DoubleWithLeftChild(t);
            HeightsOk(r) && HeightOf(r) == HeightOf(t.left) &&
            (Balanced(t.right) ==> Balanced(r))
  {
    var l, g := t.left, t.left.right;
    assert Balanced(g);
    var r := DoubleWithLeftChild(t);
    assert r.left.height == Max(HeightOf(l.left), HeightOf(g.left)) + 1;
    assert r.right.height == Max(HeightOf(g.right), HeightOf(t.right)) + 1;
    if Balanced(t.right) {
      assert Balanced(r.left) && Balanced(r.right);
    }
  }

  /** Mirror image of `DoubleWithLeftChildBalances`. */
  lemma DoubleWithRightChildBalances(t: Tree)
    requires t.Node? && t.right.Node? && t.right.left.Node?
    requires HeightsOk(t.right) && HeightsOk(t.left) && Balanced(t.right)
    requires HeightOf(t.right) == HeightOf(t.left) + 2
    requires HeightOf(t.right.left) == HeightOf(t.right.right) + 1
    ensures var r := DoubleWithRightChild(t);
            HeightsOk(r) && HeightOf(r) == HeightOf(t.right) &&
            (Balanced(t.left) ==> Balanced(r))
  {
    var rc, g := t.right, t.right.left;
    assert Balanced(g);
    var r := DoubleWithRightChild(t);
    assert r.left.height == Max(HeightOf(t.left), HeightOf(g.left)) + 1;
    assert r.right.height == Max(HeightOf(g.right), HeightOf(rc.right)) + 1;
    if Balanced(t.left) {
      assert Balanced(r.left) && Balanced(r.right);
    }
  }

  /** A double rotation at a node whose left child is two taller than its right child
      but level keeps the cached heights right and leaves the subtree one taller than
      that child; it does not restore balance inside the new left subtree. */
  lemma DoubleWithLeftChildOnLevel(t: Tree)
    requires t.Node? && t.left.Node? && t.left.right.Node?
    requires HeightsOk(t.left) && HeightsOk(t.right) && Balanced(t.left)
    requires HeightOf(t.left) == HeightOf(t.right) + 2
    requires HeightOf(t.left.right) == HeightOf(t.left.left)
    ensures var r := DoubleWithLeftChild(t);
            HeightsOk(r) && HeightOf(r) == HeightOf(t.left) + 1
  {
    var l, g := t.left, t.left.right;
    assert Balanced(g);
    var r := DoubleWithLeftChild(t);
    assert r.left.height == Max(HeightOf(l.left), HeightOf(g.left)) + 1;
    assert r.right.height == Max(HeightOf(g.right), HeightOf(t.right)) + 1;
  }

  /** Mirror image of `DoubleWithLeftChildOnLevel`. */
  lemma DoubleWithRightChildOnLevel(t: Tree)
    requires t.Node? && t.right.Node? && t.right.left.Node?
    requires HeightsOk(t.right) && HeightsOk(t.left) && Balanced(t.right)
    requires HeightOf(t.right) == HeightOf(t.left) + 2
    requires HeightOf(t.right.left) == HeightOf(t.right.right)
    ensures var r := DoubleWithRightChild(t);
            HeightsOk(r) && HeightOf(r) == HeightOf(t.right) + 1
  {
    var rc, g := t.right, t.right.left;
    assert Balanced(g);
    var r := DoubleWithRightChild(t);
    assert r.left.height == Max(HeightOf(t.left), HeightOf(g.left)) + 1;
    assert r.right.height == Max(HeightOf(g.right), HeightOf(rc.right)) + 1;
  }
}
