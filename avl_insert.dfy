/** Private `insert(data, node)` of src/Utility/AVLTree.hpp: descend by comparison,
    create a leaf at the empty slot, and on the way back up rotate where the side
    that grew is two taller than the other, then recompute the node's height. */
module AvlInsert {
  import opened AvlNode
  import opened AvlRotation

  /** What an insertion of `x` that made an existing subtree taller leaves at its root:
      the root's key is not `x`, and the side `x` went into is exactly one taller than
      the other side. */
  ghost predicate GrewToward(x: int, r: Tree) {
    r.Node? && x != r.key &&
    (x < r.key ==> HeightOf(r.left) == HeightOf(r.right) + 1) &&
    (x > r.key ==> HeightOf(r.right) == HeightOf(r.left) + 1)
  }

  /** The balance check after inserting into the left subtree: a single rotation when
      `x` went to the left child's left, a double one when it went to its right. */
  function BalanceLeftAfterInsert(x: int, n: Tree): (r: Tree)
    requires n.Node? && n.left.Node?
    requires HeightOf(n.left) - HeightOf(n.right) == 2 && !(x < n.left.key) ==> n.left.right.Node?
    ensures r.Node? && Keys(r) == Keys(n)
    ensures IsBST(n) ==> IsBST(r)
  {
    if HeightOf(n.left) - HeightOf(n.right) == 2 then
      if x < n.left.key then RotateWithLeftChild(n) else DoubleWithLeftChild(n)
    else
      n
  }

  /** The balance check after inserting into the right subtree, mirror image. */
  function BalanceRightAfterInsert(x: int, n: Tree): (r: Tree)
    requires n.Node? && n.right.Node?
    requires HeightOf(n.right) - HeightOf(n.left) == 2 && !(x > n.right.key) ==> n.right.left.Node?
    ensures r.Node? && Keys(r) == Keys(n)
    ensures IsBST(n) ==> IsBST(r)
  {
    if HeightOf(n.right) - HeightOf(n.left) == 2 then
      if x > n.right.key then RotateWithRightChild(n) else DoubleWithRightChild(n)
    else
      n
  }

  /** Re-linking the result `l` of a recursive insertion as the left child and
      rebalancing keeps cached heights right and the node balanced; the node grows by
      at most one, and when it grows it did not rotate and leans left by one. */
  lemma LeftInsertRebalances(x: int, t: Tree, l: Tree)
    requires t.Node? && x < t.key && HeightsOk(t) && Balanced(t)
    requires l.Node? && HeightsOk(l) && Balanced(l)
    requires HeightOf(t.left) <= HeightOf(l) <= HeightOf(t.left) + 1
    requires HeightOf(l) == HeightOf(t.left) + 1 && t.left.Node? ==> GrewToward(x, l)
    ensures HeightOf(l) - HeightOf(t.right) == 2 && !(x < l.key) ==> l.right.Node?
    ensures var r := UpdateHeight(BalanceLeftAfterInsert(x, t.(left := l)));
            HeightsOk(r) && Balanced(r) &&
            HeightOf(t) <= HeightOf(r) <= HeightOf(t) + 1 &&
            (HeightOf(r) == HeightOf(t) + 1 ==> r.key == t.key && GrewToward(x, r))
  {
    CachedHeightIsDepth(t.right);
    CachedHeightIsDepth(l.left);
    CachedHeightIsDepth(l.right);
    var n := t.(left := l);
    var b := BalanceLeftAfterInsert(x, n);
    if HeightOf(l) - HeightOf(t.right) == 2 {
      assert t.left.Node? && HeightOf(l) == HeightOf(t.left) + 1;
      assert GrewToward(x, l);
      if x < l.key {
        assert b == RotateWithLeftChild(n);
        RotateWithLeftChildBalances(n);
      } else {
        assert b == DoubleWithLeftChild(n);
        DoubleWithLeftChildBalances(n);
      }
      assert UpdateHeight(b) == b;
    } else {
      assert b == n;
      var r := UpdateHeight(n);
      assert HeightsOk(r);
      assert Balanced(r);
    }
  }

  /** Mirror image of `LeftInsertRebalances`. */
  lemma RightInsertRebalances(x: int, t: Tree, r0: Tree)
    requires t.Node? && x > t.key && HeightsOk(t) && Balanced(t)
    requires r0.Node? && HeightsOk(r0) && Balanced(r0)
    requires HeightOf(t.right) <= HeightOf(r0) <= HeightOf(t.right) + 1
    requires HeightOf(r0) == HeightOf(t.right) + 1 && t.right.Node? ==> GrewToward(x, r0)
    ensures HeightOf(r0) - HeightOf(t.left) == 2 && !(x > r0.key) ==> r0.left.Node?
    ensures var r := UpdateHeight(BalanceRightAfterInsert(x, t.(right := r0)));
            HeightsOk(r) && Balanced(r) &&
            HeightOf(t) <= HeightOf(r) <= HeightOf(t) + 1 &&
            (HeightOf(r) == HeightOf(t) + 1 ==> r.key == t.key && GrewToward(x, r))
  {
    CachedHeightIsDepth(t.left);
    CachedHeightIsDepth(r0.left);
    CachedHeightIsDepth(r0.right);
    var n := t.(right := r0);
    var b := BalanceRightAfterInsert(x, n);
    if HeightOf(r0) - HeightOf(t.left) == 2 {
      assert t.right.Node? && HeightOf(r0) == HeightOf(t.right) + 1;
      assert GrewToward(x, r0);
      if x > r0.key {
        assert b == RotateWithRightChild(n);
        RotateWithRightChildBalances(n);
      } else {
        assert b == DoubleWithRightChild(n);
        DoubleWithRightChildBalances(n);
      }
      assert UpdateHeight(b) == b;
    } else {
      assert b == n;
      var r := UpdateHeight(n);
      assert HeightsOk(r);
      assert Balanced(r);
    }
  }

  /** The new subtree root for the caller to re-link. On a tree whose cached heights
      are right and which is balanced, the result is again such a tree and is at most
      one taller; when it grew, the side `x` went into is the taller one, which is what
      lets the caller choose between a single and a double rotation by comparing `x`
      with its child's key. */
  function InsertInto(x: int, t: Tree): (r: Tree)
    requires HeightsOk(t) && Balanced(t)
    ensures r.Node? && HeightsOk(r) && Balanced(r)
    ensures HeightOf(t) <= HeightOf(r) <= HeightOf(t) + 1
    ensures t.Node? && HeightOf(r) == HeightOf(t) + 1 ==> r.key == t.key && GrewToward(x, r)
    ensures t.Node? && x == t.key ==> r == t
    decreases t
  {
    var node :=
      if t.Nil? then
        Node(x, Nil, Nil, 0)
      else if x < t.key then
        var l := InsertInto(x, t.left);
        LeftInsertRebalances(x, t, l);
        BalanceLeftAfterInsert(x, t.(left := l))
      else if x > t.key then
        var r := InsertInto(x, t.right);
        RightInsertRebalances(x, t, r);
        BalanceRightAfterInsert(x, t.(right := r))
      else
        t;
    UpdateHeight(node)
  }

  /** Insertion adds exactly `x` to the keys. */
  lemma {:induction false} InsertKeys(x: int, t: Tree)
    requires HeightsOk(t) && Balanced(t)
    ensures Keys(InsertInto(x, t)) == Keys(t) + {x}
    decreases t
  {
    if t.Node? {
      if x < t.key {
        InsertKeys(x, t.left);
        var l := InsertInto(x, t.left);
        LeftInsertRebalances(x, t, l);
        assert InsertInto(x, t) == UpdateHeight(BalanceLeftAfterInsert(x, t.(left := l)));
      } else if x > t.key {
        InsertKeys(x, t.right);
        var r := InsertInto(x, t.right);
        RightInsertRebalances(x, t, r);
        assert InsertInto(x, t) == UpdateHeight(BalanceRightAfterInsert(x, t.(right := r)));
      }
    }
  }

  /** Insertion keeps search order. */
  lemma {:induction false} InsertKeepsOrder(x: int, t: Tree)
    requires HeightsOk(t) && Balanced(t) && IsBST(t)
    ensures IsBST(InsertInto(x, t))
    decreases t
  {
    if t.Node? {
      if x < t.key {
        InsertKeepsOrder(x, t.left);
        InsertKeys(x, t.left);
        var l := InsertInto(x, t.left);
        LeftInsertRebalances(x, t, l);
        assert IsBST(t.(left := l));
        assert InsertInto(x, t) == UpdateHeight(BalanceLeftAfterInsert(x, t.(left := l)));
      } else if x > t.key {
        InsertKeepsOrder(x, t.right);
        InsertKeys(x, t.right);
        var r := InsertInto(x, t.right);
        RightInsertRebalances(x, t, r);
        assert IsBST(t.(right := r));
        assert InsertInto(x, t) == UpdateHeight(BalanceRightAfterInsert(x, t.(right := r)));
      }
    }
  }

  /** Inserting a key that is already in a search tree gives back the same tree:
      same structure, same cached heights. */
  lemma {:induction false} InsertExistingIsNoOp(x: int, t: Tree)
    requires HeightsOk(t) && Balanced(t) && IsBST(t) && x in Keys(t)
    ensures InsertInto(x, t) == t
    decreases t
  {
    if x < t.key {
      InsertExistingIsNoOp(x, t.left);
    } else if x > t.key {
      InsertExistingIsNoOp(x, t.right);
    }
  }

  /** Private `insert(data, node)` on any tree, as written: `None` when it dereferences a
      null pointer. That happens when a node becomes two heavier on the side `x` went
      into while `x` did not go to that child's outer side, and the child has no inner
      child: the double rotation then rotates the child with its absent inner child. */
  function InsertAsWritten(x: int, t: Tree): (r: Option<Tree>)
    ensures r.Some? ==> r.value.Node?
  {
    if t.Nil? then
      Some(Node(x, Nil, Nil, 0))
    else if x < t.key then
      match InsertAsWritten(x, t.left)
      case None => None
      case Some(l) =>
        var n := t.(left := l);
        if HeightOf(l) - HeightOf(t.right) == 2 then
          if x < l.key then Some(UpdateHeight(RotateWithLeftChild(n)))
          else if l.right.Nil? then None
          else Some(UpdateHeight(DoubleWithLeftChild(n)))
        else
          Some(UpdateHeight(n))
    else if x > t.key then
      match InsertAsWritten(x, t.right)
      case None => None
      case Some(r0) =>
        var n := t.(right := r0);
        if HeightOf(r0) - HeightOf(t.left) == 2 then
          if x > r0.key then Some(UpdateHeight(RotateWithRightChild(n)))
          else if r0.left.Nil? then None
          else Some(UpdateHeight(DoubleWithRightChild(n)))
        else
          Some(UpdateHeight(n))
    else
      Some(UpdateHeight(t))
  }

  /** On a balanced tree with right cached heights the insertion as written never
      dereferences a null pointer and gives the tree of `InsertInto`. */
  lemma {:induction false} InsertAsWrittenAgrees(x: int, t: Tree)
    requires HeightsOk(t) && Balanced(t)
    ensures InsertAsWritten(x, t) == Some(InsertInto(x, t))
    decreases t
  {
    if t.Node? {
      if x < t.key {
        InsertAsWrittenAgrees(x, t.left);
        var l := InsertInto(x, t.left);
        LeftInsertRebalances(x, t, l);
        assert InsertInto(x, t) == UpdateHeight(BalanceLeftAfterInsert(x, t.(left := l)));
      } else if x > t.key {
        InsertAsWrittenAgrees(x, t.right);
        var r0 := InsertInto(x, t.right);
        RightInsertRebalances(x, t, r0);
        assert InsertInto(x, t) == UpdateHeight(BalanceRightAfterInsert(x, t.(right := r0)));
      }
    }
  }
}
