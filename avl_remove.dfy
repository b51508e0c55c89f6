/** Private `remove(data, node)` of src/Utility/AVLTree.hpp: descend by comparison;
    at the matching node either copy the right subtree's minimum into it and remove
    that minimum from the right subtree (two children), or replace the node by its
    only child or by nothing; then recompute the height and rotate where one side is
    two taller than the other. */
module AvlRemove {
  import opened AvlNode
  import opened AvlRotation

  /** Lines 236-255: recompute the height of the re-linked node `n` and rebalance it.
      A single rotation is taken only when the heavy child leans outward by exactly
      one; a level heavy child gets a double rotation. */
  function BalanceAfterRemove(n: Tree): (r: Tree)
    requires n.Node? && HeightOf(n.left) - HeightOf(n.right) == 2 ==>
               n.left.Node? &&
               (HeightOf(n.left.left) - HeightOf(n.left.right) != 1 ==> n.left.right.Node?)
    requires n.Node? && HeightOf(n.right) - HeightOf(n.left) == 2 ==>
               n.right.Node? &&
               (HeightOf(n.right.right) - HeightOf(n.right.left) != 1 ==> n.right.left.Node?)
    ensures Keys(r) == Keys(n)
    ensures IsBST(n) ==> IsBST(r)
  {
    if n.Nil? then
      Nil
    else
      var node := UpdateHeight(n);
      if HeightOf(n.left) - HeightOf(n.right) == 2 then
        if HeightOf(n.left.left) - HeightOf(n.left.right) == 1 then
          RotateWithLeftChild(node)
        else
          DoubleWithLeftChild(node)
      else if HeightOf(n.right) - HeightOf(n.left) == 2 then
        if HeightOf(n.right.right) - HeightOf(n.right.left) == 1 then
          RotateWithRightChild(node)
        else
          DoubleWithRightChild(node)
      else
        node
  }

  /** After a removal from the right subtree of `t` re-linked into `n`, rebalancing is
      well defined, keeps cached heights right, and leaves the subtree at most one
      shorter than `t`. */
  lemma RemovedRightRebalances(t: Tree, n: Tree)
    requires t.Node? && HeightsOk(t) && Balanced(t)
    requires n.Node? && n.left == t.left && HeightsOk(n.right)
    requires HeightOf(t.right) - 1 <= HeightOf(n.right) <= HeightOf(t.right)
    ensures HeightOf(n.right) - HeightOf(n.left) != 2
    ensures HeightOf(n.left) - HeightOf(n.right) == 2 ==>
              n.left.Node? &&
              (HeightOf(n.left.left) - HeightOf(n.left.right) != 1 ==> n.left.right.Node?)
    ensures var r := BalanceAfterRemove(n);
            HeightsOk(r) && HeightOf(t) - 1 <= HeightOf(r) <= HeightOf(t)
  {
    CachedHeightIsDepth(t.left);
    CachedHeightIsDepth(n.right);
    var node := UpdateHeight(n);
    if HeightOf(n.left) - HeightOf(n.right) == 2 {
      var l := n.left;
      CachedHeightIsDepth(l.left);
      CachedHeightIsDepth(l.right);
      var d := HeightOf(l.left) - HeightOf(l.right);
      if d == 1 {
        RotateWithLeftChildBalances(node);
      } else if d == 0 {
        DoubleWithLeftChildOnLevel(node);
      } else {
        DoubleWithLeftChildBalances(node);
      }
    }
  }

  /** Mirror image of `RemovedRightRebalances`. */
  lemma RemovedLeftRebalances(t: Tree, n: Tree)
    requires t.Node? && HeightsOk(t) && Balanced(t)
    requires n.Node? && n.right == t.right && HeightsOk(n.left)
    requires HeightOf(t.left) - 1 <= HeightOf(n.left) <= HeightOf(t.left)
    ensures HeightOf(n.left) - HeightOf(n.right) != 2
    ensures HeightOf(n.right) - HeightOf(n.left) == 2 ==>
              n.right.Node? &&
              (HeightOf(n.right.right) - HeightOf(n.right.left) != 1 ==> n.right.left.Node?)
    ensures var r := BalanceAfterRemove(n);
            HeightsOk(r) && HeightOf(t) - 1 <= HeightOf(r) <= HeightOf(t)
  {
    CachedHeightIsDepth(t.right);
    CachedHeightIsDepth(n.left);
    var node := UpdateHeight(n);
    if HeightOf(n.right) - HeightOf(n.left) == 2 {
      var rc := n.right;
      CachedHeightIsDepth(rc.left);
      CachedHeightIsDepth(rc.right);
      var d := HeightOf(rc.right) - HeightOf(rc.left);
      if d == 1 {
        RotateWithRightChildBalances(node);
      } else if d == 0 {
        DoubleWithRightChildOnLevel(node);
      } else {
        DoubleWithRightChildBalances(node);
      }
    }
  }

  /** Replacing a node that has at most one child by that child (or by nothing) makes
      the subtree exactly one shorter; rebalancing leaves that child as it is. */
  lemma SplicedRebalances(t: Tree, n: Tree)
    requires t.Node? && HeightsOk(t) && Balanced(t)
    requires (t.left.Nil? && n == t.right) || (t.right.Nil? && n == t.left)
    ensures HeightsOk(n) && Balanced(n)
    ensures n.Node? ==> -1 <= HeightOf(n.left) - HeightOf(n.right) <= 1
    ensures BalanceAfterRemove(n) == n
    ensures HeightOf(n) == HeightOf(t) - 1
  {
    CachedHeightIsDepth(t.left);
    CachedHeightIsDepth(t.right);
  }

  /** The new subtree root for the caller to re-link. On a balanced tree with right
      cached heights every rotation it makes is defined, the cached heights stay right,
      and the subtree loses at most one level. Balance itself is not kept in every case
      (see `AvlFindings.RemoveCanUnbalance`), which is why the recursion needs only the
      untouched sibling of the removal path to be balanced. */
  function RemoveFrom(x: int, t: Tree): (r: Tree)
    requires HeightsOk(t) && Balanced(t)
    ensures HeightsOk(r)
    ensures HeightOf(t) - 1 <= HeightOf(r) <= HeightOf(t)
    decreases t
  {
    if t.Nil? then
      Nil
    else if x < t.key then
      var n := t.(left := RemoveFrom(x, t.left));
      RemovedLeftRebalances(t, n);
      BalanceAfterRemove(n)
    else if x > t.key then
      var n := t.(right := RemoveFrom(x, t.right));
      RemovedRightRebalances(t, n);
      BalanceAfterRemove(n)
    else if t.left.Node? && t.right.Node? then
      var m := MinNode(t.right).key;
      var n := t.(key := m, right := RemoveFrom(m, t.right));
      RemovedRightRebalances(t, n);
      BalanceAfterRemove(n)
    else
      var n := if t.left.Nil? then t.right else t.left;
      SplicedRebalances(t, n);
      BalanceAfterRemove(n)
  }

  /** Removal takes exactly `x` out of the keys of a search tree. */
  lemma {:induction false} RemoveKeys(x: int, t: Tree)
    requires HeightsOk(t) && Balanced(t) && IsBST(t)
    ensures Keys(RemoveFrom(x, t)) == Keys(t) - {x}
    decreases t
  {
    if t.Node? {
      if x < t.key {
        RemoveKeys(x, t.left);
        var n := t.(left := RemoveFrom(x, t.left));
        RemovedLeftRebalances(t, n);
        assert RemoveFrom(x, t) == BalanceAfterRemove(n);
        assert Keys(RemoveFrom(x, t)) == Keys(t) - {x};
      } else if x > t.key {
        RemoveKeys(x, t.right);
        var n := t.(right := RemoveFrom(x, t.right));
        RemovedRightRebalances(t, n);
        assert RemoveFrom(x, t) == BalanceAfterRemove(n);
        assert Keys(RemoveFrom(x, t)) == Keys(t) - {x};
      } else if t.left.Node? && t.right.Node? {
        RemoveKeys(MinNode(t.right).key, t.right);
        RemoveMatchKeys(t);
      } else {
        RemoveMatchKeys(t);
      }
    }
  }

  /** The step of `RemoveKeys` at the node holding the key: given that removing the
      right subtree's minimum from it takes exactly that key out. */
  lemma RemoveMatchKeys(t: Tree)
    requires t.Node? && HeightsOk(t) && Balanced(t) && IsBST(t)
    requires t.left.Node? && t.right.Node? ==>
               Keys(RemoveFrom(MinNode(t.right).key, t.right)) == Keys(t.right) - {MinNode(t.right).key}
    ensures Keys(RemoveFrom(t.key, t)) == Keys(t) - {t.key}
  {
    if t.left.Node? && t.right.Node? {
      var m := MinNode(t.right).key;
      var n := t.(key := m, right := RemoveFrom(m, t.right));
      RemovedRightRebalances(t, n);
      assert RemoveFrom(t.key, t) == BalanceAfterRemove(n);
      assert Keys(n) == Keys(t.left) + {m} + (Keys(t.right) - {m});
    } else {
      var n := if t.left.Nil? then t.right else t.left;
      SplicedRebalances(t, n);
      assert RemoveFrom(t.key, t) == n;
    }
  }

  /** Removal keeps search order. In the two-children case the copied minimum of the
      right subtree lies above every key on the left and below every key that stays on
      the right. */
  lemma {:induction false} RemoveKeepsOrder(x: int, t: Tree)
    requires HeightsOk(t) && Balanced(t) && IsBST(t)
    ensures IsBST(RemoveFrom(x, t))
    decreases t
  {
    if t.Node? {
      if x < t.key {
        RemoveKeepsOrder(x, t.left);
        RemoveKeys(x, t.left);
        var n := t.(left := RemoveFrom(x, t.left));
        RemovedLeftRebalances(t, n);
        assert IsBST(n);
        assert RemoveFrom(x, t) == BalanceAfterRemove(n);
      } else if x > t.key {
        RemoveKeepsOrder(x, t.right);
        RemoveKeys(x, t.right);
        var n := t.(right := RemoveFrom(x, t.right));
        RemovedRightRebalances(t, n);
        assert IsBST(n);
        assert RemoveFrom(x, t) == BalanceAfterRemove(n);
      } else if t.left.Node? && t.right.Node? {
        var m := MinNode(t.right).key;
        RemoveKeepsOrder(m, t.right);
        RemoveKeys(m, t.right);
        var n := t.(key := m, right := RemoveFrom(m, t.right));
        RemovedRightRebalances(t, n);
        assert IsBST(n);
        assert RemoveFrom(x, t) == BalanceAfterRemove(n);
      } else {
        var n := if t.left.Nil? then t.right else t.left;
        SplicedRebalances(t, n);
      }
    }
  }

  /** Removing a key that is not in a search tree gives back the same tree. */
  lemma {:induction false} RemoveAbsentIsNoOp(x: int, t: Tree)
    requires HeightsOk(t) && Balanced(t) && IsBST(t) && x !in Keys(t)
    ensures RemoveFrom(x, t) == t
    decreases t
  {
    if t.Node? {
      if x < t.key {
        RemoveAbsentIsNoOp(x, t.left);
        assert t.(left := RemoveFrom(x, t.left)) == t;
      } else {
        RemoveAbsentIsNoOp(x, t.right);
        assert t.(right := RemoveFrom(x, t.right)) == t;
      }
    }
  }

  /** The rebalancing step with the single rotation chosen whenever the heavy child
      does not lean inward (a level child included), as textbook AVL deletion does. */
  function BalanceAfterRemoveCorrected(n: Tree): (r: Tree)
    requires n.Node? && HeightOf(n.left) - HeightOf(n.right) == 2 ==>
               n.left.Node? &&
               (HeightOf(n.left.left) - HeightOf(n.left.right) < 0 ==> n.left.right.Node?)
    requires n.Node? && HeightOf(n.right) - HeightOf(n.left) == 2 ==>
               n.right.Node? &&
               (HeightOf(n.right.right) - HeightOf(n.right.left) < 0 ==> n.right.left.Node?)
    ensures Keys(r) == Keys(n)
    ensures IsBST(n) ==> IsBST(r)
  {
    if n.Nil? then
      Nil
    else
      var node := UpdateHeight(n);
      if HeightOf(n.left) - HeightOf(n.right) == 2 then
        if HeightOf(n.left.left) - HeightOf(n.left.right) >= 0 then
          RotateWithLeftChild(node)
        else
          DoubleWithLeftChild(node)
      else if HeightOf(n.right) - HeightOf(n.left) == 2 then
        if HeightOf(n.right.right) - HeightOf(n.right.left) >= 0 then
          RotateWithRightChild(node)
        else
          DoubleWithRightChild(node)
      else
        node
  }

  lemma CorrectedRemovedRightRebalances(t: Tree, n: Tree)
    requires t.Node? && HeightsOk(t) && Balanced(t)
    requires n.Node? && n.left == t.left && HeightsOk(n.right) && Balanced(n.right)
    requires HeightOf(t.right) - 1 <= HeightOf(n.right) <= HeightOf(t.right)
    ensures HeightOf(n.right) - HeightOf(n.left) != 2
    ensures HeightOf(n.left) - HeightOf(n.right) == 2 ==>
              n.left.Node? &&
              (HeightOf(n.left.left) - HeightOf(n.left.right) < 0 ==> n.left.right.Node?)
    ensures var r := BalanceAfterRemoveCorrected(n);
            HeightsOk(r) && Balanced(r) && HeightOf(t) - 1 <= HeightOf(r) <= HeightOf(t)
  {
    CachedHeightIsDepth(t.left);
    CachedHeightIsDepth(n.right);
    var node := UpdateHeight(n);
    if HeightOf(n.left) - HeightOf(n.right) == 2 {
      var l := n.left;
      CachedHeightIsDepth(l.left);
      CachedHeightIsDepth(l.right);
      if HeightOf(l.left) - HeightOf(l.right) >= 0 {
        RotateWithLeftChildBalances(node);
      } else {
        DoubleWithLeftChildBalances(node);
      }
    }
  }

  lemma CorrectedRemovedLeftRebalances(t: Tree, n: Tree)
    requires t.Node? && HeightsOk(t) && Balanced(t)
    requires n.Node? && n.right == t.right && HeightsOk(n.left) && Balanced(n.left)
    requires HeightOf(t.left) - 1 <= HeightOf(n.left) <= HeightOf(t.left)
    ensures HeightOf(n.left) - HeightOf(n.right) != 2
    ensures HeightOf(n.right) - HeightOf(n.left) == 2 ==>
              n.right.Node? &&
              (HeightOf(n.right.right) - HeightOf(n.right.left) < 0 ==> n.right.left.Node?)
    ensures var r := BalanceAfterRemoveCorrected(n);
            HeightsOk(r) && Balanced(r) && HeightOf(t) - 1 <= HeightOf(r) <= HeightOf(t)
  {
    CachedHeightIsDepth(t.right);
    CachedHeightIsDepth(n.left);
    var node := UpdateHeight(n);
    if HeightOf(n.right) - HeightOf(n.left) == 2 {
      var rc := n.right;
      CachedHeightIsDepth(rc.left);
      CachedHeightIsDepth(rc.right);
      if HeightOf(rc.right) - HeightOf(rc.left) >= 0 {
        RotateWithRightChildBalances(node);
      } else {
        DoubleWithRightChildBalances(node);
      }
    }
  }

  /** `RemoveFrom` with the corrected rotation choice: on a balanced tree with right
      cached heights the result is again balanced, with right cached heights, and at
      most one level shorter. */
  function RemoveFromCorrected(x: int, t: Tree): (r: Tree)
    requires HeightsOk(t) && Balanced(t)
    ensures HeightsOk(r) && Balanced(r)
    ensures HeightOf(t) - 1 <= HeightOf(r) <= HeightOf(t)
    decreases t
  {
    if t.Nil? then
      Nil
    else if x < t.key then
      var n := t.(left := RemoveFromCorrected(x, t.left));
      CorrectedRemovedLeftRebalances(t, n);
      BalanceAfterRemoveCorrected(n)
    else if x > t.key then
      var n := t.(right := RemoveFromCorrected(x, t.right));
      CorrectedRemovedRightRebalances(t, n);
      BalanceAfterRemoveCorrected(n)
    else if t.left.Node? && t.right.Node? then
      var m := MinNode(t.right).key;
      var n := t.(key := m, right := RemoveFromCorrected(m, t.right));
      CorrectedRemovedRightRebalances(t, n);
      BalanceAfterRemoveCorrected(n)
    else
      var n := if t.left.Nil? then t.right else t.left;
      SplicedRebalances(t, n);
      BalanceAfterRemoveCorrected(n)
  }
}
