/** The removal of src/Utility/AVLTree.hpp rebalances a node whose heavy child is
    level with a double rotation (its test is `== 1` where `>= 0` is meant), and a
    double rotation at a level child leaves the promoted subtree out of balance.

    The witness has the shape of the tree built by inserting 10, 4, 12, 2, 6, 13, 1, 7
    (any eight keys in the same order will do); removing the largest key empties the
    right side of its parent, so the root is left-heavy by two while its left child is
    level. */
module AvlFindings {
  import opened AvlNode
  import opened AvlRotation
  import opened AvlInsert
  import opened AvlRemove
  import opened AvlTreeObject
  import opened AvlScenarios

  /** The third to eighth insertions of the witness order, one lemma each; none of them
      rotates. */
  lemma Step3(k4: int, k10: int, k12: int)
    requires k4 < k10 < k12
    ensures HeightsOk(Node(k10, Leaf(k4), Nil, 1)) && Balanced(Node(k10, Leaf(k4), Nil, 1))
    ensures InsertInto(k12, Node(k10, Leaf(k4), Nil, 1)) == Node(k10, Leaf(k4), Leaf(k12), 1)
  {
  }

  lemma Step4(k2: int, k4: int, k10: int, k12: int)
    requires k2 < k4 < k10 < k12
    ensures var t := Node(k10, Leaf(k4), Leaf(k12), 1);
            HeightsOk(t) && Balanced(t) &&
            InsertInto(k2, t) == Node(k10, Node(k4, Leaf(k2), Nil, 1), Leaf(k12), 2)
  {
    InsertBesideLeaf(k2, k4);
  }

  lemma Step5(k2: int, k4: int, k6: int, k10: int, k12: int)
    requires k2 < k4 < k6 < k10 < k12
    ensures var t := Node(k10, Node(k4, Leaf(k2), Nil, 1), Leaf(k12), 2);
            HeightsOk(t) && Balanced(t) &&
            InsertInto(k6, t) == Node(k10, Node(k4, Leaf(k2), Leaf(k6), 1), Leaf(k12), 2)
  {
    assert HeightsOk(Node(k4, Leaf(k2), Nil, 1)) && Balanced(Node(k4, Leaf(k2), Nil, 1)) && HeightsOk(Leaf(k12)) && Balanced(Leaf(k12));
    assert InsertInto(k6, Node(k4, Leaf(k2), Nil, 1)) == Node(k4, Leaf(k2), Leaf(k6), 1);
  }

  lemma Step6(k2: int, k4: int, k6: int, k10: int, k12: int, k13: int)
    requires k2 < k4 < k6 < k10 < k12 < k13
    ensures var t := Node(k10, Node(k4, Leaf(k2), Leaf(k6), 1), Leaf(k12), 2);
            HeightsOk(t) && Balanced(t) &&
            InsertInto(k13, t) == Node(k10, Node(k4, Leaf(k2), Leaf(k6), 1), Node(k12, Nil, Leaf(k13), 1), 2)
  {
    assert HeightsOk(Node(k4, Leaf(k2), Leaf(k6), 1)) && Balanced(Node(k4, Leaf(k2), Leaf(k6), 1)) && HeightsOk(Leaf(k12)) && Balanced(Leaf(k12));
    InsertBesideLeaf(k13, k12);
  }

  lemma Step7(k1: int, k2: int, k4: int, k6: int, k10: int, k12: int, k13: int)
    requires k1 < k2 < k4 < k6 < k10 < k12 < k13
    ensures var t := Node(k10, Node(k4, Leaf(k2), Leaf(k6), 1), Node(k12, Nil, Leaf(k13), 1), 2);
            HeightsOk(t) && Balanced(t) &&
            InsertInto(k1, t) ==
              Node(k10, Node(k4, Node(k2, Leaf(k1), Nil, 1), Leaf(k6), 2), Node(k12, Nil, Leaf(k13), 1), 3)
  {
    assert HeightsOk(Node(k4, Leaf(k2), Leaf(k6), 1)) && Balanced(Node(k4, Leaf(k2), Leaf(k6), 1)) && HeightsOk(Node(k12, Nil, Leaf(k13), 1)) && Balanced(Node(k12, Nil, Leaf(k13), 1));
    InsertBesideLeaf(k1, k2);
    assert InsertInto(k1, Node(k4, Leaf(k2), Leaf(k6), 1)) == Node(k4, Node(k2, Leaf(k1), Nil, 1), Leaf(k6), 2);
  }

  lemma Step8(k1: int, k2: int, k4: int, k6: int, k7: int, k10: int, k12: int, k13: int)
    requires k1 < k2 < k4 < k6 < k7 < k10 < k12 < k13
    ensures var t := Node(k10, Node(k4, Node(k2, Leaf(k1), Nil, 1), Leaf(k6), 2), Node(k12, Nil, Leaf(k13), 1), 3);
            HeightsOk(t) && Balanced(t) &&
            InsertInto(k7, t) ==
              Node(k10, Node(k4, Node(k2, Leaf(k1), Nil, 1), Node(k6, Nil, Leaf(k7), 1), 2),
                        Node(k12, Nil, Leaf(k13), 1), 3)
  {
    var n2 := Node(k2, Leaf(k1), Nil, 1);
    assert HeightsOk(n2) && Balanced(n2);
    var n4 := Node(k4, n2, Leaf(k6), 2);
    assert HeightsOk(n4) && Balanced(n4);
    var n12 := Node(k12, Nil, Leaf(k13), 1);
    assert HeightsOk(n12) && Balanced(n12);
    InsertBesideLeaf(k7, k6);
    assert InsertInto(k7, Node(k4, Node(k2, Leaf(k1), Nil, 1), Leaf(k6), 2)) ==
           Node(k4, Node(k2, Leaf(k1), Nil, 1), Node(k6, Nil, Leaf(k7), 1), 2);
  }

  /** The insertion order as a sequence of appends. */
  lemma Appended(a: int, b: int, c: int, d: int, e: int, f: int, g: int, h: int)
    ensures [] + [a] + [b] + [c] + [d] + [e] + [f] + [g] + [h] == [a, b, c, d, e, f, g, h]
  {
  }

  /** Inserting 10, 4, 12, 2, 6, 13, 1, 7 (or any eight keys in that relative order)
      into an empty tree builds the witness. */
  lemma BuildWitness(k1: int, k2: int, k4: int, k6: int, k7: int, k10: int, k12: int, k13: int)
    requires k1 < k2 < k4 < k6 < k7 < k10 < k12 < k13
    ensures BuildFrom([k10, k4, k12, k2, k6, k13, k1, k7]) ==
            Node(k10, Node(k4, Node(k2, Leaf(k1), Nil, 1), Node(k6, Nil, Leaf(k7), 1), 2),
                      Node(k12, Nil, Leaf(k13), 1), 3)
  {
    var s0: seq<int> := [];
    assert BuildFrom(s0) == Nil;
    var s1 := s0 + [k10];
    BuildFromSnoc(s0, k10);
    InsertBesideLeaf(k4, k10);
    var s2 := s1 + [k4];
    BuildFromSnoc(s1, k4);
    Step3(k4, k10, k12);
    var s3 := s2 + [k12];
    BuildFromSnoc(s2, k12);
    Step4(k2, k4, k10, k12);
    var s4 := s3 + [k2];
    BuildFromSnoc(s3, k2);
    Step5(k2, k4, k6, k10, k12);
    var s5 := s4 + [k6];
    BuildFromSnoc(s4, k6);
    Step6(k2, k4, k6, k10, k12, k13);
    var s6 := s5 + [k13];
    BuildFromSnoc(s5, k13);
    Step7(k1, k2, k4, k6, k10, k12, k13);
    var s7 := s6 + [k1];
    BuildFromSnoc(s6, k1);
    Step8(k1, k2, k4, k6, k7, k10, k12, k13);
    var s8 := s7 + [k7];
    BuildFromSnoc(s7, k7);
    Appended(k10, k4, k12, k2, k6, k13, k1, k7);
  }

  /** Removing the larger key from a node whose only child is a right leaf leaves the
      node as a leaf, under either rebalancing. */
  lemma RightLeafRemoved(k12: int, k13: int)
    requires k12 < k13
    ensures var n := Node(k12, Nil, Leaf(k13), 1);
            HeightsOk(n) && Balanced(n) &&
            RemoveFrom(k13, n) == Leaf(k12) && RemoveFromCorrected(k13, n) == Leaf(k12)
  {
    var l := Leaf(k13);
    var n := Node(k12, Nil, l, 1);
    assert RemoveFrom(k13, l) == BalanceAfterRemove(Nil) == Nil;
    assert RemoveFromCorrected(k13, l) == BalanceAfterRemoveCorrected(Nil) == Nil;
    assert RemoveFrom(k13, n) == BalanceAfterRemove(Node(k12, Nil, Nil, 1));
    assert RemoveFromCorrected(k13, n) == BalanceAfterRemoveCorrected(Node(k12, Nil, Nil, 1));
  }

  /** As written: the tree built by inserting 10, 4, 12, 2, 6, 13, 1, 7 is a valid AVL
      tree, yet removing 13 from it yields a tree whose new left child, 4, has a left
      subtree of height 1 and no right subtree. */
  lemma RemoveCanUnbalance(k1: int, k2: int, k4: int, k6: int, k7: int, k10: int, k12: int, k13: int)
    requires k1 < k2 < k4 < k6 < k7 < k10 < k12 < k13
    ensures var w := BuildFrom([k10, k4, k12, k2, k6, k13, k1, k7]);
            var r := Node(k6, Node(k4, Node(k2, Leaf(k1), Nil, 1), Nil, 2),
                              Node(k10, Leaf(k7), Leaf(k12), 1), 3);
            IsAvl(w) && RemoveFrom(k13, w) == r && HeightsOk(r) && !Balanced(r)
  {
    BuildWitness(k1, k2, k4, k6, k7, k10, k12, k13);
    RightLeafRemoved(k12, k13);
    var l7, l12 := Leaf(k7), Leaf(k12);
    var n2 := Node(k2, Leaf(k1), Nil, 1);
    var n4 := Node(k4, n2, Node(k6, Nil, l7, 1), 2);
    var w := Node(k10, n4, Node(k12, Nil, Leaf(k13), 1), 3);
    assert RemoveFrom(k13, w) == BalanceAfterRemove(Node(k10, n4, l12, 3));
    var inner := RotateWithRightChild(n4);
    assert inner == Node(k6, Node(k4, n2, Nil, 2), l7, 3);
    assert BalanceAfterRemove(Node(k10, n4, l12, 3)) == DoubleWithLeftChild(Node(k10, n4, l12, 3));
    assert DoubleWithLeftChild(Node(k10, n4, l12, 3)) == RotateWithLeftChild(Node(k10, inner, l12, 3));
    var r := Node(k6, Node(k4, n2, Nil, 2), Node(k10, l7, l12, 1), 3);
    assert RotateWithLeftChild(Node(k10, inner, l12, 3)) == r;
    assert !Balanced(r.left);
  }

  /** Corrected: with `>= 0` the same removal makes a single rotation at 10 and the
      result is balanced, as `RemoveFromCorrected` promises for every balanced tree. */
  lemma CorrectedRemoveKeepsBalance(k1: int, k2: int, k4: int, k6: int, k7: int, k10: int, k12: int, k13: int)
    requires k1 < k2 < k4 < k6 < k7 < k10 < k12 < k13
    ensures var w := BuildFrom([k10, k4, k12, k2, k6, k13, k1, k7]);
            var r := Node(k4, Node(k2, Leaf(k1), Nil, 1),
                              Node(k10, Node(k6, Nil, Leaf(k7), 1), Leaf(k12), 2), 3);
            RemoveFromCorrected(k13, w) == r && HeightsOk(r) && Balanced(r)
  {
    BuildWitness(k1, k2, k4, k6, k7, k10, k12, k13);
    RightLeafRemoved(k12, k13);
    var l12 := Leaf(k12);
    var n2 := Node(k2, Leaf(k1), Nil, 1);
    var n6 := Node(k6, Nil, Leaf(k7), 1);
    var n4 := Node(k4, n2, n6, 2);
    var w := Node(k10, n4, Node(k12, Nil, Leaf(k13), 1), 3);
    assert RemoveFromCorrected(k13, w) == BalanceAfterRemoveCorrected(Node(k10, n4, l12, 3));
    assert BalanceAfterRemoveCorrected(Node(k10, n4, l12, 3)) == RotateWithLeftChild(Node(k10, n4, l12, 3));
    assert RotateWithLeftChild(Node(k10, n4, l12, 3)) == Node(k4, n2, Node(k10, n6, l12, 2), 3);
  }

  /** As written, a consequence: inserting the existing key 2 into the tree that removal
      left behind dereferences a null pointer. Node 4 is two heavier on the left, 2 is
      not below its left child's key, so the double rotation is taken, and node 2 has no
      right child to rotate with. */
  lemma InsertAfterRemoveCrashes(k1: int, k2: int, k4: int, k6: int, k7: int, k10: int, k12: int, k13: int)
    requires k1 < k2 < k4 < k6 < k7 < k10 < k12 < k13
    ensures var w := BuildFrom([k10, k4, k12, k2, k6, k13, k1, k7]);
            InsertAsWritten(k2, RemoveFrom(k13, w)) == None
  {
    RemoveCanUnbalance(k1, k2, k4, k6, k7, k10, k12, k13);
    var n2 := Node(k2, Leaf(k1), Nil, 1);
    var n4 := Node(k4, n2, Nil, 2);
    var r := Node(k6, n4, Node(k10, Leaf(k7), Leaf(k12), 1), 3);
    assert InsertAsWritten(k2, n2) == Some(n2);
    assert InsertAsWritten(k2, n4) == None;
    assert InsertAsWritten(k2, r) == None;
  }

  /** Corrected: after the corrected removal every insertion runs without a null
      dereference and gives the balanced tree of `InsertInto`. */
  lemma CorrectedRemoveKeepsInsertSafe(x: int, y: int, t: Tree)
    requires HeightsOk(t) && Balanced(t)
    ensures var s := RemoveFromCorrected(x, t);
            InsertAsWritten(y, s) == Some(InsertInto(y, s))
  {
    InsertAsWrittenAgrees(y, RemoveFromCorrected(x, t));
  }
}
