/** Runs of the tree on the key sequences of src/Test/AVLTreeTest.hpp, computed through
    the model for any keys in the same relative order as the test's. */
module AvlScenarios {
  import opened AvlNode
  import opened AvlInsert
  import opened AvlTreeObject

  /** A node without children, with its cached height 0. */
  function Leaf(k: int): (t: Tree)
    ensures t.Node? && t.key == k && t.left.Nil? && t.right.Nil? && HeightsOk(t) && Balanced(t)
  {
    Node(k, Nil, Nil, 0)
  }

  /** Inserting beside a single node hangs the new key on the matching side. */
  lemma InsertBesideLeaf(x: int, k: int)
    ensures x < k ==> InsertInto(x, Leaf(k)) == Node(k, Leaf(x), Nil, 1)
    ensures k < x ==> InsertInto(x, Leaf(k)) == Node(k, Nil, Leaf(x), 1)
  {
  }

  /** One more key appended to the insertion order is one more insertion. */
  lemma BuildFromSnoc(s: seq<int>, x: int)
    ensures BuildFrom(s + [x]) == InsertInto(x, BuildFrom(s))
  {
    assert (s + [x])[..|s + [x]| - 1] == s;
  }

  /** The insertions of 3 and 7 after 1: the second one rotates left at 1. */
  lemma TestStep3(k1: int, k3: int, k7: int)
    requires k1 < k3 < k7
    ensures var t := Node(k1, Nil, Leaf(k3), 1);
            HeightsOk(t) && Balanced(t) && InsertInto(k7, t) == Node(k3, Leaf(k1), Leaf(k7), 1)
  {
    InsertBesideLeaf(k7, k3);
  }

  lemma TestStep4(k1: int, k3: int, k4: int, k7: int)
    requires k1 < k3 < k4 < k7
    ensures var t := Node(k3, Leaf(k1), Leaf(k7), 1);
            HeightsOk(t) && Balanced(t) &&
            InsertInto(k4, t) == Node(k3, Leaf(k1), Node(k7, Leaf(k4), Nil, 1), 2)
  {
    InsertBesideLeaf(k4, k7);
  }

  /** Inserting 5 makes 7 left-heavy through its inner grandchild: a double rotation. */
  lemma TestStep5(k1: int, k3: int, k4: int, k5: int, k7: int)
    requires k1 < k3 < k4 < k5 < k7
    ensures var t := Node(k3, Leaf(k1), Node(k7, Leaf(k4), Nil, 1), 2);
            HeightsOk(t) && Balanced(t) &&
            InsertInto(k5, t) == Node(k3, Leaf(k1), Node(k5, Leaf(k4), Leaf(k7), 1), 2)
  {
    assert HeightsOk(Leaf(k1)) && Balanced(Leaf(k1)) && HeightsOk(Node(k7, Leaf(k4), Nil, 1)) && Balanced(Node(k7, Leaf(k4), Nil, 1));
    InsertBesideLeaf(k5, k4);
    assert InsertInto(k5, Node(k7, Leaf(k4), Nil, 1)) == Node(k5, Leaf(k4), Leaf(k7), 1);
  }

  /** Inserting 9 makes the root right-heavy on the outside: a single rotation at 3. */
  lemma TestStep6(k1: int, k3: int, k4: int, k5: int, k7: int, k9: int)
    requires k1 < k3 < k4 < k5 < k7 < k9
    ensures var t := Node(k3, Leaf(k1), Node(k5, Leaf(k4), Leaf(k7), 1), 2);
            HeightsOk(t) && Balanced(t) &&
            InsertInto(k9, t) == Node(k5, Node(k3, Leaf(k1), Leaf(k4), 1), Node(k7, Nil, Leaf(k9), 1), 2)
  {
    assert HeightsOk(Leaf(k1)) && Balanced(Leaf(k1)) && HeightsOk(Node(k5, Leaf(k4), Leaf(k7), 1)) && Balanced(Node(k5, Leaf(k4), Leaf(k7), 1));
    InsertBesideLeaf(k9, k7);
    assert InsertInto(k9, Node(k5, Leaf(k4), Leaf(k7), 1)) == Node(k5, Leaf(k4), Node(k7, Nil, Leaf(k9), 1), 2);
  }

  lemma TestStep7(k1: int, k2: int, k3: int, k4: int, k5: int, k7: int, k9: int)
    requires k1 < k2 < k3 < k4 < k5 < k7 < k9
    ensures var t := Node(k5, Node(k3, Leaf(k1), Leaf(k4), 1), Node(k7, Nil, Leaf(k9), 1), 2);
            HeightsOk(t) && Balanced(t) &&
            InsertInto(k2, t) ==
              Node(k5, Node(k3, Node(k1, Nil, Leaf(k2), 1), Leaf(k4), 2), Node(k7, Nil, Leaf(k9), 1), 3)
  {
    assert HeightsOk(Node(k3, Leaf(k1), Leaf(k4), 1)) && Balanced(Node(k3, Leaf(k1), Leaf(k4), 1)) && HeightsOk(Node(k7, Nil, Leaf(k9), 1)) && Balanced(Node(k7, Nil, Leaf(k9), 1));
    InsertBesideLeaf(k2, k1);
    assert InsertInto(k2, Node(k3, Leaf(k1), Leaf(k4), 1)) == Node(k3, Node(k1, Nil, Leaf(k2), 1), Leaf(k4), 2);
  }

  /** The test's insertion order as a sequence of appends. */
  lemma AppendedSeven(a: int, b: int, c: int, d: int, e: int, f: int, g: int)
    ensures [] + [a] + [b] + [c] + [d] + [e] + [f] + [g] == [a, b, c, d, e, f, g]
  {
  }

  /** The shape the test's tree ends in walks its seven keys in ascending order. */
  lemma TestTreeWalk(k1: int, k2: int, k3: int, k4: int, k5: int, k7: int, k9: int)
    ensures var t := Node(k5, Node(k3, Node(k1, Nil, Leaf(k2), 1), Leaf(k4), 2), Node(k7, Nil, Leaf(k9), 1), 3);
            InOrder(t) == [k1, k2, k3, k4, k5, k7, k9]
  {
    var n1 := Node(k1, Nil, Leaf(k2), 1);
    assert InOrder(Leaf(k2)) == [k2] && InOrder(Leaf(k4)) == [k4] && InOrder(Leaf(k9)) == [k9];
    assert InOrder(n1) == [k1, k2];
    var n3 := Node(k3, n1, Leaf(k4), 2);
    var n7 := Node(k7, Nil, Leaf(k9), 1);
    assert InOrder(n3) == [k1, k2, k3, k4];
    assert InOrder(n7) == [k7, k9];
  }

  /** The tree `{ 1, 3, 7, 4, 5, 9, 2 }` of the test: three rotations on the way, height
      3, and its seven keys walk in ascending order. */
  lemma TestTreeBuilt(k1: int, k2: int, k3: int, k4: int, k5: int, k7: int, k9: int)
    requires k1 < k2 < k3 < k4 < k5 < k7 < k9
    ensures var t := BuildFrom([k1, k3, k7, k4, k5, k9, k2]);
            t == Node(k5, Node(k3, Node(k1, Nil, Leaf(k2), 1), Leaf(k4), 2), Node(k7, Nil, Leaf(k9), 1), 3) &&
            InOrder(t) == [k1, k2, k3, k4, k5, k7, k9]
  {
    var s0: seq<int> := [];
    assert BuildFrom(s0) == Nil;
    var s1 := s0 + [k1];
    BuildFromSnoc(s0, k1);
    InsertBesideLeaf(k3, k1);
    var s2 := s1 + [k3];
    BuildFromSnoc(s1, k3);
    TestStep3(k1, k3, k7);
    var s3 := s2 + [k7];
    BuildFromSnoc(s2, k7);
    TestStep4(k1, k3, k4, k7);
    var s4 := s3 + [k4];
    BuildFromSnoc(s3, k4);
    TestStep5(k1, k3, k4, k5, k7);
    var s5 := s4 + [k5];
    BuildFromSnoc(s4, k5);
    TestStep6(k1, k3, k4, k5, k7, k9);
    var s6 := s5 + [k9];
    BuildFromSnoc(s5, k9);
    TestStep7(k1, k2, k3, k4, k5, k7, k9);
    var s7 := s6 + [k2];
    BuildFromSnoc(s6, k2);
    AppendedSeven(k1, k3, k7, k4, k5, k9, k2);
    TestTreeWalk(k1, k2, k3, k4, k5, k7, k9);
  }
}
