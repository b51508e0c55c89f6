/** Nodes of the AVL tree of src/Utility/AVLTree.hpp, as values.

    A node holds a key, its two children and a cached height. The cache is
    what the rebalancing code reads; `HeightsOk` says it is correct and
    `Balanced` is the AVL condition stated over the cached heights. */
module AvlNode {

  datatype Tree = Nil | Node(key: int, left: Tree, right: Tree, height: int)

  /** The outcome of an operation that can dereference a null child: `None` when it does. */
  datatype Option<T> = None | Some(value: T)

  /** `height(Node*)`: the cached height, -1 for an absent node. */
  function HeightOf(t: Tree): int {
    if t.Nil? then -1 else t.height
  }

  /** `max(a, b)`. */
  function Max(a: int, b: int): (m: int)
    ensures m >= a && m >= b
    ensures m == a || m == b
  {
    if a > b then a else b
  }

  /** Recompute a node's cached height from its children's: one more than the taller
      child, an absent child counting as -1. */
  function UpdateHeight(t: Tree): (r: Tree)
    requires t.Node?
    ensures r.Node? && r.key == t.key && r.left == t.left && r.right == t.right
    ensures Keys(r) == Keys(t) && (IsBST(t) ==> IsBST(r))
    ensures HeightsOk(t.left) && HeightsOk(t.right) ==> HeightsOk(r)
    ensures HeightsOk(t) ==> r == t
  {
    t.(height := Max(HeightOf(t.left), HeightOf(t.right)) + 1)
  }

  /** The structural height of a tree: -1 when empty, 0 for a single node. */
  function Depth(t: Tree): int {
    if t.Nil? then -1 else Max(Depth(t.left), Depth(t.right)) + 1
  }

  /** Every cached height equals 1 + the larger cached height of the children. */
  ghost predicate HeightsOk(t: Tree) {
    t.Nil? ||
    (t.height == Max(HeightOf(t.left), HeightOf(t.right)) + 1 &&
     HeightsOk(t.left) && HeightsOk(t.right))
  }

  /** At every node the children's heights differ by at most one. */
  ghost predicate Balanced(t: Tree) {
    t.Nil? ||
    (-1 <= HeightOf(t.left) - HeightOf(t.right) <= 1 &&
     Balanced(t.left) && Balanced(t.right))
  }

  function Keys(t: Tree): set<int> {
    if t.Nil? then {} else Keys(t.left) + {t.key} + Keys(t.right)
  }

  /** Binary-search-tree order: left keys below the node's key, right keys above. */
  ghost predicate IsBST(t: Tree) {
    t.Nil? ||
    ((forall k :: k in Keys(t.left) ==> k < t.key) &&
     (forall k :: k in Keys(t.right) ==> t.key < k) &&
     IsBST(t.left) && IsBST(t.right))
  }

  function InOrder(t: Tree): seq<int> {
    if t.Nil? then [] else InOrder(t.left) + [t.key] + InOrder(t.right)
  }

  /** Every adjacent pair ascends, the test `assert_if_in_order` makes. */
  ghost predicate StrictlyIncreasing(s: seq<int>) {
    forall i :: 0 < i < |s| ==> s[i - 1] < s[i]
  }

  /** A tree that satisfies all the invariants the tree object keeps after insertions. */
  ghost predicate IsAvl(t: Tree) {
    IsBST(t) && HeightsOk(t) && Balanced(t)
  }

  /** The cached height of a tree with a correct cache is its structural height. */
  lemma {:induction false} CachedHeightIsDepth(t: Tree)
    requires HeightsOk(t)
    ensures HeightOf(t) == Depth(t)
    ensures HeightOf(t) >= -1
    ensures HeightOf(t) == -1 <==> t.Nil?
  {
    if t.Node? {
      CachedHeightIsDepth(t.left);
      CachedHeightIsDepth(t.right);
    }
  }

  /** The in-order walk lists exactly the keys of the tree. */
  lemma {:induction false} InOrderHasKeys(t: Tree)
    ensures forall k :: k in InOrder(t) <==> k in Keys(t)
  {
    if t.Node? {
      InOrderHasKeys(t.left);
      InOrderHasKeys(t.right);
    }
  }

  lemma {:induction false} IncreasingIsSorted(s: seq<int>)
    requires StrictlyIncreasing(s)
    ensures forall i, j :: 0 <= i < j < |s| ==> s[i] < s[j]
  {
    if |s| > 1 {
      IncreasingIsSorted(s[..|s| - 1]);
      forall i, j | 0 <= i < j < |s| ensures s[i] < s[j] {
        if j < |s| - 1 {
          assert s[..|s| - 1][i] == s[i] && s[..|s| - 1][j] == s[j];
        } else if i < j - 1 {
          assert s[..|s| - 1][i] == s[i] && s[..|s| - 1][j - 1] == s[j - 1];
        }
      }
    }
  }

  lemma ConcatIncreasing(a: seq<int>, k: int, b: seq<int>)
    requires StrictlyIncreasing(a) && StrictlyIncreasing(b)
    requires forall x :: x in a ==> x < k
    requires forall x :: x in b ==> k < x
    ensures StrictlyIncreasing(a + [k] + b)
  {
    var s := a + [k] + b;
    forall i | 0 < i < |s| ensures s[i - 1] < s[i] {
      if i < |a| {
        assert s[i - 1] == a[i - 1] && s[i] == a[i];
      } else if i == |a| {
        assert s[i - 1] == a[i - 1] && a[i - 1] in a;
      } else if i == |a| + 1 {
        assert s[i] == b[0] && b[0] in b;
      } else {
        assert s[i - 1] == b[i - 2 - |a|] && s[i] == b[i - 1 - |a|];
      }
    }
  }

  lemma SplitIncreasing(a: seq<int>, k: int, b: seq<int>)
    requires StrictlyIncreasing(a + [k] + b)
    ensures StrictlyIncreasing(a) && StrictlyIncreasing(b)
    ensures forall x :: x in a ==> x < k
    ensures forall x :: x in b ==> k < x
  {
    var s := a + [k] + b;
    IncreasingIsSorted(s);
    assert forall i :: 0 <= i < |a| ==> s[i] == a[i];
    assert forall i :: 0 <= i < |b| ==> s[|a| + 1 + i] == b[i];
    assert s[|a|] == k;
    forall x | x in a ensures x < k {
      var i :| 0 <= i < |a| && a[i] == x;
      assert s[i] == x;
    }
    forall x | x in b ensures k < x {
      var i :| 0 <= i < |b| && b[i] == x;
      assert s[|a| + 1 + i] == x;
    }
  }

  /** A tree is a binary search tree exactly when its in-order walk ascends strictly,
      so the order check of the tree object can fail only on a tree that is not one. */
  lemma {:induction false} BstIffInOrderIncreasing(t: Tree)
    ensures IsBST(t) <==> StrictlyIncreasing(InOrder(t))
  {
    if t.Node? {
      BstIffInOrderIncreasing(t.left);
      BstIffInOrderIncreasing(t.right);
      InOrderHasKeys(t.left);
      InOrderHasKeys(t.right);
      if IsBST(t) {
        ConcatIncreasing(InOrder(t.left), t.key, InOrder(t.right));
      }
      if StrictlyIncreasing(InOrder(t)) {
        SplitIncreasing(InOrder(t.left), t.key, InOrder(t.right));
      }
    }
  }

  /** Two strictly increasing sequences with the same elements are equal. */
  lemma {:induction false} IncreasingUnique(a: seq<int>, b: seq<int>)
    requires StrictlyIncreasing(a) && StrictlyIncreasing(b)
    requires forall x :: x in a <==> x in b
    ensures a == b
  {
    if a != [] { assert a[0] in a; }
    if b != [] { assert b[0] in b; }
    if a != [] && b != [] {
      IncreasingIsSorted(a);
      IncreasingIsSorted(b);
      var i :| 0 <= i < |b| && b[i] == a[0];
      var j :| 0 <= j < |a| && a[j] == b[0];
      assert a[0] == b[0];
      forall x ensures x in a[1..] <==> x in b[1..] {
        if x in a[1..] {
          var i :| 1 <= i < |a| && a[i] == x;
          assert x in b && x != b[0];
        }
        if x in b[1..] {
          var i :| 1 <= i < |b| && b[i] == x;
          assert x in a && x != a[0];
        }
      }
      IncreasingUnique(a[1..], b[1..]);
      assert a == [a[0]] + a[1..] && b == [b[0]] + b[1..];
    }
  }

  /** Search trees with the same keys have the same in-order walk, whatever their shape:
      a copy rebuilt by re-insertion walks like its source. */
  lemma InOrderDeterminedByKeys(s: Tree, t: Tree)
    requires IsBST(s) && IsBST(t) && Keys(s) == Keys(t)
    ensures InOrder(s) == InOrder(t)
  {
    BstIffInOrderIncreasing(s);
    BstIffInOrderIncreasing(t);
    InOrderHasKeys(s);
    InOrderHasKeys(t);
    IncreasingUnique(InOrder(s), InOrder(t));
  }

  /** Private `findMin(Node*)`: the leftmost node, absent for an empty tree. */
  function MinNode(t: Tree): (m: Tree)
    ensures m.Nil? <==> t.Nil?
    ensures m.Node? ==> m.left.Nil? && m.key in Keys(t)
    ensures m.Node? && IsBST(t) ==> forall k :: k in Keys(t) ==> m.key <= k
  {
    if t.Nil? then Nil
    else if t.left.Nil? then t
    else MinNode(t.left)
  }

  /** Private `findMax(Node*)`: the rightmost node, absent for an empty tree. */
  function MaxNode(t: Tree): (m: Tree)
    ensures m.Nil? <==> t.Nil?
    ensures m.Node? ==> m.right.Nil? && m.key in Keys(t)
    ensures m.Node? && IsBST(t) ==> forall k :: k in Keys(t) ==> k <= m.key
  {
    if t.Nil? then Nil
    else if t.right.Nil? then t
    else MaxNode(t.right)
  }
}
