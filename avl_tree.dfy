/** The tree object of src/Utility/AVLTree.hpp: a root and a size counter.

    Insertion and removal re-link the root from the recursive private operations,
    which also count created and deleted nodes in `size`. */
module AvlTreeObject {
  import opened AvlNode
  import opened AvlInsert
  import opened AvlRemove
  import opened AvlHeight

  /** The keys still owed by an in-order walk whose explicit stack is `stack` (top at
      the end): each stacked node's key followed by its right subtree, top first. */
  ghost function Pending(stack: seq<Tree>): seq<int>
    decreases |stack|
  {
    if stack == [] then []
    else
      var top := stack[|stack| - 1];
      (if top.Node? then [top.key] + InOrder(top.right) else []) + Pending(stack[..|stack| - 1])
  }

  /** Pushing `node` and moving to its left child leaves the owed keys unchanged. */
  lemma WalkPush(done: seq<int>, stack: seq<Tree>, node: Tree)
    requires node.Node?
    ensures done + InOrder(node) + Pending(stack) ==
            done + InOrder(node.left) + Pending(stack + [node])
  {
    assert (stack + [node])[..|stack|] == stack;
    assert Pending(stack + [node]) == [node.key] + InOrder(node.right) + Pending(stack);
    calc {
      done + InOrder(node) + Pending(stack);
      done + (InOrder(node.left) + [node.key] + InOrder(node.right)) + Pending(stack);
      { assert InOrder(node.left) + [node.key] + InOrder(node.right) + Pending(stack) ==
               InOrder(node.left) + ([node.key] + InOrder(node.right) + Pending(stack)); }
      done + InOrder(node.left) + ([node.key] + InOrder(node.right) + Pending(stack));
    }
  }

  /** Popping the top node and emitting its key moves the walk to its right subtree. */
  lemma WalkPop(done: seq<int>, stack: seq<Tree>)
    requires stack != [] && stack[|stack| - 1].Node?
    ensures var top := stack[|stack| - 1];
            done + InOrder(Nil) + Pending(stack) ==
            (done + [top.key]) + InOrder(top.right) + Pending(stack[..|stack| - 1])
  {
  }

  /** The elements of a sequence after an append. */
  lemma ElementsOfAppend(s: seq<int>, k: int)
    ensures (set j | j in s + [k]) == (set j | j in s) + {k}
  {
  }

  /** When the walk of `source` is complete, a search tree holding the visited keys
      holds the source's keys, walks like the source when that is a search tree, and
      then has as many keys. */
  lemma WalkComplete(copy: Tree, source: Tree, visited: seq<int>)
    requires IsBST(copy) && Keys(copy) == set k | k in visited
    requires visited == InOrder(source)
    ensures Keys(copy) == Keys(source)
    ensures IsBST(source) ==> InOrder(copy) == InOrder(source)
  {
    InOrderHasKeys(source);
    forall k ensures k in Keys(copy) <==> k in Keys(source) {
      assert k in Keys(copy) <==> k in visited;
    }
    assert Keys(copy) == Keys(source);
    if IsBST(source) {
      InOrderDeterminedByKeys(copy, source);
    }
  }

  /** The explicit-stack in-order walk of `assert_if_in_order`, filling `expand`:
      push the whole left spine, pop a node, emit its key, continue in its right
      subtree. It lists the keys of the tree in in-order. */
  method InOrderWalk(t: Tree) returns (expand: seq<int>)
    ensures expand == InOrder(t)
  {
    var stack: seq<Tree> := [];
    var node := t;
    expand := [];
    while node.Node? || stack != []
      invariant forall i :: 0 <= i < |stack| ==> stack[i].Node?
      invariant expand + InOrder(node) + Pending(stack) == InOrder(t)
      decreases |InOrder(t)| - |expand|
    {
      while node.Node?
        invariant forall i :: 0 <= i < |stack| ==> stack[i].Node?
        invariant expand + InOrder(node) + Pending(stack) == InOrder(t)
        decreases node
      {
        WalkPush(expand, stack, node);
        stack := stack + [node];
        node := node.left;
      }
      WalkPop(expand, stack);
      node := stack[|stack| - 1];
      expand := expand + [node.key];
      stack := stack[..|stack| - 1];
      node := node.right;
    }
  }

  /** The initializer-list constructor as a value: the keys inserted one after the other. */
  function BuildFrom(init: seq<int>): (t: Tree)
    ensures IsAvl(t)
    ensures Keys(t) == set x | x in init
  {
    if init == [] then Nil
    else
      var prefix := BuildFrom(init[..|init| - 1]);
      var x := init[|init| - 1];
      InsertKeys(x, prefix);
      InsertKeepsOrder(x, prefix);
      assert init == init[..|init| - 1] + [x];
      InsertInto(x, prefix)
  }

  class AVLTree {
    var root: Tree
    var size: int

    /** What every public operation keeps: search order, right cached heights and a
        size counter equal to the number of keys. */
    ghost predicate Valid()
      reads this
    {
      IsBST(root) && HeightsOk(root) && size == |Keys(root)|
    }

    /** `Valid` and balanced: what insertion keeps and removal needs. */
    ghost predicate IsBalanced()
      reads this
    {
      Valid() && IsAvl(root)
    }

    /** Default constructor: the empty tree. */
    constructor ()
      ensures IsBalanced() && root == Nil && size == 0
    {
      root := Nil;
      size := 0;
    }

    /** Constructor from an initializer list: insert each key in order. */
    constructor FromList(init: seq<int>)
      ensures IsBalanced() && root == BuildFrom(init) && size == |Keys(root)|
    {
      root := Nil;
      size := 0;
      new;
      for i := 0 to |init|
        invariant IsBalanced() && root == BuildFrom(init[..i])
      {
        assert init[..i + 1][..i] == init[..i];
        Insert(init[i]);
      }
      assert init[..|init|] == init;
    }

    /** Copy constructor: walk `other` in order with an explicit stack and insert each
        key into the new tree. The copy holds the same keys; when `other` keeps its
        invariant the copy has its size and walks in the same order. */
    constructor Copy(other: AVLTree)
      ensures IsBalanced()
      ensures Keys(root) == Keys(other.root)
      ensures other.Valid() ==> size == other.size && InOrder(root) == InOrder(other.root)
    {
      root := Nil;
      size := 0;
      new;
      var stack: seq<Tree> := [];
      var node := other.root;
      ghost var visited: seq<int> := [];
      while node.Node? || stack != []
        invariant IsBalanced()
        invariant Keys(root) == set k | k in visited
        invariant forall i :: 0 <= i < |stack| ==> stack[i].Node?
        invariant visited + InOrder(node) + Pending(stack) == InOrder(other.root)
        decreases |InOrder(other.root)| - |visited|
      {
        while node.Node?
          invariant IsBalanced()
          invariant Keys(root) == set k | k in visited
          invariant forall i :: 0 <= i < |stack| ==> stack[i].Node?
          invariant visited + InOrder(node) + Pending(stack) == InOrder(other.root)
          decreases node
        {
          WalkPush(visited, stack, node);
          stack := stack + [node];
          node := node.left;
        }
        WalkPop(visited, stack);
        node := stack[|stack| - 1];
        stack := stack[..|stack| - 1];
        Insert(node.key);
        ElementsOfAppend(visited, node.key);
        visited := visited + [node.key];
        node := node.right;
      }
      WalkComplete(root, other.root, visited);
    }

    /** Move constructor: take over `other`'s root and size and leave `other` an empty,
        valid tree. */
    constructor Move(other: AVLTree)
      modifies other
      ensures root == old(other.root) && size == old(other.size)
      ensures old(other.Valid()) ==> Valid()
      ensures other.IsBalanced() && other.root == Nil && other.size == 0
    {
      size := other.size;
      root := other.root;
      new;
      other.root := Nil;
      other.size := 0;
    }

    /** Private `insert(data, node)`: the recursive descent, counting the node it
        creates. */
    method InsertAt(x: int, node: Tree) returns (r: Tree)
      requires HeightsOk(node) && Balanced(node) && IsBST(node)
      modifies this`size
      ensures r == InsertInto(x, node)
      ensures size == old(size) + (if x in Keys(node) then 0 else 1)
      decreases node
    {
      if node.Nil? {
        r := Node(x, Nil, Nil, 0);
        size := size + 1;
      } else if x < node.key {
        var l := InsertAt(x, node.left);
        LeftInsertRebalances(x, node, l);
        r := BalanceLeftAfterInsert(x, node.(left := l));
      } else if x > node.key {
        var rr := InsertAt(x, node.right);
        RightInsertRebalances(x, node, rr);
        r := BalanceRightAfterInsert(x, node.(right := rr));
      } else {
        r := node;
      }
      r := UpdateHeight(r);
    }

    /** Public `insert`: the keys gain `x`, the size grows exactly when `x` was absent,
        an existing key leaves the tree as it was, and balance is kept. */
    method Insert(x: int)
      requires IsBalanced()
      modifies this
      ensures IsBalanced()
      ensures Keys(root) == old(Keys(root)) + {x}
      ensures size == old(size) + (if x in old(Keys(root)) then 0 else 1)
      ensures x in old(Keys(root)) ==> root == old(root)
      ensures root == InsertInto(x, old(root))
    {
      InsertKeys(x, root);
      InsertKeepsOrder(x, root);
      if x in Keys(root) {
        InsertExistingIsNoOp(x, root);
      }
      root := InsertAt(x, root);
    }

    /** Private `remove(data, node)`: the recursive descent, counting the node it
        deletes. */
    method RemoveAt(x: int, node: Tree) returns (r: Tree)
      requires HeightsOk(node) && Balanced(node) && IsBST(node)
      modifies this`size
      ensures r == RemoveFrom(x, node)
      ensures size == old(size) - (if x in Keys(node) then 1 else 0)
      decreases node
    {
      if node.Nil? {
        return Nil;
      }
      var n: Tree;
      if x < node.key {
        var l := RemoveAt(x, node.left);
        n := node.(left := l);
        RemovedLeftRebalances(node, n);
      } else if x > node.key {
        var rr := RemoveAt(x, node.right);
        n := node.(right := rr);
        RemovedRightRebalances(node, n);
      } else if node.left.Node? && node.right.Node? {
        var temp := MinNode(node.right);
        var rr := RemoveAt(temp.key, node.right);
        n := node.(key := temp.key, right := rr);
        RemovedRightRebalances(node, n);
      } else {
        n := if node.left.Nil? then node.right else node.left;
        size := size - 1;
        SplicedRebalances(node, n);
      }
      r := BalanceAfterRemove(n);
    }

    /** Public `remove`: the keys lose `x`, the size shrinks exactly when `x` was
        present, an absent key leaves the tree as it was. Balance is required but not
        promised back. */
    method Remove(x: int)
      requires IsBalanced()
      modifies this
      ensures Valid()
      ensures Keys(root) == old(Keys(root)) - {x}
      ensures size == old(size) - (if x in old(Keys(root)) then 1 else 0)
      ensures x !in old(Keys(root)) ==> root == old(root)
      ensures root == RemoveFrom(x, old(root))
    {
      RemoveKeys(x, root);
      RemoveKeepsOrder(x, root);
      if x !in Keys(root) {
        RemoveAbsentIsNoOp(x, root);
      }
      root := RemoveAt(x, root);
    }

    /** `contains`: an iterative descent by comparison. It finds only keys that are in
        the tree, and on a search tree it finds every one of them. */
    method Contains(x: int) returns (found: bool)
      ensures found ==> x in Keys(root)
      ensures IsBST(root) ==> (found <==> x in Keys(root))
    {
      var node := root;
      while node.Node?
        invariant Keys(node) <= Keys(root)
        invariant IsBST(root) ==> IsBST(node) && (x in Keys(root) <==> x in Keys(node))
        decreases node
      {
        if x < node.key {
          node := node.left;
        } else if x > node.key {
          node := node.right;
        } else {
          return true;
        }
      }
      return false;
    }

    /** Public `findMin`: the least key of a non-empty tree. */
    function FindMin(): (m: int)
      reads this
      requires root.Node?
      ensures m in Keys(root)
      ensures IsBST(root) ==> forall k :: k in Keys(root) ==> m <= k
    {
      MinNode(root).key
    }

    /** Public `findMax`: the greatest key of a non-empty tree. */
    function FindMax(): (m: int)
      reads this
      requires root.Node?
      ensures m in Keys(root)
      ensures IsBST(root) ==> forall k :: k in Keys(root) ==> k <= m
    {
      MaxNode(root).key
    }

    /** `isEmpty`: no root, that is, no keys, and a zero size while the counter is
        kept right. */
    function IsEmpty(): (b: bool)
      reads this
      ensures b <==> Keys(root) == {}
      ensures Valid() ==> (b <==> size == 0)
    {
      root.Nil?
    }

    /** `height`: the cached height of the root, -1 when the tree is empty; with right
        cached heights it is the structural height, and -1 only for the empty tree. */
    function Height(): (h: int)
      reads this
      ensures root.Nil? ==> h == -1
      ensures HeightsOk(root) ==> h == Depth(root) && h >= -1 && (h == -1 <==> root.Nil?)
      ensures IsBalanced() ==> Fib(h + 3) <= size + 1 && Pow2((h + 2) / 2) <= size + 1
    {
      assert IsBalanced() ==> Fib(HeightOf(root) + 3) <= size + 1 &&
                              Pow2((HeightOf(root) + 2) / 2) <= size + 1 by {
        if IsBalanced() {
          CountIsKeys(root);
          BalancedIsShallow(root);
          BalancedHeightIsLogarithmic(root);
        }
      }
      assert HeightsOk(root) ==> HeightOf(root) == Depth(root) && HeightOf(root) >= -1 &&
                                 (HeightOf(root) == -1 <==> root.Nil?) by {
        if HeightsOk(root) {
          CachedHeightIsDepth(root);
        }
      }
      HeightOf(root)
    }

    /** `size`: the counter, which is the number of keys while the invariant holds. */
    function Size(): (n: int)
      reads this
      ensures Valid() ==> n == |Keys(root)|
    {
      size
    }

    /** `assert_if_in_order`: walk the tree in order and compare each adjacent pair;
        fail at the first pair that does not ascend. It fails exactly on trees that are
        not search trees, so never on a valid one. */
    method AssertIfInOrder() returns (inOrder: bool)
      ensures inOrder <==> IsBST(root)
      ensures Valid() ==> inOrder
    {
      var expand := InOrderWalk(root);
      BstIffInOrderIncreasing(root);
      var i := 1;
      while i < |expand|
        invariant 1 <= i
        invariant forall j :: 0 < j < i && j < |expand| ==> expand[j - 1] < expand[j]
        decreases |expand| - i
      {
        if expand[i - 1] >= expand[i] {
          return false;
        }
        i := i + 1;
      }
      return true;
    }
  }
}
