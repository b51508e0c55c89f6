/** How shallow the balance condition keeps a tree of src/Utility/AVLTree.hpp: node
    counts, Fibonacci numbers and powers of two, and the bound that ties a balanced
    tree's height to its size. */
module AvlHeight {
  import opened AvlNode

  /** The number of nodes. */
  function Count(t: Tree): (n: nat)
    ensures n == 0 <==> t.Nil?
  {
    if t.Nil? then 0 else Count(t.left) + 1 + Count(t.right)
  }

  /** On a search tree the keys are distinct, so there are as many keys as nodes. */
  lemma {:induction false} CountIsKeys(t: Tree)
    requires IsBST(t)
    ensures Count(t) == |Keys(t)|
  {
    if t.Node? {
      CountIsKeys(t.left);
      CountIsKeys(t.right);
      var l, r := Keys(t.left), Keys(t.right);
      assert t.key !in l && t.key !in r;
      assert l * r == {} by {
        forall k | k in l ensures k !in r {
          assert k < t.key;
        }
      }
      assert |l + {t.key}| == |l| + 1;
      assert (l + {t.key}) * r == {};
    }
  }

  function Fib(n: int): (f: nat)
    ensures n >= 1 ==> f >= 1
    decreases n
  {
    if n <= 0 then 0 else if n == 1 then 1 else Fib(n - 1) + Fib(n - 2)
  }

  lemma {:induction false} FibMonotone(m: int, n: int)
    requires m <= n
    ensures Fib(m) <= Fib(n)
    decreases n - m
  {
    if m < n {
      FibMonotone(m, n - 1);
    }
  }

  function Pow2(n: int): (p: nat)
    ensures p >= 1
    decreases n
  {
    if n <= 0 then 1 else 2 * Pow2(n - 1)
  }

  /** Fibonacci numbers grow at least as fast as the powers of two at half the index. */
  lemma {:induction false} FibAtLeastPow2(n: int)
    requires n >= 1
    ensures Fib(n) >= Pow2((n - 1) / 2)
    decreases n
  {
    if n >= 3 {
      FibAtLeastPow2(n - 2);
      FibMonotone(n - 2, n - 1);
      assert (n - 1) / 2 == (n - 3) / 2 + 1;
    }
  }

  /** The counting step of the height bound: two subtrees whose heights differ by at most
      one, each with at least its Fibonacci minimum of nodes, together reach the minimum
      of a tree one taller than the taller of them. */
  lemma {:induction false} SparsestSum(hl: int, hr: int, cl: int, cr: int)
    requires hl >= -1 && hr >= -1 && -1 <= hl - hr <= 1
    requires cl >= Fib(hl + 3) && cr >= Fib(hr + 3)
    ensures cl + cr >= Fib(Max(hl, hr) + 4)
  {
    if hl >= hr {
      assert Max(hl, hr) + 4 == hl + 4;
      assert Fib(hl + 4) == Fib(hl + 3) + Fib(hl + 2);
      FibMonotone(hl + 2, hr + 3);
    } else {
      assert Max(hl, hr) + 4 == hr + 4;
      assert Fib(hr + 4) == Fib(hr + 3) + Fib(hr + 2);
      FibMonotone(hr + 2, hl + 3);
    }
  }

  /** The height bound the balance condition buys: a balanced tree of height h has at
      least Fib(h + 3) - 1 nodes, the minimum reached by the sparsest AVL trees. */
  lemma {:induction false} BalancedIsShallow(t: Tree)
    requires HeightsOk(t) && Balanced(t)
    ensures Count(t) + 1 >= Fib(HeightOf(t) + 3)
  {
    if t.Node? {
      BalancedIsShallow(t.left);
      BalancedIsShallow(t.right);
      CachedHeightIsDepth(t.left);
      CachedHeightIsDepth(t.right);
      SparsestSum(HeightOf(t.left), HeightOf(t.right), Count(t.left) + 1, Count(t.right) + 1);
    }
  }

  /** In integers: a balanced tree with n nodes has height h with 2^((h + 2) / 2) <= n + 1,
      so its height is logarithmic in its size. */
  lemma BalancedHeightIsLogarithmic(t: Tree)
    requires HeightsOk(t) && Balanced(t)
    ensures Pow2((HeightOf(t) + 2) / 2) <= Count(t) + 1
  {
    BalancedIsShallow(t);
    CachedHeightIsDepth(t);
    FibAtLeastPow2(HeightOf(t) + 3);
  }
}
