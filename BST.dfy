/**
 * The dictionary trees of python/data_structures/BST.py: a node is a record with its data
 * and a left and a right child, None standing for the empty tree. `build_balanced_bst`
 * builds one from a list, `find_depth_recursive` and `find_depth_iterative` measure it.
 */
module BST {
  import opened Wrappers
  import opened Sequences

  datatype Tree = Empty | Node(data: int, left: Tree, right: Tree)

  /** The data in left-node-right order. */
  function Inorder(t: Tree): seq<int>
  {
    match t
    case Empty => []
    case Node(d, l, r) => Inorder(l) + [d] + Inorder(r)
  }

  /** Lines 35-59: the middle element is the root, the two halves become the subtrees. */
  function BuildBalancedBst(values: seq<int>): Tree
    decreases |values|
  {
    if values == [] then Empty
    else
      var mid := |values| / 2;
      Node(values[mid], BuildBalancedBst(values[..mid]), BuildBalancedBst(values[mid + 1..]))
  }

  /** The built tree holds the list in order: its in-order reading is the input (lines 53-57). */
  lemma {:induction false} BuildInorder(values: seq<int>)
    ensures Inorder(BuildBalancedBst(values)) == values
    decreases |values|
  {
    if values != [] {
      var mid := |values| / 2;
      BuildInorder(values[..mid]);
      BuildInorder(values[mid + 1..]);
      assert values == values[..mid] + [values[mid]] + values[mid + 1..];
    }
  }

  /** Lines 168-181: an empty tree has depth 0, a node one more than its deeper child. */
  function FindDepthRecursive(t: Tree): nat
  {
    match t
    case Empty => 0
    case Node(_, l, r) =>
      var left := FindDepthRecursive(l);
      var right := FindDepthRecursive(r);
      (if left > right then left else right) + 1
  }

  /** Height-balanced: at every node the two subtree depths differ by at most one. */
  predicate Balanced(t: Tree)
  {
    match t
    case Empty => true
    case Node(_, l, r) =>
      -1 <= FindDepthRecursive(l) - FindDepthRecursive(r) <= 1 && Balanced(l) && Balanced(r)
  }

  /** The number of binary digits of n: the depth of the tree built from n values. */
  function BitLength(n: nat): nat
  {
    if n == 0 then 0 else 1 + BitLength(n / 2)
  }

  function Pow2(k: nat): nat
  {
    if k == 0 then 1 else 2 * Pow2(k - 1)
  }

  /** Going from n - 1 to n adds at most one binary digit. */
  lemma {:induction false} BitLengthStep(n: nat)
    requires n >= 1
    ensures BitLength(n - 1) <= BitLength(n) <= BitLength(n - 1) + 1
  {
    if n > 1 && n % 2 == 0 {
      BitLengthStep(n / 2);
      assert (n - 1) / 2 == n / 2 - 1;
    } else if n > 1 {
      assert (n - 1) / 2 == n / 2;
    }
  }

  /** n has BitLength(n) binary digits: 2^(b-1) <= n < 2^b. */
  lemma {:induction false} BitLengthBounds(n: nat)
    ensures n < Pow2(BitLength(n))
    ensures n > 0 ==> Pow2(BitLength(n) - 1) <= n
  {
    if n > 0 {
      BitLengthBounds(n / 2);
    }
  }

  /**
   * The tree built from n values is height-balanced and has depth BitLength(n), the least
   * depth any binary tree with n nodes can have (lines 11-13).
   */
  lemma {:induction false} BuildBalanced(values: seq<int>)
    ensures Balanced(BuildBalancedBst(values))
    ensures FindDepthRecursive(BuildBalancedBst(values)) == BitLength(|values|)
    decreases |values|
  {
    if values != [] {
      var n := |values|;
      var mid := n / 2;
      BuildBalanced(values[..mid]);
      BuildBalanced(values[mid + 1..]);
      assert |values[mid + 1..]| == n - mid - 1;
      if n - mid - 1 < mid {
        BitLengthStep(mid);
      }
    }
  }

  /** A binary tree of depth h has fewer than 2^h nodes, so no tree with n nodes is shallower. */
  lemma {:induction false} DepthLowerBound(t: Tree)
    ensures |Inorder(t)| < Pow2(FindDepthRecursive(t))
  {
    if t.Node? {
      DepthLowerBound(t.left);
      DepthLowerBound(t.right);
      PowMonotone(FindDepthRecursive(t.left), FindDepthRecursive(t) - 1);
      PowMonotone(FindDepthRecursive(t.right), FindDepthRecursive(t) - 1);
    }
  }

  lemma {:induction false} PowMonotone(a: nat, b: nat)
    requires a <= b
    ensures Pow2(a) <= Pow2(b)
  {
    if a < b {
      PowMonotone(a, b - 1);
    }
  }

  /** Fewer than 2^d values need at most d binary digits. */
  lemma {:induction false} BitLengthAtMost(n: nat, d: nat)
    requires n < Pow2(d)
    ensures BitLength(n) <= d
  {
    if n > 0 {
      BitLengthAtMost(n / 2, d - 1);
    }
  }

  /** The built tree is as shallow as any tree holding the same number of values. */
  lemma BuildIsShallowest(values: seq<int>, t: Tree)
    requires |Inorder(t)| == |values|
    ensures FindDepthRecursive(BuildBalancedBst(values)) <= FindDepthRecursive(t)
  {
    BuildBalanced(values);
    DepthLowerBound(t);
    BitLengthAtMost(|values|, FindDepthRecursive(t));
  }

  /** The data of a tree, as a set. */
  function Values(t: Tree): set<int>
  {
    match t
    case Empty => {}
    case Node(d, l, r) => {d} + Values(l) + Values(r)
  }

  /** Left data at most the node's, right data at least the node's, at every node. */
  predicate SearchOrdered(t: Tree)
  {
    match t
    case Empty => true
    case Node(d, l, r) =>
      (forall x | x in Values(l) :: x <= d) && (forall x | x in Values(r) :: d <= x)
      && SearchOrdered(l) && SearchOrdered(r)
  }

  lemma {:induction false} InorderValues(t: Tree)
    ensures forall x :: x in Values(t) <==> x in Inorder(t)
  {
    if t.Node? {
      InorderValues(t.left);
      InorderValues(t.right);
    }
  }

  /** A tree whose in-order reading is sorted is a search tree. */
  lemma {:induction false} SortedInorderIsOrdered(t: Tree)
    requires Sorted(Inorder(t))
    ensures SearchOrdered(t)
  {
    if t.Node? {
      var a, b := Inorder(t.left), Inorder(t.right);
      var s := Inorder(t);
      assert s == a + [t.data] + b;
      assert Sorted(a) by {
        forall i, j | 0 <= i < j < |a| ensures a[i] <= a[j] {
          assert a[i] == s[i] && a[j] == s[j];
        }
      }
      assert Sorted(b) by {
        forall i, j | 0 <= i < j < |b| ensures b[i] <= b[j] {
          assert b[i] == s[|a| + 1 + i] && b[j] == s[|a| + 1 + j];
        }
      }
      SortedInorderIsOrdered(t.left);
      SortedInorderIsOrdered(t.right);
      InorderValues(t.left);
      InorderValues(t.right);
      forall x | x in Values(t.left) ensures x <= t.data {
        var i :| 0 <= i < |a| && a[i] == x;
        assert s[i] == x && s[|a|] == t.data;
      }
      forall x | x in Values(t.right) ensures t.data <= x {
        var i :| 0 <= i < |b| && b[i] == x;
        assert s[|a| + 1 + i] == x && s[|a|] == t.data;
      }
    }
  }

  /** Built from a sorted list, the tree is a binary search tree. */
  lemma BuildOrdered(values: seq<int>)
    requires Sorted(values)
    ensures SearchOrdered(BuildBalancedBst(values))
  {
    BuildInorder(values);
    SortedInorderIsOrdered(BuildBalancedBst(values));
  }

  /** The children lines 135-138 queue after a node: only the present ones. */
  function Kids(t: Tree): seq<Tree>
  {
    if t.Empty? then []
    else (if t.left.Node? then [t.left] else []) + (if t.right.Node? then [t.right] else [])
  }

  /** The next level: the children of every node of the level, in order. */
  function NextLevel(level: seq<Tree>): seq<Tree>
  {
    if level == [] then [] else NextLevel(level[..|level| - 1]) + Kids(level[|level| - 1])
  }

  function Max(a: int, b: int): int
  {
    if a > b then a else b
  }

  /** The greatest depth among the trees of a level; 0 for none. */
  function MaxDepth(level: seq<Tree>): nat
  {
    if level == [] then 0 else Max(MaxDepth(level[..|level| - 1]), FindDepthRecursive(level[|level| - 1]))
  }

  lemma {:induction false} MaxDepthAppend(a: seq<Tree>, b: seq<Tree>)
    ensures MaxDepth(a + b) == Max(MaxDepth(a), MaxDepth(b))
    decreases |b|
  {
    if b == [] {
      assert a + b == a;
    } else {
      assert (a + b)[..|a + b| - 1] == a + b[..|b| - 1];
      MaxDepthAppend(a, b[..|b| - 1]);
    }
  }

  lemma KidsDepth(t: Tree)
    requires t.Node?
    ensures MaxDepth(Kids(t)) + 1 == FindDepthRecursive(t)
    ensures forall k | k in Kids(t) :: k.Node?
  {
    var l := if t.left.Node? then [t.left] else [];
    var r := if t.right.Node? then [t.right] else [];
    MaxDepthAppend(l, r);
    assert MaxDepth(l) == FindDepthRecursive(t.left) by {
      if t.left.Node? {
        assert l[..0] == [];
      }
    }
    assert MaxDepth(r) == FindDepthRecursive(t.right) by {
      if t.right.Node? {
        assert r[..0] == [];
      }
    }
  }

  /** Passing from a level of nodes to the next lowers the greatest depth by exactly one. */
  lemma {:induction false} NextLevelDepth(level: seq<Tree>)
    requires forall i | 0 <= i < |level| :: level[i].Node?
    ensures level != [] ==> MaxDepth(NextLevel(level)) + 1 == MaxDepth(level)
    ensures level == [] ==> NextLevel(level) == []
    ensures forall i | 0 <= i < |NextLevel(level)| :: NextLevel(level)[i].Node?
    decreases |level|
  {
    if level != [] {
      var front, last := level[..|level| - 1], level[|level| - 1];
      NextLevelDepth(front);
      KidsDepth(last);
      MaxDepthAppend(NextLevel(front), Kids(last));
      var n := NextLevel(level);
      forall i | 0 <= i < |n| ensures n[i].Node? {
        if i >= |NextLevel(front)| {
          assert n[i] in Kids(last);
        }
      }
    }
  }

  /**
   * Lines 120-142: breadth first, one level per turn of the outer loop; the depth is the
   * number of levels. The first node taken from the queue is the argument itself, so an
   * empty tree fails there with TypeError.
   */
  method FindDepthIterative(tree: Tree) returns (r: Result<int>)
    ensures tree.Empty? ==> r.Err? && r.error.TypeError?
    ensures tree.Node? ==> r == Ok(FindDepthRecursive(tree))
  {
    if tree.Empty? {
      return Err(TypeError("'NoneType' object is not subscriptable"));
    }
    var treeDepth := 0;
    var queue := [tree];
    assert [tree][..0] == [];
    while queue != []
      invariant forall i | 0 <= i < |queue| :: queue[i].Node?
      invariant treeDepth + MaxDepth(queue) == FindDepthRecursive(tree)
      decreases MaxDepth(queue)
    {
      ghost var level := queue;
      queue := ProcessLevel(queue);
      NextLevelDepth(level);
      treeDepth := treeDepth + 1;
    }
    r := Ok(treeDepth);
  }

  /** Lines 133-138: take each node of the level from the front and queue its children at the back. */
  method ProcessLevel(level: seq<Tree>) returns (queue: seq<Tree>)
    requires forall i | 0 <= i < |level| :: level[i].Node?
    ensures queue == NextLevel(level)
  {
    queue := level;
    var count := |queue|;
    var k := 0;
    assert level[..0] == [];
    while k < count
      invariant 0 <= k <= count
      invariant queue == level[k..] + NextLevel(level[..k])
    {
      ghost var done := NextLevel(level[..k]);
      var current := queue[0];
      assert current == level[k] && queue[1..] == level[k + 1..] + done;
      queue := queue[1..];
      if current.left.Node? {
        queue := queue + [current.left];
      }
      if current.right.Node? {
        queue := queue + [current.right];
      }
      assert queue == level[k + 1..] + (done + Kids(current));
      assert level[..k + 1][..k] == level[..k];
      assert NextLevel(level[..k + 1]) == done + Kids(current);
      k := k + 1;
    }
    assert level[..count] == level;
  }

  /**
   * [1, 2, 3, 4, 5] gives root 3 and depth 3, and [] gives None, as lines 29-32 say; the
   * halves [1, 2] and [4, 5] put their upper middle, 2 and 5, on top.
   */
  lemma BuildExample()
    ensures BuildBalancedBst([1, 2, 3, 4, 5]) ==
      Node(3, Node(2, Node(1, Empty, Empty), Empty), Node(5, Node(4, Empty, Empty), Empty))
    ensures FindDepthRecursive(BuildBalancedBst([1, 2, 3, 4, 5])) == 3
    ensures BuildBalancedBst([]) == Empty
  {
    assert [1, 2, 3, 4, 5][..2] == [1, 2] && [1, 2, 3, 4, 5][3..] == [4, 5];
    assert [1, 2][..1] == [1] && [1, 2][2..] == [] && [4, 5][..1] == [4] && [4, 5][2..] == [];
    assert [1][..0] == [] && [1][1..] == [] && [4][..0] == [] && [4][1..] == [];
    assert [1, 2][1..] == [2] && [4, 5][1..] == [5];
    assert [2][..0] == [] && [2][1..] == [] && [5][..0] == [] && [5][1..] == [];
  }
}
