/**
 * The n-ary tree of python/data_structures/TreeNode.py: a node holds a value
 * and an ordered list of children, and the traversal kinds of the
 * `TraversalType` enumeration walk the tree below a node and hand every value
 * to a visitor. The model collects the visited values in order.
 *
 * The traversal functions work on `Tree`, the value snapshot of the nodes
 * below a root; the class `TreeNode` models the mutable node and its
 * `add_child` / `remove_child` operations.
 */
module TreeNode {
  import opened Wrappers
  import opened Sequences

  /** A node's value and its children, left to right. */
  datatype Tree = Tree(value: int, children: seq<Tree>)

  /** The members of the `TraversalType` enumeration. */
  datatype TraversalType =
    | PREORDER
    | PREORDER_ITERATIVE
    | PREORDER_RECURSIVE
    | INORDER
    | POSTORDER
    | BREADTH_FIRST
    | DEPTH_FIRST

  /** The enumeration member as Python's `str` renders it. */
  function Name(kind: TraversalType): (r: string)
    ensures |r| > |"TraversalType."| && r[..|"TraversalType."|] == "TraversalType."
  {
    match kind
    case PREORDER => "TraversalType.PREORDER"
    case PREORDER_ITERATIVE => "TraversalType.PREORDER_ITERATIVE"
    case PREORDER_RECURSIVE => "TraversalType.PREORDER_RECURSIVE"
    case INORDER => "TraversalType.INORDER"
    case POSTORDER => "TraversalType.POSTORDER"
    case BREADTH_FIRST => "TraversalType.BREADTH_FIRST"
    case DEPTH_FIRST => "TraversalType.DEPTH_FIRST"
  }

  // ---------------------------------------------------------------------
  // The values of a tree, as a multiset: the reference every traversal is
  // a permutation of.
  // ---------------------------------------------------------------------

  function Values(t: Tree): multiset<int>
    decreases t, 1
  {
    multiset{t.value} + ValuesRange(t, 0, |t.children|)
  }

  /** The values below the children with index in [lo, hi). */
  function ValuesRange(t: Tree, lo: nat, hi: nat): multiset<int>
    requires lo <= hi <= |t.children|
    decreases t, 0, hi - lo
  {
    if lo == hi then multiset{} else Values(t.children[lo]) + ValuesRange(t, lo + 1, hi)
  }

  lemma {:induction false} ValuesRangeSplit(t: Tree, lo: nat, mid: nat, hi: nat)
    requires lo <= mid <= hi <= |t.children|
    ensures ValuesRange(t, lo, hi) == ValuesRange(t, lo, mid) + ValuesRange(t, mid, hi)
    decreases mid - lo
  {
    if lo < mid {
      ValuesRangeSplit(t, lo + 1, mid, hi);
    }
  }

  // ---------------------------------------------------------------------
  // Preorder: the node, then each child's subtree left to right
  // (`_preorder_iterative`).
  // ---------------------------------------------------------------------

  function Preorder(t: Tree): seq<int>
    decreases t, 1
  {
    [t.value] + PreorderFrom(t, 0)
  }

  /** The preorder of the children from index i on. */
  function PreorderFrom(t: Tree, i: nat): seq<int>
    requires i <= |t.children|
    decreases t, 0, |t.children| - i
  {
    if i == |t.children| then [] else Preorder(t.children[i]) + PreorderFrom(t, i + 1)
  }

  /** The preorders of a list of trees, one after the other. */
  function PreorderForest(s: seq<Tree>): seq<int>
  {
    if s == [] then [] else Preorder(s[0]) + PreorderForest(s[1..])
  }

  lemma {:induction false} PreorderForestAppend(a: seq<Tree>, b: seq<Tree>)
    ensures PreorderForest(a + b) == PreorderForest(a) + PreorderForest(b)
    decreases |a|
  {
    if a != [] {
      assert (a + b)[0] == a[0] && (a + b)[1..] == a[1..] + b;
      PreorderForestAppend(a[1..], b);
    } else {
      assert a + b == b;
    }
  }

  lemma {:induction false} PreorderFromForest(t: Tree, i: nat)
    requires i <= |t.children|
    ensures PreorderFrom(t, i) == PreorderForest(t.children[i..])
    decreases |t.children| - i
  {
    if i < |t.children| {
      assert t.children[i..][1..] == t.children[i + 1..];
      PreorderFromForest(t, i + 1);
    }
  }

  /**
   * Popping the top of the stack visits it and pushes its children in
   * reverse, so that the leftmost child is popped next: the remaining visits
   * are the same.
   */
  lemma StackStep(stack: seq<Tree>)
    requires stack != []
    ensures var top, rest := stack[|stack| - 1], stack[..|stack| - 1];
      PreorderForest(Reverse(stack))
      == [top.value] + PreorderForest(Reverse(rest + Reverse(top.children)))
  {
    var top, rest := stack[|stack| - 1], stack[..|stack| - 1];
    assert stack == rest + [top];
    ReverseAppend(rest, [top]);
    assert Reverse(stack) == [top] + Reverse(rest);
    ReverseAppend(rest, Reverse(top.children));
    ReverseReverse(top.children);
    assert Reverse(rest + Reverse(top.children)) == top.children + Reverse(rest);
    PreorderForestAppend(top.children, Reverse(rest));
    PreorderFromForest(top, 0);
    assert top.children[0..] == top.children;
    PreorderForestAppend([top], Reverse(rest));
  }

  /**
   * `_preorder_iterative`: a stack seeded with the root; each round pops a
   * node, visits it and pushes its children in reverse order.
   */
  method PreorderIterative(root: Option<Tree>) returns (visits: seq<int>)
    ensures root.None? ==> visits == []
    ensures root.Some? ==> visits == Preorder(root.value)
  {
    visits := [];
    if root.None? {
      return;
    }
    var nodestack := [root.value];
    assert PreorderForest(Reverse(nodestack)) == Preorder(root.value) by {
      assert Reverse(nodestack) == [root.value];
      assert PreorderForest([root.value][1..]) == [];
    }
    while nodestack != []
      invariant visits + PreorderForest(Reverse(nodestack)) == Preorder(root.value)
      decreases |PreorderForest(Reverse(nodestack))|
    {
      StackStep(nodestack);
      var current := nodestack[|nodestack| - 1];
      nodestack := nodestack[..|nodestack| - 1];
      visits := visits + [current.value];
      nodestack := nodestack + Reverse(current.children);
    }
  }

  lemma {:induction false} PreorderValues(t: Tree)
    ensures multiset(Preorder(t)) == Values(t)
    decreases t, 1
  {
    PreorderFromValues(t, 0);
  }

  lemma {:induction false} PreorderFromValues(t: Tree, i: nat)
    requires i <= |t.children|
    ensures multiset(PreorderFrom(t, i)) == ValuesRange(t, i, |t.children|)
    decreases t, 0, |t.children| - i
  {
    if i < |t.children| {
      PreorderValues(t.children[i]);
      PreorderFromValues(t, i + 1);
    }
  }

  // ---------------------------------------------------------------------
  // `_preorder_recursive`: the node, then the children's subtrees from the
  // last child to the first, at every level.
  // ---------------------------------------------------------------------

  function PreorderRecursive(t: Tree): seq<int>
    decreases t, 1
  {
    [t.value] + PreorderRecursiveBelow(t, |t.children|)
  }

  /** The recursive preorder of children i-1 down to 0. */
  function PreorderRecursiveBelow(t: Tree, i: nat): seq<int>
    requires i <= |t.children|
    decreases t, 0, i
  {
    if i == 0 then [] else PreorderRecursive(t.children[i - 1]) + PreorderRecursiveBelow(t, i - 1)
  }

  /** The tree with every node's children in reverse order. */
  function Mirror(t: Tree): (r: Tree)
    ensures r.value == t.value && |r.children| == |t.children|
    decreases t
  {
    Tree(t.value, seq(|t.children|, i requires 0 <= i < |t.children| => Mirror(t.children[|t.children| - 1 - i])))
  }

  /** The recursive preorder is the left-to-right preorder of the mirrored tree. */
  lemma {:induction false} PreorderRecursiveIsMirrored(t: Tree)
    ensures PreorderRecursive(t) == Preorder(Mirror(t))
    decreases t, 1
  {
    MirroredFrom(t, 0);
  }

  lemma {:induction false} MirroredFrom(t: Tree, j: nat)
    requires j <= |t.children|
    ensures PreorderFrom(Mirror(t), j) == PreorderRecursiveBelow(t, |t.children| - j)
    decreases t, 0, |t.children| - j
  {
    var n := |t.children|;
    if j < n {
      var m := Mirror(t);
      assert m.children[j] == Mirror(t.children[n - 1 - j]);
      PreorderRecursiveIsMirrored(t.children[n - 1 - j]);
      MirroredFrom(t, j + 1);
    }
  }

  lemma {:induction false} PreorderRecursiveValues(t: Tree)
    ensures multiset(PreorderRecursive(t)) == Values(t)
    decreases t, 1
  {
    PreorderRecursiveBelowValues(t, |t.children|);
  }

  lemma {:induction false} PreorderRecursiveBelowValues(t: Tree, i: nat)
    requires i <= |t.children|
    ensures multiset(PreorderRecursiveBelow(t, i)) == ValuesRange(t, 0, i)
    decreases t, 0, i
  {
    if i > 0 {
      PreorderRecursiveValues(t.children[i - 1]);
      PreorderRecursiveBelowValues(t, i - 1);
      ValuesRangeSplit(t, 0, i - 1, i);
    }
  }

  // ---------------------------------------------------------------------
  // `_inorder_nary`: the first half of the children (len // 2 of them),
  // then the node, then the rest.
  // ---------------------------------------------------------------------

  function Inorder(t: Tree): seq<int>
    decreases t, 1
  {
    var mid := |t.children| / 2;
    InorderRange(t, 0, mid) + [t.value] + InorderRange(t, mid, |t.children|)
  }

  /** The inorder of the children with index in [lo, hi). */
  function InorderRange(t: Tree, lo: nat, hi: nat): seq<int>
    requires lo <= hi <= |t.children|
    decreases t, 0, hi - lo
  {
    if lo == hi then [] else Inorder(t.children[lo]) + InorderRange(t, lo + 1, hi)
  }

  lemma {:induction false} InorderValues(t: Tree)
    ensures multiset(Inorder(t)) == Values(t)
    decreases t, 1
  {
    var mid := |t.children| / 2;
    InorderRangeValues(t, 0, mid);
    InorderRangeValues(t, mid, |t.children|);
    ValuesRangeSplit(t, 0, mid, |t.children|);
  }

  lemma {:induction false} InorderRangeValues(t: Tree, lo: nat, hi: nat)
    requires lo <= hi <= |t.children|
    ensures multiset(InorderRange(t, lo, hi)) == ValuesRange(t, lo, hi)
    decreases t, 0, hi - lo
  {
    if lo < hi {
      InorderValues(t.children[lo]);
      InorderRangeValues(t, lo + 1, hi);
    }
  }

  /** A node with no children is visited alone, and with one child after it. */
  lemma InorderFewChildren(v: int, c: Tree)
    ensures Inorder(Tree(v, [])) == [v]
    ensures Inorder(Tree(v, [c])) == [v] + Inorder(c)
  {
    assert InorderRange(Tree(v, [c]), 1, 1) == [];
  }

  // ---------------------------------------------------------------------
  // `_postorder_nary`: every child's subtree left to right, then the node.
  // ---------------------------------------------------------------------

  function Postorder(t: Tree): seq<int>
    decreases t, 1
  {
    PostorderFrom(t, 0) + [t.value]
  }

  function PostorderFrom(t: Tree, i: nat): seq<int>
    requires i <= |t.children|
    decreases t, 0, |t.children| - i
  {
    if i == |t.children| then [] else Postorder(t.children[i]) + PostorderFrom(t, i + 1)
  }

  lemma {:induction false} PostorderValues(t: Tree)
    ensures multiset(Postorder(t)) == Values(t)
    decreases t, 1
  {
    PostorderFromValues(t, 0);
  }

  lemma {:induction false} PostorderFromValues(t: Tree, i: nat)
    requires i <= |t.children|
    ensures multiset(PostorderFrom(t, i)) == ValuesRange(t, i, |t.children|)
    decreases t, 0, |t.children| - i
  {
    if i < |t.children| {
      PostorderValues(t.children[i]);
      PostorderFromValues(t, i + 1);
    }
  }

  /** Preorder starts at the root and postorder ends at it. */
  lemma {:induction false} RootFirstAndLast(t: Tree)
    ensures Preorder(t)[0] == t.value && PreorderRecursive(t)[0] == t.value
    ensures Postorder(t)[|Postorder(t)| - 1] == t.value
  {
  }

  // ---------------------------------------------------------------------
  // `TraversalType.traverse`: dispatch on the traversal kind.
  // ---------------------------------------------------------------------

  /**
   * Runs the traversal `kind` from `root` (None when the source passes
   * `None`). The two kinds the dispatcher has no branch for fail with
   * ValueError.
   */
  method Traverse(kind: TraversalType, root: Option<Tree>) returns (r: Result<seq<int>>)
    ensures r.Err? <==> kind == BREADTH_FIRST || kind == DEPTH_FIRST
    ensures r.Err? ==> r.error == ValueError("Unknown traversal type: " + Name(kind))
    ensures r.Ok? && root.None? ==> r.value == []
    ensures r.Ok? && root.Some? ==> multiset(r.value) == Values(root.value)
    ensures root.Some? && kind in {PREORDER, PREORDER_ITERATIVE} ==> r == Ok(Preorder(root.value))
    ensures root.Some? && kind == PREORDER_RECURSIVE ==> r == Ok(Preorder(Mirror(root.value)))
    ensures root.Some? && kind == INORDER ==> r == Ok(Inorder(root.value))
    ensures root.Some? && kind == POSTORDER ==> r == Ok(Postorder(root.value))
  {
    match kind
    case PREORDER | PREORDER_ITERATIVE =>
      var visits := PreorderIterative(root);
      if root.Some? {
        PreorderValues(root.value);
      }
      r := Ok(visits);
    case PREORDER_RECURSIVE =>
      if root.None? {
        r := Ok([]);
      } else {
        PreorderRecursiveIsMirrored(root.value);
        PreorderRecursiveValues(root.value);
        r := Ok(PreorderRecursive(root.value));
      }
    case INORDER =>
      if root.None? {
        r := Ok([]);
      } else {
        InorderValues(root.value);
        r := Ok(Inorder(root.value));
      }
    case POSTORDER =>
      if root.None? {
        r := Ok([]);
      } else {
        PostorderValues(root.value);
        r := Ok(Postorder(root.value));
      }
    case BREADTH_FIRST | DEPTH_FIRST =>
      r := Err(ValueError("Unknown traversal type: " + Name(kind)));
  }

  // ---------------------------------------------------------------------
  // Paths: the nodes met going down from a node to one of its descendants.
  // ---------------------------------------------------------------------

  function Last(p: seq<Tree>): Tree
    requires p != []
  {
    p[|p| - 1]
  }

  /** p goes down from t: it starts at t and each node is a child of the one before. */
  predicate IsPathFrom(t: Tree, p: seq<Tree>)
  {
    p != [] && p[0] == t && forall i | 0 <= i < |p| - 1 :: p[i + 1] in p[i].children
  }

  /** A path down from a child, preceded by its parent, is a path down from the parent. */
  lemma PathDown(t: Tree, c: Tree, q: seq<Tree>)
    requires c in t.children && IsPathFrom(c, q)
    ensures IsPathFrom(t, [t] + q)
  {
    var p := [t] + q;
    forall i | 0 <= i < |p| - 1
      ensures p[i + 1] in p[i].children
    {
      if i > 0 {
        assert p[i + 1] == q[i] && p[i] == q[i - 1];
      }
    }
  }

  /** The values below a child are among the values of the tree. */
  lemma ChildValues(t: Tree, i: nat)
    requires i < |t.children|
    ensures Values(t.children[i]) <= Values(t)
  {
    ValuesRangeSplit(t, 0, i, |t.children|);
    ValuesRangeSplit(t, i, i + 1, |t.children|);
  }

  /** The last node of a path down from t holds one of t's values. */
  lemma {:induction false} PathEndInValues(t: Tree, p: seq<Tree>)
    requires IsPathFrom(t, p)
    ensures Last(p).value in Values(t)
    decreases |p|
  {
    if |p| > 1 {
      var q := p[1..];
      assert p[1] in t.children;
      var i :| 0 <= i < |t.children| && t.children[i] == p[1];
      forall k | 0 <= k < |q| - 1
        ensures q[k + 1] in q[k].children
      {
        assert q[k + 1] == p[k + 2] && q[k] == p[k + 1];
      }
      assert Last(q) == Last(p);
      PathEndInValues(p[1], q);
      ChildValues(t, i);
    }
  }

  /** Every value of t is held by the last node of some path down from t. */
  lemma {:induction false} PathToValue(t: Tree, x: int) returns (p: seq<Tree>)
    requires x in Values(t)
    ensures IsPathFrom(t, p) && Last(p).value == x
    decreases t, 1
  {
    if t.value == x {
      p := [t];
    } else {
      var i := ChildHolding(t, 0, |t.children|, x);
      var q := PathToValue(t.children[i], x);
      PathDown(t, t.children[i], q);
      p := [t] + q;
    }
  }

  /** A child with index in [lo, hi) whose subtree holds x. */
  lemma {:induction false} ChildHolding(t: Tree, lo: nat, hi: nat, x: int) returns (i: nat)
    requires lo <= hi <= |t.children| && x in ValuesRange(t, lo, hi)
    ensures lo <= i < hi && x in Values(t.children[i])
    decreases hi - lo
  {
    if x in Values(t.children[lo]) {
      i := lo;
    } else {
      i := ChildHolding(t, lo + 1, hi, x);
    }
  }

  // ---------------------------------------------------------------------
  // The mutable node.
  // ---------------------------------------------------------------------

  /** The list without the elements equal to c, in their original order. */
  function Without<T(==)>(s: seq<T>, c: T): (r: seq<T>)
    ensures |r| <= |s|
  {
    if s == [] then []
    else if s[0] == c then Without(s[1..], c)
    else [s[0]] + Without(s[1..], c)
  }

  /** Exactly the elements other than c stay, and c's occurrences are all gone. */
  lemma WithoutMembers<T>(s: seq<T>, c: T)
    ensures forall x | x in Without(s, c) :: x in s && x != c
    ensures forall x | x in s && x != c :: x in Without(s, c)
    ensures multiset(Without(s, c)) == multiset(s)[c := 0]
  {
    WithoutCount(s, c);
    forall x
      ensures x in Without(s, c) <==> x in s && x != c
    {
      assert x in Without(s, c) <==> x in multiset(Without(s, c));
      assert x in s <==> x in multiset(s);
    }
  }

  /** Only c's occurrences are dropped. */
  lemma {:induction false} WithoutCount<T>(s: seq<T>, c: T)
    ensures multiset(Without(s, c)) == multiset(s)[c := 0]
  {
    if s != [] {
      var tail := s[1..];
      WithoutCount(tail, c);
      assert s == [s[0]] + tail;
      assert multiset(s) == multiset{s[0]} + multiset(tail);
      if s[0] != c {
        assert Without(s, c) == [s[0]] + Without(tail, c);
        assert multiset(Without(s, c)) == multiset{s[0]} + multiset(Without(tail, c));
      }
    }
  }

  /** A list without c is left as it is. */
  lemma {:induction false} WithoutAbsent<T>(s: seq<T>, c: T)
    requires c !in s
    ensures Without(s, c) == s
  {
    if s != [] {
      WithoutAbsent(s[1..], c);
    }
  }

  /** Removing keeps the relative order: what is left is a subsequence. */
  lemma {:induction false} WithoutKeepsOrder<T>(s: seq<T>, c: T, i: nat, j: nat)
    requires i < j < |Without(s, c)|
    ensures exists p, q :: 0 <= p < q < |s| && s[p] == Without(s, c)[i] && s[q] == Without(s, c)[j]
  {
    var w := Without(s, c);
    if s[0] == c {
      WithoutKeepsOrder(s[1..], c, i, j);
      var p, q :| 0 <= p < q < |s[1..]| && s[1..][p] == w[i] && s[1..][q] == w[j];
      assert s[p + 1] == w[i] && s[q + 1] == w[j];
    } else if i == 0 {
      var tail, x := s[1..], w[j];
      assert x == Without(tail, c)[j - 1];
      WithoutMembers(tail, c);
      assert x in tail;
      var q :| 0 <= q < |tail| && tail[q] == x;
      assert s[0] == w[0] && s[q + 1] == x;
    } else {
      WithoutKeepsOrder(s[1..], c, i - 1, j - 1);
      var p, q :| 0 <= p < q < |s[1..]| && s[1..][p] == w[i] && s[1..][q] == w[j];
      assert s[p + 1] == w[i] && s[q + 1] == w[j];
    }
  }

  /** `TreeNode`: a value and the list of its child nodes. */
  class TreeNode {
    var value: int
    var children: seq<TreeNode>

    /** `TreeNode(value)`: a node without children, holding 0 unless a value is given. */
    constructor(value: int := 0)
      ensures this.value == value && children == []
    {
      this.value := value;
      children := [];
    }

    /** `add_child`: appends the child unless it is None. */
    method AddChild(child: TreeNode?)
      modifies this
      ensures value == old(value)
      ensures child == null ==> children == old(children)
      ensures child != null ==> children == old(children) + [child]
    {
      if child != null {
        children := children + [child];
      }
    }

    /**
     * `remove_child`: when the child is not None and is among the children,
     * keeps every other child in order; otherwise nothing changes.
     */
    method RemoveChild(child: TreeNode?)
      modifies this
      ensures value == old(value)
      ensures child == null || child !in old(children) ==> children == old(children)
      ensures child != null && child in old(children) ==> children == Without(old(children), child as TreeNode)
      ensures child != null ==> child !in children
      ensures forall n :: n in children <==> n in old(children) && n != child
    {
      if child != null && child in children {
        var c: TreeNode := child;
        WithoutMembers(children, c);
        children := Without(children, c);
      }
    }
  }

  /** The tree of the traversal tests: 1 with children 2 and 3, and 2 with children 4 and 5. */
  function Example(): Tree
  {
    Tree(1, [Tree(2, [Tree(4, []), Tree(5, [])]), Tree(3, [])])
  }

  lemma ExamplePreorder()
    ensures Preorder(Example()) == [1, 2, 4, 5, 3]
  {
    var g := Tree(2, [Tree(4, []), Tree(5, [])]);
    assert Preorder(Tree(4, [])) == [4] && Preorder(Tree(5, [])) == [5] && Preorder(Tree(3, [])) == [3];
    assert Preorder(g) == [2, 4, 5];
  }

  lemma ExamplePreorderRecursive()
    ensures PreorderRecursive(Example()) == [1, 3, 2, 5, 4]
  {
    var g := Tree(2, [Tree(4, []), Tree(5, [])]);
    assert PreorderRecursive(Tree(4, [])) == [4] && PreorderRecursive(Tree(5, [])) == [5];
    assert PreorderRecursive(Tree(3, [])) == [3];
    assert PreorderRecursive(g) == [2, 5, 4];
  }

  lemma ExampleInorder()
    ensures Inorder(Example()) == [4, 2, 5, 1, 3]
  {
    var g := Tree(2, [Tree(4, []), Tree(5, [])]);
    assert Inorder(Tree(4, [])) == [4] && Inorder(Tree(5, [])) == [5] && Inorder(Tree(3, [])) == [3];
    assert Inorder(g) == [4, 2, 5];
  }

  lemma ExamplePostorder()
    ensures Postorder(Example()) == [4, 5, 2, 3, 1]
  {
    var g := Tree(2, [Tree(4, []), Tree(5, [])]);
    assert Postorder(Tree(4, [])) == [4] && Postorder(Tree(5, [])) == [5] && Postorder(Tree(3, [])) == [3];
    assert Postorder(g) == [4, 5, 2];
  }
}
