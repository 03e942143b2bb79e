/**
 * Depth-first search for a value in an n-ary tree
 * (python/search/depth_first_search.py): the recursive variants return the
 * path of nodes from the root to the first node holding the target, the
 * iterative ones run an explicit stack and return the node found (and what
 * is left on the stack). Every variant finds the first match in preorder,
 * children left to right.
 *
 * Nodes are the value snapshots `Tree` of the n-ary tree model.
 */
module DepthFirstSearch {
  import opened Wrappers
  import opened Sequences
  import opened TreeNode

  // ---------------------------------------------------------------------
  // The reference: the nodes in preorder and the first one with the value.
  // ---------------------------------------------------------------------

  function PreorderNodes(t: Tree): seq<Tree>
    decreases t, 1
  {
    [t] + PreorderNodesFrom(t, 0)
  }

  function PreorderNodesFrom(t: Tree, i: nat): seq<Tree>
    requires i <= |t.children|
    decreases t, 0, |t.children| - i
  {
    if i == |t.children| then [] else PreorderNodes(t.children[i]) + PreorderNodesFrom(t, i + 1)
  }

  /** The preorders of a list of trees, one after the other. */
  function PreorderNodesForest(s: seq<Tree>): seq<Tree>
  {
    if s == [] then [] else PreorderNodes(s[0]) + PreorderNodesForest(s[1..])
  }

  /** The values of a list of nodes. */
  function ValuesOf(s: seq<Tree>): (r: seq<int>)
    ensures |r| == |s| && forall i | 0 <= i < |s| :: r[i] == s[i].value
  {
    seq(|s|, i requires 0 <= i < |s| => s[i].value)
  }

  /** The nodes in preorder carry exactly the values the PREORDER traversal visits. */
  lemma {:induction false} PreorderNodesValues(t: Tree)
    ensures ValuesOf(PreorderNodes(t)) == Preorder(t)
    decreases t, 1
  {
    PreorderNodesFromValues(t, 0);
  }

  lemma {:induction false} PreorderNodesFromValues(t: Tree, i: nat)
    requires i <= |t.children|
    ensures ValuesOf(PreorderNodesFrom(t, i)) == PreorderFrom(t, i)
    decreases t, 0, |t.children| - i
  {
    if i < |t.children| {
      PreorderNodesValues(t.children[i]);
      PreorderNodesFromValues(t, i + 1);
      var a, b := PreorderNodes(t.children[i]), PreorderNodesFrom(t, i + 1);
      assert ValuesOf(a + b) == ValuesOf(a) + ValuesOf(b);
    }
  }

  /** The first node of s holding target, and the nodes after it. */
  function FindFirst(s: seq<Tree>, target: int): (r: Option<(Tree, seq<Tree>)>)
    ensures r.Some? ==> r.value.0.value == target
  {
    if s == [] then None
    else if s[0].value == target then Some((s[0], s[1..]))
    else FindFirst(s[1..], target)
  }

  /** Nothing is found when no node holds the value; otherwise the match is the first holder. */
  lemma {:induction false} FindFirstIsFirst(s: seq<Tree>, target: int)
    ensures FindFirst(s, target).None? <==> forall i | 0 <= i < |s| :: s[i].value != target
    ensures FindFirst(s, target).Some? ==> exists k | 0 <= k < |s| ::
      s[k] == FindFirst(s, target).value.0 && FindFirst(s, target).value.1 == s[k + 1..]
      && forall j | 0 <= j < k :: s[j].value != target
  {
    if s != [] && s[0].value != target {
      FindFirstIsFirst(s[1..], target);
      var r := FindFirst(s[1..], target);
      if r.Some? {
        var k :| 0 <= k < |s[1..]| && s[1..][k] == r.value.0 && r.value.1 == s[1..][k + 1..]
          && forall j | 0 <= j < k :: s[1..][j].value != target;
        assert s[k + 1] == r.value.0 && r.value.1 == s[k + 1 + 1..];
      }
    } else if s != [] {
      assert s[0] == FindFirst(s, target).value.0 && s[1..] == s[0 + 1..];
    }
  }

  lemma {:induction false} FindFirstAppend(a: seq<Tree>, b: seq<Tree>, target: int)
    ensures FindFirst(a + b, target) ==
      match FindFirst(a, target)
      case Some((n, rest)) => Some((n, rest + b))
      case None => FindFirst(b, target)
  {
    if a == [] {
      assert a + b == b;
    } else {
      assert (a + b)[0] == a[0] && (a + b)[1..] == a[1..] + b;
      FindFirstAppend(a[1..], b, target);
    }
  }

  /** Nothing is found exactly when no node of the tree holds the value. */
  lemma NotFoundIffAbsent(t: Tree, target: int)
    ensures FindFirst(PreorderNodes(t), target).None? <==> target !in Values(t)
  {
    var s := PreorderNodes(t);
    FindFirstIsFirst(s, target);
    PreorderNodesValues(t);
    PreorderValues(t);
    assert multiset(ValuesOf(s)) == Values(t);
    if target in Values(t) {
      assert target in ValuesOf(s);
      var i :| 0 <= i < |s| && ValuesOf(s)[i] == target;
      assert s[i].value == target;
    } else {
      forall i | 0 <= i < |s|
        ensures s[i].value != target
      {
        assert ValuesOf(s)[i] in multiset(ValuesOf(s));
      }
    }
  }

  // ---------------------------------------------------------------------
  // `dfs_recursive`: the path to the first match.
  // ---------------------------------------------------------------------

  /** `dfs_recursive(root_node, target, path)`; None stands for a None root. */
  function DfsRecursive(root: Option<Tree>, target: int, path: seq<Tree>): Option<seq<Tree>>
  {
    if root.None? then None else DfsAt(root.value, target, path)
  }

  function DfsAt(t: Tree, target: int, path: seq<Tree>): (r: Option<seq<Tree>>)
    ensures r.Some? ==> |r.value| > |path|
    decreases t, 1
  {
    var here := path + [t];
    if t.value == target then Some(here) else DfsChildren(t, 0, target, here)
  }

  /** The `for child in root_node.children` loop, from child i on. */
  function DfsChildren(t: Tree, i: nat, target: int, path: seq<Tree>): (r: Option<seq<Tree>>)
    requires i <= |t.children|
    ensures r.Some? ==> |r.value| >= |path|
    decreases t, 0, |t.children| - i
  {
    if i == |t.children| then None
    else
      var found := DfsAt(t.children[i], target, path);
      if found.Some? then found else DfsChildren(t, i + 1, target, path)
  }

  /**
   * The recursive search finds the first match in preorder, and returns the
   * given path followed by the way down from t to that node.
   */
  lemma {:induction false} DfsAtFindsFirst(t: Tree, target: int, path: seq<Tree>)
    ensures DfsAt(t, target, path).Some? <==> FindFirst(PreorderNodes(t), target).Some?
    ensures DfsAt(t, target, path).Some? ==> (FindFirst(PreorderNodes(t), target).Some? &&
      var p := DfsAt(t, target, path).value;
      p[..|path|] == path && IsPathFrom(t, p[|path|..])
      && Last(p) == FindFirst(PreorderNodes(t), target).value.0)
    decreases t, 1
  {
    var here := path + [t];
    FindFirstAppend([t], PreorderNodesFrom(t, 0), target);
    assert FindFirst([t], target) == if t.value == target then Some((t, [])) else None by {
      assert [t][1..] == [];
    }
    if t.value == target {
      var p := here;
      assert p[..|path|] == path && p[|path|..] == [t];
    } else {
      DfsChildrenFindsFirst(t, 0, target, here);
      var r := DfsChildren(t, 0, target, here);
      if r.Some? {
        var p := r.value;
        var j :| 0 <= j < |t.children| && IsPathFrom(t.children[j], p[|here|..]);
        PathDown(t, t.children[j], p[|here|..]);
        assert p[..|path|] == here[..|path|] == path;
        assert p[|path|..] == [t] + p[|here|..] by {
          assert p[..|here|] == here;
        }
      }
    }
  }

  lemma {:induction false} DfsChildrenFindsFirst(t: Tree, i: nat, target: int, path: seq<Tree>)
    requires i <= |t.children|
    ensures DfsChildren(t, i, target, path).Some? <==> FindFirst(PreorderNodesFrom(t, i), target).Some?
    ensures DfsChildren(t, i, target, path).Some? ==> (FindFirst(PreorderNodesFrom(t, i), target).Some? &&
      var p := DfsChildren(t, i, target, path).value;
      |p| > |path| && p[..|path|] == path
      && (exists j | i <= j < |t.children| :: IsPathFrom(t.children[j], p[|path|..]))
      && Last(p) == FindFirst(PreorderNodesFrom(t, i), target).value.0)
    decreases t, 0, |t.children| - i
  {
    if i < |t.children| {
      DfsAtFindsFirst(t.children[i], target, path);
      DfsChildrenFindsFirst(t, i + 1, target, path);
      FindFirstAppend(PreorderNodes(t.children[i]), PreorderNodesFrom(t, i + 1), target);
    }
  }

  /** `dfs_recursive` from the root with the default empty path. */
  lemma DfsRecursiveFindsFirst(root: Tree, target: int)
    ensures DfsRecursive(Some(root), target, []).None? <==> target !in Values(root)
    ensures DfsRecursive(Some(root), target, []).Some? ==> (FindFirst(PreorderNodes(root), target).Some? &&
      var p := DfsRecursive(Some(root), target, []).value;
      IsPathFrom(root, p) && Last(p).value == target
      && Last(p) == FindFirst(PreorderNodes(root), target).value.0)
  {
    DfsAtFindsFirst(root, target, []);
    NotFoundIffAbsent(root, target);
    if DfsAt(root, target, []).Some? {
      var p := DfsAt(root, target, []).value;
      assert p[0..] == p;
    }
  }

  // ---------------------------------------------------------------------
  // `dfs_recursive_return_node`: the same search returning only the node.
  // ---------------------------------------------------------------------

  function DfsNode(root: Option<Tree>, target: int): Option<Tree>
  {
    if root.None? then None else DfsNodeAt(root.value, target)
  }

  function DfsNodeAt(t: Tree, target: int): Option<Tree>
    decreases t, 1
  {
    if t.value == target then Some(t) else DfsNodeChildren(t, 0, target)
  }

  function DfsNodeChildren(t: Tree, i: nat, target: int): Option<Tree>
    requires i <= |t.children|
    decreases t, 0, |t.children| - i
  {
    if i == |t.children| then None
    else
      var found := DfsNodeAt(t.children[i], target);
      if found.Some? then found else DfsNodeChildren(t, i + 1, target)
  }

  /** The node variant returns the last node of the path variant's result. */
  lemma {:induction false} DfsNodeIsPathEnd(t: Tree, target: int, path: seq<Tree>)
    ensures DfsAt(t, target, path).None? ==> DfsNodeAt(t, target).None?
    ensures DfsAt(t, target, path).Some? ==> DfsNodeAt(t, target) == Some(Last(DfsAt(t, target, path).value))
    decreases t, 1
  {
    if t.value != target {
      DfsNodeChildrenIsPathEnd(t, 0, target, path + [t]);
    }
  }

  lemma {:induction false} DfsNodeChildrenIsPathEnd(t: Tree, i: nat, target: int, path: seq<Tree>)
    requires i <= |t.children|
    ensures DfsChildren(t, i, target, path).None? ==> DfsNodeChildren(t, i, target).None?
    ensures DfsChildren(t, i, target, path).Some? ==>
      |DfsChildren(t, i, target, path).value| > 0 &&
      DfsNodeChildren(t, i, target) == Some(Last(DfsChildren(t, i, target, path).value))
    decreases t, 0, |t.children| - i
  {
    if i < |t.children| {
      DfsNodeIsPathEnd(t.children[i], target, path);
      DfsNodeChildrenIsPathEnd(t, i + 1, target, path);
    }
  }

  // ---------------------------------------------------------------------
  // `dfs_iterative` and `dfs_iterative_return_node`: an explicit stack.
  // ---------------------------------------------------------------------

  lemma {:induction false} PreorderNodesForestAppend(a: seq<Tree>, b: seq<Tree>)
    ensures PreorderNodesForest(a + b) == PreorderNodesForest(a) + PreorderNodesForest(b)
    decreases |a|
  {
    if a != [] {
      assert (a + b)[0] == a[0] && (a + b)[1..] == a[1..] + b;
      PreorderNodesForestAppend(a[1..], b);
    } else {
      assert a + b == b;
    }
  }

  lemma {:induction false} PreorderNodesFromForest(t: Tree, i: nat)
    requires i <= |t.children|
    ensures PreorderNodesFrom(t, i) == PreorderNodesForest(t.children[i..])
    decreases |t.children| - i
  {
    if i < |t.children| {
      assert t.children[i..][1..] == t.children[i + 1..];
      PreorderNodesFromForest(t, i + 1);
    }
  }

  /**
   * The nodes still to be visited, top of the stack first: popping the top
   * and pushing its children in reverse leaves the top's successors in
   * preorder.
   */
  lemma StackStep(stack: seq<Tree>)
    requires stack != []
    ensures var top, rest := stack[|stack| - 1], stack[..|stack| - 1];
      && PreorderNodesForest(Reverse(rest + Reverse(top.children)))
         == PreorderNodesFrom(top, 0) + PreorderNodesForest(Reverse(rest))
      && PreorderNodesForest(Reverse(stack))
         == [top] + PreorderNodesForest(Reverse(rest + Reverse(top.children)))
  {
    var top, rest := stack[|stack| - 1], stack[..|stack| - 1];
    assert stack == rest + [top];
    ReverseAppend(rest, [top]);
    assert Reverse(stack) == [top] + Reverse(rest);
    ReverseAppend(rest, Reverse(top.children));
    ReverseReverse(top.children);
    assert Reverse(rest + Reverse(top.children)) == top.children + Reverse(rest);
    PreorderNodesForestAppend(top.children, Reverse(rest));
    PreorderNodesFromForest(top, 0);
    assert top.children[0..] == top.children;
    PreorderNodesForestAppend([top], Reverse(rest));
  }

  /** The stack holding only the root still has the whole preorder ahead. */
  lemma StackStart(root: Tree)
    ensures PreorderNodesForest(Reverse([root])) == PreorderNodes(root)
  {
    assert Reverse([root]) == [root];
    assert PreorderNodesForest([root][1..]) == [];
  }

  /**
   * `dfs_iterative`: pops nodes, pushing each one's children in reverse,
   * until a node holds the target. It returns that node with the stack left
   * over, whose preorder is exactly the nodes after the match.
   */
  method DfsIterative(root: Option<Tree>, target: int) returns (r: Option<(Tree, seq<Tree>)>)
    ensures root.None? ==> r.None?
    ensures root.Some? ==> (r.None? <==> FindFirst(PreorderNodes(root.value), target).None?)
    ensures r.Some? ==> (root.Some? && FindFirst(PreorderNodes(root.value), target)
      == Some((r.value.0, PreorderNodesFrom(r.value.0, 0) + PreorderNodesForest(Reverse(r.value.1)))))
  {
    if root.None? {
      return None;
    }
    var stack := [root.value];
    StackStart(root.value);
    while stack != []
      invariant FindFirst(PreorderNodesForest(Reverse(stack)), target) == FindFirst(PreorderNodes(root.value), target)
      decreases |PreorderNodesForest(Reverse(stack))|
    {
      StackStep(stack);
      var current := stack[|stack| - 1];
      stack := stack[..|stack| - 1];
      ghost var ahead := PreorderNodesForest(Reverse(stack + Reverse(current.children)));
      assert ([current] + ahead)[0] == current && ([current] + ahead)[1..] == ahead;
      if current.value == target {
        return Some((current, stack));
      }
      stack := stack + Reverse(current.children);
    }
    return None;
  }

  /** `dfs_iterative_return_node`: the same stack loop returning only the node. */
  method DfsIterativeReturnNode(root: Option<Tree>, target: int) returns (r: Option<Tree>)
    ensures root.None? ==> r.None?
    ensures root.Some? ==> (r.None? <==> target !in Values(root.value))
    ensures r.Some? ==> (root.Some? && FindFirst(PreorderNodes(root.value), target).Some?
      && r.value == FindFirst(PreorderNodes(root.value), target).value.0)
    ensures r.Some? ==> r == DfsNode(root, target)
  {
    if root.None? {
      return None;
    }
    var stack := [root.value];
    StackStart(root.value);
    NotFoundIffAbsent(root.value, target);
    DfsAtFindsFirst(root.value, target, []);
    DfsNodeIsPathEnd(root.value, target, []);
    while stack != []
      invariant FindFirst(PreorderNodesForest(Reverse(stack)), target) == FindFirst(PreorderNodes(root.value), target)
      decreases |PreorderNodesForest(Reverse(stack))|
    {
      StackStep(stack);
      var current := stack[|stack| - 1];
      stack := stack[..|stack| - 1];
      ghost var ahead := PreorderNodesForest(Reverse(stack + Reverse(current.children)));
      assert ([current] + ahead)[0] == current && ([current] + ahead)[1..] == ahead;
      if current.value == target {
        return Some(current);
      }
      stack := stack + Reverse(current.children);
    }
    return None;
  }

  /** The tree of the traversal-order test: 1 over 2 and 3, 2 over 4, 3 over 5 and 6, 5 over 7. */
  function OrderExample(): Tree
  {
    Tree(1, [Tree(2, [Tree(4, [])]), Tree(3, [Tree(5, [Tree(7, [])]), Tree(6, [])])])
  }

  /** The recursive search reaches 7 through 3 and 5. */
  lemma OrderExamplePath()
    ensures var p := DfsRecursive(Some(OrderExample()), 7, []);
      p.Some? && ValuesOf(p.value) == [1, 3, 5, 7]
  {
    var t1 := OrderExample();
    var t7 := Tree(7, []);
    var t5 := Tree(5, [t7]);
    var t3 := Tree(3, [t5, Tree(6, [])]);
    var t4 := Tree(4, []);
    var t2 := Tree(2, [t4]);
    assert t1 == Tree(1, [t2, t3]);
    assert DfsChildren(t4, 0, 7, [t1, t2, t4]) == None;
    assert DfsAt(t4, 7, [t1, t2]) == None;
    assert DfsChildren(t2, 1, 7, [t1, t2]) == None;
    assert DfsChildren(t2, 0, 7, [t1, t2]) == None;
    assert DfsAt(t2, 7, [t1]) == None;
    var p := [t1, t3, t5, t7];
    assert [t1, t3, t5] + [t7] == p;
    assert DfsAt(t7, 7, [t1, t3, t5]) == Some(p);
    assert DfsChildren(t5, 0, 7, [t1, t3, t5]) == Some(p);
    assert [t1, t3] + [t5] == [t1, t3, t5];
    assert DfsAt(t5, 7, [t1, t3]) == Some(p);
    assert DfsChildren(t3, 0, 7, [t1, t3]) == Some(p);
    assert [t1] + [t3] == [t1, t3];
    assert DfsAt(t3, 7, [t1]) == Some(p);
    assert DfsChildren(t1, 1, 7, [t1]) == Some(p);
    assert DfsChildren(t1, 0, 7, [t1]) == Some(p);
    assert [] + [t1] == [t1];
    assert DfsAt(t1, 7, []) == Some(p);
  }
}
