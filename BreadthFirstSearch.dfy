/**
 * Breadth-first search for a value in an n-ary tree
 * (python/search/breadth_first_search.py). Both searches run a FIFO frontier
 * from the root, remember for every discovered node the node it was
 * discovered from, and on a match rebuild the path root → match by
 * following those parent links back and reversing.
 *
 * `bfs_simple` has no visited set, so it is modelled on the value snapshot
 * `Tree`, where no node can be met twice; a node's `id` is its discovery
 * number. `bfs_cycle_protection` guards against child links that lead back
 * up, so it is modelled on the `TreeNode` objects themselves, with a visited
 * set of objects (Python's `id`).
 */
module BreadthFirstSearch {
  import opened Wrappers
  import opened Sequences
  import opened TreeNode

  // ---------------------------------------------------------------------
  // The reference: a queue of (ancestors, node) entries in level order.
  // ---------------------------------------------------------------------

  /** A queue entry: the nodes above a node, root first, and the node. */
  type Entry = (seq<Tree>, Tree)

  function PathOf(e: Entry): (p: seq<Tree>)
    ensures p != [] && Last(p) == e.1 && |p| == |e.0| + 1
  {
    e.0 + [e.1]
  }

  /** The entries for the children of e's node, left to right. */
  function Extend(e: Entry): (r: seq<Entry>)
    ensures |r| == |e.1.children|
    ensures forall i | 0 <= i < |r| :: r[i] == (PathOf(e), e.1.children[i])
  {
    seq(|e.1.children|, i requires 0 <= i < |e.1.children| => (PathOf(e), e.1.children[i]))
  }

  /** The number of nodes in a tree. */
  function Size(t: Tree): nat
    decreases t, 1
  {
    1 + SizeFrom(t, 0)
  }

  function SizeFrom(t: Tree, i: nat): nat
    requires i <= |t.children|
    decreases t, 0, |t.children| - i
  {
    if i == |t.children| then 0 else Size(t.children[i]) + SizeFrom(t, i + 1)
  }

  /** The nodes still below the entries of a queue. */
  function Weight(q: seq<Entry>): nat
  {
    if q == [] then 0 else Size(q[0].1) + Weight(q[1..])
  }

  lemma {:induction false} WeightAppend(a: seq<Entry>, b: seq<Entry>)
    ensures Weight(a + b) == Weight(a) + Weight(b)
    decreases |a|
  {
    if a == [] {
      assert a + b == b;
    } else {
      assert (a + b)[0] == a[0] && (a + b)[1..] == a[1..] + b;
      WeightAppend(a[1..], b);
    }
  }

  lemma {:induction false} WeightExtend(e: Entry, i: nat)
    requires i <= |e.1.children|
    ensures Weight(Extend(e)[i..]) == SizeFrom(e.1, i)
    decreases |e.1.children| - i
  {
    if i < |e.1.children| {
      assert Extend(e)[i..][1..] == Extend(e)[i + 1..];
      WeightExtend(e, i + 1);
    }
  }

  /**
   * Level-order search over the queue q: the first entry whose node holds
   * target wins, and an entry that does not match is replaced by its
   * children at the back of the queue.
   */
  function BfsFrom(q: seq<Entry>, target: int): Option<seq<Tree>>
    decreases Weight(q)
  {
    if q == [] then None
    else if q[0].1.value == target then Some(PathOf(q[0]))
    else
      WeightAppend(q[1..], Extend(q[0]));
      WeightExtend(q[0], 0);
      BfsFrom(q[1..] + Extend(q[0]), target)
  }

  /** The search from a root alone in the queue. */
  function Bfs(root: Tree, target: int): Option<seq<Tree>>
  {
    BfsFrom([([], root)], target)
  }

  // ---------------------------------------------------------------------
  // What the reference finds: a path to the target, as short as any.
  // ---------------------------------------------------------------------

  predicate IsPrefix(a: seq<Tree>, b: seq<Tree>)
  {
    |a| <= |b| && b[..|a|] == a
  }

  /** Every entry of q is a path down from root. */
  predicate RootPaths(root: Tree, q: seq<Entry>)
  {
    forall k | 0 <= k < |q| :: IsPathFrom(root, PathOf(q[k]))
  }

  /** Every path from root to a node holding target continues some entry of q. */
  ghost predicate Covers(root: Tree, q: seq<Entry>, target: int)
  {
    forall p | IsPathFrom(root, p) && Last(p).value == target ::
      exists k | 0 <= k < |q| :: IsPrefix(PathOf(q[k]), p)
  }

  /** The entries' depths never fall and stay within one of the first entry's. */
  predicate Levels(q: seq<Entry>)
  {
    forall i, j | 0 <= i <= j < |q| :: |q[i].0| <= |q[j].0| <= |q[i].0| + 1
  }

  /** Replacing the head by its children keeps every entry a path down from root. */
  lemma StepRootPaths(root: Tree, q: seq<Entry>)
    requires q != [] && RootPaths(root, q)
    ensures RootPaths(root, q[1..] + Extend(q[0]))
  {
    var e, ext := q[0], Extend(q[0]);
    var q' := q[1..] + ext;
    forall k | 0 <= k < |q'|
      ensures IsPathFrom(root, PathOf(q'[k]))
    {
      if k < |q| - 1 {
        assert q'[k] == q[k + 1];
      } else {
        var c := k - (|q| - 1);
        assert q'[k] == ext[c];
        ExtendPath(root, e, c);
      }
    }
  }

  /** The entry for a child of a root path's end is a root path. */
  lemma ExtendPath(root: Tree, e: Entry, c: nat)
    requires IsPathFrom(root, PathOf(e)) && c < |e.1.children|
    ensures IsPathFrom(root, PathOf(Extend(e)[c]))
  {
    var p := PathOf(e);
    var p' := PathOf(Extend(e)[c]);
    assert p' == p + [e.1.children[c]];
    forall i | 0 <= i < |p'| - 1
      ensures p'[i + 1] in p'[i].children
    {
      if i < |p| - 1 {
        assert p'[i + 1] == p[i + 1] && p'[i] == p[i];
      }
    }
  }

  /** Replacing a head that does not hold target by its children keeps the cover. */
  lemma StepCovers(root: Tree, q: seq<Entry>, target: int)
    requires q != [] && q[0].1.value != target
    requires Covers(root, q, target)
    ensures Covers(root, q[1..] + Extend(q[0]), target)
  {
    var e, ext := q[0], Extend(q[0]);
    var q' := q[1..] + ext;
    forall p | IsPathFrom(root, p) && Last(p).value == target
      ensures exists k | 0 <= k < |q'| :: IsPrefix(PathOf(q'[k]), p)
    {
      var k :| 0 <= k < |q| && IsPrefix(PathOf(q[k]), p);
      if k > 0 {
        assert q'[k - 1] == q[k];
      } else {
        var c := ChildCovers(root, e, p, target);
        assert q'[|q| - 1 + c] == ext[c];
      }
    }
  }

  /** A path to target through an entry that does not hold target continues one of its children's entries. */
  lemma ChildCovers(root: Tree, e: Entry, p: seq<Tree>, target: int) returns (c: nat)
    requires e.1.value != target && IsPathFrom(root, p) && Last(p).value == target && IsPrefix(PathOf(e), p)
    ensures c < |e.1.children| && IsPrefix(PathOf(Extend(e)[c]), p)
  {
    var a := PathOf(e);
    assert p[|a| - 1] == a[|a| - 1] == e.1;
    assert Last(p) != e.1;
    var child := p[|a|];
    assert child in e.1.children;
    c :| 0 <= c < |e.1.children| && e.1.children[c] == child;
    assert p[..|a| + 1] == a + [child];
  }

  /** The children's entries are one level below the head, so the levels stay ordered. */
  lemma StepLevels(q: seq<Entry>)
    requires q != [] && Levels(q)
    ensures Levels(q[1..] + Extend(q[0]))
  {
    var ext := Extend(q[0]);
    var q' := q[1..] + ext;
    forall i, j | 0 <= i <= j < |q'|
      ensures |q'[i].0| <= |q'[j].0| <= |q'[i].0| + 1
    {
      if j < |q| - 1 {
        assert q'[i] == q[i + 1] && q'[j] == q[j + 1];
      } else if i < |q| - 1 {
        assert q'[i] == q[i + 1] && q'[j] == ext[j - (|q| - 1)];
        assert |q[0].0| <= |q[i + 1].0|;
      } else {
        assert q'[i] == ext[i - (|q| - 1)] && q'[j] == ext[j - (|q| - 1)];
      }
    }
  }

  /**
   * From a queue with the three properties, a found path goes down from the
   * root to the target and is no longer than any such path, and nothing is
   * found only when no such path exists.
   */
  lemma {:induction false} BfsFromFindsShallowest(root: Tree, q: seq<Entry>, target: int)
    requires RootPaths(root, q) && Covers(root, q, target) && Levels(q)
    ensures BfsFrom(q, target).Some? ==>
      IsPathFrom(root, BfsFrom(q, target).value) && Last(BfsFrom(q, target).value).value == target
    ensures BfsFrom(q, target).Some? ==> forall p | IsPathFrom(root, p) && Last(p).value == target ::
      |BfsFrom(q, target).value| <= |p|
    ensures BfsFrom(q, target).None? ==> forall p | IsPathFrom(root, p) :: Last(p).value != target
    decreases Weight(q)
  {
    if q == [] {
    } else if q[0].1.value == target {
      forall p | IsPathFrom(root, p) && Last(p).value == target
        ensures |PathOf(q[0])| <= |p|
      {
        var k :| 0 <= k < |q| && IsPrefix(PathOf(q[k]), p);
        assert |q[0].0| <= |q[k].0|;
      }
    } else {
      WeightAppend(q[1..], Extend(q[0]));
      WeightExtend(q[0], 0);
      StepRootPaths(root, q);
      StepCovers(root, q, target);
      StepLevels(q);
      BfsFromFindsShallowest(root, q[1..] + Extend(q[0]), target);
    }
  }

  /**
   * The search from the root finds a path down to a node holding target,
   * exactly when target is in the tree, and no path to such a node is
   * shorter.
   */
  lemma BfsFindsShallowest(root: Tree, target: int)
    ensures Bfs(root, target).None? <==> target !in Values(root)
    ensures Bfs(root, target).Some? ==>
      IsPathFrom(root, Bfs(root, target).value) && Last(Bfs(root, target).value).value == target
    ensures Bfs(root, target).Some? ==> forall p | IsPathFrom(root, p) && Last(p).value == target ::
      |Bfs(root, target).value| <= |p|
  {
    var q: seq<Entry> := [([], root)];
    assert PathOf(q[0]) == [root];
    forall p | IsPathFrom(root, p) && Last(p).value == target
      ensures exists k | 0 <= k < |q| :: IsPrefix(PathOf(q[k]), p)
    {
      assert IsPrefix(PathOf(q[0]), p);
    }
    BfsFromFindsShallowest(root, q, target);
    if Bfs(root, target).Some? {
      PathEndInValues(root, Bfs(root, target).value);
    }
    if target in Values(root) {
      var p := PathToValue(root, target);
    }
  }

  /** The documented example: in 1 over 2 and 3, the path to 3 is 1, 3. */
  lemma DocExample()
    ensures var t := Tree(1, [Tree(2, []), Tree(3, [])]);
      Bfs(t, 3) == Some([t, Tree(3, [])])
  {
    var t := Tree(1, [Tree(2, []), Tree(3, [])]);
    var q1 := [([t], Tree(2, [])), ([t], Tree(3, []))];
    assert PathOf(([], t)) == [t];
    assert Extend(([], t)) == q1;
    assert [([], t)][1..] + q1 == q1;
    assert BfsFrom([([], t)], 3) == BfsFrom(q1, 3);
    assert Extend(q1[0]) == [];
    assert q1[1..] + [] == [([t], Tree(3, []))];
    assert PathOf(([t], Tree(3, []))) == [t, Tree(3, [])];
    assert BfsFrom([([t], Tree(3, []))], 3) == Some([t, Tree(3, [])]);
    assert BfsFrom(q1, 3) == BfsFrom([([t], Tree(3, []))], 3);
  }

  // ---------------------------------------------------------------------
  // `bfs_simple` and `_reconstruct_path` over discovery numbers.
  // ---------------------------------------------------------------------

  /**
   * The bookkeeping of the search: node i was the i-th discovered, `above[i]`
   * (ghost) are the nodes above it, and `parentOf` maps i to the number of
   * the node it was discovered from (None for the root).
   */
  ghost predicate Registry(found: seq<Tree>, parentOf: map<nat, Option<nat>>, above: seq<seq<Tree>>)
  {
    && |above| == |found|
    && (forall i | 0 <= i < |found| :: i in parentOf)
    && (forall i | 0 <= i < |found| && parentOf[i].None? :: above[i] == [])
    && (forall i | 0 <= i < |found| && parentOf[i].Some? ::
          parentOf[i].value < i && above[i] == above[parentOf[i].value] + [found[parentOf[i].value]])
  }

  /** The queue of entries the frontier of discovery numbers stands for. */
  ghost function QueueOf(found: seq<Tree>, above: seq<seq<Tree>>, frontier: seq<nat>): (q: seq<Entry>)
    requires |above| == |found| && forall k | 0 <= k < |frontier| :: frontier[k] < |found|
    ensures |q| == |frontier|
  {
    seq(|frontier|, k requires 0 <= k < |frontier| => (above[frontier[k]], found[frontier[k]]))
  }

  /**
   * `_reconstruct_path`: follows the parent links from node `id` back to
   * the root, collecting the nodes, and reverses them.
   */
  method ReconstructIds(id: nat, parentOf: map<nat, Option<nat>>, found: seq<Tree>, ghost above: seq<seq<Tree>>)
    returns (path: seq<Tree>)
    requires Registry(found, parentOf, above) && id < |found|
    ensures path == above[id] + [found[id]]
  {
    var back: seq<Tree> := [];
    var current: Option<nat> := Some(id);
    while current.Some?
      invariant current.Some? ==> (current.value < |found|
        && above[current.value] + [found[current.value]] + Reverse(back) == above[id] + [found[id]])
      invariant current.None? ==> Reverse(back) == above[id] + [found[id]]
      decreases if current.Some? then current.value + 1 else 0
    {
      var c := current.value;
      ReverseAppend(back, [found[c]]);
      assert Reverse([found[c]]) == [found[c]];
      back := back + [found[c]];
      current := if c in parentOf then parentOf[c] else None;
      if current.Some? {
        assert above[c] == above[current.value] + [found[current.value]];
      }
    }
    path := Reverse(back);
  }

  /** Numbers a newly discovered child of node `parent` and appends it to the frontier. */
  method Discover(parent: nat, child: Tree, found: seq<Tree>, parentOf: map<nat, Option<nat>>, frontier: seq<nat>,
                  ghost above: seq<seq<Tree>>)
    returns (found': seq<Tree>, parentOf': map<nat, Option<nat>>, frontier': seq<nat>, ghost above': seq<seq<Tree>>)
    requires Registry(found, parentOf, above) && parent < |found|
    requires forall k | 0 <= k < |frontier| :: frontier[k] < |found|
    ensures Registry(found', parentOf', above')
    ensures found' == found + [child] && above' == above + [above[parent] + [found[parent]]]
    ensures forall k | 0 <= k < |frontier'| :: frontier'[k] < |found'|
    ensures QueueOf(found', above', frontier')
      == QueueOf(found, above, frontier) + [(above[parent] + [found[parent]], child)]
  {
    var id := |found|;
    frontier' := frontier + [id];
    parentOf' := parentOf[id := Some(parent)];
    above' := above + [above[parent] + [found[parent]]];
    found' := found + [child];
    ghost var q, q' := QueueOf(found, above, frontier), QueueOf(found', above', frontier');
    forall k | 0 <= k < |q|
      ensures q'[k] == q[k]
    {
    }
  }

  /** Appends the children of node `current` to the frontier, numbering them. */
  method DiscoverChildren(current: nat, found: seq<Tree>, parentOf: map<nat, Option<nat>>, frontier: seq<nat>,
                          ghost above: seq<seq<Tree>>)
    returns (found': seq<Tree>, parentOf': map<nat, Option<nat>>, frontier': seq<nat>, ghost above': seq<seq<Tree>>)
    requires Registry(found, parentOf, above) && current < |found|
    requires forall k | 0 <= k < |frontier| :: frontier[k] < |found|
    ensures Registry(found', parentOf', above')
    ensures forall k | 0 <= k < |frontier'| :: frontier'[k] < |found'|
    ensures QueueOf(found', above', frontier')
      == QueueOf(found, above, frontier) + Extend((above[current], found[current]))
  {
    var node := found[current];
    var e := (above[current], node);
    found', parentOf', frontier', above' := found, parentOf, frontier, above;
    var i := 0;
    while i < |node.children|
      invariant 0 <= i <= |node.children|
      invariant Registry(found', parentOf', above')
      invariant current < |found'| && found'[current] == node && above'[current] == above[current]
      invariant forall k | 0 <= k < |frontier'| :: frontier'[k] < |found'|
      invariant QueueOf(found', above', frontier') == QueueOf(found, above, frontier) + Extend(e)[..i]
    {
      found', parentOf', frontier', above' := Discover(current, node.children[i], found', parentOf', frontier', above');
      assert Extend(e)[..i + 1] == Extend(e)[..i] + [Extend(e)[i]];
      i := i + 1;
    }
    assert Extend(e)[..i] == Extend(e);
  }

  /**
   * `bfs_simple`: takes nodes from the front of the frontier; a node holding
   * target ends the search with the rebuilt path, any other node has its
   * children appended. It finds exactly what the level-order reference
   * finds.
   */
  method BfsSimple(root: Option<Tree>, target: int) returns (r: Option<seq<Tree>>)
    ensures root.None? ==> r.None?
    ensures root.Some? ==> r == Bfs(root.value, target)
  {
    if root.None? {
      return None;
    }
    var found := [root.value];
    var parentOf: map<nat, Option<nat>> := map[0 := None];
    var frontier: seq<nat> := [0];
    ghost var above: seq<seq<Tree>> := [[]];
    assert QueueOf(found, above, frontier) == [([], root.value)];
    while frontier != []
      invariant Registry(found, parentOf, above)
      invariant forall k | 0 <= k < |frontier| :: frontier[k] < |found|
      invariant BfsFrom(QueueOf(found, above, frontier), target) == Bfs(root.value, target)
      decreases Weight(QueueOf(found, above, frontier))
    {
      ghost var q := QueueOf(found, above, frontier);
      var current := frontier[0];
      frontier := frontier[1..];
      assert q[0] == (above[current], found[current]);
      assert QueueOf(found, above, frontier) == q[1..];
      if found[current].value == target {
        var path := ReconstructIds(current, parentOf, found, above);
        return Some(path);
      }
      found, parentOf, frontier, above := DiscoverChildren(current, found, parentOf, frontier, above);
      WeightAppend(q[1..], Extend(q[0]));
      WeightExtend(q[0], 0);
    }
    return None;
  }

  // ---------------------------------------------------------------------
  // `bfs_cycle_protection` and `_reconstruct_path` over node objects.
  // ---------------------------------------------------------------------

  /** Every child of a node of the footprint is in the footprint. */
  ghost predicate Closed(nodes: set<TreeNode>)
    reads nodes
  {
    forall n | n in nodes :: forall c | c in n.children :: c in nodes
  }

  /** Each node of p is a child of the one before. */
  ghost predicate Chain(p: seq<TreeNode>)
    reads set i | 0 <= i < |p| :: p[i]
  {
    forall i | 0 <= i < |p| - 1 :: p[i + 1] in p[i].children
  }

  /** p goes down the child links from root. */
  ghost predicate IsNodePath(root: TreeNode, p: seq<TreeNode>)
    reads set i | 0 <= i < |p| :: p[i]
  {
    p != [] && p[0] == root && Chain(p)
  }

  /**
   * The parent links of the search: the root has none, and every other
   * node in the map was reached from a visited node it is a child of,
   * which was visited before it (`rank` is the order of visiting).
   */
  ghost predicate Links(root: TreeNode, parent: map<TreeNode, TreeNode?>, visited: set<TreeNode>,
                        rank: map<TreeNode, nat>)
    reads visited
  {
    && root in parent && parent[root] == null
    && visited <= parent.Keys && visited <= rank.Keys
    && (forall n | n in visited :: rank[n] < |visited|)
    && forall n | n in parent && n != root ::
         && parent[n] != null && parent[n] in visited && n in parent[n].children
         && (n in visited ==> rank[parent[n]] < rank[n])
  }

  /**
   * `_reconstruct_path`: follows the parent links from a visited node back
   * to the root, collecting the nodes, and reverses them; the result goes
   * down from the root to that node.
   */
  method ReconstructPath(node: TreeNode, parent: map<TreeNode, TreeNode?>,
                         ghost root: TreeNode, ghost visited: set<TreeNode>, ghost rank: map<TreeNode, nat>)
    returns (path: seq<TreeNode>)
    requires Links(root, parent, visited, rank) && node in visited
    ensures IsNodePath(root, path) && path[|path| - 1] == node
  {
    var back: seq<TreeNode> := [];
    var current: TreeNode? := node;
    while current != null
      invariant current != null ==> current in visited
      invariant Reverse(back) == [] ==> current == node
      invariant Reverse(back) != [] ==> Chain(Reverse(back)) && Reverse(back)[|back| - 1] == node
      invariant Reverse(back) != [] && current != null ==> Reverse(back)[0] in current.children
      invariant Reverse(back) != [] && current == null ==> Reverse(back)[0] == root
      decreases if current != null then rank[current] + 1 else 0
    {
      var c: TreeNode := current;
      ghost var tail := Reverse(back);
      ReverseAppend(back, [c]);
      assert Reverse([c]) == [c];
      back := back + [c];
      assert Reverse(back) == [c] + tail;
      current := if c in parent then parent[c] else null;
    }
    path := Reverse(back);
  }

  /** The nodes of s that are not visited, in order. */
  function Unvisited(s: seq<TreeNode>, visited: set<TreeNode>): (r: seq<TreeNode>)
    ensures |r| <= |s|
  {
    if s == [] then []
    else Unvisited(s[..|s| - 1], visited) + (if s[|s| - 1] in visited then [] else [s[|s| - 1]])
  }

  /** The unvisited nodes of s are exactly the members of s outside visited. */
  lemma {:induction false} UnvisitedMembers(s: seq<TreeNode>, visited: set<TreeNode>)
    ensures forall c | c in Unvisited(s, visited) :: c in s && c !in visited
    ensures forall c | c in s && c !in visited :: c in Unvisited(s, visited)
  {
    if s != [] {
      var init := s[..|s| - 1];
      UnvisitedMembers(init, visited);
      assert s == init + [s[|s| - 1]];
    }
  }

  /** parent' is parent with every pushed node's entry set to current. */
  predicate Recorded(parent: map<TreeNode, TreeNode?>, parent': map<TreeNode, TreeNode?>, pushed: seq<TreeNode>,
                     current: TreeNode)
  {
    && (forall c | c in parent' :: c in parent || c in pushed)
    && (forall c | c in pushed :: c in parent' && parent'[c] == current)
    && (forall c | c in parent && c !in pushed :: c in parent' && parent'[c] == parent[c])
  }

  /**
   * The `for child in current_node.children` loop: every child not yet
   * visited is appended to the frontier and gets `current` as its parent.
   */
  method ExploreChildren(current: TreeNode, frontier: seq<TreeNode>, visited: set<TreeNode>,
                         parent: map<TreeNode, TreeNode?>)
    returns (frontier': seq<TreeNode>, parent': map<TreeNode, TreeNode?>)
    ensures frontier' == frontier + Unvisited(current.children, visited)
    ensures Recorded(parent, parent', Unvisited(current.children, visited), current)
  {
    var children := current.children;
    frontier', parent' := frontier, parent;
    var i := 0;
    while i < |children|
      invariant 0 <= i <= |children|
      invariant frontier' == frontier + Unvisited(children[..i], visited)
      invariant Recorded(parent, parent', Unvisited(children[..i], visited), current)
    {
      var child := children[i];
      assert children[..i + 1][..i] == children[..i];
      if child !in visited {
        frontier' := frontier' + [child];
        parent' := parent'[child := current];
      }
      i := i + 1;
    }
    assert children[..i] == children;
  }

  /** From a closed set of visited nodes holding the root, every node of a path from the root is visited. */
  lemma {:induction false} ClosedReach(root: TreeNode, visited: set<TreeNode>, p: seq<TreeNode>, i: nat)
    requires root in visited && forall n | n in visited :: forall c | c in n.children :: c in visited
    requires IsNodePath(root, p) && i < |p|
    ensures p[i] in visited
    decreases i
  {
    if i > 0 {
      ClosedReach(root, visited, p, i - 1);
      assert p[i] in p[i - 1].children;
    }
  }

  /**
   * The state of the search loop: everything met lies in the footprint, the
   * parent links are well formed, no visited node holds target, and every
   * child of a visited node is visited or waiting in the frontier.
   */
  ghost predicate Searching(root: TreeNode, target: int, nodes: set<TreeNode>, frontier: seq<TreeNode>,
                            visited: set<TreeNode>, parent: map<TreeNode, TreeNode?>, rank: map<TreeNode, nat>)
    reads nodes
  {
    && visited <= nodes && (forall k | 0 <= k < |frontier| :: frontier[k] in nodes)
    && (visited == {} ==> frontier == [root])
    && (visited != {} ==> root in visited)
    && Links(root, parent, visited, rank)
    && (forall k | 0 <= k < |frontier| :: frontier[k] in parent)
    && (forall n | n in visited :: n.value != target)
    && (forall n | n in visited :: forall c | c in n.children :: c in visited || c in frontier)
  }

  /** Visiting the node at the front of the frontier keeps the parent links well formed. */
  lemma VisitLinks(root: TreeNode, target: int, nodes: set<TreeNode>, frontier: seq<TreeNode>,
                   visited: set<TreeNode>, parent: map<TreeNode, TreeNode?>, rank: map<TreeNode, nat>)
    requires Searching(root, target, nodes, frontier, visited, parent, rank)
    requires frontier != [] && frontier[0] !in visited
    ensures Links(root, parent, visited + {frontier[0]}, rank[frontier[0] := |visited|])
  {
  }

  /** The links recorded for the children explored from a visited node are well formed. */
  lemma ExploreLinks(root: TreeNode, current: TreeNode, visited: set<TreeNode>, rank: map<TreeNode, nat>,
                     parent: map<TreeNode, TreeNode?>, parent': map<TreeNode, TreeNode?>)
    requires Links(root, parent, visited, rank) && current in visited && root in visited
    requires Recorded(parent, parent', Unvisited(current.children, visited), current)
    ensures Links(root, parent', visited, rank)
  {
    UnvisitedMembers(current.children, visited);
  }

  /** The new frontier lies in the footprint and every node on it has a parent entry. */
  lemma ExploreFrontier(nodes: set<TreeNode>, current: TreeNode, frontier: seq<TreeNode>, visited: set<TreeNode>,
                        parent: map<TreeNode, TreeNode?>, parent': map<TreeNode, TreeNode?>)
    requires Closed(nodes) && current in nodes
    requires forall k | 0 <= k < |frontier| :: frontier[k] in nodes && frontier[k] in parent
    requires Recorded(parent, parent', Unvisited(current.children, visited), current)
    ensures var frontier' := frontier + Unvisited(current.children, visited);
      forall k | 0 <= k < |frontier'| :: frontier'[k] in nodes && frontier'[k] in parent'
  {
    var pushed := Unvisited(current.children, visited);
    var frontier' := frontier + pushed;
    UnvisitedMembers(current.children, visited);
    forall k | 0 <= k < |frontier'|
      ensures frontier'[k] in nodes && frontier'[k] in parent'
    {
      if k < |frontier| {
        assert frontier'[k] == frontier[k];
      } else {
        assert frontier'[k] == pushed[k - |frontier|];
      }
    }
  }

  /** Every child of a visited node is still visited or waiting, once the front node is visited and explored. */
  lemma ExploreClosure(current: TreeNode, frontier: seq<TreeNode>, visited: set<TreeNode>)
    requires frontier != [] && frontier[0] == current
    requires forall n | n in visited :: forall c | c in n.children :: c in visited || c in frontier
    ensures var visited', frontier' := visited + {current}, frontier[1..] + Unvisited(current.children, visited + {current});
      forall n | n in visited' :: forall c | c in n.children :: c in visited' || c in frontier'
  {
    var visited' := visited + {current};
    var pushed := Unvisited(current.children, visited');
    var frontier' := frontier[1..] + pushed;
    UnvisitedMembers(current.children, visited');
    forall n, c | n in visited' && c in n.children && c !in visited'
      ensures c in frontier'
    {
      if n == current {
        assert c in pushed;
      } else {
        var k :| 0 <= k < |frontier| && frontier[k] == c;
        assert frontier'[k - 1] == c;
      }
    }
  }

  /** Visiting and exploring the front node keeps the loop state. */
  lemma VisitKeeps(root: TreeNode, target: int, nodes: set<TreeNode>, frontier: seq<TreeNode>,
                   visited: set<TreeNode>, parent: map<TreeNode, TreeNode?>, rank: map<TreeNode, nat>,
                   parent': map<TreeNode, TreeNode?>)
    requires Closed(nodes) && Searching(root, target, nodes, frontier, visited, parent, rank)
    requires frontier != [] && frontier[0] !in visited && frontier[0].value != target
    requires Recorded(parent, parent', Unvisited(frontier[0].children, visited + {frontier[0]}), frontier[0])
    ensures var current := frontier[0];
      Searching(root, target, nodes, frontier[1..] + Unvisited(current.children, visited + {current}),
                visited + {current}, parent', rank[current := |visited|])
  {
    var current := frontier[0];
    var visited', rank' := visited + {current}, rank[current := |visited|];
    VisitLinks(root, target, nodes, frontier, visited, parent, rank);
    assert root in visited';
    ExploreLinks(root, current, visited', rank', parent, parent');
    ExploreFrontier(nodes, current, frontier[1..], visited', parent, parent');
    ExploreClosure(current, frontier, visited);
  }

  /** Dropping a front node that was visited before keeps the loop state. */
  lemma SkipKeeps(root: TreeNode, target: int, nodes: set<TreeNode>, frontier: seq<TreeNode>,
                  visited: set<TreeNode>, parent: map<TreeNode, TreeNode?>, rank: map<TreeNode, nat>)
    requires Searching(root, target, nodes, frontier, visited, parent, rank)
    requires frontier != [] && frontier[0] in visited
    ensures Searching(root, target, nodes, frontier[1..], visited, parent, rank)
  {
    forall n, c | n in visited && c in n.children && c !in visited
      ensures c in frontier[1..]
    {
      var k :| 0 <= k < |frontier| && frontier[k] == c;
      assert frontier[1..][k - 1] == c;
    }
  }

  /** Visiting one more node of the footprint leaves fewer unvisited ones. */
  lemma FewerUnvisited(nodes: set<TreeNode>, visited: set<TreeNode>, n: TreeNode)
    requires n in nodes && n !in visited
    ensures |nodes - (visited + {n})| < |nodes - visited|
  {
    assert nodes - visited == (nodes - (visited + {n})) + {n};
  }

  /** When the frontier runs dry, no path from the root leads to a node holding target. */
  lemma Exhausted(root: TreeNode, target: int, nodes: set<TreeNode>, visited: set<TreeNode>,
                  parent: map<TreeNode, TreeNode?>, rank: map<TreeNode, nat>)
    requires Searching(root, target, nodes, [], visited, parent, rank)
    ensures forall p: seq<TreeNode> | IsNodePath(root, p) :: p[|p| - 1].value != target
  {
    forall p: seq<TreeNode> | IsNodePath(root, p)
      ensures p[|p| - 1].value != target
    {
      ClosedReach(root, visited, p, |p| - 1);
    }
  }

  /**
   * One round of the loop for a front node not visited before: it is marked
   * visited; if it holds target the path to it is rebuilt, otherwise its
   * unvisited children join the frontier.
   */
  method VisitFront(root: TreeNode, target: int, ghost nodes: set<TreeNode>, frontier: seq<TreeNode>,
                    visited: set<TreeNode>, parent: map<TreeNode, TreeNode?>, ghost rank: map<TreeNode, nat>)
    returns (found: Option<seq<TreeNode>>, frontier': seq<TreeNode>, visited': set<TreeNode>,
             parent': map<TreeNode, TreeNode?>, ghost rank': map<TreeNode, nat>)
    requires Closed(nodes) && Searching(root, target, nodes, frontier, visited, parent, rank)
    requires frontier != [] && frontier[0] !in visited
    ensures found.Some? ==> IsNodePath(root, found.value) && found.value[|found.value| - 1].value == target
    ensures found.None? ==> Searching(root, target, nodes, frontier', visited', parent', rank')
    ensures found.None? ==> |nodes - visited'| < |nodes - visited|
  {
    var current := frontier[0];
    VisitLinks(root, target, nodes, frontier, visited, parent, rank);
    rank' := rank[current := |visited|];
    visited' := visited + {current};
    if current.value == target {
      var path := ReconstructPath(current, parent, root, visited', rank');
      return Some(path), frontier, visited', parent, rank';
    }
    frontier', parent' := ExploreChildren(current, frontier[1..], visited', parent);
    VisitKeeps(root, target, nodes, frontier, visited, parent, rank, parent');
    FewerUnvisited(nodes, visited, current);
    found := None;
  }

  /**
   * `bfs_cycle_protection`: a root holding target is returned at once;
   * otherwise nodes are taken from the front of the frontier, a node met
   * before is skipped, a node holding target ends the search with the
   * rebuilt path, and any other node has its unvisited children appended.
   * The footprint `nodes` (ghost) is every node reachable from the root.
   */
  method BfsCycleProtection(root: TreeNode?, target: int, ghost nodes: set<TreeNode>) returns (r: Option<seq<TreeNode>>)
    requires root != null ==> root in nodes && Closed(nodes)
    ensures root == null ==> r.None?
    ensures root != null && root.value == target ==> r == Some([root])
    ensures r.Some? ==> root != null && IsNodePath(root, r.value) && r.value[|r.value| - 1].value == target
    ensures r.None? && root != null ==> forall p: seq<TreeNode> | IsNodePath(root, p) :: p[|p| - 1].value != target
  {
    if root == null {
      return None;
    }
    if root.value == target {
      return Some([root]);
    }
    var frontier: seq<TreeNode> := [root];
    var visited: set<TreeNode> := {};
    var parent: map<TreeNode, TreeNode?> := map[root := null];
    ghost var rank: map<TreeNode, nat> := map[];
    while frontier != []
      invariant Searching(root, target, nodes, frontier, visited, parent, rank)
      decreases |nodes - visited|, |frontier|
    {
      if frontier[0] in visited {
        SkipKeeps(root, target, nodes, frontier, visited, parent, rank);
        frontier := frontier[1..];
        continue;
      }
      var found;
      found, frontier, visited, parent, rank := VisitFront(root, target, nodes, frontier, visited, parent, rank);
      if found.Some? {
        return found;
      }
    }
    Exhausted(root, target, nodes, visited, parent, rank);
    return None;
  }
}
