/**
 * The binary search tree of python/data_structures/BinarySearchTree.py. Every node is an
 * object holding a value, its depth and links to a left and a right child; `insert` walks
 * down and hangs a new leaf, one level deeper than its parent, under the last node passed:
 * smaller values go left, equal and larger ones right. The shape below a node is summarised
 * by the value `Tree`, and every property is proved about that value.
 */
module BinarySearchTree {
  import opened Wrappers

  /** The shape below a node: Nil is a missing child (Python's None). */
  datatype Tree = Nil | Node(value: int, depth: int, left: Tree, right: Tree)

  /** What the depth-first traversals print for a node: its depth and its value. */
  datatype Visit = Visit(depth: int, value: int)

  /** A node fresh from the constructor (lines 73-87): no children. */
  function Leaf(value: int, depth: int): Tree
  {
    Node(value, depth, Nil, Nil)
  }

  function Size(t: Tree): nat
  {
    match t
    case Nil => 0
    case Node(_, _, l, r) => 1 + Size(l) + Size(r)
  }

  /** The values stored in the tree, with repetitions. */
  function Elements(t: Tree): multiset<int>
  {
    match t
    case Nil => multiset{}
    case Node(v, _, l, r) => multiset{v} + Elements(l) + Elements(r)
  }

  /** The values stored in the tree, as a set. */
  function Values(t: Tree): set<int>
  {
    match t
    case Nil => {}
    case Node(v, _, l, r) => {v} + Values(l) + Values(r)
  }

  /** The search-tree order of lines 5-8: left values below the node's, right values at least the node's. */
  predicate Ordered(t: Tree)
  {
    match t
    case Nil => true
    case Node(v, _, l, r) =>
      (forall x | x in Values(l) :: x < v) && (forall x | x in Values(r) :: v <= x)
      && Ordered(l) && Ordered(r)
  }

  /** The top node has depth d and every child is one level deeper than its parent. */
  predicate DepthsFrom(t: Tree, d: int)
  {
    match t
    case Nil => true
    case Node(_, depth, l, r) => depth == d && DepthsFrom(l, d + 1) && DepthsFrom(r, d + 1)
  }

  /** `insert` (lines 119-129) on the shape: the value descends and becomes a new leaf. */
  function Inserted(t: Tree, x: int): (r: Tree)
    requires t.Node?
    ensures r.Node? && r.value == t.value && r.depth == t.depth
  {
    if x < t.value then
      Node(t.value, t.depth, if t.left.Nil? then Leaf(x, t.depth + 1) else Inserted(t.left, x), t.right)
    else
      Node(t.value, t.depth, t.left, if t.right.Nil? then Leaf(x, t.depth + 1) else Inserted(t.right, x))
  }

  /** The subtree a value goes into below t: a new leaf where the child is missing. */
  function Below(t: Tree, x: int, child: Tree): Tree
    requires t.Node?
  {
    if child.Nil? then Leaf(x, t.depth + 1) else Inserted(child, x)
  }

  /** Insertion adds exactly the one value. */
  lemma {:induction false} InsertedElements(t: Tree, x: int)
    requires t.Node?
    ensures Elements(Inserted(t, x)) == Elements(t) + multiset{x}
  {
    var e, el, er := Elements(Inserted(t, x)), Elements(t.left), Elements(t.right);
    assert Elements(t) == multiset{t.value} + el + er;
    if x < t.value {
      var l := Below(t, x, t.left);
      if t.left.Node? {
        InsertedElements(t.left, x);
      }
      assert Inserted(t, x) == Node(t.value, t.depth, l, t.right);
      assert e == multiset{t.value} + Elements(l) + er;
      AddInLeft(multiset{t.value}, el, er, Elements(l), multiset{x});
    } else {
      var r := Below(t, x, t.right);
      if t.right.Node? {
        InsertedElements(t.right, x);
      }
      assert Inserted(t, x) == Node(t.value, t.depth, t.left, r);
      assert e == multiset{t.value} + el + Elements(r);
      AddInRight(multiset{t.value}, el, er, Elements(r), multiset{x});
    }
  }

  lemma AddInLeft(a: multiset<int>, b: multiset<int>, c: multiset<int>, b1: multiset<int>, m: multiset<int>)
    requires b1 == b + m
    ensures a + b1 + c == a + b + c + m
  {
  }

  lemma AddInRight(a: multiset<int>, b: multiset<int>, c: multiset<int>, c1: multiset<int>, m: multiset<int>)
    requires c1 == c + m
    ensures a + b + c1 == a + b + c + m
  {
  }

  /** The set of stored values gains exactly x. */
  lemma {:induction false} InsertedValues(t: Tree, x: int)
    requires t.Node?
    ensures Values(Inserted(t, x)) == Values(t) + {x}
  {
    if x < t.value {
      if t.left.Node? {
        InsertedValues(t.left, x);
      }
      assert Inserted(t, x) == Node(t.value, t.depth, Below(t, x, t.left), t.right);
    } else {
      if t.right.Node? {
        InsertedValues(t.right, x);
      }
      assert Inserted(t, x) == Node(t.value, t.depth, t.left, Below(t, x, t.right));
    }
  }

  lemma OrderedJoin(v: int, d: int, l: Tree, r: Tree)
    requires Ordered(l) && Ordered(r)
    requires forall y | y in Values(l) :: y < v
    requires forall y | y in Values(r) :: v <= y
    ensures Ordered(Node(v, d, l, r))
  {
  }

  /** Insertion keeps the search-tree order (lines 95-97). */
  lemma {:induction false} InsertedOrdered(t: Tree, x: int)
    requires t.Node? && Ordered(t)
    ensures Ordered(Inserted(t, x))
  {
    if x < t.value {
      var l := Below(t, x, t.left);
      if t.left.Node? {
        InsertedOrdered(t.left, x);
        InsertedValues(t.left, x);
      }
      assert Values(l) == Values(t.left) + {x};
      OrderedJoin(t.value, t.depth, l, t.right);
      assert Inserted(t, x) == Node(t.value, t.depth, l, t.right);
    } else {
      var r := Below(t, x, t.right);
      if t.right.Node? {
        InsertedOrdered(t.right, x);
        InsertedValues(t.right, x);
      }
      assert Values(r) == Values(t.right) + {x};
      OrderedJoin(t.value, t.depth, t.left, r);
      assert Inserted(t, x) == Node(t.value, t.depth, t.left, r);
    }
  }

  /** Insertion keeps every depth field equal to the node's distance below the top. */
  lemma {:induction false} InsertedDepths(t: Tree, x: int, d: int)
    requires t.Node? && DepthsFrom(t, d)
    ensures DepthsFrom(Inserted(t, x), d)
  {
    if x < t.value {
      if t.left.Node? {
        InsertedDepths(t.left, x, d + 1);
      }
    } else {
      if t.right.Node? {
        InsertedDepths(t.right, x, d + 1);
      }
    }
  }

  /** A value equal to the node's goes right and leaves the left subtree alone (line 125). */
  lemma DuplicateGoesRight(t: Tree)
    requires t.Node?
    ensures Inserted(t, t.value).left == t.left
    ensures Elements(Inserted(t, t.value).right) == Elements(t.right) + multiset{t.value}
  {
    if t.right.Node? {
      InsertedElements(t.right, t.value);
    }
  }

  /** `get_node_by_value` (lines 158-169) on the shape: the first node met on the search path holding x. */
  function Lookup(t: Tree, x: int): (r: Option<Tree>)
    requires t.Node?
    ensures r.Some? ==> r.value.Node? && r.value.value == x
  {
    if x == t.value then Some(t)
    else if x < t.value && t.left.Node? then Lookup(t.left, x)
    else if x > t.value && t.right.Node? then Lookup(t.right, x)
    else None
  }

  /** The nodes of the tree, each as the subtree it heads. */
  function Subtrees(t: Tree): set<Tree>
  {
    match t
    case Nil => {}
    case Node(_, _, l, r) => {t} + Subtrees(l) + Subtrees(r)
  }

  lemma {:induction false} SubtreeFacts(t: Tree, n: Tree, d: int)
    requires n in Subtrees(t)
    ensures n.Node? && n.value in Values(t)
    ensures DepthsFrom(t, d) ==> d <= n.depth
  {
    if n != t {
      if n in Subtrees(t.left) {
        SubtreeFacts(t.left, n, d + 1);
      } else {
        SubtreeFacts(t.right, n, d + 1);
      }
    }
  }

  lemma {:induction false} LookupIsSubtree(t: Tree, x: int)
    requires t.Node? && Lookup(t, x).Some?
    ensures Lookup(t, x).value in Subtrees(t)
  {
    if x != t.value {
      if x < t.value {
        LookupIsSubtree(t.left, x);
      } else {
        LookupIsSubtree(t.right, x);
      }
    }
  }

  /** In an ordered tree the search finds x exactly when x is stored. */
  lemma {:induction false} LookupFindsStored(t: Tree, x: int)
    requires t.Node? && Ordered(t)
    ensures Lookup(t, x).Some? <==> x in Values(t)
  {
    if Lookup(t, x).Some? {
      LookupIsSubtree(t, x);
      SubtreeFacts(t, Lookup(t, x).value, 0);
    } else if x < t.value && t.left.Node? {
      LookupFindsStored(t.left, x);
    } else if x > t.value && t.right.Node? {
      LookupFindsStored(t.right, x);
    }
  }

  /**
   * With duplicates the search returns the copy closest to the top: no node holding x is
   * shallower than the one found.
   */
  lemma {:induction false} LookupShallowest(t: Tree, x: int, d: int)
    requires t.Node? && Ordered(t) && DepthsFrom(t, d) && Lookup(t, x).Some?
    ensures forall n | n in Subtrees(t) && n.Node? && n.value == x :: Lookup(t, x).value.depth <= n.depth
  {
    if x == t.value {
      forall n | n in Subtrees(t) && n.Node? && n.value == x
        ensures t.depth <= n.depth
      {
        SubtreeFacts(t, n, d);
      }
    } else if x < t.value {
      LookupShallowest(t.left, x, d + 1);
      forall n | n in Subtrees(t.right)
        ensures n.Node? && n.value != x
      {
        SubtreeFacts(t.right, n, d + 1);
      }
    } else {
      LookupShallowest(t.right, x, d + 1);
      forall n | n in Subtrees(t.left)
        ensures n.Node? && n.value != x
      {
        SubtreeFacts(t.left, n, d + 1);
      }
    }
  }

  /** What each node prints, with repetitions. */
  function Visits(t: Tree): multiset<Visit>
  {
    match t
    case Nil => multiset{}
    case Node(v, d, l, r) => multiset{Visit(d, v)} + Visits(l) + Visits(r)
  }

  /** Lines 193-201: the node, then its left subtree, then its right subtree. */
  function Preorder(t: Tree): seq<Visit>
  {
    match t
    case Nil => []
    case Node(v, d, l, r) => [Visit(d, v)] + Preorder(l) + Preorder(r)
  }

  /** Lines 228-236: the left subtree, then the node, then the right subtree. */
  function Inorder(t: Tree): seq<Visit>
  {
    match t
    case Nil => []
    case Node(v, d, l, r) => Inorder(l) + [Visit(d, v)] + Inorder(r)
  }

  /** Lines 263-271: both subtrees, then the node. */
  function Postorder(t: Tree): seq<Visit>
  {
    match t
    case Nil => []
    case Node(v, d, l, r) => Postorder(l) + Postorder(r) + [Visit(d, v)]
  }

  /** Each depth-first traversal prints every node exactly once. */
  lemma {:induction false} PreorderVisitsAll(t: Tree)
    ensures multiset(Preorder(t)) == Visits(t)
  {
    if t.Node? {
      PreorderVisitsAll(t.left);
      PreorderVisitsAll(t.right);
    }
  }

  lemma {:induction false} InorderVisitsAll(t: Tree)
    ensures multiset(Inorder(t)) == Visits(t)
  {
    if t.Node? {
      InorderVisitsAll(t.left);
      InorderVisitsAll(t.right);
    }
  }

  lemma {:induction false} PostorderVisitsAll(t: Tree)
    ensures multiset(Postorder(t)) == Visits(t)
  {
    if t.Node? {
      PostorderVisitsAll(t.left);
      PostorderVisitsAll(t.right);
    }
  }

  /** A tree of n nodes prints n lines. */
  lemma {:induction false} VisitsSize(t: Tree)
    ensures |Visits(t)| == Size(t)
  {
    if t.Node? {
      VisitsSize(t.left);
      VisitsSize(t.right);
    }
  }

  lemma {:induction false} VisitValues(t: Tree, w: Visit)
    requires w in Visits(t)
    ensures w.value in Values(t)
  {
    if w != Visit(t.depth, t.value) {
      if w in Visits(t.left) {
        VisitValues(t.left, w);
      } else {
        VisitValues(t.right, w);
      }
    }
  }

  predicate SortedByValue(s: seq<Visit>)
  {
    forall i, j | 0 <= i < j < |s| :: s[i].value <= s[j].value
  }

  lemma SortedAround(a: seq<Visit>, w: Visit, b: seq<Visit>)
    requires SortedByValue(a) && SortedByValue(b)
    requires forall u | u in a :: u.value <= w.value
    requires forall u | u in b :: w.value <= u.value
    ensures SortedByValue(a + [w] + b)
  {
    var s := a + [w] + b;
    forall i, j | 0 <= i < j < |s|
      ensures s[i].value <= s[j].value
    {
      if j < |a| {
      } else if i > |a| {
        assert s[i] == b[i - |a| - 1] && s[j] == b[j - |a| - 1];
      } else if i == |a| {
        assert s[j] in b;
      } else if j == |a| {
        assert s[i] in a;
      } else {
        assert s[i] in a && s[j] in b;
      }
    }
  }

  /** In an ordered tree the in-order traversal prints the values in ascending order (lines 203-236). */
  lemma {:induction false} InorderSorted(t: Tree)
    requires Ordered(t)
    ensures SortedByValue(Inorder(t))
  {
    if t.Node? {
      InorderSorted(t.left);
      InorderSorted(t.right);
      InorderVisitsAll(t.left);
      InorderVisitsAll(t.right);
      forall u | u in Inorder(t.left)
        ensures u.value <= t.value
      {
        assert u in multiset(Inorder(t.left));
        VisitValues(t.left, u);
      }
      forall u | u in Inorder(t.right)
        ensures t.value <= u.value
      {
        assert u in multiset(Inorder(t.right));
        VisitValues(t.right, u);
      }
      SortedAround(Inorder(t.left), Visit(t.depth, t.value), Inorder(t.right));
    }
  }

  /** The children the level-order loop enqueues after a node (lines 314-319). */
  function Children(t: Tree): seq<Tree>
  {
    if t.Nil? then []
    else (if t.left.Node? then [t.left] else []) + (if t.right.Node? then [t.right] else [])
  }

  /** The nodes still to be printed below the queued ones. */
  function Weight(q: seq<Tree>): nat
  {
    if q == [] then 0 else Size(q[0]) + Weight(q[1..])
  }

  lemma {:induction false} WeightAppend(a: seq<Tree>, b: seq<Tree>)
    ensures Weight(a + b) == Weight(a) + Weight(b)
  {
    if a != [] {
      assert a + b != [] && (a + b)[0] == a[0] && (a + b)[1..] == a[1..] + b;
      WeightAppend(a[1..], b);
    } else {
      assert a + b == b;
    }
  }

  lemma ChildrenWeight(t: Tree)
    ensures t.Node? ==> Weight(Children(t)) + 1 == Size(t)
  {
    if t.Node? {
      var l := if t.left.Node? then [t.left] else [];
      var r := if t.right.Node? then [t.right] else [];
      WeightAppend(l, r);
      assert Weight(l) == Size(t.left) by {
        if t.left.Node? {
          assert l[1..] == [];
        }
      }
      assert Weight(r) == Size(t.right) by {
        if t.right.Node? {
          assert r[1..] == [];
        }
      }
    }
  }

  /** The level-order loop (lines 304-319) run from the queue q: the visits it prints. */
  function LevelOrderFrom(q: seq<Tree>): seq<Visit>
    decreases Weight(q), |q|
  {
    if q == [] then []
    else if q[0].Nil? then LevelOrderFrom(q[1..])
    else
      WeightAppend(q[1..], Children(q[0]));
      ChildrenWeight(q[0]);
      [Visit(q[0].depth, q[0].value)] + LevelOrderFrom(q[1..] + Children(q[0]))
  }

  function LevelOrder(t: Tree): seq<Visit>
  {
    LevelOrderFrom([t])
  }

  /** The visits of every tree queued, with repetitions. */
  function QueuedVisits(q: seq<Tree>): multiset<Visit>
  {
    if q == [] then multiset{} else Visits(q[0]) + QueuedVisits(q[1..])
  }

  lemma {:induction false} QueuedVisitsAppend(a: seq<Tree>, b: seq<Tree>)
    ensures QueuedVisits(a + b) == QueuedVisits(a) + QueuedVisits(b)
  {
    if a != [] {
      assert a + b != [] && (a + b)[0] == a[0] && (a + b)[1..] == a[1..] + b;
      QueuedVisitsAppend(a[1..], b);
    } else {
      assert a + b == b;
    }
  }

  lemma ChildrenVisits(t: Tree)
    requires t.Node?
    ensures QueuedVisits(Children(t)) == Visits(t.left) + Visits(t.right)
  {
    var l := if t.left.Node? then [t.left] else [];
    var r := if t.right.Node? then [t.right] else [];
    QueuedVisitsAppend(l, r);
    assert QueuedVisits(l) == Visits(t.left) by {
      if t.left.Node? {
        assert l[1..] == [];
      }
    }
    assert QueuedVisits(r) == Visits(t.right) by {
      if t.right.Node? {
        assert r[1..] == [];
      }
    }
  }

  lemma {:induction false} LevelOrderFromVisitsAll(q: seq<Tree>)
    ensures multiset(LevelOrderFrom(q)) == QueuedVisits(q)
    decreases Weight(q), |q|
  {
    if q != [] {
      if q[0].Nil? {
        LevelOrderFromVisitsAll(q[1..]);
      } else {
        var next := q[1..] + Children(q[0]);
        WeightAppend(q[1..], Children(q[0]));
        ChildrenWeight(q[0]);
        LevelOrderFromVisitsAll(next);
        QueuedVisitsAppend(q[1..], Children(q[0]));
        ChildrenVisits(q[0]);
        assert LevelOrderFrom(q) == [Visit(q[0].depth, q[0].value)] + LevelOrderFrom(next);
      }
    }
  }

  /** Level order prints every node exactly once. */
  lemma LevelOrderVisitsAll(t: Tree)
    ensures multiset(LevelOrder(t)) == Visits(t)
  {
    LevelOrderFromVisitsAll([t]);
    assert [t][1..] == [];
  }

  /** The values of the visits, in order: what level order prints. */
  function ValuesOf(s: seq<Visit>): (r: seq<int>)
    ensures |r| == |s| && forall i | 0 <= i < |s| :: r[i] == s[i].value
  {
    if s == [] then [] else [s[0].value] + ValuesOf(s[1..])
  }

  lemma ValuesOfCons(w: Visit, s: seq<Visit>)
    ensures ValuesOf([w] + s) == [w.value] + ValuesOf(s)
  {
    assert ([w] + s)[1..] == s;
  }

  predicate DepthSorted(s: seq<Visit>)
  {
    forall i, j | 0 <= i < j < |s| :: s[i].depth <= s[j].depth
  }

  /**
   * The shape of the queue during level order: nodes with consistent depths, in order of
   * depth, spanning at most two neighbouring levels.
   */
  predicate Window(q: seq<Tree>)
  {
    (forall i | 0 <= i < |q| :: q[i].Node? && DepthsFrom(q[i], q[i].depth))
    && (forall i, j | 0 <= i < j < |q| :: q[i].depth <= q[j].depth)
    && (forall i | 0 <= i < |q| :: q[i].depth <= q[0].depth + 1)
  }

  lemma ChildrenDepths(t: Tree)
    requires t.Node? && DepthsFrom(t, t.depth)
    ensures forall c | c in Children(t) :: c.Node? && c.depth == t.depth + 1 && DepthsFrom(c, c.depth)
  {
  }

  lemma WindowStep(q: seq<Tree>)
    requires q != [] && Window(q)
    ensures Window(q[1..] + Children(q[0]))
    ensures q[1..] + Children(q[0]) != [] ==> q[0].depth <= (q[1..] + Children(q[0]))[0].depth
  {
    var c := Children(q[0]);
    var n := q[1..] + c;
    ChildrenDepths(q[0]);
    forall i | 0 <= i < |n|
      ensures n[i].Node? && DepthsFrom(n[i], n[i].depth)
      ensures q[0].depth <= n[i].depth <= q[0].depth + 1
    {
      if i < |q| - 1 {
        assert n[i] == q[i + 1];
      } else {
        assert n[i] in c;
      }
    }
    forall i, j | 0 <= i < j < |n|
      ensures n[i].depth <= n[j].depth
    {
      if j < |q| - 1 {
        assert n[i] == q[i + 1] && n[j] == q[j + 1];
      } else if i >= |q| - 1 {
        assert n[i] in c && n[j] in c;
      } else {
        assert n[j] in c;
      }
    }
    if n != [] && |q| == 1 {
      assert n == c;
    }
  }

  lemma LevelOrderFromHead(q: seq<Tree>)
    requires q != [] && q[0].Node?
    ensures LevelOrderFrom(q) != [] && LevelOrderFrom(q)[0] == Visit(q[0].depth, q[0].value)
  {
  }

  /** From a queue in this shape, level order prints nodes in order of depth. */
  lemma {:induction false} LevelOrderFromByDepth(q: seq<Tree>)
    requires Window(q)
    ensures DepthSorted(LevelOrderFrom(q))
    decreases Weight(q), |q|
  {
    if q != [] {
      var n := q[1..] + Children(q[0]);
      WeightAppend(q[1..], Children(q[0]));
      ChildrenWeight(q[0]);
      WindowStep(q);
      LevelOrderFromByDepth(n);
      var rest := LevelOrderFrom(n);
      var w := Visit(q[0].depth, q[0].value);
      assert LevelOrderFrom(q) == [w] + rest;
      if n != [] {
        LevelOrderFromHead(n);
      }
      forall i, j | 0 <= i < j < |[w] + rest|
        ensures ([w] + rest)[i].depth <= ([w] + rest)[j].depth
      {
        if i == 0 && j > 1 {
          assert rest[0].depth <= rest[j - 1].depth;
        }
      }
    }
  }

  /** Level order (lines 274-319) prints the levels top down: depths never decrease. */
  lemma LevelOrderByDepth(t: Tree)
    requires t.Node? && DepthsFrom(t, t.depth)
    ensures DepthSorted(LevelOrder(t))
  {
    LevelOrderFromByDepth([t]);
  }

  /** A node object; a null link is a missing child (None). Repr is the set of objects below it, Model their shape. */
  class BinarySearchTree {
    var value: int
    var depth: int
    var left: BinarySearchTree?
    var right: BinarySearchTree?

    ghost var Repr: set<object>
    ghost var Model: Tree

    ghost predicate Valid()
      reads this, Repr
      decreases Repr
    {
      this in Repr
      && (left != null ==>
            left in Repr && left.Repr <= Repr && this !in left.Repr && left.Valid())
      && (right != null ==>
            right in Repr && right.Repr <= Repr && this !in right.Repr && right.Valid())
      && (left != null && right != null ==> left.Repr !! right.Repr)
      && Model == Node(value, depth, ShapeOf(left), ShapeOf(right))
    }

    /** Lines 73-87: a node with the given value and depth and no children. */
    constructor (value: int, depth: int)
      ensures Valid() && fresh(Repr)
      ensures Model == Leaf(value, depth)
    {
      this.value := value;
      this.depth := depth;
      left := null;
      right := null;
      Repr := {this};
      Model := Leaf(value, depth);
    }

    /** Lines 119-129: hang x as a new leaf, one level below the last node passed. */
    method Insert(x: int)
      requires Valid()
      modifies Repr
      ensures Valid() && fresh(Repr - old(Repr))
      ensures Model == Inserted(old(Model), x)
      decreases Repr
    {
      if x < value {
        if left == null {
          left := new BinarySearchTree(x, depth + 1);
        } else {
          left.Insert(x);
        }
        Repr := Repr + left.Repr;
      } else {
        if right == null {
          right := new BinarySearchTree(x, depth + 1);
        } else {
          right.Insert(x);
        }
        Repr := Repr + right.Repr;
      }
      Model := Node(value, depth, ShapeOf(left), ShapeOf(right));
    }

    /** Lines 158-169: the node whose shape the search on the model finds, or None. */
    method GetNodeByValue(x: int) returns (r: BinarySearchTree?)
      requires Valid()
      ensures r == null <==> Lookup(Model, x).None?
      ensures r != null ==> r in Repr && r.Valid() && Lookup(Model, x) == Some(r.Model)
      decreases Repr
    {
      if x == value {
        r := this;
      } else if x < value && left != null {
        r := left.GetNodeByValue(x);
      } else if x > value && right != null {
        r := right.GetNodeByValue(x);
      } else {
        r := null;
      }
    }

    /** Lines 193-201, the printed lines in order. */
    method TraversePreorder() returns (visits: seq<Visit>)
      requires Valid()
      ensures visits == Preorder(Model)
      decreases Repr
    {
      visits := [Visit(depth, value)];
      if left != null {
        var below := left.TraversePreorder();
        visits := visits + below;
      }
      if right != null {
        var below := right.TraversePreorder();
        visits := visits + below;
      }
    }

    /** Lines 228-236. */
    method TraverseInorder() returns (visits: seq<Visit>)
      requires Valid()
      ensures visits == Inorder(Model)
      decreases Repr
    {
      visits := [];
      if left != null {
        visits := left.TraverseInorder();
      }
      visits := visits + [Visit(depth, value)];
      if right != null {
        var below := right.TraverseInorder();
        visits := visits + below;
      }
    }

    /** Lines 263-271. */
    method TraversePostorder() returns (visits: seq<Visit>)
      requires Valid()
      ensures visits == Postorder(Model)
      decreases Repr
    {
      visits := [];
      if left != null {
        visits := left.TraversePostorder();
      }
      if right != null {
        var below := right.TraversePostorder();
        visits := visits + below;
      }
      visits := visits + [Visit(depth, value)];
    }

    /** The children a level-order step enqueues after this node (lines 314-319). */
    method ChildNodes() returns (kids: seq<BinarySearchTree>)
      requires Valid()
      ensures |kids| == |Children(Model)|
      ensures forall i | 0 <= i < |kids| :: kids[i].Valid() && kids[i].Model == Children(Model)[i]
    {
      kids := [];
      if left != null {
        kids := kids + [left];
      }
      if right != null {
        kids := kids + [right];
      }
    }

    /** Lines 304-319: the queue loop; it prints values only. */
    method TraverseLevelorder() returns (values: seq<int>)
      requires Valid()
      ensures values == ValuesOf(LevelOrder(Model))
    {
      var queue: seq<BinarySearchTree> := [this];
      ghost var shapes: seq<Tree> := [Model];
      values := [];
      while queue != []
        invariant |queue| == |shapes|
        invariant forall i | 0 <= i < |queue| :: queue[i].Valid() && queue[i].Model == shapes[i]
        invariant values + ValuesOf(LevelOrderFrom(shapes)) == ValuesOf(LevelOrder(Model))
        decreases Weight(shapes), |shapes|
      {
        var value;
        queue, value := LevelOrderStep(queue, shapes);
        ghost var visit := Visit(shapes[0].depth, value);
        ghost var next := shapes[1..] + Children(shapes[0]);
        assert LevelOrderFrom(shapes) == [visit] + LevelOrderFrom(next);
        ValuesOfCons(visit, LevelOrderFrom(next));
        WeightAppend(shapes[1..], Children(shapes[0]));
        ChildrenWeight(shapes[0]);
        values := values + [value];
        shapes := next;
      }
    }

    /** One turn of the loop at lines 307-319: take the front node, print it, queue its children. */
    static method LevelOrderStep(queue: seq<BinarySearchTree>, ghost shapes: seq<Tree>)
      returns (rest: seq<BinarySearchTree>, value: int)
      requires queue != [] && |queue| == |shapes|
      requires forall i | 0 <= i < |queue| :: queue[i].Valid() && queue[i].Model == shapes[i]
      ensures shapes[0].Node? && value == shapes[0].value
      ensures |rest| == |shapes[1..] + Children(shapes[0])|
      ensures forall i | 0 <= i < |rest| ::
        rest[i].Valid() && rest[i].Model == (shapes[1..] + Children(shapes[0]))[i]
    {
      var current := queue[0];
      value := current.value;
      var kids := current.ChildNodes();
      QueueStep(queue, shapes, kids, Children(shapes[0]));
      rest := queue[1..] + kids;
    }
  }

  /** Dropping the head of the queue and appending nodes keeps each queued node matched with its shape. */
  lemma QueueStep(queue: seq<BinarySearchTree>, shapes: seq<Tree>, kids: seq<BinarySearchTree>, more: seq<Tree>)
    requires queue != [] && |queue| == |shapes| && |kids| == |more|
    requires forall i | 0 <= i < |queue| :: queue[i].Valid() && queue[i].Model == shapes[i]
    requires forall i | 0 <= i < |kids| :: kids[i].Valid() && kids[i].Model == more[i]
    ensures |queue[1..] + kids| == |shapes[1..] + more|
    ensures forall i | 0 <= i < |queue[1..] + kids| ::
      (queue[1..] + kids)[i].Valid() && (queue[1..] + kids)[i].Model == (shapes[1..] + more)[i]
  {
    var q, s := queue[1..] + kids, shapes[1..] + more;
    forall i | 0 <= i < |q|
      ensures q[i].Valid() && q[i].Model == s[i]
    {
      if i < |queue| - 1 {
        assert q[i] == queue[i + 1] && s[i] == shapes[i + 1];
      } else {
        assert q[i] == kids[i - |queue| + 1] && s[i] == more[i - |queue| + 1];
      }
    }
  }

  ghost function ShapeOf(n: BinarySearchTree?): Tree
    reads n
  {
    if n == null then Nil else n.Model
  }

  /** Builds the tree of the tests: root 10, then 5, 15, 3 and 7 inserted in turn. */
  function Example(): Tree
  {
    Inserted(Inserted(Inserted(Inserted(Leaf(10, 0), 5), 15), 3), 7)
  }

  /** The printed orders the tests expect for that tree. */
  lemma TraversalExample()
    ensures Preorder(Example()) == [Visit(0, 10), Visit(1, 5), Visit(2, 3), Visit(2, 7), Visit(1, 15)]
    ensures Inorder(Example()) == [Visit(2, 3), Visit(1, 5), Visit(2, 7), Visit(0, 10), Visit(1, 15)]
    ensures Postorder(Example()) == [Visit(2, 3), Visit(2, 7), Visit(1, 5), Visit(1, 15), Visit(0, 10)]
  {
    assert Example() == Node(10, 0, Node(5, 1, Leaf(3, 2), Leaf(7, 2)), Leaf(15, 1));
  }
}
