/**
 * python/search/graph/graph_breadth_first_search.py: breadth-first search over a graph's adjacency
 * snapshot. The frontier holds (vertex, path to it) pairs; a vertex is skipped when it comes
 * off the frontier already visited, and the target is returned as soon as it is met as an
 * unvisited neighbour. The returned path has the fewest vertices of all paths to the target.
 */
module GraphBreadthFirstSearch {
  import opened Wrappers
  import opened Graph

  /** A frontier entry: a vertex and the path by which it was reached. */
  type Entry = (int, seq<int>)

  predicate IsPathBetween(adj: Adjacency, p: seq<int>, s: int, t: int)
  {
    IsPath(adj, p) && p[0] == s && p[|p| - 1] == t
  }

  /** No path from `s` to `v` has fewer than `n` vertices. */
  ghost predicate Shortest(adj: Adjacency, s: int, v: int, n: nat)
  {
    forall q | IsPathBetween(adj, q, s, v) :: n <= |q|
  }

  /** Each entry's path leads from `s` to the entry's vertex. */
  predicate Entries(adj: Adjacency, s: int, q: seq<Entry>)
  {
    forall k | 0 <= k < |q| :: IsPathBetween(adj, q[k].1, s, q[k].0)
  }

  /** Path lengths along the frontier never decrease and span at most two consecutive values. */
  predicate Levels(q: seq<Entry>)
  {
    forall i, j | 0 <= i < j < |q| :: |q[i].1| <= |q[j].1| <= |q[i].1| + 1
  }

  /** `t` waits on the frontier with a path of at most `n` vertices. */
  predicate InQueue(q: seq<Entry>, t: int, n: nat)
  {
    exists k | 0 <= k < |q| :: q[k].0 == t && |q[k].1| <= n
  }

  /** Every edge out of a vertex of `done` leads to a visited vertex or to one on the frontier one level further. */
  predicate Expanded(adj: Adjacency, done: set<int>, visited: set<int>, level: map<int, nat>, q: seq<Entry>)
    requires done <= level.Keys
  {
    forall u, t | u in done && u in adj && t in Targets(adj[u]) :: t in visited || InQueue(q, t, level[u] + 1)
  }

  /** The loop invariant: `level` records each visited vertex's (shortest) path length. */
  ghost predicate Searching(adj: Adjacency, s: int, target: int, q: seq<Entry>, visited: set<int>, level: map<int, nat>)
  {
    Entries(adj, s, q) && Levels(q) &&
    (forall k | 0 <= k < |q| :: q[k].0 != target) && target !in visited &&
    visited <= adj.Keys && visited == level.Keys &&
    (forall u | u in visited :: Shortest(adj, s, u, level[u])) &&
    Expanded(adj, visited, visited, level, q) &&
    (s in visited || (visited == {} && q == [(s, [s])]))
  }

  /** A path from inside `vs` to outside it leaves `vs` at some step `j`. */
  lemma {:induction false} FirstOutside(q: seq<int>, vs: set<int>) returns (j: nat)
    requires q != [] && q[0] in vs && q[|q| - 1] !in vs
    ensures 0 < j < |q| && q[j - 1] in vs && q[j] !in vs
    decreases |q|
  {
    if q[|q| - 2] in vs {
      j := |q| - 1;
    } else {
      j := FirstOutside(q[..|q| - 1], vs);
    }
  }

  /** The path prefix ending at `q[j - 1]` bounds that vertex's recorded level. */
  lemma PrefixBound(adj: Adjacency, s: int, q: seq<int>, j: nat, level: map<int, nat>)
    requires IsPath(adj, q) && q[0] == s && 0 < j <= |q|
    requires q[j - 1] in level && Shortest(adj, s, q[j - 1], level[q[j - 1]])
    ensures level[q[j - 1]] <= j
  {
    PathPrefix(adj, q, j);
    assert IsPathBetween(adj, q[..j], s, q[j - 1]);
  }

  /** Dropping a front entry whose vertex is visited keeps the invariant. */
  lemma SkipKeeps(adj: Adjacency, s: int, target: int, q: seq<Entry>, visited: set<int>, level: map<int, nat>)
    requires q != [] && q[0].0 in visited && Searching(adj, s, target, q, visited, level)
    ensures Searching(adj, s, target, q[1..], visited, level)
  {
    forall u, t | u in visited && u in adj && t in Targets(adj[u])
      ensures t in visited || InQueue(q[1..], t, level[u] + 1)
    {
      if t !in visited {
        var k :| 0 <= k < |q| && q[k].0 == t && |q[k].1| <= level[u] + 1;
        assert q[1..][k - 1] == q[k];
      }
    }
    assert Levels(q[1..]) by {
      forall i, j | 0 <= i < j < |q[1..]|
        ensures |q[1..][i].1| <= |q[1..][j].1| <= |q[1..][i].1| + 1
      {
        assert q[1..][i] == q[i + 1] && q[1..][j] == q[j + 1];
      }
    }
  }

  /** An unvisited vertex at the front of the frontier is reached by a shortest path. */
  lemma FrontShortest(adj: Adjacency, s: int, target: int, q: seq<Entry>, visited: set<int>, level: map<int, nat>)
    requires q != [] && q[0].0 !in visited && Searching(adj, s, target, q, visited, level)
    ensures Shortest(adj, s, q[0].0, |q[0].1|)
  {
    forall p | IsPathBetween(adj, p, s, q[0].0)
      ensures |q[0].1| <= |p|
    {
      if s in visited {
        FrontBelow(adj, s, q, visited, level, p);
      }
    }
  }

  /** A path to the front vertex leaves the visited set at an edge the frontier answers for. */
  lemma FrontBelow(adj: Adjacency, s: int, q: seq<Entry>, visited: set<int>, level: map<int, nat>, p: seq<int>)
    requires q != [] && Levels(q) && q[0].0 !in visited && s in visited && visited == level.Keys
    requires IsPathBetween(adj, p, s, q[0].0)
    requires forall u | u in visited :: Shortest(adj, s, u, level[u])
    requires Expanded(adj, visited, visited, level, q)
    ensures |q[0].1| <= |p|
  {
    var j := FirstOutside(p, visited);
    PrefixBound(adj, s, p, j, level);
    assert p[j - 1] in adj && p[j] in Targets(adj[p[j - 1]]);
    var k :| 0 <= k < |q| && q[k].0 == p[j] && |q[k].1| <= level[p[j - 1]] + 1;
    assert k == 0 || |q[0].1| <= |q[k].1|;
  }

  /** The front entry and the rest of the frontier meet what one expansion needs. */
  lemma FrontReady(adj: Adjacency, s: int, target: int, q: seq<Entry>, visited: set<int>, level: map<int, nat>)
    requires q != [] && Searching(adj, s, target, q, visited, level)
    ensures IsPathBetween(adj, q[0].1, s, q[0].0)
    ensures Entries(adj, s, q[1..]) && Levels(q[1..]) && target !in visited + {q[0].0}
    ensures forall k | 0 <= k < |q[1..]| :: q[1..][k].0 != target && |q[0].1| <= |q[1..][k].1| <= |q[0].1| + 1
  {
    forall k | 0 <= k < |q[1..]|
      ensures IsPathBetween(adj, q[1..][k].1, s, q[1..][k].0)
      ensures q[1..][k].0 != target && |q[0].1| <= |q[1..][k].1| <= |q[0].1| + 1
    {
      assert q[1..][k] == q[k + 1];
    }
    assert Levels(q[1..]) by {
      forall i, j | 0 <= i < j < |q[1..]|
        ensures |q[1..][i].1| <= |q[1..][j].1| <= |q[1..][i].1| + 1
      {
        assert q[1..][i] == q[i + 1] && q[1..][j] == q[j + 1];
      }
    }
  }

  /** Visiting the front vertex: it joins `visited` at its (shortest) level, and the rest of the frontier still answers for the older vertices. */
  lemma VisitKeeps(adj: Adjacency, s: int, target: int, q: seq<Entry>, visited: set<int>, level: map<int, nat>)
    requires q != [] && q[0].0 !in visited && q[0].0 in adj && Searching(adj, s, target, q, visited, level)
    ensures var c := q[0].0;
      var visited', level' := visited + {c}, level[c := |q[0].1|];
      Entries(adj, s, q[1..]) && (forall k | 0 <= k < |q| - 1 :: q[1..][k].0 != target) &&
      target !in visited' && visited' <= adj.Keys && visited' == level'.Keys && s in visited' &&
      (forall u | u in visited' :: Shortest(adj, s, u, level'[u])) &&
      Expanded(adj, visited, visited', level', q[1..]) &&
      (forall k | 0 <= k < |q| - 1 :: |q[0].1| <= |q[1..][k].1| <= |q[0].1| + 1)
  {
    var c := q[0].0;
    var visited', level' := visited + {c}, level[c := |q[0].1|];
    FrontShortest(adj, s, target, q, visited, level);
    forall u, t | u in visited && u in adj && t in Targets(adj[u])
      ensures t in visited' || InQueue(q[1..], t, level'[u] + 1)
    {
      if t !in visited' {
        var k :| 0 <= k < |q| && q[k].0 == t && |q[k].1| <= level[u] + 1;
        assert q[1..][k - 1] == q[k];
      }
    }
    forall k | 0 <= k < |q| - 1
      ensures |q[0].1| <= |q[1..][k].1| <= |q[0].1| + 1
    {
      assert q[1..][k] == q[k + 1];
    }
  }

  /** A target met as a neighbour of the vertex being expanded is met by a shortest path. */
  lemma FoundShortest(adj: Adjacency, s: int, target: int, q: seq<Entry>, visited: set<int>, visited': set<int>,
                      level': map<int, nat>, c: int)
    requires visited' == visited + {c} && visited' == level'.Keys && s in visited' && target !in visited'
    requires forall u | u in visited' :: Shortest(adj, s, u, level'[u])
    requires Expanded(adj, visited, visited', level', q)
    requires forall k | 0 <= k < |q| :: q[k].0 != target && level'[c] <= |q[k].1|
    ensures Shortest(adj, s, target, level'[c] + 1)
  {
    forall p | IsPathBetween(adj, p, s, target)
      ensures level'[c] + 1 <= |p|
    {
      var j := FirstOutside(p, visited');
      PrefixBound(adj, s, p, j, level');
      if p[j - 1] != c {
        assert p[j - 1] in adj && p[j] in Targets(adj[p[j - 1]]);
        var k :| 0 <= k < |q| && q[k].0 == p[j] && |q[k].1| <= level'[p[j - 1]] + 1;
        assert j < |p| - 1;
      }
    }
  }

  /** Once the new vertex's targets are all on the frontier, every visited vertex is expanded again. */
  lemma ExpandKeeps(adj: Adjacency, visited: set<int>, c: int, level': map<int, nat>, q0: seq<Entry>, q: seq<Entry>)
    requires visited + {c} == level'.Keys && c in adj
    requires Expanded(adj, visited, visited + {c}, level', q0)
    requires |q0| <= |q| && q[..|q0|] == q0
    requires forall t | t in Targets(adj[c]) :: t in visited + {c} || InQueue(q, t, level'[c] + 1)
    ensures Expanded(adj, visited + {c}, visited + {c}, level', q)
  {
    forall u, t | u in visited && u in adj && t in Targets(adj[u]) && t !in visited + {c}
      ensures InQueue(q, t, level'[u] + 1)
    {
      var k :| 0 <= k < |q0| && q0[k].0 == t && |q0[k].1| <= level'[u] + 1;
      assert q[k] == q0[k];
    }
  }

  /** Visiting the front vertex and queueing its unvisited targets restores the loop invariant. */
  lemma AfterExpand(adj: Adjacency, s: int, target: int, q: seq<Entry>, visited: set<int>, level: map<int, nat>,
                    q': seq<Entry>)
    requires q != [] && q[0].0 !in visited && q[0].0 in adj && Searching(adj, s, target, q, visited, level)
    requires Entries(adj, s, q') && Levels(q') && |q| - 1 <= |q'| && q'[..|q| - 1] == q[1..]
    requires forall k | 0 <= k < |q'| :: q'[k].0 != target
    requires forall t | t in Targets(adj[q[0].0]) :: t in visited + {q[0].0} || InQueue(q', t, |q[0].1| + 1)
    ensures Searching(adj, s, target, q', visited + {q[0].0}, level[q[0].0 := |q[0].1|])
  {
    VisitKeeps(adj, s, target, q, visited, level);
    ExpandKeeps(adj, visited, q[0].0, level[q[0].0 := |q[0].1|], q[1..], q');
  }

  /** The target met among the front vertex's targets is met by a shortest path. */
  lemma FoundFromFront(adj: Adjacency, s: int, target: int, q: seq<Entry>, visited: set<int>, level: map<int, nat>)
    requires q != [] && q[0].0 !in visited && q[0].0 in adj && Searching(adj, s, target, q, visited, level)
    ensures Shortest(adj, s, target, |q[0].1| + 1)
  {
    VisitKeeps(adj, s, target, q, visited, level);
    var c := q[0].0;
    FoundShortest(adj, s, target, q[1..], visited, visited + {c}, level[c := |q[0].1|], c);
  }

  /** Every vertex on the frontier is a key of the graph. */
  predicate InGraph(adj: Adjacency, q: seq<Entry>)
  {
    forall k | 0 <= k < |q| :: q[k].0 in adj
  }

  lemma InGraphTail(adj: Adjacency, q: seq<Entry>)
    requires q != []
    ensures InGraph(adj, q) ==> InGraph(adj, q[1..])
  {
    if InGraph(adj, q) {
      forall k | 0 <= k < |q| - 1
        ensures q[1..][k].0 in adj
      {
        assert q[1..][k] == q[k + 1];
      }
    }
  }

  /** With no dangling edge, the targets queued by an expansion are keys of the graph. */
  lemma InGraphExpand(adj: Adjacency, q: seq<Entry>, q': seq<Entry>, c: int)
    requires q != [] && |q| - 1 <= |q'| && q'[..|q| - 1] == q[1..] && c in adj
    requires forall k | |q| - 1 <= k < |q'| :: q'[k].0 in Targets(adj[c])
    ensures Closed(adj) && InGraph(adj, q) ==> InGraph(adj, q')
  {
    if Closed(adj) && InGraph(adj, q) {
      forall k | 0 <= k < |q'|
        ensures q'[k].0 in adj
      {
        if k < |q| - 1 {
          assert q'[k] == q'[..|q| - 1][k] == q[k + 1];
        }
      }
    }
  }

  /** An empty frontier leaves the target unreachable. */
  lemma Exhausted(adj: Adjacency, s: int, target: int, visited: set<int>, level: map<int, nat>)
    requires Searching(adj, s, target, [], visited, level)
    ensures !Reachable(adj, s, target)
  {
    Unreachable(adj, s, visited, target);
  }

  /** The frontier during the neighbour loop: the old frontier followed by entries for targets of the expanded vertex, all on two levels. */
  predicate Shape(adj: Adjacency, s: int, target: int, q0: seq<Entry>, q: seq<Entry>, level: nat, ts: seq<int>)
  {
    Entries(adj, s, q) && Levels(q) && |q0| <= |q| && q[..|q0|] == q0 &&
    (forall k | 0 <= k < |q| :: q[k].0 != target && level <= |q[k].1| <= level + 1) &&
    (forall k | |q0| <= k < |q| :: q[k].0 in ts)
  }

  /** The first `i` targets are visited or wait on the frontier one level deeper. */
  predicate Covered(q: seq<Entry>, level: nat, ts: seq<int>, i: nat, visited: set<int>)
  {
    i <= |ts| && forall j | 0 <= j < i :: ts[j] in visited || InQueue(q, ts[j], level + 1)
  }

  /** The invariant of the neighbour loop after `i` targets. */
  predicate Partial(adj: Adjacency, s: int, target: int, q0: seq<Entry>, q: seq<Entry>, level: nat, ts: seq<int>,
                    i: nat, visited: set<int>)
  {
    Shape(adj, s, target, q0, q, level, ts) && Covered(q, level, ts, i, visited)
  }

  /** Appending an unvisited, non-target neighbour with its extended path keeps the loop invariant. */
  lemma PushKeeps(adj: Adjacency, s: int, target: int, q0: seq<Entry>, q: seq<Entry>, path: seq<int>, ts: seq<int>,
                  i: nat, visited: set<int>)
    requires Partial(adj, s, target, q0, q, |path|, ts, i, visited) && i < |ts|
    requires ts[i] != target && IsPathBetween(adj, path + [ts[i]], s, ts[i])
    ensures Partial(adj, s, target, q0, q + [(ts[i], path + [ts[i]])], |path|, ts, i + 1, visited)
  {
    ShapeKeeps(adj, s, target, q0, q, path, ts, i);
    CoverKeeps(q, (ts[i], path + [ts[i]]), |path|, ts, i, visited);
  }

  lemma ShapeKeeps(adj: Adjacency, s: int, target: int, q0: seq<Entry>, q: seq<Entry>, path: seq<int>, ts: seq<int>,
                   i: nat)
    requires Shape(adj, s, target, q0, q, |path|, ts) && i < |ts|
    requires ts[i] != target && IsPathBetween(adj, path + [ts[i]], s, ts[i])
    ensures Shape(adj, s, target, q0, q + [(ts[i], path + [ts[i]])], |path|, ts)
  {
    var q' := q + [(ts[i], path + [ts[i]])];
    assert q'[..|q0|] == q[..|q0|];
    AppendKeeps(adj, s, target, q, (ts[i], path + [ts[i]]), |path|);
  }

  lemma CoverKeeps(q: seq<Entry>, e: Entry, level: nat, ts: seq<int>, i: nat, visited: set<int>)
    requires Covered(q, level, ts, i, visited) && i < |ts| && e.0 == ts[i] && |e.1| == level + 1
    ensures Covered(q + [e], level, ts, i + 1, visited)
  {
    var q' := q + [e];
    forall j | 0 <= j <= i && ts[j] !in visited
      ensures InQueue(q', ts[j], level + 1)
    {
      if j < i {
        var k :| 0 <= k < |q| && q[k].0 == ts[j] && |q[k].1| <= level + 1;
        assert q'[k] == q[k];
      } else {
        assert q'[|q|].0 == ts[j];
      }
    }
  }

  /** An entry one level deeper than the frontier's lowest keeps the frontier's shape. */
  lemma AppendKeeps(adj: Adjacency, s: int, target: int, q: seq<Entry>, e: Entry, level: nat)
    requires Entries(adj, s, q) && Levels(q) && IsPathBetween(adj, e.1, s, e.0) && e.0 != target && |e.1| == level + 1
    requires forall k | 0 <= k < |q| :: q[k].0 != target && level <= |q[k].1| <= level + 1
    ensures Entries(adj, s, q + [e]) && Levels(q + [e])
    ensures forall k | 0 <= k < |q + [e]| :: (q + [e])[k].0 != target && level <= |(q + [e])[k].1| <= level + 1
  {
    var q' := q + [e];
    forall k | 0 <= k < |q|
      ensures q'[k] == q[k]
    {
    }
  }

  lemma SkipNeighbour(q: seq<Entry>, level: nat, ts: seq<int>, i: nat, visited: set<int>)
    requires Covered(q, level, ts, i, visited) && i < |ts| && ts[i] in visited
    ensures Covered(q, level, ts, i + 1, visited)
  {
  }

  /** After the whole neighbour loop, every unvisited target waits on the frontier. */
  lemma PartialDone(adj: Adjacency, s: int, target: int, q0: seq<Entry>, q: seq<Entry>, level: nat, ts: seq<int>,
                    visited: set<int>)
    requires Partial(adj, s, target, q0, q, level, ts, |ts|, visited)
    ensures Entries(adj, s, q) && Levels(q) && |q0| <= |q| && q[..|q0|] == q0
    ensures forall k | 0 <= k < |q| :: q[k].0 != target
    ensures forall k | |q0| <= k < |q| :: q[k].0 in ts
    ensures forall t | t in ts :: t in visited || InQueue(q, t, level + 1)
  {
    forall t | t in ts
      ensures t in visited || InQueue(q, t, level + 1)
    {
      var j :| 0 <= j < |ts| && ts[j] == t;
    }
  }

  /**
   * The `for neighbor in neighbors` loop of one expansion: each target not yet visited is
   * either the target (returned with its path) or appended to the frontier one level deeper.
   */
  method Expand(adj: Adjacency, s: int, target: int, q0: seq<Entry>, visited: set<int>, c: int, path: seq<int>)
    returns (q: seq<Entry>, found: Option<seq<int>>)
    requires c in adj && IsPathBetween(adj, path, s, c)
    requires Entries(adj, s, q0) && Levels(q0) && target !in visited
    requires forall k | 0 <= k < |q0| :: q0[k].0 != target && |path| <= |q0[k].1| <= |path| + 1
    ensures found.Some? ==>
      (found.value == path + [target] && target in Targets(adj[c]) && IsPathBetween(adj, found.value, s, target))
    ensures found.None? ==>
      (Entries(adj, s, q) && Levels(q) && |q0| <= |q| && q[..|q0|] == q0 &&
       (forall k | 0 <= k < |q| :: q[k].0 != target) &&
       (forall k | |q0| <= k < |q| :: q[k].0 in Targets(adj[c])) &&
       (forall t | t in Targets(adj[c]) :: t in visited || InQueue(q, t, |path| + 1)))
  {
    var ts := Targets(adj[c]);
    q := q0;
    for i := 0 to |ts|
      invariant Partial(adj, s, target, q0, q, |path|, ts, i, visited)
    {
      var neighbor := ts[i];
      if neighbor !in visited {
        var next := path + [neighbor];
        PathStep(adj, path, neighbor);
        if neighbor == target {
          return q, Some(next);
        }
        PushKeeps(adj, s, target, q0, q, path, ts, i, visited);
        q := q + [(neighbor, next)];
      } else {
        SkipNeighbour(q, |path|, ts, i, visited);
      }
    }
    PartialDone(adj, s, target, q0, q, |path|, ts, visited);
    found := None;
  }

  /**
   * One visit: the front vertex, not yet visited, is marked and its targets explored. Either
   * the target turns up among them, by a shortest path, or the invariant holds again.
   */
  method Visit(adj: Adjacency, s: int, target: int, frontier: seq<Entry>, visited: set<int>, ghost level: map<int, nat>)
    returns (q: seq<Entry>, found: Option<seq<int>>)
    requires frontier != [] && frontier[0].0 !in visited && frontier[0].0 in adj
    requires Searching(adj, s, target, frontier, visited, level)
    ensures found.Some? ==> IsPathBetween(adj, found.value, s, target) && Shortest(adj, s, target, |found.value|)
    ensures found.None? ==>
      Searching(adj, s, target, q, visited + {frontier[0].0}, level[frontier[0].0 := |frontier[0].1|])
    ensures found.None? && Closed(adj) && InGraph(adj, frontier) ==> InGraph(adj, q)
  {
    var current, path := frontier[0].0, frontier[0].1;
    FrontReady(adj, s, target, frontier, visited, level);
    q, found := Expand(adj, s, target, frontier[1..], visited + {current}, current, path);
    if found.Some? {
      FoundFromFront(adj, s, target, frontier, visited, level);
      return;
    }
    AfterExpand(adj, s, target, frontier, visited, level, q);
    InGraphExpand(adj, frontier, q, current);
  }

  /**
   * `bfs`: `[start]` when start is the target; otherwise a path from start to target with the
   * fewest vertices, or None when the target cannot be reached. Expanding a vertex that is
   * not a key of the graph raises KeyError.
   */
  method Bfs(adj: Adjacency, start: int, target: int) returns (r: Result<Option<seq<int>>>)
    ensures start == target ==> r == Ok(Some([start]))
    ensures r.Ok? && r.value.Some? ==> IsPathBetween(adj, r.value.value, start, target)
    ensures r.Ok? && r.value.Some? ==> Shortest(adj, start, target, |r.value.value|)
    ensures r.Ok? && r.value.None? ==> !Reachable(adj, start, target)
    ensures Closed(adj) && start in adj ==> r.Ok?
  {
    if start == target {
      assert IsPath(adj, [start]);
      return Ok(Some([start]));
    }
    var frontier: seq<Entry> := [(start, [start])];
    var visited: set<int> := {};
    ghost var level: map<int, nat> := map[];
    assert IsPath(adj, [start]);
    while frontier != []
      invariant Searching(adj, start, target, frontier, visited, level)
      invariant Closed(adj) && start in adj ==> InGraph(adj, frontier)
      decreases |adj.Keys - visited|, |frontier|
    {
      var current, path := frontier[0].0, frontier[0].1;
      if current in visited {
        SkipKeeps(adj, start, target, frontier, visited, level);
        InGraphTail(adj, frontier);
        frontier := frontier[1..];
        continue;
      }
      if current !in adj {
        return Err(KeyError);
      }
      FewerUnvisited(adj.Keys, visited, current);
      var q, found := Visit(adj, start, target, frontier, visited, level);
      if found.Some? {
        return Ok(found);
      }
      frontier, visited, level := q, visited + {current}, level[current := |path|];
    }
    Exhausted(adj, start, target, visited, level);
    return Ok(None);
  }

  /** The docstring example: 1 -> 2 -> 3 gives the path [1, 2, 3], and no path is shorter. */
  lemma DocExamplePath()
    ensures var adj := map[1 := [Edge(2, 1)], 2 := [Edge(3, 1)], 3 := []];
      IsPathBetween(adj, [1, 2, 3], 1, 3) && Shortest(adj, 1, 3, 3)
  {
    var adj := map[1 := [Edge(2, 1)], 2 := [Edge(3, 1)], 3 := []];
    assert Targets(adj[1]) == [2] && Targets(adj[2]) == [3];
    forall p | IsPathBetween(adj, p, 1, 3)
      ensures 3 <= |p|
    {
      assert p[0] != p[|p| - 1];
      assert p[1] in Targets(adj[p[0]]);
      assert p[1] != p[|p| - 1];
    }
  }
}
