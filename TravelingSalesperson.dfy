/**
 * python/algorithms/Greedy/TravelingSalesperson.py: the nearest-neighbour heuristic. From the start,
 * the walk repeatedly moves to the unvisited target of least edge weight until every vertex is
 * visited or none is left to move to, then closes the circuit if the last vertex has an edge
 * back to the start.
 */
module TravelingSalesperson {
  import opened Wrappers
  import opened Graph

  /** `TSPResult`: the path walked, its total weight, and whether it returned to the start. */
  datatype TspResult = TspResult(path: seq<int>, totalDistance: int, circuitCompleted: bool)

  /** A candidate move: an unvisited target and the weight of the edge to it. */
  type Move = (int, int)

  /** The weight of the edge from `u` to `t` (0 where there is none). */
  function StepWeight(adj: Adjacency, u: int, t: int): int
  {
    if u in adj && WeightTo(adj[u], t).Some? then WeightTo(adj[u], t).value else 0
  }

  /** The total weight of the edges along `p`. */
  function TourWeight(adj: Adjacency, p: seq<int>): int
  {
    if |p| <= 1 then 0 else TourWeight(adj, p[..|p| - 1]) + StepWeight(adj, p[|p| - 2], p[|p| - 1])
  }

  predicate Distinct(s: seq<int>)
  {
    forall i, j | 0 <= i < j < |s| :: s[i] != s[j]
  }

  /** The vertices whose flag in `visited_vertices` is set. */
  function Visited(flags: map<int, bool>): set<int>
  {
    set v | v in flags && flags[v]
  }

  /** `_has_visited_all_vertices`: every flag is set. */
  function HasVisitedAll(flags: map<int, bool>): (r: bool)
    ensures r <==> Visited(flags) == flags.Keys
  {
    var r := forall v | v in flags :: flags[v];
    assert r ==> Visited(flags) == flags.Keys by {
      if r {
        forall v
          ensures v in Visited(flags) <==> v in flags
        {
        }
      }
    }
    assert Visited(flags) == flags.Keys ==> r by {
      if Visited(flags) == flags.Keys {
        forall v | v in flags
          ensures flags[v]
        {
          assert v in Visited(flags);
        }
      }
    }
    r
  }

  /**
   * The loop of `_find_unvisited_neighbors` over the targets `ts` of the edge list `es`: each
   * target must have a flag (KeyError otherwise), and the unvisited ones are kept, in order, with
   * the weight `get_edge_weight` reports.
   */
  function Candidates(ts: seq<int>, es: seq<Edge>, flags: map<int, bool>): (r: Result<seq<Move>>)
    ensures r.Ok? <==> forall i | 0 <= i < |ts| :: ts[i] in flags
    ensures r.Err? ==> r.error == KeyError
    ensures r.Ok? ==> forall m | m in r.value :: m.0 in ts && m.0 in flags && !flags[m.0] && WeightTo(es, m.0) == Some(m.1)
    ensures r.Ok? ==> forall t | t in ts && t in flags && !flags[t] && t in Targets(es) :: exists m | m in r.value :: m.0 == t
  {
    if ts == [] then Ok([])
    else if ts[0] !in flags then Err(KeyError)
    else
      match Candidates(ts[1..], es, flags)
      case Err(e) =>
        assert forall i | 0 <= i < |ts| - 1 :: ts[1..][i] == ts[i + 1];
        Err(e)
      case Ok(rest) =>
        assert forall t | t in ts :: t == ts[0] || t in ts[1..];
        assert forall i | 0 < i < |ts| :: ts[i] == ts[1..][i - 1];
        if !flags[ts[0]] && WeightTo(es, ts[0]).Some? then
          var m := (ts[0], WeightTo(es, ts[0]).value);
          assert m in [m] + rest;
          Ok([m] + rest)
        else Ok(rest)
  }

  /** `_find_unvisited_neighbors`: the current vertex is looked up by value (KeyError if absent). */
  function UnvisitedNeighbours(adj: Adjacency, current: int, flags: map<int, bool>): (r: Result<seq<Move>>)
    ensures current !in adj ==> r == Err(KeyError)
    ensures current in adj ==> (r.Ok? <==> forall i | 0 <= i < |Targets(adj[current])| :: Targets(adj[current])[i] in flags)
    ensures r.Err? ==> r.error == KeyError
    ensures r.Ok? ==> current in adj && forall m | m in r.value ::
      (m.0 in Targets(adj[current]) && m.0 in flags && !flags[m.0] && m.1 == StepWeight(adj, current, m.0))
    ensures r.Ok? ==> forall t | t in Targets(adj[current]) :: t in flags
    ensures r.Ok? ==> forall t | t in Targets(adj[current]) && t in flags && !flags[t] :: exists m | m in r.value :: m.0 == t
  {
    if current !in adj then Err(KeyError)
    else Candidates(Targets(adj[current]), adj[current], flags)
  }

  /**
   * The scan `min` makes over the first `n` moves: the position of the lightest, where a later
   * move replaces the one held only when it is strictly lighter.
   */
  function LightestAmong(moves: seq<Move>, n: nat): (k: nat)
    requires 0 < n <= |moves|
    ensures k < n
    ensures forall j | 0 <= j < n :: moves[k].1 <= moves[j].1
    ensures forall j | 0 <= j < k :: moves[j].1 > moves[k].1
  {
    if n == 1 then 0
    else
      var k := LightestAmong(moves, n - 1);
      if moves[n - 1].1 < moves[k].1 then n - 1 else k
  }

  /**
   * `_find_nearest_neighbor`: `min` over the moves by weight, which returns the first of the
   * lightest moves.
   */
  function Nearest(moves: seq<Move>): (r: Move)
    requires moves != []
    ensures r in moves
    ensures forall m | m in moves :: r.1 <= m.1
    ensures exists k | 0 <= k < |moves| :: moves[k] == r && forall j | 0 <= j < k :: moves[j].1 > r.1
  {
    var k := LightestAmong(moves, |moves|);
    assert moves[k] == moves[k];
    moves[k]
  }

  /**
   * `_try_complete_circuit`: the current vertex is looked up by value (KeyError if absent); if it
   * has an edge back to `path[0]`, that vertex is appended and the edge's weight returned.
   */
  function CompleteCircuit(adj: Adjacency, current: int, path: seq<int>): (r: Result<(seq<int>, bool, int)>)
    requires path != []
    ensures current !in adj <==> r.Err?
    ensures r.Err? ==> r.error == KeyError
    ensures r.Ok? ==> (r.value.1 <==> path[0] in Targets(adj[current]))
    ensures r.Ok? && r.value.1 ==> r.value.0 == path + [path[0]] && r.value.2 == StepWeight(adj, current, path[0])
    ensures r.Ok? && !r.value.1 ==> r.value.0 == path && r.value.2 == 0
  {
    if current !in adj then Err(KeyError)
    else
      match WeightTo(adj[current], path[0])
      case Some(w) => Ok((path + [path[0]], true, w))
      case None => Ok((path, false, 0))
  }

  /**
   * Step `k` of a walk is greedy: it follows an edge to a vertex not yet walked, and no other
   * such target of the same vertex is reached by a lighter edge.
   */
  predicate Greedy(adj: Adjacency, p: seq<int>, k: nat)
    requires k + 1 < |p|
  {
    p[k] in adj && p[k + 1] in Targets(adj[p[k]]) && p[k + 1] !in p[..k + 1] &&
    forall t | t in Targets(adj[p[k]]) && t !in p[..k + 1] :: StepWeight(adj, p[k], p[k + 1]) <= StepWeight(adj, p[k], t)
  }

  /** A walk from `start` whose every step is greedy and which never repeats a vertex. */
  predicate GreedyWalk(adj: Adjacency, start: int, p: seq<int>)
  {
    p != [] && p[0] == start && Distinct(p) && forall k | 0 <= k < |p| - 1 :: Greedy(adj, p, k)
  }

  /** Where the walk stopped: every vertex visited, or no unvisited target left to move to. */
  predicate Stopped(adj: Adjacency, p: seq<int>)
    requires p != []
  {
    (forall v | v in adj :: v in p) ||
    (p[|p| - 1] in adj && forall t | t in Targets(adj[p[|p| - 1]]) :: t in p)
  }

  /** The result the main loop promises for a walk `p` and how the circuit was closed. */
  predicate Describes(adj: Adjacency, start: int, p: seq<int>, res: TspResult)
  {
    GreedyWalk(adj, start, p) && Stopped(adj, p) && p[|p| - 1] in adj &&
    (res.circuitCompleted <==> start in Targets(adj[p[|p| - 1]])) &&
    res.path == (if res.circuitCompleted then p + [start] else p) &&
    res.totalDistance == TourWeight(adj, p) + (if res.circuitCompleted then StepWeight(adj, p[|p| - 1], start) else 0)
  }

  /** What the main loop returns: a stopped greedy walk ending at a vertex, and its weight. */
  predicate Walked(adj: Adjacency, start: int, p: seq<int>, total: int)
  {
    GreedyWalk(adj, start, p) && Stopped(adj, p) && p[|p| - 1] in adj && total == TourWeight(adj, p)
  }

  /** The state of the main loop. */
  predicate Walking(adj: Adjacency, start: int, flags: map<int, bool>, path: seq<int>, total: int)
  {
    flags.Keys == adj.Keys + {start} && GreedyWalk(adj, start, path) &&
    (forall v | v in path :: v in flags) && (forall v | v in flags :: flags[v] <==> v in path) &&
    total == TourWeight(adj, path)
  }

  /** Moving to the nearest unvisited neighbour keeps the loop state. */
  lemma MoveKeeps(adj: Adjacency, start: int, flags: map<int, bool>, path: seq<int>, total: int,
                  moves: seq<Move>, next: Move)
    requires Walking(adj, start, flags, path, total)
    requires path[|path| - 1] in adj
    requires forall m | m in moves ::
      (m.0 in Targets(adj[path[|path| - 1]]) && m.0 in flags && !flags[m.0] && m.1 == StepWeight(adj, path[|path| - 1], m.0))
    requires forall t | t in Targets(adj[path[|path| - 1]]) :: t in flags
    requires forall t | t in Targets(adj[path[|path| - 1]]) && t in flags && !flags[t] :: exists m | m in moves :: m.0 == t
    requires next in moves && forall m | m in moves :: next.1 <= m.1
    ensures next.0 in flags && !flags[next.0] && next.0 in Targets(adj[path[|path| - 1]])
    ensures Walking(adj, start, flags[next.0 := true], path + [next.0], total + next.1)
  {
    var u, t := path[|path| - 1], next.0;
    var p := path + [t];
    assert t !in path;
    assert p[..|path|] == path;
    forall k | 0 <= k < |p| - 1
      ensures Greedy(adj, p, k)
    {
      if k < |path| - 1 {
        assert Greedy(adj, path, k);
        assert p[..k + 1] == path[..k + 1];
      } else {
        assert p[k] == u && p[..k + 1] == path;
        forall x | x in Targets(adj[u]) && x !in path
          ensures StepWeight(adj, u, t) <= StepWeight(adj, u, x)
        {
          var m :| m in moves && m.0 == x;
        }
      }
    }
    assert p[|p| - 2] == u;
  }

  /** Flagging an unvisited vertex leaves fewer unvisited, and it is not the (flagged) start. */
  lemma MoveShrinks(adj: Adjacency, start: int, flags: map<int, bool>, path: seq<int>, total: int, t: int)
    requires Walking(adj, start, flags, path, total)
    requires t in flags && !flags[t]
    ensures t in adj
    ensures |flags.Keys - Visited(flags[t := true])| < |flags.Keys - Visited(flags)|
  {
    assert t != start by {
      assert path[0] == start && flags[start];
    }
    FewerUnvisited(flags.Keys, Visited(flags), t);
    assert Visited(flags[t := true]) == Visited(flags) + {t};
  }

  /** Moving to the nearest unvisited neighbour extends the walk by one vertex of the graph. */
  lemma MoveTo(adj: Adjacency, start: int, flags: map<int, bool>, path: seq<int>, total: int,
               moves: seq<Move>, next: Move)
    requires Walking(adj, start, flags, path, total)
    requires path[|path| - 1] in adj
    requires forall m | m in moves ::
      (m.0 in Targets(adj[path[|path| - 1]]) && m.0 in flags && !flags[m.0] && m.1 == StepWeight(adj, path[|path| - 1], m.0))
    requires forall t | t in Targets(adj[path[|path| - 1]]) :: t in flags
    requires forall t | t in Targets(adj[path[|path| - 1]]) && t in flags && !flags[t] :: exists m | m in moves :: m.0 == t
    requires next in moves && forall m | m in moves :: next.1 <= m.1
    ensures var (flags', path', total') := (flags[next.0 := true], path + [next.0], total + next.1);
      Walking(adj, start, flags', path', total') &&
      |path'| == |path| + 1 && path'[..|path|] == path &&
      path'[|path|] in Targets(adj[path[|path| - 1]]) && path'[|path|] in adj &&
      |flags'.Keys - Visited(flags')| < |flags.Keys - Visited(flags)|
  {
    MoveKeeps(adj, start, flags, path, total, moves, next);
    MoveShrinks(adj, start, flags, path, total, next.0);
    var path' := path + [next.0];
    assert path'[..|path|] == path && path'[|path|] == next.0;
  }

  /** An empty list of moves means the walk is stuck at its last vertex. */
  lemma StuckStops(adj: Adjacency, start: int, flags: map<int, bool>, path: seq<int>, total: int)
    requires Walking(adj, start, flags, path, total) && path[|path| - 1] in adj
    requires forall t | t in Targets(adj[path[|path| - 1]]) :: t in flags && flags[t]
    ensures Stopped(adj, path)
  {
  }

  /** All flags set means every vertex was visited. */
  lemma AllStops(adj: Adjacency, start: int, flags: map<int, bool>, path: seq<int>, total: int)
    requires Walking(adj, start, flags, path, total) && HasVisitedAll(flags)
    ensures Stopped(adj, path)
  {
    forall v | v in adj
      ensures v in path
    {
      assert v in flags && flags[v];
    }
  }

  /** A loop state that has stopped at a vertex is a finished walk. */
  lemma WalkEnds(adj: Adjacency, start: int, flags: map<int, bool>, path: seq<int>, total: int)
    requires Walking(adj, start, flags, path, total) && Stopped(adj, path) && path[|path| - 1] in adj
    ensures Walked(adj, start, path, total)
  {
  }

  lemma SubsetCard(a: set<int>, b: set<int>)
    requires a <= b
    ensures |a| <= |b|
  {
    assert b == a + (b - a);
    assert a * (b - a) == {};
  }

  /** With two or more vertices, only the start flagged is not everything visited. */
  lemma NotAllVisited(adj: Adjacency, start: int)
    requires |adj| >= 2
    ensures !HasVisitedAll((map v | v in adj :: false)[start := true])
  {
    var flags := (map v | v in adj :: false)[start := true];
    assert Visited(flags) <= {start};
    SubsetCard(Visited(flags), {start});
    assert adj.Keys <= flags.Keys;
    SubsetCard(adj.Keys, flags.Keys);
  }

  /**
   * One pass of the main loop of `traveling_salesperson`: None when the walk is stuck, otherwise
   * the state after moving to the nearest unvisited neighbour of the last vertex.
   */
  method Step(adj: Adjacency, start: int, flags: map<int, bool>, path: seq<int>, total: int)
    returns (r: Result<Option<(map<int, bool>, seq<int>, int)>>)
    requires Walking(adj, start, flags, path, total)
    ensures path[|path| - 1] !in adj ==> r == Err(KeyError)
    ensures r.Err? ==> r.error == KeyError
    ensures Closed(adj) && path[|path| - 1] in adj ==> r.Ok?
    ensures r.Ok? && r.value.None? ==> path[|path| - 1] in adj && Stopped(adj, path)
    ensures r.Ok? && r.value.Some? ==>
      (var (flags', path', total') := r.value.value;
       Walking(adj, start, flags', path', total') &&
       |path'| == |path| + 1 && path'[..|path|] == path && path[|path| - 1] in adj &&
       path'[|path|] in Targets(adj[path[|path| - 1]]) && path'[|path|] in adj &&
       |flags'.Keys - Visited(flags')| < |flags.Keys - Visited(flags)|)
  {
    var current := path[|path| - 1];
    var found := UnvisitedNeighbours(adj, current, flags);
    if found.Err? {
      return Err(found.error);
    }
    var moves := found.value;
    if moves == [] {
      StuckStops(adj, start, flags, path, total);
      return Ok(None);
    }
    var next := Nearest(moves);
    MoveTo(adj, start, flags, path, total, moves, next);
    return Ok(Some((flags[next.0 := true], path + [next.0], total + next.1)));
  }

  /**
   * The main loop of `traveling_salesperson` (for two or more vertices): the greedy walk from
   * `start` and its weight. KeyError when the start, or a target of an edge walked from, is not a
   * graph vertex.
   */
  method GreedyWalkFrom(adj: Adjacency, start: int) returns (r: Result<(seq<int>, int)>)
    requires |adj| >= 2
    ensures r.Ok? ==> Walked(adj, start, r.value.0, r.value.1)
    ensures start !in adj ==> r == Err(KeyError)
    ensures r.Err? ==> r.error == KeyError
    ensures Closed(adj) && start in adj ==> r.Ok?
  {
    var flags := (map v | v in adj :: false)[start := true];
    var path := [start];
    var total := 0;
    assert Walking(adj, start, flags, path, total);
    NotAllVisited(adj, start);
    while !HasVisitedAll(flags)
      invariant Walking(adj, start, flags, path, total)
      invariant |path| > 1 ==> start in adj
      invariant |path| > 1 ==> path[|path| - 1] in adj
      invariant |path| == 1 ==> !HasVisitedAll(flags)
      decreases |flags.Keys - Visited(flags)|
    {
      var step := Step(adj, start, flags, path, total);
      if step.Err? {
        return Err(step.error);
      }
      if step.value.None? {
        WalkEnds(adj, start, flags, path, total);
        return Ok((path, total));
      }
      var (flags', path', total') := step.value.value;
      assert start in adj by {
        assert path[0] == start;
      }
      assert path'[|path'| - 1] in adj by {
        assert |path'| - 1 == |path|;
      }
      flags, path, total := flags', path', total';
    }
    AllStops(adj, start, flags, path, total);
    WalkEnds(adj, start, flags, path, total);
    return Ok((path, total));
  }

  /**
   * `traveling_salesperson` from a given start: None for an empty graph, the one-vertex tour for
   * a single vertex, and otherwise the greedy walk closed back to the start where possible.
   * KeyError when the start, or a target of an edge walked from, is not a graph vertex.
   */
  method NearestNeighbourTour(adj: Adjacency, start: int) returns (r: Result<Option<TspResult>>)
    ensures |adj| == 0 ==> r == Ok(None)
    ensures |adj| == 1 ==> r == Ok(Some(TspResult([start], 0, true)))
    ensures |adj| >= 2 && r.Ok? ==> r.value.Some? && exists p :: Describes(adj, start, p, r.value.value)
    ensures |adj| >= 2 && start !in adj ==> r == Err(KeyError)
    ensures r.Err? ==> r.error == KeyError
    ensures Closed(adj) && start in adj ==> r.Ok?
  {
    if |adj| == 0 {
      return Ok(None);
    }
    if |adj| == 1 {
      return Ok(Some(TspResult([start], 0, true)));
    }
    var walked := GreedyWalkFrom(adj, start);
    if walked.Err? {
      return Err(walked.error);
    }
    var (path, total) := walked.value;
    var closed := CompleteCircuit(adj, path[|path| - 1], path);
    assert closed.Ok?;
    var (path', completed, back) := closed.value;
    var res := TspResult(path', total + back, completed);
    assert Describes(adj, start, path, res);
    return Ok(Some(res));
  }
}
