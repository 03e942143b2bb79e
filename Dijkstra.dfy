/**
 * python/algorithms/Greedy/Dykstras.py: Dijkstra's shortest paths with a lazily cleaned priority
 * queue. Distances start at INFINITY for every graph vertex and 0 for the start; the entry of
 * least distance is taken from the queue, skipped when a better distance is already known, and
 * otherwise each edge out of its vertex is relaxed, pushing a new entry whenever a distance drops.
 *
 * The queue is a sequence of `(distance, vertex)` entries and the entry taken is one of least
 * distance, which is what the source's heap promises. The source's heap also compares the
 * vertices of two entries of equal distance, which raises TypeError; that is modelled separately
 * at the end of this module.
 */
module Dijkstra {
  import opened Wrappers
  import opened Graph

  /** A tentative distance: a number, or the source's INFINITY. */
  datatype Dist = Fin(n: int) | Inf

  /** `new_distance < distances[neighbor]`: every number lies below INFINITY. */
  predicate Improves(n: int, d: Dist)
  {
    d.Inf? || n < d.n
  }

  /** `current_distance > distances[current_vertex]`: no number lies above INFINITY. */
  predicate Stale(n: int, d: Dist)
  {
    d.Fin? && n > d.n
  }

  /** A queue entry: a distance and the vertex it was reached with. */
  type Entry = (int, int)

  /** The algorithm's stated assumption: no edge weight is negative. */
  predicate NonNegative(adj: Adjacency)
  {
    forall u, e | u in adj && e in adj[u] :: 0 <= e.weight
  }

  /** The edges of `u`; a start vertex outside the graph has none here. */
  function OutEdges(adj: Adjacency, u: int): seq<Edge>
  {
    if u in adj then adj[u] else []
  }

  /** `get_edge_weight`: the weight of the edge from `u` to `t` (0 where there is none). */
  function EdgeWeight(adj: Adjacency, u: int, t: int): int
  {
    match WeightTo(OutEdges(adj, u), t)
    case Some(w) => w
    case None => 0
  }

  /** The total weight of the edges along `p`. */
  function PathWeight(adj: Adjacency, p: seq<int>): (r: int)
    requires p != []
    ensures NonNegative(adj) ==> 0 <= r
  {
    if |p| == 1 then 0
    else
      var w := EdgeWeight(adj, p[|p| - 2], p[|p| - 1]);
      assert NonNegative(adj) ==> 0 <= w by {
        if NonNegative(adj) && WeightTo(OutEdges(adj, p[|p| - 2]), p[|p| - 1]).Some? {
          assert Edge(p[|p| - 1], w) in OutEdges(adj, p[|p| - 2]);
        }
      }
      PathWeight(adj, p[..|p| - 1]) + w
  }

  /** `p` is a path from `s` to `v`. */
  predicate Walk(adj: Adjacency, p: seq<int>, s: int, v: int)
  {
    IsPath(adj, p) && p[0] == s && p[|p| - 1] == v
  }

  /** No path from `s` to `v` weighs less than `n`. */
  ghost predicate Lightest(adj: Adjacency, s: int, v: int, n: int)
  {
    forall p | Walk(adj, p, s, v) :: n <= PathWeight(adj, p)
  }

  /** Some path from `s` to `v` weighs exactly `n`. */
  ghost predicate Attained(adj: Adjacency, s: int, v: int, n: int)
  {
    exists p :: Walk(adj, p, s, v) && PathWeight(adj, p) == n
  }

  lemma EdgeWeightNonNegative(adj: Adjacency, u: int, t: int)
    requires NonNegative(adj)
    ensures 0 <= EdgeWeight(adj, u, t)
  {
    if WeightTo(OutEdges(adj, u), t).Some? {
      assert Edge(t, EdgeWeight(adj, u, t)) in OutEdges(adj, u);
    }
  }

  /** Extending a path by an edge adds that edge's weight. */
  lemma WeightExtend(adj: Adjacency, p: seq<int>, t: int)
    requires p != []
    ensures PathWeight(adj, p + [t]) == PathWeight(adj, p) + EdgeWeight(adj, p[|p| - 1], t)
  {
    assert (p + [t])[..|p|] == p;
  }

  /** With no negative weight, a prefix of a path weighs no more than the path. */
  lemma {:induction false} WeightPrefix(adj: Adjacency, p: seq<int>, k: nat)
    requires NonNegative(adj) && 0 < k <= |p|
    ensures PathWeight(adj, p[..k]) <= PathWeight(adj, p)
    decreases |p|
  {
    if k < |p| {
      var q := p[..|p| - 1];
      WeightPrefix(adj, q, k);
      assert q[..k] == p[..k];
      EdgeWeightNonNegative(adj, p[|p| - 2], p[|p| - 1]);
    } else {
      assert p[..k] == p;
    }
  }

  /** A path from `s` extended by an edge of its last vertex is a path to the edge's target. */
  lemma WalkExtend(adj: Adjacency, p: seq<int>, s: int, u: int, t: int)
    requires Walk(adj, p, s, u) && u in adj && t in Targets(adj[u])
    ensures Walk(adj, p + [t], s, t)
    ensures PathWeight(adj, p + [t]) == PathWeight(adj, p) + EdgeWeight(adj, u, t)
  {
    PathStep(adj, p, t);
    WeightExtend(adj, p, t);
  }

  /** The first vertex of `p` outside `s`, given that the last one is. */
  lemma {:induction false} FirstOutside(p: seq<int>, s: set<int>) returns (j: nat)
    requires p != [] && p[|p| - 1] !in s
    ensures j < |p| && p[j] !in s && forall k | 0 <= k < j :: p[k] in s
  {
    if p[0] in s {
      var j' := FirstOutside(p[1..], s);
      j := j' + 1;
      forall k | 0 <= k < j
        ensures p[k] in s
      {
        if k > 0 {
          assert p[k] == p[1..][k - 1];
        }
      }
    } else {
      j := 0;
    }
  }

  // The loop invariant, one fact per predicate.

  /** Each finite distance is the weight of a recorded path from the start. */
  ghost predicate Witnessed(adj: Adjacency, start: int, dist: map<int, Dist>, trail: map<int, seq<int>>)
  {
    forall v | v in dist && dist[v].Fin? ::
      v in trail && Walk(adj, trail[v], start, v) && PathWeight(adj, trail[v]) == dist[v].n
  }

  /** Each queue entry names a vertex whose distance is finite and at most the entry's. */
  predicate Queued(dist: map<int, Dist>, queue: seq<Entry>)
  {
    forall k | 0 <= k < |queue| :: queue[k].1 in dist && dist[queue[k].1].Fin? && dist[queue[k].1].n <= queue[k].0
  }

  /** Each vertex with a finite distance that is not settled has an entry at that distance. */
  predicate Pending(dist: map<int, Dist>, queue: seq<Entry>, settled: set<int>)
  {
    forall v | v in dist && dist[v].Fin? && v !in settled :: (dist[v].n, v) in queue
  }

  /** Each settled vertex has a finite distance no path undercuts. */
  ghost predicate Final(adj: Adjacency, start: int, dist: map<int, Dist>, settled: set<int>)
  {
    forall s | s in settled :: s in dist && dist[s].Fin? && Lightest(adj, start, s, dist[s].n)
  }

  /** Every edge out of `u` has been relaxed from distance `n`. */
  predicate RelaxedAt(adj: Adjacency, dist: map<int, Dist>, u: int, n: int)
  {
    forall t | t in Targets(OutEdges(adj, u)) ::
      t in dist && dist[t].Fin? && dist[t].n <= n + EdgeWeight(adj, u, t)
  }

  /** Every edge out of a settled vertex has been relaxed. */
  predicate RelaxedFrom(adj: Adjacency, dist: map<int, Dist>, settled: set<int>)
  {
    forall s | s in settled :: s in dist && dist[s].Fin? && RelaxedAt(adj, dist, s, dist[s].n)
  }

  ghost predicate Core(adj: Adjacency, start: int, dist: map<int, Dist>, queue: seq<Entry>,
                       settled: set<int>, trail: map<int, seq<int>>)
  {
    NonNegative(adj) && dist.Keys == adj.Keys + {start} && dist[start] == Fin(0) &&
    Witnessed(adj, start, dist, trail) && Queued(dist, queue) && Pending(dist, queue, settled) &&
    Final(adj, start, dist, settled)
  }

  ghost predicate Tracking(adj: Adjacency, start: int, dist: map<int, Dist>, queue: seq<Entry>,
                           settled: set<int>, trail: map<int, seq<int>>)
  {
    Core(adj, start, dist, queue, settled, trail) && RelaxedFrom(adj, dist, settled)
  }

  /** Distance `a` is no larger than `b`. */
  predicate AtMost(a: Dist, b: Dist)
  {
    b.Inf? || (a.Fin? && a.n <= b.n)
  }

  /** No tentative distance grew from `before` to `after`. */
  predicate NoLarger(after: map<int, Dist>, before: map<int, Dist>)
  {
    after.Keys == before.Keys && forall v | v in before :: AtMost(after[v], before[v])
  }

  /** Every edge out of a vertex with a finite distance is relaxed: `dist[t] <= dist[u] + w`. */
  predicate Triangle(adj: Adjacency, dist: map<int, Dist>)
  {
    forall u | u in dist && dist[u].Fin? :: RelaxedAt(adj, dist, u, dist[u].n)
  }

  /** The queue without its `i`th entry. */
  function Without(queue: seq<Entry>, i: nat): (r: seq<Entry>)
    requires i < |queue|
    ensures |r| == |queue| - 1
    ensures forall e | e in r :: e in queue
    ensures forall k | 0 <= k < |queue| && queue[k] != queue[i] :: queue[k] in r
  {
    var r := queue[..i] + queue[i + 1..];
    assert forall k | 0 <= k < |queue| && k != i :: queue[k] == (if k < i then r[k] else r[k - 1]);
    r
  }

  /** The first entry of least distance (the heap's `heappop`, ties broken by position). */
  method LightestEntry(queue: seq<Entry>) returns (i: nat)
    requires queue != []
    ensures i < |queue| && forall k | 0 <= k < |queue| :: queue[i].0 <= queue[k].0
  {
    i := 0;
    var k := 1;
    while k < |queue|
      invariant i < k <= |queue|
      invariant forall j | 0 <= j < k :: queue[i].0 <= queue[j].0
    {
      if queue[k].0 < queue[i].0 {
        i := k;
      }
      k := k + 1;
    }
  }

  /** Dropping a stale entry keeps the invariant. */
  lemma SkipKeeps(adj: Adjacency, start: int, dist: map<int, Dist>, queue: seq<Entry>,
                  settled: set<int>, trail: map<int, seq<int>>, i: nat)
    requires Tracking(adj, start, dist, queue, settled, trail)
    requires i < |queue| && Stale(queue[i].0, dist[queue[i].1])
    ensures Tracking(adj, start, dist, Without(queue, i), settled, trail)
  {
    var rest := Without(queue, i);
    forall v | v in dist && dist[v].Fin? && v !in settled
      ensures (dist[v].n, v) in rest
    {
      var k :| 0 <= k < |queue| && queue[k] == (dist[v].n, v);
    }
  }

  /**
   * Where a path from the start first leaves the settled vertices, at `p[j]` with `j > 0`, the
   * distance of `p[j]` is finite and at most the weight of the path up to there.
   */
  lemma CrossingBound(adj: Adjacency, start: int, dist: map<int, Dist>, settled: set<int>, p: seq<int>, j: nat)
    requires Final(adj, start, dist, settled) && RelaxedFrom(adj, dist, settled)
    requires IsPath(adj, p) && p[0] == start && 0 < j < |p| && p[j - 1] in settled
    ensures p[j] in dist && dist[p[j]].Fin? && dist[p[j]].n <= PathWeight(adj, p[..j + 1])
  {
    var x, v := p[j - 1], p[j];
    assert x in adj && v in Targets(adj[x]);
    assert v in Targets(OutEdges(adj, x));
    PathPrefix(adj, p, j);
    assert Walk(adj, p[..j], start, x);
    WeightExtend(adj, p[..j], v);
    assert p[..j] + [v] == p[..j + 1];
  }

  /** No path from the start to `u` weighs less than `d`, the least distance in the queue. */
  lemma FrontBeatsPath(adj: Adjacency, start: int, dist: map<int, Dist>, queue: seq<Entry>,
                       settled: set<int>, trail: map<int, seq<int>>, d: int, u: int, p: seq<int>)
    requires Tracking(adj, start, dist, queue, settled, trail)
    requires forall k | 0 <= k < |queue| :: d <= queue[k].0
    requires u !in settled && Walk(adj, p, start, u)
    ensures d <= PathWeight(adj, p)
  {
    var j := FirstOutside(p, settled);
    var v := p[j];
    WeightPrefix(adj, p, j + 1);
    if j > 0 {
      CrossingBound(adj, start, dist, settled, p, j);
    } else {
      assert |p[..1]| == 1;
    }
    assert (dist[v].n, v) in queue;
  }

  /**
   * The heart of the algorithm: an entry of least distance that is not stale carries the
   * least weight of any path to its vertex.
   */
  lemma LightestAtFront(adj: Adjacency, start: int, dist: map<int, Dist>, queue: seq<Entry>,
                        settled: set<int>, trail: map<int, seq<int>>, i: nat)
    requires Tracking(adj, start, dist, queue, settled, trail)
    requires i < |queue| && forall k | 0 <= k < |queue| :: queue[i].0 <= queue[k].0
    requires dist[queue[i].1] == Fin(queue[i].0)
    ensures Lightest(adj, start, queue[i].1, queue[i].0)
  {
    var (d, u) := queue[i];
    if u !in settled {
      forall p | Walk(adj, p, start, u)
        ensures d <= PathWeight(adj, p)
      {
        FrontBeatsPath(adj, start, dist, queue, settled, trail, d, u, p);
      }
    }
  }

  /** Taking an entry that is not stale settles its vertex at its distance. */
  lemma SettleKeeps(adj: Adjacency, start: int, dist: map<int, Dist>, queue: seq<Entry>,
                    settled: set<int>, trail: map<int, seq<int>>, i: nat)
    requires Tracking(adj, start, dist, queue, settled, trail)
    requires i < |queue| && forall k | 0 <= k < |queue| :: queue[i].0 <= queue[k].0
    requires !Stale(queue[i].0, dist[queue[i].1])
    ensures dist[queue[i].1] == Fin(queue[i].0)
    ensures Core(adj, start, dist, Without(queue, i), settled + {queue[i].1}, trail)
    ensures RelaxedFrom(adj, dist, settled + {queue[i].1} - {queue[i].1})
  {
    var (d, u) := queue[i];
    var rest := Without(queue, i);
    assert dist[u] == Fin(d);
    LightestAtFront(adj, start, dist, queue, settled, trail, i);
    forall v | v in dist && dist[v].Fin? && v !in settled + {u}
      ensures (dist[v].n, v) in rest
    {
      var k :| 0 <= k < |queue| && queue[k] == (dist[v].n, v);
    }
  }

  /** The first `k` targets in `ts` have been relaxed from `u` at distance `d`. */
  predicate RelaxedPrefix(adj: Adjacency, dist: map<int, Dist>, u: int, d: int, ts: seq<int>, k: nat)
    requires k <= |ts|
  {
    forall j | 0 <= j < k :: ts[j] in dist && dist[ts[j]].Fin? && dist[ts[j]].n <= d + EdgeWeight(adj, u, ts[j])
  }

  /** The invariant of the relaxation loop over `ts`, the targets of `u`, after `k` of them. */
  ghost predicate Relaxing(adj: Adjacency, start: int, u: int, d: int, dist: map<int, Dist>,
                           queue: seq<Entry>, settled: set<int>, trail: map<int, seq<int>>,
                           ts: seq<int>, k: nat)
  {
    Core(adj, start, dist, queue, settled, trail) && u in settled && u in dist && dist[u] == Fin(d) &&
    RelaxedFrom(adj, dist, settled - {u}) && k <= |ts| && RelaxedPrefix(adj, dist, u, d, ts, k)
  }

  /** A target whose distance drops from `u` is neither `u`, nor the start, nor settled. */
  lemma LowerTarget(adj: Adjacency, start: int, u: int, d: int, dist: map<int, Dist>,
                    settled: set<int>, trail: map<int, seq<int>>, t: int, n: int)
    requires NonNegative(adj) && start in dist && dist[start] == Fin(0)
    requires Witnessed(adj, start, dist, trail) && Final(adj, start, dist, settled)
    requires u in adj && t in Targets(adj[u]) && u in dist && dist[u] == Fin(d) && t in dist
    requires n == d + EdgeWeight(adj, u, t) && Improves(n, dist[t])
    ensures t != u && t != start && t !in settled && u in trail
    ensures Walk(adj, trail[u] + [t], start, t) && PathWeight(adj, trail[u] + [t]) == n
  {
    EdgeWeightNonNegative(adj, u, t);
    WalkExtend(adj, trail[u], start, u, t);
  }

  lemma LowerWitnessed(adj: Adjacency, start: int, u: int, dist: map<int, Dist>,
                       trail: map<int, seq<int>>, t: int, n: int)
    requires Witnessed(adj, start, dist, trail) && t != u && u in trail
    requires Walk(adj, trail[u] + [t], start, t) && PathWeight(adj, trail[u] + [t]) == n
    ensures Witnessed(adj, start, dist[t := Fin(n)], trail[t := trail[u] + [t]])
  {
  }

  lemma LowerQueued(dist: map<int, Dist>, queue: seq<Entry>, t: int, n: int)
    requires Queued(dist, queue) && t in dist && Improves(n, dist[t])
    ensures Queued(dist[t := Fin(n)], queue + [(n, t)])
  {
  }

  lemma LowerPending(dist: map<int, Dist>, queue: seq<Entry>, settled: set<int>, t: int, n: int)
    requires Pending(dist, queue, settled)
    ensures Pending(dist[t := Fin(n)], queue + [(n, t)], settled)
  {
    var queue' := queue + [(n, t)];
    forall v | v in dist[t := Fin(n)] && dist[t := Fin(n)][v].Fin? && v !in settled
      ensures (dist[t := Fin(n)][v].n, v) in queue'
    {
      if v != t {
        assert (dist[v].n, v) in queue;
      }
    }
  }

  lemma LowerFinal(adj: Adjacency, start: int, dist: map<int, Dist>, settled: set<int>, t: int, n: int)
    requires Final(adj, start, dist, settled) && t !in settled
    ensures Final(adj, start, dist[t := Fin(n)], settled)
  {
  }

  /** Lowering the distance of target `ts[k]` keeps the relaxation facts, and adds one for `ts[k]`. */
  lemma LowerRelaxed(adj: Adjacency, u: int, d: int, dist: map<int, Dist>, settled: set<int>,
                     ts: seq<int>, k: nat, n: int)
    requires k < |ts| && ts[k] in dist && Improves(n, dist[ts[k]]) && ts[k] !in settled
    requires n == d + EdgeWeight(adj, u, ts[k])
    requires RelaxedFrom(adj, dist, settled - {u}) && RelaxedPrefix(adj, dist, u, d, ts, k)
    ensures RelaxedFrom(adj, dist[ts[k] := Fin(n)], settled - {u})
    ensures RelaxedPrefix(adj, dist[ts[k] := Fin(n)], u, d, ts, k + 1)
  {
  }

  /** One step of the relaxation loop that lowers the distance of `ts[k]`. */
  lemma LowerStep(adj: Adjacency, start: int, u: int, d: int, dist: map<int, Dist>,
                  queue: seq<Entry>, settled: set<int>, trail: map<int, seq<int>>,
                  ts: seq<int>, k: nat, n: int)
    requires ts == Targets(OutEdges(adj, u)) && k < |ts|
    requires Relaxing(adj, start, u, d, dist, queue, settled, trail, ts, k)
    requires ts[k] in dist && n == d + EdgeWeight(adj, u, ts[k]) && Improves(n, dist[ts[k]])
    ensures Relaxing(adj, start, u, d, dist[ts[k] := Fin(n)], queue + [(n, ts[k])], settled,
                     trail[ts[k] := trail[u] + [ts[k]]], ts, k + 1)
  {
    var t := ts[k];
    assert u in adj && t in Targets(adj[u]);
    LowerTarget(adj, start, u, d, dist, settled, trail, t, n);
    LowerWitnessed(adj, start, u, dist, trail, t, n);
    LowerQueued(dist, queue, t, n);
    LowerPending(dist, queue, settled, t, n);
    LowerFinal(adj, start, dist, settled, t, n);
    LowerRelaxed(adj, u, d, dist, settled, ts, k, n);
  }

  /** One step of the relaxation loop that leaves the distance of `ts[k]` as it is. */
  lemma KeepStep(adj: Adjacency, start: int, u: int, d: int, dist: map<int, Dist>,
                 queue: seq<Entry>, settled: set<int>, trail: map<int, seq<int>>,
                 ts: seq<int>, k: nat, n: int)
    requires k < |ts|
    requires Relaxing(adj, start, u, d, dist, queue, settled, trail, ts, k)
    requires ts[k] in dist && n == d + EdgeWeight(adj, u, ts[k]) && !Improves(n, dist[ts[k]])
    ensures Relaxing(adj, start, u, d, dist, queue, settled, trail, ts, k + 1)
  {
  }

  /** The body of the relaxation loop for the target `ts[k]`, which has a distance. */
  method RelaxEdge(adj: Adjacency, start: int, u: int, d: int, ts: seq<int>, k: nat,
                   dist: map<int, Dist>, queue: seq<Entry>, ghost settled: set<int>, ghost trail: map<int, seq<int>>)
    returns (dist': map<int, Dist>, queue': seq<Entry>, ghost trail': map<int, seq<int>>)
    requires ts == Targets(OutEdges(adj, u)) && k < |ts| && ts[k] in dist
    requires Relaxing(adj, start, u, d, dist, queue, settled, trail, ts, k)
    ensures Relaxing(adj, start, u, d, dist', queue', settled, trail', ts, k + 1)
    ensures NoLarger(dist', dist)
    ensures RelaxedAt(adj, dist, u, d) ==> dist' == dist && queue' == queue
  {
    var t := ts[k];
    var w := WeightTo(OutEdges(adj, u), t).value;
    var n := d + w;
    assert w == EdgeWeight(adj, u, t);
    if Improves(n, dist[t]) {
      LowerStep(adj, start, u, d, dist, queue, settled, trail, ts, k, n);
      dist', queue', trail' := dist[t := Fin(n)], queue + [(n, t)], trail[t := trail[u] + [t]];
    } else {
      KeepStep(adj, start, u, d, dist, queue, settled, trail, ts, k, n);
      dist', queue', trail' := dist, queue, trail;
    }
  }

  /**
   * The `for neighbor in current_vertex.get_edges()` loop: relax every edge out of `u`, which
   * was just settled at distance `d`. KeyError for a target that has no distance.
   */
  method Relax(adj: Adjacency, start: int, u: int, d: int, dist0: map<int, Dist>, queue0: seq<Entry>,
               ghost settled: set<int>, ghost trail0: map<int, seq<int>>)
    returns (r: Result<()>, dist: map<int, Dist>, queue: seq<Entry>, ghost trail: map<int, seq<int>>)
    requires Relaxing(adj, start, u, d, dist0, queue0, settled, trail0, Targets(OutEdges(adj, u)), 0)
    ensures r.Ok? ==> Tracking(adj, start, dist, queue, settled, trail)
    ensures r.Ok? ==> NoLarger(dist, dist0)
    ensures r.Err? ==> r.error == KeyError
    ensures Closed(adj) ==> r.Ok?
    ensures RelaxedAt(adj, dist0, u, d) ==> r.Ok? && dist == dist0 && queue == queue0
  {
    var ts := Targets(OutEdges(adj, u));
    dist, queue, trail := dist0, queue0, trail0;
    var k := 0;
    while k < |ts|
      invariant Relaxing(adj, start, u, d, dist, queue, settled, trail, ts, k)
      invariant NoLarger(dist, dist0)
      invariant RelaxedAt(adj, dist0, u, d) ==> dist == dist0 && queue == queue0
    {
      if ts[k] !in dist {
        assert u in adj && ts[k] in Targets(adj[u]);
        return Err(KeyError), dist, queue, trail;
      }
      dist, queue, trail := RelaxEdge(adj, start, u, d, ts, k, dist, queue, settled, trail);
      k := k + 1;
    }
    RelaxDone(adj, start, u, d, dist, queue, settled, trail, ts);
    r := Ok(());
  }

  /** After the last target, every edge out of a settled vertex is relaxed. */
  lemma RelaxDone(adj: Adjacency, start: int, u: int, d: int, dist: map<int, Dist>, queue: seq<Entry>,
                  settled: set<int>, trail: map<int, seq<int>>, ts: seq<int>)
    requires ts == Targets(OutEdges(adj, u))
    requires Relaxing(adj, start, u, d, dist, queue, settled, trail, ts, |ts|)
    ensures Tracking(adj, start, dist, queue, settled, trail)
  {
    assert RelaxedAt(adj, dist, u, d) by {
      forall t | t in ts
        ensures t in dist && dist[t].Fin? && dist[t].n <= d + EdgeWeight(adj, u, t)
      {
        var j :| 0 <= j < |ts| && ts[j] == t;
      }
    }
  }

  /** An empty queue leaves every distance final, and INFINITY exactly where no path leads. */
  lemma Exhausted(adj: Adjacency, start: int, dist: map<int, Dist>, settled: set<int>, trail: map<int, seq<int>>)
    requires Tracking(adj, start, dist, [], settled, trail)
    ensures forall v | v in dist && dist[v].Fin? :: Attained(adj, start, v, dist[v].n) && Lightest(adj, start, v, dist[v].n)
    ensures forall v | v in dist :: dist[v].Inf? <==> !Reachable(adj, start, v)
    ensures Triangle(adj, dist)
  {
    var finite := set v | v in dist && dist[v].Fin?;
    forall v | v in dist && dist[v].Fin?
      ensures Attained(adj, start, v, dist[v].n) && Reachable(adj, start, v)
    {
      assert Walk(adj, trail[v], start, v);
    }
    forall x, t | x in finite && x in adj && t in Targets(adj[x])
      ensures t in finite
    {
      assert x in settled;
    }
    forall v | v in dist && dist[v].Inf?
      ensures !Reachable(adj, start, v)
    {
      Unreachable(adj, start, finite, v);
    }
  }

  /** The initial state: INFINITY everywhere, 0 at the start, and one queue entry for the start. */
  lemma Begin(adj: Adjacency, start: int)
    requires NonNegative(adj)
    ensures Tracking(adj, start, (map v | v in adj :: Inf)[start := Fin(0)], [(0, start)], {}, map[start := [start]])
  {
    assert Walk(adj, [start], start, start);
  }

  /**
   * `dijkstra`: the distance of every graph vertex and of the start from the start. A finite
   * distance is the weight of some path and no path weighs less; INFINITY means no path.
   * KeyError when an edge leads to a vertex that is not in the graph.
   */
  method ShortestPaths(adj: Adjacency, start: int) returns (r: Result<map<int, Dist>>)
    requires NonNegative(adj)
    ensures r.Ok? ==> r.value.Keys == adj.Keys + {start} && r.value[start] == Fin(0)
    ensures r.Ok? ==> forall v | v in r.value && r.value[v].Fin? ::
      Attained(adj, start, v, r.value[v].n) && Lightest(adj, start, v, r.value[v].n)
    ensures r.Ok? ==> forall v | v in r.value :: r.value[v].Inf? <==> !Reachable(adj, start, v)
    ensures r.Ok? ==> Triangle(adj, r.value)
    ensures r.Err? ==> r.error == KeyError
    ensures Closed(adj) ==> r.Ok?
  {
    var dist := (map v | v in adj :: Inf)[start := Fin(0)];
    var queue: seq<Entry> := [(0, start)];
    ghost var settled: set<int> := {};
    ghost var trail := map[start := [start]];
    Begin(adj, start);
    while queue != []
      invariant Tracking(adj, start, dist, queue, settled, trail)
      decreases |(adj.Keys + {start}) - settled|, |queue|
    {
      var i := LightestEntry(queue);
      var (d, u) := queue[i];
      if Stale(d, dist[u]) {
        SkipKeeps(adj, start, dist, queue, settled, trail, i);
        queue := Without(queue, i);
      } else {
        SettleKeeps(adj, start, dist, queue, settled, trail, i);
        FewerUnvisited(adj.Keys + {start}, settled, u);
        var res;
        res, dist, queue, trail := Relax(adj, start, u, d, dist, Without(queue, i), settled + {u}, trail);
        if res.Err? {
          return Err(res.error);
        }
        settled := settled + {u};
      }
    }
    Exhausted(adj, start, dist, settled, trail);
    r := Ok(dist);
  }

  /**
   * A vertex joined to the start by a chain of zero-weight edges gets distance 0 from any
   * result of `ShortestPaths`, whose distances are attained and lightest.
   */
  lemma ZeroChain(adj: Adjacency, start: int, v: int, p: seq<int>, n: int)
    requires NonNegative(adj) && Walk(adj, p, start, v) && PathWeight(adj, p) == 0
    requires Attained(adj, start, v, n) && Lightest(adj, start, v, n)
    ensures n == 0
  {
    var q :| Walk(adj, q, start, v) && PathWeight(adj, q) == n;
  }

  // Python's heap compares whole `(distance, vertex)` tuples.

  /**
   * Python's `<` on two entries: the vertices are compared only when the distances are equal,
   * and distinct vertices cannot be ordered because the vertex class defines no ordering.
   */
  function EntryLess(a: Entry, b: Entry): (r: Result<bool>)
    ensures r.Err? <==> a.0 == b.0 && a.1 != b.1
    ensures r.Ok? ==> (r.value <==> a.0 < b.0)
  {
    if a.0 != b.0 then Ok(a.0 < b.0)
    else if a.1 == b.1 then Ok(false)
    else Err(TypeError("'<' not supported between instances of 'Vertex' and 'Vertex'"))
  }

  /**
   * The sift toward the root that `heappush` performs, moving `item` up from `pos`. It raises
   * only when the item meets an entry of equal distance and a different vertex.
   */
  function SiftUpAsWritten(heap: seq<Entry>, pos: nat, item: Entry): (r: Result<seq<Entry>>)
    requires pos < |heap|
    ensures r.Ok? ==> |r.value| == |heap|
    ensures r.Err? ==> exists k | 0 <= k < |heap| && k != pos :: heap[k].0 == item.0 && heap[k].1 != item.1
    decreases pos
  {
    if pos == 0 then Ok(heap[0 := item])
    else
      var parent := (pos - 1) / 2;
      match EntryLess(item, heap[parent])
      case Err(e) => Err(e)
      case Ok(less) =>
        if less then
          var r := SiftUpAsWritten(heap[pos := heap[parent]], parent, item);
          assert r.Err? ==> exists k | 0 <= k < |heap| && k != pos :: heap[k].0 == item.0 && heap[k].1 != item.1 by {
            if r.Err? {
              var k :| 0 <= k < |heap| && k != parent && heap[pos := heap[parent]][k].0 == item.0 &&
                heap[pos := heap[parent]][k].1 != item.1;
              assert k != pos;
            }
          }
          r
        else Ok(heap[pos := item])
  }

  /** `heappush` as the source uses it, on `(distance, vertex)` tuples. */
  function HeapPushAsWritten(heap: seq<Entry>, item: Entry): (r: Result<seq<Entry>>)
    ensures r.Ok? ==> |r.value| == |heap| + 1
    ensures r.Err? ==> exists k | 0 <= k < |heap| :: heap[k].0 == item.0 && heap[k].1 != item.1
  {
    var r := SiftUpAsWritten(heap + [item], |heap|, item);
    assert r.Err? ==> exists k | 0 <= k < |heap| :: heap[k].0 == item.0 && heap[k].1 != item.1 by {
      if r.Err? {
        var k :| 0 <= k < |heap| + 1 && k != |heap| && (heap + [item])[k].0 == item.0 && (heap + [item])[k].1 != item.1;
        assert heap[k] == (heap + [item])[k];
      }
    }
    r
  }

  /**
   * The graph 1 -> 2 (weight 1), 1 -> 3 (weight 1) from 1: after 1 is taken the heap is empty,
   * relaxing 2 pushes (1, 2) and relaxing 3 pushes (1, 3), which compares vertex 3 with vertex 2
   * and raises TypeError.
   */
  lemma TiedDistancesRaise()
    ensures HeapPushAsWritten([], (1, 2)) == Ok([(1, 2)])
    ensures HeapPushAsWritten([(1, 2)], (1, 3)).Err?
    ensures HeapPushAsWritten([(1, 2)], (1, 3)).error.TypeError?
  {
    assert [] + [(1, 2)] == [(1, 2)];
    assert [(1, 2)][0 := (1, 2)] == [(1, 2)];
  }
}
