/**
 * The adjacency-list graph of python/data_structures/Vertex.py and python/data_structures/Graph.py.
 * Vertices are identified by their values: an edge records the value of its target, and a
 * graph keys its vertices by value. The algorithms over graphs read the adjacency snapshot
 * `map<int, seq<Edge>>` (each vertex's outgoing edges in insertion order).
 */
module Graph {
  import opened Wrappers

  /** An outgoing edge: the value of its target vertex and its weight. */
  datatype Edge = Edge(target: int, weight: int)

  /** The weight an edge gets when none is given. */
  const DefaultWeight := 1

  type Adjacency = map<int, seq<Edge>>

  /** `get_edges`: the targets of an edge list in insertion order. */
  function Targets(es: seq<Edge>): seq<int>
  {
    seq(|es|, i requires 0 <= i < |es| => es[i].target)
  }

  /** The edges of a vertex are the values of a dictionary keyed by target: no target twice. */
  predicate UniqueTargets(es: seq<Edge>)
  {
    forall i, j | 0 <= i < j < |es| :: es[i].target != es[j].target
  }

  /** `get_edge_weight`: the weight of the edge to `t` (0 and negative weights included), or None. */
  function WeightTo(es: seq<Edge>, t: int): (r: Option<int>)
    ensures r.None? <==> t !in Targets(es)
    ensures r.Some? ==> Edge(t, r.value) in es
  {
    if es == [] then None
    else
      assert Targets(es) == [es[0].target] + Targets(es[1..]);
      if es[0].target == t then Some(es[0].weight) else WeightTo(es[1..], t)
  }

  /** `add_edge` on the edge dictionary: an existing edge to `t` is overwritten where it stands, otherwise a new one is appended. */
  function Put(es: seq<Edge>, t: int, w: int): seq<Edge>
  {
    if es == [] then [Edge(t, w)]
    else if es[0].target == t then [Edge(t, w)] + es[1..]
    else [es[0]] + Put(es[1..], t, w)
  }

  /** After `add_edge(t, w)` the edge to `t` weighs `w` and every other edge weighs what it did. */
  lemma {:induction false} PutWeights(es: seq<Edge>, t: int, w: int)
    ensures WeightTo(Put(es, t, w), t) == Some(w)
    ensures forall u | u != t :: WeightTo(Put(es, t, w), u) == WeightTo(es, u)
    decreases |es|
  {
    if es != [] && es[0].target != t {
      PutWeights(es[1..], t, w);
      assert Put(es, t, w)[1..] == Put(es[1..], t, w);
    }
  }

  /** `add_edge` keeps the targets in insertion order, with `t` appended only when it is new. */
  lemma {:induction false} PutTargets(es: seq<Edge>, t: int, w: int)
    ensures t in Targets(es) ==> Targets(Put(es, t, w)) == Targets(es)
    ensures t !in Targets(es) ==> Targets(Put(es, t, w)) == Targets(es) + [t]
    decreases |es|
  {
    if es != [] {
      assert Targets(es) == [es[0].target] + Targets(es[1..]);
      var r := Put(es, t, w);
      if es[0].target == t {
        assert r[1..] == es[1..];
        assert Targets(r) == [t] + Targets(es[1..]);
      } else {
        PutTargets(es[1..], t, w);
        assert r[1..] == Put(es[1..], t, w);
        assert Targets(r) == [es[0].target] + Targets(Put(es[1..], t, w));
      }
    }
  }

  /** `add_edge` never gives a vertex two edges to the same target. */
  lemma PutUnique(es: seq<Edge>, t: int, w: int)
    requires UniqueTargets(es)
    ensures UniqueTargets(Put(es, t, w))
  {
    PutTargets(es, t, w);
    var r := Put(es, t, w);
    var ts, rs := Targets(es), Targets(r);
    forall i, j | 0 <= i < j < |r|
      ensures r[i].target != r[j].target
    {
      assert rs[i] == r[i].target && rs[j] == r[j].target;
      if j < |es| {
        assert rs[i] == ts[i] && rs[j] == ts[j];
      } else {
        assert t !in ts && rs[i] == ts[i];
      }
    }
  }

  /** Every edge target is itself a vertex of the graph (no dangling edge). */
  predicate Closed(adj: Adjacency)
  {
    forall u, t | u in adj && t in Targets(adj[u]) :: t in adj
  }

  /** `p` follows edges of the graph: each vertex but the last has an edge to the next one. */
  predicate IsPath(adj: Adjacency, p: seq<int>)
  {
    p != [] && forall i | 0 <= i < |p| - 1 :: p[i] in adj && p[i + 1] in Targets(adj[p[i]])
  }

  /** `t` can be reached from `s` along edges (`s` reaches itself). */
  ghost predicate Reachable(adj: Adjacency, s: int, t: int)
  {
    exists p :: IsPath(adj, p) && p[0] == s && p[|p| - 1] == t
  }

  /** Appending an edge to a path gives a path. */
  lemma PathStep(adj: Adjacency, p: seq<int>, t: int)
    requires IsPath(adj, p) && p[|p| - 1] in adj && t in Targets(adj[p[|p| - 1]])
    ensures IsPath(adj, p + [t])
  {
    var q := p + [t];
    forall i | 0 <= i < |q| - 1
      ensures q[i] in adj && q[i + 1] in Targets(adj[q[i]])
    {
      if i < |p| - 1 {
        assert q[i] == p[i] && q[i + 1] == p[i + 1];
      }
    }
  }

  /** The start reaches itself by the one-vertex path. */
  lemma ReachSelf(adj: Adjacency, s: int)
    ensures Reachable(adj, s, s)
  {
    assert IsPath(adj, [s]);
  }

  /** Reachability extends along an edge. */
  lemma ReachStep(adj: Adjacency, s: int, u: int, t: int)
    requires Reachable(adj, s, u) && u in adj && t in Targets(adj[u])
    ensures Reachable(adj, s, t)
  {
    var p :| IsPath(adj, p) && p[0] == s && p[|p| - 1] == u;
    PathStep(adj, p, t);
    assert (p + [t])[0] == s;
  }

  /** A prefix of a path is a path. */
  lemma PathPrefix(adj: Adjacency, p: seq<int>, n: nat)
    requires IsPath(adj, p) && 0 < n <= |p|
    ensures IsPath(adj, p[..n])
  {
    forall i | 0 <= i < n - 1
      ensures p[..n][i] in adj && p[..n][i + 1] in Targets(adj[p[..n][i]])
    {
      assert p[..n][i] == p[i] && p[..n][i + 1] == p[i + 1];
    }
  }

  /** A set holding the start and closed under the edges of its vertices holds every vertex a path from the start visits. */
  lemma {:induction false} PathStaysIn(adj: Adjacency, s: int, vs: set<int>, p: seq<int>, i: nat)
    requires s in vs && forall u, t | u in vs && u in adj && t in Targets(adj[u]) :: t in vs
    requires IsPath(adj, p) && p[0] == s && i < |p|
    ensures p[i] in vs
    decreases i
  {
    if i > 0 {
      PathStaysIn(adj, s, vs, p, i - 1);
      assert p[i - 1] in adj && p[i] in Targets(adj[p[i - 1]]);
    }
  }

  /** What lies outside such a closed set is unreachable. */
  lemma Unreachable(adj: Adjacency, s: int, vs: set<int>, t: int)
    requires s in vs && forall u, x | u in vs && u in adj && x in Targets(adj[u]) :: x in vs
    requires t !in vs
    ensures !Reachable(adj, s, t)
  {
    forall p | IsPath(adj, p) && p[0] == s
      ensures p[|p| - 1] != t
    {
      PathStaysIn(adj, s, vs, p, |p| - 1);
    }
  }

  /** The list comprehension keeping the targets not yet visited, in order. */
  function Unvisited(ts: seq<int>, visited: set<int>): (r: seq<int>)
    ensures forall x | x in r :: x in ts && x !in visited
    ensures forall x | x in ts && x !in visited :: x in r
    ensures |r| <= |ts|
  {
    if ts == [] then []
    else if ts[0] in visited then Unvisited(ts[1..], visited)
    else [ts[0]] + Unvisited(ts[1..], visited)
  }

  /**
   * The invariant of a stack search from `s`: everything on the stack is reachable, and every
   * edge out of a visited vertex leads to a visited vertex or to one still on the stack.
   */
  ghost predicate Explored(adj: Adjacency, s: int, visited: set<int>, stack: seq<int>)
  {
    (forall x | x in stack :: Reachable(adj, s, x) && (Closed(adj) ==> x in adj)) &&
    (forall u, t | u in visited && u in adj && t in Targets(adj[u]) :: t in visited || t in stack)
  }

  /** Popping `v` and pushing its unvisited targets keeps the invariant. */
  lemma ExploreStep(adj: Adjacency, s: int, visited: set<int>, rest: seq<int>, v: int)
    requires Explored(adj, s, visited, rest + [v]) && v in adj
    ensures Explored(adj, s, visited + {v}, rest + Unvisited(Targets(adj[v]), visited + {v}))
  {
    var pushed := Unvisited(Targets(adj[v]), visited + {v});
    var stack := rest + pushed;
    assert v in rest + [v];
    forall x | x in stack
      ensures Reachable(adj, s, x) && (Closed(adj) ==> x in adj)
    {
      if x in rest {
        assert x in rest + [v];
      } else {
        ReachStep(adj, s, v, x);
      }
    }
    forall u, t | u in visited + {v} && u in adj && t in Targets(adj[u])
      ensures t in visited + {v} || t in stack
    {
      if u != v && t !in visited + {v} {
        assert t in rest + [v];
        assert t in rest;
      }
    }
  }

  /** Visiting a vertex of `keys` that was not yet visited leaves fewer unvisited. */
  lemma FewerUnvisited(keys: set<int>, visited: set<int>, v: int)
    requires v in keys
    ensures |keys - (visited + {v})| <= |keys - visited|
    ensures v !in visited ==> |keys - (visited + {v})| < |keys - visited|
  {
    if v !in visited {
      assert keys - visited == (keys - (visited + {v})) + {v};
    } else {
      assert keys - (visited + {v}) == keys - visited;
    }
  }

  /**
   * The stack loop of `find_path`: pop a vertex, mark it visited, stop if it is `e`, otherwise
   * push its targets that are not yet visited. A popped vertex that is not a key of the graph
   * raises KeyError.
   */
  method StackSearch(adj: Adjacency, s: int, e: int) returns (r: Result<bool>)
    requires s in adj && e in adj
    ensures r.Ok? ==> (r.value <==> Reachable(adj, s, e))
    ensures Closed(adj) ==> r.Ok?
  {
    var stack := [s];
    var visited: set<int> := {};
    ReachSelf(adj, s);
    while stack != []
      invariant visited <= adj.Keys && e !in visited
      invariant s in visited || stack == [s]
      invariant Explored(adj, s, visited, stack)
      decreases |adj.Keys - visited|, if stack != [] && stack[|stack| - 1] !in visited then 0 else 1, |stack|
    {
      var v := stack[|stack| - 1];
      ghost var rest := stack[..|stack| - 1];
      assert stack == rest + [v];
      if v == e {
        assert Reachable(adj, s, v);
        return Ok(true);
      }
      if v !in adj {
        assert !Closed(adj);
        return Err(KeyError);
      }
      var pushed := Unvisited(Targets(adj[v]), visited + {v});
      ExploreStep(adj, s, visited, rest, v);
      FewerUnvisited(adj.Keys, visited, v);
      visited := visited + {v};
      stack := stack[..|stack| - 1] + pushed;
    }
    Unreachable(adj, s, visited, e);
    return Ok(false);
  }

  /** `Vertex`: a value and its outgoing edges, a dictionary keyed by target in insertion order. */
  class Vertex {
    const value: int
    var edges: seq<Edge>

    ghost predicate Valid()
      reads this
    {
      UniqueTargets(edges)
    }

    /** A new vertex has no edges. */
    constructor (value: int)
      ensures this.value == value && edges == [] && Valid()
    {
      this.value := value;
      edges := [];
    }

    /** `add_edge`: set the edge to `target`, overwriting the weight of an existing one. */
    method AddEdge(target: int, weight: int := DefaultWeight)
      modifies this
      ensures edges == Put(old(edges), target, weight)
      ensures old(Valid()) ==> Valid()
      ensures WeightTo(edges, target) == Some(weight)
      ensures forall u | u != target :: WeightTo(edges, u) == WeightTo(old(edges), u)
    {
      PutWeights(edges, target, weight);
      if Valid() {
        PutUnique(edges, target, weight);
      }
      edges := Put(edges, target, weight);
    }
  }

  /** `add_edge` on the adjacency snapshot: the edge `f -> t` set to weight `w`. */
  function AddArc(adj: Adjacency, f: int, t: int, w: int): Adjacency
    requires f in adj
  {
    adj[f := Put(adj[f], t, w)]
  }

  /** `Graph`: directed or not, with its vertices keyed by value. */
  class Graph {
    const directed: bool
    var vertices: map<int, Vertex>

    ghost predicate Valid()
      reads this, vertices.Values
    {
      forall k | k in vertices :: vertices[k].value == k && vertices[k].Valid()
    }

    /** The outgoing edges of every vertex, keyed by the vertex's value. */
    function Adjacency(): Adjacency
      reads this, vertices.Values
    {
      map k | k in vertices :: vertices[k].edges
    }

    /** A new graph has no vertices. */
    constructor (directed: bool := false)
      ensures this.directed == directed && vertices == map[] && Valid()
    {
      this.directed := directed;
      vertices := map[];
    }

    /** `add_vertex`: key the vertex by its value, replacing any vertex with the same value. */
    method AddVertex(v: Vertex)
      requires Valid() && v.Valid()
      modifies this
      ensures vertices == old(vertices)[v.value := v] && Valid()
      ensures Adjacency() == old(Adjacency())[v.value := v.edges]
    {
      vertices := vertices[v.value := v];
    }

    /**
     * `add_edge`: the edge `from -> to`, and `to -> from` as well when undirected. A missing
     * `from` raises KeyError before anything changes; a missing `to` in an undirected graph
     * raises KeyError after the first edge is in place.
     */
    method AddEdge(from: Vertex, to: Vertex, weight: int := DefaultWeight) returns (r: Result<()>)
      requires Valid()
      modifies vertices.Values
      ensures Valid()
      ensures from.value !in vertices ==> r == Err(KeyError) && Adjacency() == old(Adjacency())
      ensures from.value in vertices && directed ==>
        (r == Ok(()) && Adjacency() == AddArc(old(Adjacency()), from.value, to.value, weight))
      ensures from.value in vertices && !directed && to.value !in vertices ==>
        (r == Err(KeyError) && Adjacency() == AddArc(old(Adjacency()), from.value, to.value, weight))
      ensures from.value in vertices && !directed && to.value in vertices ==>
        (r == Ok(()) &&
         Adjacency() == AddArc(AddArc(old(Adjacency()), from.value, to.value, weight), to.value, from.value, weight))
    {
      var f, t := from.value, to.value;
      if f !in vertices {
        return Err(KeyError);
      }
      ghost var a0 := Adjacency();
      var vf := vertices[f];
      vf.AddEdge(t, weight);
      forall k | k in vertices
        ensures Adjacency()[k] == AddArc(a0, f, t, weight)[k]
      {
        assert vertices[k].value == k;
      }
      assert Adjacency() == AddArc(a0, f, t, weight);
      if directed {
        return Ok(());
      }
      if t !in vertices {
        return Err(KeyError);
      }
      ghost var a1 := Adjacency();
      var vt := vertices[t];
      vt.AddEdge(f, weight);
      forall k | k in vertices
        ensures Adjacency()[k] == AddArc(a1, t, f, weight)[k]
      {
        assert vertices[k].value == k;
      }
      assert Adjacency() == AddArc(a1, t, f, weight);
      return Ok(());
    }

    /**
     * `find_path`: iterative depth-first search with a stack and a visited set. Both endpoints
     * must be vertices (KeyError otherwise); the answer is whether `end` is reachable from
     * `start`. Stepping onto an edge target that is not a vertex raises KeyError.
     */
    method FindPath(start: Vertex, end: Vertex) returns (r: Result<bool>)
      ensures start.value !in vertices || end.value !in vertices ==> r == Err(KeyError)
      ensures r.Ok? ==> (r.value <==> Reachable(Adjacency(), start.value, end.value))
      ensures start.value in vertices && end.value in vertices && Closed(Adjacency()) ==> r.Ok?
    {
      var s, e := start.value, end.value;
      if s !in vertices || e !in vertices {
        return Err(KeyError);
      }
      r := StackSearch(Adjacency(), s, e);
    }
  }
}
