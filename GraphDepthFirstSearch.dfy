/**
 * python/search/graph/graph_depth_first_search.py: recursive depth-first search that threads one
 * shared visited set through all calls. Each call marks its vertex, stops if it is the target,
 * and otherwise recurses into the unvisited targets in edge order; the visited set as it stands
 * when the target is met is the result. Here the shared set is passed in and handed back.
 */
module GraphDepthFirstSearch {
  import opened Wrappers
  import opened Graph

  /** What one call leaves behind: whether it met the target, and the shared visited set. */
  datatype Outcome = Outcome(found: bool, visited: set<int>)

  /** Every vertex visited since `before` is a graph vertex whose targets are all visited. */
  predicate Finished(adj: Adjacency, before: set<int>, after: set<int>)
  {
    forall x | x in after - before :: x in adj && forall t | t in Targets(adj[x]) :: t in after
  }

  /** Visiting more can only leave fewer graph vertices unvisited. */
  lemma FewerAfter(keys: set<int>, visited: set<int>, visited': set<int>)
    requires visited <= visited'
    ensures |keys - visited'| <= |keys - visited|
  {
    var gone := (keys - visited) - (keys - visited');
    assert keys - visited == (keys - visited') + gone;
    assert (keys - visited') * gone == {};
  }

  /** An edge in front of a reachable vertex keeps it reachable. */
  lemma ReachBack(adj: Adjacency, u: int, t: int, x: int)
    requires u in adj && t in Targets(adj[u]) && Reachable(adj, t, x)
    ensures Reachable(adj, u, x)
  {
    var p :| IsPath(adj, p) && p[0] == t && p[|p| - 1] == x;
    var q := [u] + p;
    forall i | 0 <= i < |q| - 1
      ensures q[i] in adj && q[i + 1] in Targets(adj[q[i]])
    {
      if i > 0 {
        assert q[i] == p[i - 1] && q[i + 1] == p[i];
      }
    }
    assert IsPath(adj, q) && q[0] == u && q[|q| - 1] == x;
  }

  /**
   * `search` on one vertex: mark `v` visited; `v` is the target, or `v` is looked up in the
   * graph (KeyError if absent) and its unvisited targets are searched in order.
   */
  function Search(adj: Adjacency, v: int, target: int, visited: set<int>): (r: Result<Outcome>)
    ensures r.Ok? ==> visited + {v} <= r.value.visited
    ensures r.Ok? && r.value.found ==> target in r.value.visited
    ensures r.Ok? ==> forall x | x in r.value.visited - visited :: Reachable(adj, v, x)
    ensures r.Ok? && !r.value.found ==> target !in r.value.visited - visited && Finished(adj, visited, r.value.visited)
    ensures Closed(adj) && (v in adj || v == target) ==> r.Ok?
    decreases |adj.Keys - visited| + (if v in visited then 1 else 0), 0
  {
    var marked := visited + {v};
    if v == target then
      ReachSelf(adj, v);
      Ok(Outcome(true, marked))
    else if v !in adj then Err(KeyError)
    else
      FewerUnvisited(adj.Keys, visited, v);
      var r := Neighbours(adj, v, 0, target, marked);
      ReachSelf(adj, v);
      r
  }

  /** The loop over `v`'s targets from position `i` on, skipping those already visited. */
  function Neighbours(adj: Adjacency, v: int, i: nat, target: int, visited: set<int>): (r: Result<Outcome>)
    requires v in adj && i <= |Targets(adj[v])|
    ensures r.Ok? ==> visited <= r.value.visited
    ensures r.Ok? && r.value.found ==> target in r.value.visited
    ensures r.Ok? ==> forall x | x in r.value.visited - visited :: Reachable(adj, v, x)
    ensures r.Ok? && !r.value.found ==>
      (target !in r.value.visited - visited && Finished(adj, visited, r.value.visited) &&
       forall j | i <= j < |Targets(adj[v])| :: Targets(adj[v])[j] in r.value.visited)
    ensures Closed(adj) ==> r.Ok?
    decreases |adj.Keys - visited|, 1, |Targets(adj[v])| - i
  {
    var ts := Targets(adj[v]);
    if i == |ts| then Ok(Outcome(false, visited))
    else if ts[i] in visited then Neighbours(adj, v, i + 1, target, visited)
    else
      match Search(adj, ts[i], target, visited)
      case Err(e) => Err(e)
      case Ok(o) =>
        assert forall x | x in o.visited - visited :: Reachable(adj, v, x) by {
          forall x | x in o.visited - visited
            ensures Reachable(adj, v, x)
          {
            ReachBack(adj, v, ts[i], x);
          }
        }
        if o.found then Ok(o)
        else
          FewerAfter(adj.Keys, visited, o.visited);
          Neighbours(adj, v, i + 1, target, o.visited)
  }

  /**
   * `GraphDepthFirstSearch.search` and its wrapper `dfs`: the visited set when the target is
   * found, None when it is not.
   */
  function Dfs(adj: Adjacency, start: int, target: int, visited: set<int> := {}): (r: Result<Option<set<int>>>)
    ensures r.Ok? && r.value.Some? ==> start in r.value.value && target in r.value.value && visited <= r.value.value
    ensures r.Ok? && r.value.Some? ==> forall x | x in r.value.value - visited :: Reachable(adj, start, x)
    ensures visited == {} && r.Ok? && r.value.None? ==> !Reachable(adj, start, target)
    ensures Closed(adj) && start in adj ==> r.Ok?
  {
    match Search(adj, start, target, visited)
    case Err(e) => Err(e)
    case Ok(o) =>
      if o.found then Ok(Some(o.visited))
      else if visited == {} then
        Unreachable(adj, start, o.visited, target);
        Ok(None)
      else Ok(None)
  }
}
