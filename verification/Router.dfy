/** Route calculation: the cache first, then a search over snapshots of the graph. */
module Router {
  import opened GoTypes
  import opened Graphs
  import opened Search
  import opened SearchProofs
  import opened Network
  import opened RouteCaching
  import Dijkstra

  datatype RouteResult = Routed(route: Route) | Refused(reason: Answer)

  const HOUR: nat := 3_600_000_000_000

  /** The route of a search from `from` to `to` that found `path`. */
  function NewRoute(from: Int32, to: Int32, path: seq<Int32>, latency: Int64, createdAt: int): Route {
    Route(from, to, path, latency, Wrap32(|path| - 1), createdAt)
  }

  /** A search over these snapshots may come out as `r`. */
  ghost predicate Searched(nodes: seq<Node>, edges: seq<Edge>, from: Int32, to: Int32, createdAt: int, r: RouteResult) {
    match r
    case Routed(route) =>
      exists path, latency ::
        && Outcome(Query(nodes, edges, from, to), Found(path, latency))
        && route == NewRoute(from, to, path, latency, createdAt)
    case Refused(reason) => !reason.Found? && Outcome(Query(nodes, edges, from, to), reason)
  }

  /** A search over some snapshots of `net` may come out as `r`. */
  ghost predicate SearchedIn(net: Net, from: Int32, to: Int32, createdAt: int, r: RouteResult) {
    exists nodes, edges ::
      ListsNodes(net, nodes) && ListsEdges(net, edges) && Searched(nodes, edges, from, to, createdAt, r)
  }

  /**
   * The ends of a found path are on it, except that the search for the sentinel returns no nodes.
   */
  lemma PathHoldsEnds(q: Query, path: seq<Int32>, latency: Int64)
    requires Outcome(q, Found(path, latency))
    ensures q.target != SENTINEL ==> q.source in path && q.target in path
    ensures q.target == SENTINEL ==> path == []
  {
    if q.target != SENTINEL {
      PathSound(q, path, latency);
      assert path[0] == q.source && path[|path| - 1] == q.target;
    } else {
      var n, st :| Ends(q, n, st, Found(path, latency));
    }
  }

  /** Hops counts the links of the path whenever the node count fits an int32. */
  lemma HopsCountLinks(q: Query, path: seq<Int32>, latency: Int64, createdAt: int)
    requires Outcome(q, Found(path, latency)) && q.target != SENTINEL && |q.G().ids| <= MAX_INT32
    ensures NewRoute(q.source, q.target, path, latency, createdAt).hops == |path| - 1 < |q.G().ids|
  {
    PathSound(q, path, latency);
  }

  /** A router's cache serves a route for an hour: 60 * 60 seconds of 10^9 nanoseconds. */
  lemma ServedForAnHour(c: Cache, r: Route, setAt: int, now: int)
    requires Filed(c)
    ensures CacheGet(CacheSet(c, HOUR, r, setAt), r.from, r.to, now) ==
      if now - setAt <= 60 * 60 * 1_000_000_000 then Some(r) else None
  {
    CacheByPair(c, HOUR, r, setAt, r.from, r.to, now);
  }

  /** The readings of the clock in a call: when looking up, when creating the route, when storing it. */
  datatype Clock = Clock(lookedUp: int, createdAt: int, storedAt: int)

  /**
   * What a call between `from` and `to` may return and leave in the cache: the trivial route, the
   * route it finds in the cache, or the outcome of a search, which is cached only if it succeeds.
   */
  ghost predicate Calculated(
    net: Net, ttl: nat, from: Int32, to: Int32, t: Clock, cache: Cache, r: RouteResult, cache': Cache)
  {
    if from == to then r == Routed(Route(from, to, [from], 0, 0, t.createdAt)) && cache' == cache
    else
      match CacheGet(cache, from, to, t.lookedUp)
      case Some(route) => r == Routed(route) && cache' == cache
      case None =>
        && SearchedIn(net, from, to, t.createdAt, r)
        && cache' == if r.Routed? then CacheSet(cache, ttl, r.route, t.storedAt) else cache
  }

  class DijkstraRouter {
    const cache: RouteCache

    constructor ()
      ensures fresh(cache) && cache.ttl == HOUR && cache.routes == map[] && Filed(cache.routes)
    {
      cache := new RouteCache(HOUR);
    }

    /** Only a successful search writes the cache, and the graph is only read. */
    method CalculateRoute(graph: NetworkGraph, from: Int32, to: Int32, t: Clock) returns (r: RouteResult)
      requires graph.View().Filed() && Filed(cache.routes)
      modifies cache
      ensures Filed(cache.routes)
      ensures Calculated(graph.View(), cache.ttl, from, to, t, old(cache.routes), r, cache.routes)
    {
      if from == to {
        return Routed(Route(from, to, [from], 0, 0, t.createdAt));
      }
      var cached := cache.Get(from, to, t.lookedUp);
      if cached.Some? {
        return Routed(cached.value);
      }
      var nodes := graph.GetNodeList();
      var edges := graph.GetEdgeList();
      var answer := Dijkstra.FindPath(Query(nodes, edges, from, to));
      if !answer.Found? {
        r := Refused(answer);
      } else {
        var route := NewRoute(from, to, answer.path, answer.latency, t.createdAt);
        r := Routed(route);
        cache.Set(route, t.storedAt);
      }
      assert Searched(nodes, edges, from, to, t.createdAt, r);
    }
  }
}
