/**
 * Whole runs of a router beside its network graph.  Each locked section is one step, so nodes,
 * edges and cache may change between the steps of a route calculation, and several calculations may
 * be under way at once.
 */
module RouterRuns {
  import opened GoTypes
  import opened Keys
  import opened Graphs
  import opened Search
  import opened SearchProofs
  import opened ShortestPaths
  import opened Limits
  import opened Network
  import opened RouteCaching
  import opened Router

  /** How far a route calculation has come. */
  datatype Call =
    | NeedsNodes(from: Int32, to: Int32)
    | NeedsEdges(from: Int32, to: Int32, nodes: seq<Node>)
    | HasBoth(from: Int32, to: Int32, nodes: seq<Node>, edges: seq<Edge>)

  datatype System = System(net: Net, cache: Cache, calls: map<nat, Call>, now: int)

  datatype Event =
    | NodeAdded(id: Int32, address: Bytes)
    | EdgeAdded(a: Int32, b: Int32, latency: Int64)
    | Hit(from: Int32, to: Int32, route: Route)
    | Missed(call: nat, from: Int32, to: Int32)
    | NodesRead(call: nat)
    | EdgesRead(call: nat)
    | Stored(call: nat, route: Route)
    | GaveUp(call: nat, reason: Answer)
    | Cleared
    | PeerDropped(peer: Int32)

  ghost predicate Initial(s: System) {
    s.net == Net(map[], map[]) && s.cache == map[] && s.calls == map[]
  }

  ghost predicate Step(ttl: nat, s: System, e: Event, s': System) {
    && s.now <= s'.now
    && match e
       case NodeAdded(id, address) => s' == s.(net := WithNode(s.net, id, address, s.now), now := s'.now)
       case EdgeAdded(a, b, latency) => s' == s.(net := WithEdge(s.net, a, b, latency), now := s'.now)
       case Hit(from, to, route) =>
         from != to && CacheGet(s.cache, from, to, s.now) == Some(route) && s' == s.(now := s'.now)
       case Missed(call, from, to) =>
         && from != to && CacheGet(s.cache, from, to, s.now) == None && call !in s.calls
         && s' == s.(calls := s.calls[call := NeedsNodes(from, to)], now := s'.now)
       case NodesRead(call) =>
         && call in s.calls && s.calls[call].NeedsNodes?
         && var c := s.calls[call];
            exists nodes ::
              && ListsNodes(s.net, nodes)
              && s' == s.(calls := s.calls[call := NeedsEdges(c.from, c.to, nodes)], now := s'.now)
       case EdgesRead(call) =>
         && call in s.calls && s.calls[call].NeedsEdges?
         && var c := s.calls[call];
            exists edges ::
              && ListsEdges(s.net, edges)
              && s' == s.(calls := s.calls[call := HasBoth(c.from, c.to, c.nodes, edges)], now := s'.now)
       case Stored(call, route) =>
         && call in s.calls && s.calls[call].HasBoth? && route.createdAt <= s.now
         && (var c := s.calls[call]; Searched(c.nodes, c.edges, c.from, c.to, route.createdAt, Routed(route)))
         && s' == s.(cache := CacheSet(s.cache, ttl, route, s.now), calls := s.calls - {call}, now := s'.now)
       case GaveUp(call, reason) =>
         && call in s.calls && s.calls[call].HasBoth?
         && (var c := s.calls[call]; Searched(c.nodes, c.edges, c.from, c.to, s.now, Refused(reason)))
         && s' == s.(calls := s.calls - {call}, now := s'.now)
       case Cleared => s' == s.(cache := map[], now := s'.now)
       case PeerDropped(peer) => s' == s.(cache := DropPeer(s.cache, peer), now := s'.now)
  }

  datatype Run = Run(ttl: nat, states: seq<System>, events: seq<Event>) {
    ghost predicate Valid() {
      && |states| == |events| + 1 && Initial(states[0])
      && forall i :: 0 <= i < |events| ==> StepAt(i)
    }

    ghost predicate StepAt(i: nat)
      requires i < |events| && |states| == |events| + 1
    {
      Step(ttl, states[i], events[i], states[i + 1])
    }
  }

  // ---------------------------------------------------------------------------------------------
  // What every step keeps
  // ---------------------------------------------------------------------------------------------

  lemma StepFiled(ttl: nat, s: System, e: Event, s': System)
    requires Step(ttl, s, e, s') && s.net.Filed() && Filed(s.cache)
    ensures s'.net.Filed() && Filed(s'.cache)
  {
  }

  lemma {:induction false} AlwaysFiled(run: Run, i: nat)
    requires run.Valid() && i < |run.states|
    ensures run.states[i].net.Filed() && Filed(run.states[i].cache)
  {
    if i > 0 {
      AlwaysFiled(run, i - 1);
      assert run.StepAt(i - 1);
      StepFiled(run.ttl, run.states[i - 1], run.events[i - 1], run.states[i]);
    }
  }

  /** `later` still has the nodes and the links of `earlier`. */
  ghost predicate Grown(earlier: Net, later: Net) {
    && earlier.nodes.Keys <= later.nodes.Keys
    && forall a, b :: Linked(earlier.G(), a, b) ==> Linked(later.G(), a, b)
  }

  lemma StepGrows(ttl: nat, s: System, e: Event, s': System)
    requires Step(ttl, s, e, s') && s.net.Filed()
    ensures Grown(s.net, s'.net)
  {
    if e.EdgeAdded? {
      forall x, y | Linked(s.net.G(), x, y)
        ensures Linked(s'.net.G(), x, y)
      {
        var edge :| edge in s.net.G().edges && edge.from == x && edge.to == y;
        var edge' := if x == e.a && y == e.b then Edge(x, y, e.latency) else edge;
        EdgesByPair(s.net, e.a, e.b, e.latency, edge');
      }
    }
  }

  /** Nodes and links are never removed, and the clock never goes back. */
  lemma {:induction false} NetworkGrows(run: Run, i: nat, j: nat)
    requires run.Valid() && i <= j < |run.states|
    ensures Grown(run.states[i].net, run.states[j].net) && run.states[i].now <= run.states[j].now
  {
    if i < j {
      NetworkGrows(run, i, j - 1);
      assert run.StepAt(j - 1);
      AlwaysFiled(run, j - 1);
      StepGrows(run.ttl, run.states[j - 1], run.events[j - 1], run.states[j]);
    }
  }

  /** The event adds a node that was not there, or an edge that was not there at that latency. */
  predicate Alters(net: Net, e: Event) {
    match e
    case NodeAdded(id, _) => id !in net.nodes
    case EdgeAdded(a, b, latency) => Edge(a, b, latency) !in net.edges.Values
    case _ => false
  }

  /** These are exactly the events that change the graph; adding what is already there is harmless. */
  lemma AltersExactly(ttl: nat, s: System, e: Event, s': System)
    requires Step(ttl, s, e, s') && s.net.Filed()
    ensures s'.net.G() == s.net.G() <==> !Alters(s.net, e)
  {
    match e
    case NodeAdded(id, address) =>
      assert id in s'.net.nodes;
    case EdgeAdded(a, b, latency) =>
      AddedEdge(s.net, a, b, latency);
    case _ =>
  }

  lemma AddedEdge(net: Net, a: Int32, b: Int32, latency: Int64)
    requires net.Filed()
    ensures WithEdge(net, a, b, latency).G() == net.G() <==> Edge(a, b, latency) in net.edges.Values
  {
    var net', added := WithEdge(net, a, b, latency), Edge(a, b, latency);
    EdgesByPair(net, a, b, latency, added);
    if added in net.edges.Values {
      forall e
        ensures e in net'.edges.Values <==> e in net.edges.Values
      {
        EdgesByPair(net, a, b, latency, e);
        if e in net.edges.Values && e.from == a && e.to == b {
          OneEdgePerPair(net, added, e);
        }
      }
      assert net'.edges.Values == net.edges.Values;
    }
  }

  lemma OneEdgePerPair(net: Net, e: Edge, e': Edge)
    requires net.Filed() && e in net.edges.Values && e' in net.edges.Values && e.from == e'.from && e.to == e'.to
    ensures e == e'
  {
  }

  /** No step from `i` up to `j` alters the graph. */
  ghost predicate Quiet(run: Run, i: nat, j: nat)
    requires |run.events| < |run.states|
  {
    forall k :: i <= k < j && k < |run.events| ==> !Alters(run.states[k].net, run.events[k])
  }

  lemma {:induction false} QuietKeepsNetwork(run: Run, i: nat, j: nat)
    requires run.Valid() && i <= j < |run.states| && Quiet(run, i, j)
    ensures run.states[i].net.G() == run.states[j].net.G()
  {
    if i < j {
      QuietKeepsNetwork(run, i, j - 1);
      QuietStep(run, j - 1);
    }
  }

  lemma QuietStep(run: Run, k: nat)
    requires run.Valid() && k < |run.events| && !Alters(run.states[k].net, run.events[k])
    ensures run.states[k + 1].net.G() == run.states[k].net.G()
  {
    assert run.StepAt(k);
    AlwaysFiled(run, k);
    AltersExactly(run.ttl, run.states[k], run.events[k], run.states[k + 1]);
  }

  lemma PathGrows(g: Graph, h: Graph, s: Int32, t: Int32, path: seq<Int32>)
    requires IsSimplePath(g, s, t, path) && g.ids <= h.ids
    requires forall a, b :: Linked(g, a, b) ==> Linked(h, a, b)
    ensures IsSimplePath(h, s, t, path)
  {
  }

  // ---------------------------------------------------------------------------------------------
  // Where a served route comes from
  // ---------------------------------------------------------------------------------------------

  /** The event would take the route out of the cache or replace it. */
  predicate Evicts(e: Event, route: Route) {
    match e
    case Cleared => true
    case PeerDropped(peer) => peer in route.path
    case Stored(_, other) => other.from == route.from && other.to == route.to
    case _ => false
  }

  /** Step `j` stored the entry, and nothing evicted it before step `i`. */
  ghost predicate StoredSince(run: Run, j: nat, i: nat, entry: CachedRoute) {
    && j < i <= |run.events| < |run.states|
    && run.events[j].Stored? && entry == CachedRoute(run.events[j].route, run.states[j].now + run.ttl)
    && forall k :: j < k < i ==> !Evicts(run.events[k], entry.route)
  }

  lemma EntryAfterStep(ttl: nat, s: System, e: Event, s': System, key: Bytes)
    requires Step(ttl, s, e, s') && Filed(s.cache) && key in s'.cache
    ensures
      || (e.Stored? && s'.cache[key] == CachedRoute(e.route, s.now + ttl))
      || (key in s.cache && s'.cache[key] == s.cache[key] && !Evicts(e, s.cache[key].route))
  {
    if e.Stored? && key in s.cache {
      CacheKeyInjective(e.route.from, e.route.to, s.cache[key].route.from, s.cache[key].route.to);
    }
  }

  lemma EntryAfterStepAt(run: Run, i: nat, key: Bytes)
    requires run.Valid() && i < |run.events| && key in run.states[i + 1].cache
    ensures var entry := run.states[i + 1].cache[key];
      || StoredSince(run, i, i + 1, entry)
      || (key in run.states[i].cache && run.states[i].cache[key] == entry && !Evicts(run.events[i], entry.route))
  {
    AlwaysFiled(run, i);
    assert run.StepAt(i);
    EntryAfterStep(run.ttl, run.states[i], run.events[i], run.states[i + 1], key);
  }

  /** Whatever the cache holds was stored by a step that nothing has evicted since. */
  lemma {:induction false} EntryStored(run: Run, i: nat, key: Bytes)
    requires run.Valid() && i <= |run.events| && key in run.states[i].cache
    ensures exists j: nat :: StoredSince(run, j, i, run.states[i].cache[key])
  {
    if i > 0 {
      EntryAfterStepAt(run, i - 1, key);
      var entry := run.states[i].cache[key];
      if !StoredSince(run, i - 1, i, entry) {
        EntryStored(run, i - 1, key);
        var j: nat :| StoredSince(run, j, i - 1, entry);
        assert StoredSince(run, j, i, entry);
      }
    }
  }

  /** Step `k` took the snapshot `nodes` for `call`. */
  ghost predicate TookNodes(run: Run, k: nat, call: nat, nodes: seq<Node>) {
    && k < |run.events| < |run.states|
    && run.events[k] == NodesRead(call) && ListsNodes(run.states[k].net, nodes)
  }

  /** Step `k` took the snapshot `edges` for `call`. */
  ghost predicate TookEdges(run: Run, k: nat, call: nat, edges: seq<Edge>) {
    && k < |run.events| < |run.states|
    && run.events[k] == EdgesRead(call) && ListsEdges(run.states[k].net, edges)
  }

  lemma {:induction false} NodesTaken(run: Run, i: nat, call: nat)
    requires run.Valid() && i < |run.states|
    requires call in run.states[i].calls && !run.states[i].calls[call].NeedsNodes?
    ensures exists k: nat :: k < i && TookNodes(run, k, call, run.states[i].calls[call].nodes)
  {
    if i > 0 {
      assert run.StepAt(i - 1);
      if run.events[i - 1] == NodesRead(call) {
        assert TookNodes(run, i - 1, call, run.states[i].calls[call].nodes);
      } else {
        NodesTaken(run, i - 1, call);
      }
    }
  }

  /** A calculation holds a node snapshot of one step and an edge snapshot of a later one. */
  ghost predicate TookBoth(run: Run, k1: nat, k2: nat, call: nat, nodes: seq<Node>, edges: seq<Edge>) {
    k1 < k2 && TookNodes(run, k1, call, nodes) && TookEdges(run, k2, call, edges)
  }

  lemma {:induction false} BothTaken(run: Run, i: nat, call: nat)
    requires run.Valid() && i < |run.states| && call in run.states[i].calls && run.states[i].calls[call].HasBoth?
    ensures exists k1: nat, k2: nat :: k2 < i &&
                                       var c := run.states[i].calls[call]; TookBoth(run, k1, k2, call, c.nodes, c.edges)
  {
    if i > 0 {
      assert run.StepAt(i - 1);
      if run.events[i - 1] == EdgesRead(call) {
        NodesTaken(run, i - 1, call);
        var c := run.states[i].calls[call];
        var k1: nat :| k1 < i - 1 && TookNodes(run, k1, call, c.nodes);
        assert TookBoth(run, k1, i - 1, call, c.nodes, c.edges);
      } else {
        BothTaken(run, i - 1, call);
      }
    }
  }

  /** A snapshot pair that a search turned into `route`, as step `j` stored it. */
  datatype Origin = Origin(k1: nat, k2: nat, j: nat, nodes: seq<Node>, edges: seq<Edge>) {
    function Q(route: Route): Query {
      Query(nodes, edges, route.from, route.to)
    }
  }

  /** `route` is the outcome of a search over nodes read at `k1` and edges read at `k2`, stored at `j`. */
  ghost predicate CameFrom(run: Run, o: Origin, route: Route) {
    && o.k2 < o.j < |run.events| && run.events[o.j].Stored? && run.events[o.j].route == route
    && TookBoth(run, o.k1, o.k2, run.events[o.j].call, o.nodes, o.edges)
    && Outcome(o.Q(route), Found(route.path, route.latency))
    && route.hops == Wrap32(|route.path| - 1)
  }

  lemma StoredCameFrom(run: Run, j: nat) returns (o: Origin)
    requires run.Valid() && j < |run.events| && run.events[j].Stored?
    ensures CameFrom(run, o, run.events[j].route) && o.j == j
  {
    assert run.StepAt(j);
    var call, route := run.events[j].call, run.events[j].route;
    var c := run.states[j].calls[call];
    BothTaken(run, j, call);
    var k1: nat, k2: nat :| k2 < j && TookBoth(run, k1, k2, call, c.nodes, c.edges);
    o := Origin(k1, k2, j, c.nodes, c.edges);
  }

  // ---------------------------------------------------------------------------------------------
  // Main results
  // ---------------------------------------------------------------------------------------------

  /** The snapshots of an origin are those of the graph at the two steps. */
  lemma OriginGraph(run: Run, o: Origin, route: Route)
    requires run.Valid() && CameFrom(run, o, route)
    ensures o.Q(route).G() == Graph(run.states[o.k1].net.nodes.Keys, run.states[o.k2].net.edges.Values)
  {
    AlwaysFiled(run, o.k1);
    SnapshotGraph(run.states[o.k1].net, run.states[o.k2].net, o.nodes, o.edges);
  }

  /**
   * A hit serves a route for the pair asked, stored at most the time-to-live before, not evicted
   * since, and found by a search over snapshots of the network.
   */
  lemma HitOrigin(run: Run, i: nat) returns (o: Origin)
    requires run.Valid() && i < |run.events| && run.events[i].Hit?
    ensures run.events[i].route.from == run.events[i].from && run.events[i].route.to == run.events[i].to
    ensures CameFrom(run, o, run.events[i].route) && o.j < i
    ensures run.states[i].now - run.states[o.j].now <= run.ttl
    ensures forall k :: o.j < k < i ==> !Evicts(run.events[k], run.events[i].route)
  {
    var s, from, to := run.states[i], run.events[i].from, run.events[i].to;
    assert run.StepAt(i);
    AlwaysFiled(run, i);
    ServedForPair(s.cache, from, to, s.now);
    EntryStored(run, i, CacheKey(from, to));
    var j: nat :| StoredSince(run, j, i, s.cache[CacheKey(from, to)]);
    o := StoredCameFrom(run, j);
  }

  /**
   * Torn snapshots are harmless: whatever was added between reading nodes and edges, a stored route
   * is a path of the network at the later read and ever after.
   */
  lemma RouteStaysPath(run: Run, o: Origin, route: Route, i: nat)
    requires run.Valid() && CameFrom(run, o, route) && o.k2 <= i < |run.states| && route.to != SENTINEL
    ensures IsSimplePath(run.states[i].net.G(), route.from, route.to, route.path)
  {
    OriginGraph(run, o, route);
    PathSound(o.Q(route), route.path, route.latency);
    NetworkGrows(run, o.k1, i);
    NetworkGrows(run, o.k2, i);
    PathGrows(o.Q(route).G(), run.states[i].net.G(), route.from, route.to, route.path);
  }

  /** A stored route is right for its pair of snapshots, torn or not. */
  lemma RouteCorrect(run: Run, o: Origin, route: Route)
    requires run.Valid() && CameFrom(run, o, route) && Tame(o.Q(route).G(), route.from) && SENTINEL !in Ids(o.nodes)
    ensures Correct(o.Q(route), Found(route.path, route.latency))
  {
    SearchCorrect(o.Q(route), Found(route.path, route.latency));
  }

  /** And it stays the cheapest in the network until the graph is altered. */
  lemma RouteStaysOptimal(run: Run, o: Origin, route: Route, i: nat)
    requires run.Valid() && CameFrom(run, o, route) && o.k2 <= i < |run.states| && Quiet(run, o.k1, i)
    requires Tame(o.Q(route).G(), route.from) && SENTINEL !in Ids(o.nodes)
    ensures IsLeastCost(run.states[i].net.G(), route.from, route.to, route.latency)
  {
    RouteCorrect(run, o, route);
    QuietGraph(run, o, route, i);
  }

  lemma QuietGraph(run: Run, o: Origin, route: Route, i: nat)
    requires run.Valid() && CameFrom(run, o, route) && o.k2 <= i < |run.states| && Quiet(run, o.k1, i)
    ensures o.Q(route).G() == run.states[i].net.G()
  {
    OriginGraph(run, o, route);
    QuietKeepsNetwork(run, o.k1, o.k2);
    QuietKeepsNetwork(run, o.k1, i);
  }

  /** Every route served from the cache is still a path of the present graph, perhaps at a stale latency. */
  lemma HitIsPresentPath(run: Run, i: nat)
    requires run.Valid() && i < |run.events| && run.events[i].Hit? && run.events[i].to != SENTINEL
    ensures IsSimplePath(run.states[i].net.G(), run.events[i].from, run.events[i].to, run.events[i].route.path)
  {
    var o := HitOrigin(run, i);
    RouteStaysPath(run, o, run.events[i].route, i);
  }

  /** After a peer's routes are dropped, nothing to or from it is served before such a route is stored again. */
  lemma DroppedPeerMisses(run: Run, k: nat, i: nat)
    requires run.Valid() && k < i < |run.events| && run.events[k].PeerDropped? && run.events[i].Hit?
    requires run.events[k].peer == run.events[i].from || run.events[k].peer == run.events[i].to
    requires run.events[i].to != SENTINEL
    ensures exists j :: k < j < i && run.events[j].Stored? && run.events[j].route == run.events[i].route
  {
    var o := HitOrigin(run, i);
    var route := run.events[i].route;
    PathHoldsEnds(o.Q(route), route.path, route.latency);
    assert Evicts(run.events[k], route);
  }

  /**
   * The exception above: dropping either end of a stored route removes it exactly when it does not
   * lead to the sentinel, whose path is empty.
   */
  lemma DropRemovesStored(run: Run, j: nat, c: Cache, key: Bytes, peer: Int32)
    requires run.Valid() && j < |run.events| && run.events[j].Stored?
    requires key in c && c[key].route == run.events[j].route
    requires peer == c[key].route.from || peer == c[key].route.to
    ensures key !in DropPeer(c, peer) <==> c[key].route.to != SENTINEL
  {
    var o := StoredCameFrom(run, j);
    PathHoldsEnds(o.Q(c[key].route), c[key].route.path, c[key].route.latency);
  }

  /** And no drop at all removes a stored route to the sentinel. */
  lemma SentinelRouteStays(run: Run, j: nat, c: Cache, key: Bytes, peer: Int32)
    requires run.Valid() && j < |run.events| && run.events[j].Stored? && run.events[j].route.to == SENTINEL
    requires key in c && c[key].route == run.events[j].route
    ensures key in DropPeer(c, peer) && DropPeer(c, peer)[key] == c[key]
  {
    var o := StoredCameFrom(run, j);
    PathHoldsEnds(o.Q(c[key].route), c[key].route.path, c[key].route.latency);
  }

  /** Step `j` is a calculation from `from` to `to` that gave up after reading nodes at `k1` and edges at `k2`. */
  ghost predicate GaveUpFrom(run: Run, o: Origin, from: Int32, to: Int32) {
    && o.k2 < o.j < |run.events| < |run.states| && run.events[o.j].GaveUp?
    && run.events[o.j].call in run.states[o.j].calls
    && run.states[o.j].calls[run.events[o.j].call] == HasBoth(from, to, o.nodes, o.edges)
    && TookBoth(run, o.k1, o.k2, run.events[o.j].call, o.nodes, o.edges)
  }

  lemma {:induction false} WalkGrows(g: Graph, h: Graph, s: Int32, t: Int32, w: seq<Edge>)
    requires IsWalk(g, s, t, w) && g.ids <= h.ids
    requires forall a, b :: Linked(g, a, b) ==> Linked(h, a, b)
    ensures Connected(h, s, t)
    decreases |w|
  {
    if w == [] {
      assert IsWalk(h, s, t, []);
    } else {
      var e := w[|w| - 1];
      WalkGrows(g, h, s, e.from, w[..|w| - 1]);
      assert Linked(g, e.from, t);
      var w' :| IsWalk(h, s, e.from, w');
      var e' :| e' in h.edges && e'.from == e.from && e'.to == t;
      assert (w' + [e'])[..|w'|] == w';
      assert IsWalk(h, s, t, w' + [e']);
    }
  }

  lemma NoPathThen(run: Run, o: Origin, from: Int32, to: Int32)
    requires run.Valid() && GaveUpFrom(run, o, from, to) && Outcome(Query(o.nodes, o.edges, from, to), NoPath)
    requires Tame(Query(o.nodes, o.edges, from, to).G(), from) && SENTINEL !in Ids(o.nodes)
    ensures !Connected(run.states[o.k1].net.G(), from, to)
  {
    var q, g := Query(o.nodes, o.edges, from, to), run.states[o.k1].net.G();
    SearchCorrect(q, NoPath);
    AlwaysFiled(run, o.k1);
    SnapshotGraph(run.states[o.k1].net, run.states[o.k2].net, o.nodes, o.edges);
    NetworkGrows(run, o.k1, o.k2);
    if Connected(g, from, to) {
      var w :| IsWalk(g, from, to, w);
      WalkGrows(g, Graph(g.ids, run.states[o.k2].net.edges.Values), from, to, w);
    }
  }

  /**
   * A calculation that gives up does so for one of three reasons, each true when it read the nodes:
   * its source is not in the network; or its target is not; or both are, and over tame snapshots,
   * torn or not, there is no way from the one to the other.
   */
  lemma RefusalWasTrue(run: Run, j: nat) returns (o: Origin, from: Int32, to: Int32)
    requires run.Valid() && j < |run.events| && run.events[j].GaveUp?
    ensures GaveUpFrom(run, o, from, to) && o.j == j
    ensures var reason, g := run.events[j].reason, run.states[o.k1].net.G();
      && (reason == SourceMissing <==> from !in g.ids)
      && (reason == TargetMissing <==> from in g.ids && to !in g.ids)
      && (reason == NoPath <==> from in g.ids && to in g.ids)
      && (reason == NoPath && Tame(Query(o.nodes, o.edges, from, to).G(), from) && SENTINEL !in Ids(o.nodes) ==>
            !Connected(g, from, to))
  {
    assert run.StepAt(j);
    var call := run.events[j].call;
    var c := run.states[j].calls[call];
    BothTaken(run, j, call);
    var k1: nat, k2: nat :| k2 < j && TookBoth(run, k1, k2, call, c.nodes, c.edges);
    o, from, to := Origin(k1, k2, j, c.nodes, c.edges), c.from, c.to;
    AlwaysFiled(run, k1);
    SnapshotGraph(run.states[k1].net, run.states[k2].net, o.nodes, o.edges);
    if run.events[j].reason == NoPath && Tame(Query(o.nodes, o.edges, from, to).G(), from)
       && SENTINEL !in Ids(o.nodes) {
      NoPathThen(run, o, from, to);
    }
  }

  // ---------------------------------------------------------------------------------------------
  // A run that stores a route to the sentinel
  // ---------------------------------------------------------------------------------------------

  lemma Extend(run: Run, e: Event, s: System) returns (run': Run)
    requires run.Valid() && Step(run.ttl, run.states[|run.events|], e, s)
    ensures run' == Run(run.ttl, run.states + [s], run.events + [e]) && run'.Valid()
    ensures run'.states[|run'.events|] == s
  {
    run' := Run(run.ttl, run.states + [s], run.events + [e]);
    forall i | 0 <= i < |run'.events|
      ensures run'.StepAt(i)
    {
      assert i < |run.events| ==> run.StepAt(i);
    }
  }

  /** The network of a node 0 with an edge to a node called -1. */
  const SENTINEL_NET: Net :=
    WithEdge(WithNode(WithNode(Net(map[], map[]), 0, [], 0), SENTINEL, [], 0), 0, SENTINEL, 1)

  lemma SentinelSnapshots()
    ensures ListsNodes(SENTINEL_NET, [Node(0, [], 0), Node(SENTINEL, [], 0)])
    ensures ListsEdges(SENTINEL_NET, [Edge(0, SENTINEL, 1)])
  {
    var net := SENTINEL_NET;
    assert net.nodes == map[0 := Node(0, [], 0), SENTINEL := Node(SENTINEL, [], 0)];
    assert net.edges == map[EdgeKey(0, SENTINEL) := Edge(0, SENTINEL, 1)];
    assert net.nodes[0] in net.nodes.Values && net.nodes[SENTINEL] in net.nodes.Values;
    assert net.edges[EdgeKey(0, SENTINEL)] in net.edges.Values;
    assert net.nodes.Keys == {0, SENTINEL} && net.edges.Keys == {EdgeKey(0, SENTINEL)};
  }

  lemma SentinelSearched(nodes: seq<Node>, e: Edge)
    requires e == Edge(0, SENTINEL, 1) && 0 in Ids(nodes) && SENTINEL in Ids(nodes)
    ensures Searched(nodes, [e], 0, SENTINEL, 0, Routed(NewRoute(0, SENTINEL, [], 1, 0)))
  {
    ToSentinelFails(Query(nodes, [e], 0, SENTINEL), e);
  }

  lemma SentinelNetRun(ttl: nat) returns (run: Run)
    ensures run.Valid() && run.ttl == ttl && run.states[|run.events|] == System(SENTINEL_NET, map[], map[], 0)
  {
    var s0 := System(Net(map[], map[]), map[], map[], 0);
    var s1 := s0.(net := WithNode(s0.net, 0, [], 0));
    var s2 := s1.(net := WithNode(s1.net, SENTINEL, [], 0));
    run := Run(ttl, [s0], []);
    run := Extend(run, NodeAdded(0, []), s1);
    run := Extend(run, NodeAdded(SENTINEL, []), s2);
    run := Extend(run, EdgeAdded(0, SENTINEL, 1), s2.(net := SENTINEL_NET));
  }

  /** There is a run that stores a route to the sentinel, with no node on its path. */
  lemma SentinelIsStored(ttl: nat) returns (run: Run, j: nat)
    ensures run.Valid() && run.ttl == ttl && j < |run.events| && run.events[j].Stored?
    ensures run.events[j].route.to == SENTINEL && run.events[j].route.path == []
  {
    run := SentinelNetRun(ttl);
    SentinelSnapshots();
    var nodes, e := [Node(0, [], 0), Node(SENTINEL, [], 0)], Edge(0, SENTINEL, 1);
    var s := System(SENTINEL_NET, map[], map[], 0);
    var s4, s5, s6 := s.(calls := map[0 := NeedsNodes(0, SENTINEL)]),
                      s.(calls := map[0 := NeedsEdges(0, SENTINEL, nodes)]),
                      s.(calls := map[0 := HasBoth(0, SENTINEL, nodes, [e])]);
    run := Extend(run, Missed(0, 0, SENTINEL), s4);
    run := Extend(run, NodesRead(0), s5);
    run := Extend(run, EdgesRead(0), s6);
    assert nodes[0].id in Ids(nodes) && nodes[1].id in Ids(nodes);
    SentinelSearched(nodes, e);
    var route := NewRoute(0, SENTINEL, [], 1, 0);
    j := |run.events|;
    run := Extend(run, Stored(0, route), s6.(cache := CacheSet(map[], ttl, route, 0), calls := s6.calls - {0}));
  }
}
