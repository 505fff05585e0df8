/**
 * One route calculation on its own against the runs in which calculations take turns: a call that
 * nothing interrupts is a stretch of a run, and an uninterrupted stretch of a run is a call.
 */
module RouterCalls {
  import opened GoTypes
  import opened Graphs
  import opened Search
  import opened SearchProofs
  import opened ShortestPaths
  import opened Limits
  import opened Network
  import opened RouteCaching
  import opened Router
  import opened RouterRuns

  /** The step that ends a calculation whose search came out as `r`. */
  function Ending(call: nat, r: RouteResult): Event {
    match r
    case Routed(route) => Stored(call, route)
    case Refused(reason) => GaveUp(call, reason)
  }

  /** The steps of an uninterrupted call with the result `r` between different peers: one for a hit, four for a miss. */
  function CallEvents(call: nat, from: Int32, to: Int32, hit: bool, r: RouteResult): seq<Event> {
    if hit && r.Routed? then [Hit(from, to, r.route)]
    else [Missed(call, from, to), NodesRead(call), EdgesRead(call), Ending(call, r)]
  }

  /** The system after the call: the cache as the call leaves it, the clock where the call read it last. */
  function AfterCall(s: System, t: Clock, cache': Cache): System {
    s.(cache := cache', now := t.storedAt)
  }

  ghost predicate ClockFits(s: System, t: Clock) {
    s.now == t.lookedUp <= t.createdAt <= t.storedAt
  }

  // ---------------------------------------------------------------------------------------------
  // A call as a stretch of a run
  // ---------------------------------------------------------------------------------------------

  /** The system while the call is under way. */
  function Under(s: System, call: nat, c: Call, now: int): System {
    s.(calls := s.calls[call := c], now := now)
  }

  lemma ReadsNodes(ttl: nat, s: System, call: nat, from: Int32, to: Int32, nodes: seq<Node>)
    requires ListsNodes(s.net, nodes)
    ensures Step(ttl, Under(s, call, NeedsNodes(from, to), s.now), NodesRead(call),
                 Under(s, call, NeedsEdges(from, to, nodes), s.now))
  {
    var s1, s2 := Under(s, call, NeedsNodes(from, to), s.now), Under(s, call, NeedsEdges(from, to, nodes), s.now);
    assert s2.calls == s1.calls[call := NeedsEdges(from, to, nodes)];
  }

  lemma ReadsEdges(
    ttl: nat, s: System, call: nat, from: Int32, to: Int32, nodes: seq<Node>, edges: seq<Edge>, now: int)
    requires ListsEdges(s.net, edges) && s.now <= now
    ensures Step(ttl, Under(s, call, NeedsEdges(from, to, nodes), s.now), EdgesRead(call),
                 Under(s, call, HasBoth(from, to, nodes, edges), now))
  {
    var s2 := Under(s, call, NeedsEdges(from, to, nodes), s.now);
    var s3 := Under(s, call, HasBoth(from, to, nodes, edges), now);
    assert s3.calls == s2.calls[call := HasBoth(from, to, nodes, edges)];
  }

  /** The cache that a call with the result `r` leaves after a miss. */
  function CacheAfter(ttl: nat, cache: Cache, r: RouteResult, storedAt: int): Cache {
    if r.Routed? then CacheSet(cache, ttl, r.route, storedAt) else cache
  }

  lemma EndsCall(
    ttl: nat, s: System, call: nat, from: Int32, to: Int32, t: Clock, nodes: seq<Node>, edges: seq<Edge>,
    r: RouteResult)
    requires ClockFits(s, t) && call !in s.calls && Searched(nodes, edges, from, to, t.createdAt, r)
    ensures Step(ttl, Under(s, call, HasBoth(from, to, nodes, edges), t.storedAt), Ending(call, r),
                 AfterCall(s, t, CacheAfter(ttl, s.cache, r, t.storedAt)))
  {
    var s3 := Under(s, call, HasBoth(from, to, nodes, edges), t.storedAt);
    assert s3.calls - {call} == s.calls;
  }

  /** The call may be carried out after the run, starting with a miss, over these snapshots. */
  ghost predicate MissesNow(
    run: Run, call: nat, from: Int32, to: Int32, t: Clock, nodes: seq<Node>, edges: seq<Edge>)
    requires run.Valid()
  {
    var s := run.states[|run.events|];
    && ClockFits(s, t) && from != to && CacheGet(s.cache, from, to, t.lookedUp) == None && call !in s.calls
    && ListsNodes(s.net, nodes) && ListsEdges(s.net, edges)
  }

  lemma MissReads(run: Run, call: nat, from: Int32, to: Int32, t: Clock, nodes: seq<Node>, edges: seq<Edge>)
    returns (run': Run)
    requires run.Valid() && MissesNow(run, call, from, to, t, nodes, edges)
    ensures run'.Valid() && run'.ttl == run.ttl
    ensures run'.events == run.events + [Missed(call, from, to), NodesRead(call), EdgesRead(call)]
    ensures run'.states[|run'.events|] ==
      Under(run.states[|run.events|], call, HasBoth(from, to, nodes, edges), t.storedAt)
  {
    var s := run.states[|run.events|];
    run' := Extend(run, Missed(call, from, to), Under(s, call, NeedsNodes(from, to), s.now));
    ReadsNodes(run.ttl, s, call, from, to, nodes);
    run' := Extend(run', NodesRead(call), Under(s, call, NeedsEdges(from, to, nodes), s.now));
    ReadsEdges(run.ttl, s, call, from, to, nodes, edges, t.storedAt);
    run' := Extend(run', EdgesRead(call), Under(s, call, HasBoth(from, to, nodes, edges), t.storedAt));
  }

  /** A miss: the run goes on by four steps, ending in what the search gave. */
  lemma MissExtends(
    run: Run, call: nat, from: Int32, to: Int32, t: Clock, nodes: seq<Node>, edges: seq<Edge>, r: RouteResult)
    returns (run': Run)
    requires run.Valid() && MissesNow(run, call, from, to, t, nodes, edges)
    requires Searched(nodes, edges, from, to, t.createdAt, r)
    ensures run'.Valid() && run'.ttl == run.ttl
    ensures run'.events == run.events + CallEvents(call, from, to, false, r)
    ensures var s := run.states[|run.events|];
      run'.states[|run'.events|] == AfterCall(s, t, CacheAfter(run.ttl, s.cache, r, t.storedAt))
  {
    var s := run.states[|run.events|];
    run' := MissReads(run, call, from, to, t, nodes, edges);
    EndsCall(run.ttl, s, call, from, to, t, nodes, edges, r);
    run' := Extend(run', Ending(call, r), AfterCall(s, t, CacheAfter(run.ttl, s.cache, r, t.storedAt)));
  }

  /** Any call is a stretch of a run: after any run it can be carried out step by step, to the same effect. */
  lemma CallIsStretch(run: Run, call: nat, from: Int32, to: Int32, t: Clock, r: RouteResult, cache': Cache)
    returns (run': Run)
    requires run.Valid() && ClockFits(run.states[|run.events|], t) && call !in run.states[|run.events|].calls
    requires var s := run.states[|run.events|];
      from != to && Calculated(s.net, run.ttl, from, to, t, s.cache, r, cache')
    ensures var s := run.states[|run.events|];
      && run'.Valid() && run'.ttl == run.ttl
      && run'.events == run.events + CallEvents(call, from, to, CacheGet(s.cache, from, to, t.lookedUp).Some?, r)
      && run'.states[|run'.events|] == AfterCall(s, t, cache')
  {
    var s := run.states[|run.events|];
    match CacheGet(s.cache, from, to, t.lookedUp)
    case Some(route) =>
      run' := Extend(run, Hit(from, to, r.route), s.(now := t.storedAt));
    case None =>
      var nodes, edges :| ListsNodes(s.net, nodes) && ListsEdges(s.net, edges)
        && Searched(nodes, edges, from, to, t.createdAt, r);
      run' := MissExtends(run, call, from, to, t, nodes, edges, r);
  }

  // ---------------------------------------------------------------------------------------------
  // A stretch of a run as a call
  // ---------------------------------------------------------------------------------------------

  /** Steps `j` to `j + 3` of the run are a whole calculation that missed the cache. */
  ghost predicate Uninterrupted(run: Run, j: nat, call: nat, from: Int32, to: Int32, r: RouteResult) {
    && j + 4 <= |run.events| < |run.states|
    && run.events[j] == Missed(call, from, to) && run.events[j + 1] == NodesRead(call)
    && run.events[j + 2] == EdgesRead(call) && run.events[j + 3] == Ending(call, r)
  }

  lemma SnapshotsOf(run: Run, j: nat, call: nat, from: Int32, to: Int32, r: RouteResult)
    returns (nodes: seq<Node>, edges: seq<Edge>)
    requires run.Valid() && Uninterrupted(run, j, call, from, to, r)
    ensures ListsNodes(run.states[j].net, nodes) && ListsEdges(run.states[j].net, edges)
    ensures call !in run.states[j].calls && CacheGet(run.states[j].cache, from, to, run.states[j].now) == None
    ensures run.states[j + 3] == Under(run.states[j], call, HasBoth(from, to, nodes, edges), run.states[j + 3].now)
  {
    assert run.StepAt(j) && run.StepAt(j + 1) && run.StepAt(j + 2);
    nodes, edges := run.states[j + 3].calls[call].nodes, run.states[j + 3].calls[call].edges;
  }

  /** When the route was created, as far as the run tells. */
  function CreatedAt(r: RouteResult, now: int): int {
    if r.Routed? then r.route.createdAt else now
  }

  lemma EndedCall(
    ttl: nat, s: System, call: nat, from: Int32, to: Int32, nodes: seq<Node>, edges: seq<Edge>, now: int,
    r: RouteResult, s': System)
    requires call !in s.calls && Step(ttl, Under(s, call, HasBoth(from, to, nodes, edges), now), Ending(call, r), s')
    ensures Searched(nodes, edges, from, to, CreatedAt(r, now), r)
    ensures s'.cache == CacheAfter(ttl, s.cache, r, now) && s'.net == s.net && s'.calls == s.calls
  {
    assert Under(s, call, HasBoth(from, to, nodes, edges), now).calls - {call} == s.calls;
  }

  /** An uninterrupted stretch of a run returns and caches what a call may, and leaves all else as it was. */
  lemma StretchIsCall(run: Run, j: nat, call: nat, from: Int32, to: Int32, r: RouteResult)
    requires run.Valid() && Uninterrupted(run, j, call, from, to, r)
    ensures var s, s3, s' := run.states[j], run.states[j + 3], run.states[j + 4];
      && Calculated(s.net, run.ttl, from, to, Clock(s.now, CreatedAt(r, s3.now), s3.now), s.cache, r, s'.cache)
      && s'.net == s.net && s'.calls == s.calls
  {
    var nodes, edges := SnapshotsOf(run, j, call, from, to, r);
    var s, s3 := run.states[j], run.states[j + 3];
    assert run.StepAt(j) && run.StepAt(j + 3);
    EndedCall(run.ttl, s, call, from, to, nodes, edges, s3.now, r, run.states[j + 4]);
  }

  /** And so does a step that hits, by itself. */
  lemma HitIsCall(run: Run, j: nat)
    requires run.Valid() && j < |run.events| && run.events[j].Hit?
    ensures var s, e, s' := run.states[j], run.events[j], run.states[j + 1];
      && Calculated(s.net, run.ttl, e.from, e.to, Clock(s.now, s.now, s.now), s.cache, Routed(e.route), s'.cache)
      && s'.net == s.net && s'.calls == s.calls
  {
    assert run.StepAt(j);
  }

  // ---------------------------------------------------------------------------------------------
  // What a call answers
  // ---------------------------------------------------------------------------------------------

  /** The route is for the pair asked for, and its path is one of the present graph. */
  ghost predicate IsRouteOf(g: Graph, from: Int32, to: Int32, route: Route) {
    && route.from == from && route.to == to && route.hops == Wrap32(|route.path| - 1)
    && (to != SENTINEL && from in g.ids ==> IsSimplePath(g, from, to, route.path))
    && (to == SENTINEL != from ==> route.path == [])
  }

  /** A call that goes to the cache gives the route of a step that hits after the run. */
  lemma HitAnswers(run: Run, from: Int32, to: Int32, t: Clock, r: RouteResult, cache': Cache)
    requires run.Valid() && ClockFits(run.states[|run.events|], t) && from != to
    requires var s := run.states[|run.events|];
      CacheGet(s.cache, from, to, t.lookedUp).Some? && Calculated(s.net, run.ttl, from, to, t, s.cache, r, cache')
    ensures r.Routed? && IsRouteOf(run.states[|run.events|].net.G(), from, to, r.route)
    ensures cache' == run.states[|run.events|].cache
  {
    var s, j := run.states[|run.events|], |run.events|;
    var run' := Extend(run, Hit(from, to, r.route), s.(now := t.storedAt));
    assert run'.states[j] == s;
    var o := HitOrigin(run', j);
    PathHoldsEnds(o.Q(r.route), r.route.path, r.route.latency);
    if to != SENTINEL {
      HitIsPresentPath(run', j);
    }
  }

  /** The graph that a search over two snapshots of one network sees. */
  lemma SearchedGraph(net: Net, from: Int32, to: Int32, createdAt: int, r: RouteResult) returns (q: Query)
    requires net.Filed() && SearchedIn(net, from, to, createdAt, r)
    ensures q.G() == net.G() && q.source == from && q.target == to
    ensures match r
            case Routed(route) =>
              route == NewRoute(from, to, route.path, route.latency, createdAt)
              && Outcome(q, Found(route.path, route.latency))
            case Refused(reason) => !reason.Found? && Outcome(q, reason)
  {
    var nodes, edges :| ListsNodes(net, nodes) && ListsEdges(net, edges)
      && Searched(nodes, edges, from, to, createdAt, r);
    q := Query(nodes, edges, from, to);
    SnapshotGraph(net, net, nodes, edges);
  }

  /** What the right answer is after a miss over a tame network. */
  ghost predicate RightAnswer(g: Graph, from: Int32, to: Int32, r: RouteResult) {
    match r
    case Routed(route) => IsLeastCost(g, from, to, route.latency)
    case Refused(NoPath) => from in g.ids && to in g.ids && !Connected(g, from, to)
    case Refused(_) => true
  }

  /** A miss gives a new route of this moment, or a reason that is true; the cheapest route if the network is tame. */
  lemma MissAnswers(net: Net, from: Int32, to: Int32, createdAt: int, r: RouteResult)
    requires net.Filed() && from != to && SearchedIn(net, from, to, createdAt, r)
    ensures r.Routed? ==> IsRouteOf(net.G(), from, to, r.route) && r.route.createdAt == createdAt
    ensures r == Refused(SourceMissing) <==> from !in net.nodes
    ensures r == Refused(TargetMissing) <==> from in net.nodes && to !in net.nodes
    ensures Tame(net.G(), from) && SENTINEL !in net.nodes ==> RightAnswer(net.G(), from, to, r)
  {
    var q := SearchedGraph(net, from, to, createdAt, r);
    if r.Routed? {
      PathHoldsEnds(q, r.route.path, r.route.latency);
      if to != SENTINEL {
        PathSound(q, r.route.path, r.route.latency);
      }
    }
    if Tame(net.G(), from) && SENTINEL !in net.nodes {
      SearchCorrect(q, if r.Routed? then Found(r.route.path, r.route.latency) else r.reason);
    }
  }

  lemma ToItself(g: Graph, p: Int32)
    requires p in g.ids && NonNegative(g.edges)
    ensures IsLeastCost(g, p, p, 0)
  {
    assert IsWalk(g, p, p, []);
    forall w | IsWalk(g, p, p, w)
      ensures 0 <= Cost(w)
    {
      CostNonNegative(g, p, p, w);
    }
  }

  /**
   * Whatever calls and additions came before, a call answers with a route of the present graph for the
   * pair asked for, from the cache or not: to the peer itself, nowhere at no cost.
   */
  lemma CallAnswers(run: Run, from: Int32, to: Int32, t: Clock, r: RouteResult, cache': Cache)
    requires run.Valid() && ClockFits(run.states[|run.events|], t)
    requires var s := run.states[|run.events|]; Calculated(s.net, run.ttl, from, to, t, s.cache, r, cache')
    ensures var g := run.states[|run.events|].net.G();
      && (r.Routed? ==> IsRouteOf(g, from, to, r.route))
      && (from == to ==> r.Routed? && r.route.path == [from] && r.route.createdAt == t.createdAt)
      && (from == to && from in g.ids && NonNegative(g.edges) ==> IsLeastCost(g, from, to, r.route.latency))
      && (from == to ==> r.route.latency == 0)
  {
    var s := run.states[|run.events|];
    if from == to {
      if from in s.net.nodes && NonNegative(s.net.G().edges) {
        ToItself(s.net.G(), from);
      }
    } else if CacheGet(s.cache, from, to, t.lookedUp).Some? {
      HitAnswers(run, from, to, t, r, cache');
    } else {
      AlwaysFiled(run, |run.events|);
      MissAnswers(s.net, from, to, t.createdAt, r);
    }
  }

  /** Calls for other pairs do not change what a call for this pair finds in the cache. */
  lemma CallKeepsOthers(
    net: Net, ttl: nat, from: Int32, to: Int32, t: Clock, cache: Cache, r: RouteResult, cache': Cache,
    from': Int32, to': Int32, now: int)
    requires net.Filed() && Filed(cache) && Calculated(net, ttl, from, to, t, cache, r, cache')
    requires from' != from || to' != to
    ensures Filed(cache') && CacheGet(cache', from', to', now) == CacheGet(cache, from', to', now)
  {
    if cache' != cache {
      var q := SearchedGraph(net, from, to, t.createdAt, r);
      CacheByPair(cache, ttl, r.route, t.storedAt, from', to', now);
    }
  }

  /**
   * A route that a call found and stored is what the next call for the pair answers, over any network,
   * up to the time-to-live after it was stored; and that call leaves the cache alone.
   */
  lemma CallAgain(
    net: Net, net': Net, ttl: nat, from: Int32, to: Int32, t: Clock, t': Clock, cache: Cache, cache': Cache,
    cache'': Cache, r: RouteResult, r': RouteResult)
    requires net.Filed() && Filed(cache) && from != to
    requires CacheGet(cache, from, to, t.lookedUp).None? && r.Routed?
    requires Calculated(net, ttl, from, to, t, cache, r, cache')
    requires Calculated(net', ttl, from, to, t', cache', r', cache'')
    requires t'.lookedUp <= t.storedAt + ttl
    ensures r' == r && cache'' == cache'
  {
    var q := SearchedGraph(net, from, to, t.createdAt, r);
    CacheByPair(cache, ttl, r.route, t.storedAt, from, to, t'.lookedUp);
  }
}
