/** Exactly when the search can go wrong: a node called -1, latencies that add up too far, negative latencies. */
module Limits {
  import opened GoTypes
  import opened Graphs
  import opened Search
  import opened SearchProofs
  import opened ShortestPaths

  /** Every run of the query gives the right answer. */
  ghost predicate AlwaysCorrect(q: Query) {
    forall a :: Outcome(q, a) ==> Correct(q, a)
  }

  // ---------------------------------------------------------------------------------------------
  // First steps of a search
  // ---------------------------------------------------------------------------------------------

  lemma OneEdge(a: Edge)
    ensures OutEdges([a], a.from) == [a]
  {
    assert [a][..0] == [];
    assert OutEdges([a][..0], a.from) == [];
  }

  /** `a` then `b`, out of two different nodes. */
  lemma TwoEdges(a: Edge, b: Edge)
    requires a.from != b.from
    ensures OutEdges([a, b], a.from) == [a] && OutEdges([a, b], b.from) == [b]
  {
    OneEdge(a);
    assert [a, b][..1] == [a] && [a][..0] == [];
    assert OutEdges([a], b.from) == [];
  }

  /** Some run of the search passes through the state. */
  ghost predicate Reached(q: Query, st: State) {
    q.source in q.G().ids && st.Over(q.G().ids) && exists n: nat :: Reach(q, st, n)
  }

  lemma Steps(q: Query, pre: State, u: Int32) returns (st: State)
    requires Reached(q, pre) && IsNearest(pre, u) && u != SENTINEL && u != q.target
    ensures st == Settle(q.edges, pre, u) && Reached(q, st)
  {
    st := Settle(q.edges, pre, u);
    var n: nat :| Reach(q, pre, n);
    StepReaches(q, pre, n, u);
  }

  lemma StartReached(q: Query)
    requires q.source in q.G().ids
    ensures Reached(q, Start(q))
  {
    assert Reach(q, Start(q), 0);
  }

  /** A reached final state gives its answer. */
  lemma GivesNoPath(q: Query, st: State)
    requires Reached(q, st) && q.target in q.G().ids && Halted(q, st) && st.dist[q.target] == INF
    ensures Outcome(q, NoPath)
  {
    var n: nat :| Reach(q, st, n);
    assert Ends(q, n, st, NoPath);
  }

  lemma GivesPath(q: Query, st: State, path: seq<Int32>)
    requires Reached(q, st) && q.target in q.G().ids && IsNearest(st, q.target) && BackPath(st.prev, q.target, path)
    ensures Outcome(q, Found(path, st.dist[q.target]))
  {
    var n: nat :| Reach(q, st, n);
    assert Ends(q, n, st, Found(path, st.dist[q.target]));
  }

  /** Settling a node with one edge out. */
  lemma SettleOneEdge(edges: seq<Edge>, st: State, u: Int32, e: Edge)
    requires st.Over(st.dist.Keys) && u in st.dist && OutEdges(edges, u) == [e]
    ensures Settle(edges, st, u) == Relax(st.(unvisited := st.unvisited - {u}), u, e)
  {
    var st0 := st.(unvisited := st.unvisited - {u});
    assert [e][..0] == [];
    assert RelaxAll(st0, u, []) == st0;
    assert RelaxAll(st0, u, [e]) == Relax(RelaxAll(st0, u, [e][..0]), u, e);
  }

  /** Settling a node whose one edge out leads to an unreached node, with the sum as int64 arithmetic gives it. */
  lemma SettleOntoUnreached(edges: seq<Edge>, st: State, u: Int32, e: Edge)
    requires st.Over(st.dist.Keys) && u in st.dist && OutEdges(edges, u) == [e] && e.to != u
    requires e.to in st.unvisited && st.dist[e.to] == INF && 0 <= st.dist[u] < INF && e.latency >= 0
    ensures var d, st' := st.dist[u] + e.latency, Settle(edges, st, u);
      && st'.dist[e.to] == (if d <= INF then d else d - TWO_64)
      && forall v :: v in st.dist && v != e.to ==> st'.dist[v] == st.dist[v]
  {
    SettleOneEdge(edges, st, u, e);
  }

  /** All but `near` is unreached, and `near` is `d` away. */
  ghost predicate OnlyNear(q: Query, st: State, near: Int32, d: Int64) {
    && st.Over(q.G().ids) && near in st.unvisited && st.dist[near] == d
    && forall v :: v in st.unvisited && v != near ==> st.dist[v] == INF
  }

  /** The source is always the first node settled; here one edge leaves it. */
  lemma FirstState(q: Query, e: Edge) returns (st: State)
    requires q.source in q.G().ids && q.source != SENTINEL && q.source != q.target
    requires OutEdges(q.edges, q.source) == [e] && e.to in q.G().ids && e.to != q.source && e.latency >= 0
    ensures Reached(q, st) && OnlyNear(q, st, e.to, e.latency) && st.unvisited == q.G().ids - {q.source}
  {
    StartReached(q);
    st := Steps(q, Start(q), q.source);
    SettleOntoUnreached(q.edges, Start(q), q.source, e);
  }

  /** If some run ends without a path and there is a walk, the search is not always right. */
  lemma NoPathFails(q: Query, st: State, w: seq<Edge>)
    requires Reached(q, st) && q.target in q.G().ids && Halted(q, st) && st.dist[q.target] == INF
    requires IsWalk(q.G(), q.source, q.target, w)
    ensures !AlwaysCorrect(q)
  {
    GivesNoPath(q, st);
    assert !Correct(q, NoPath);
  }

  lemma OneEdgeWalk(g: Graph, e: Edge)
    requires e in g.edges && e.from in g.ids && e.to in g.ids
    ensures IsWalk(g, e.from, e.to, [e]) && Cost([e]) == e.latency
  {
    assert [e][..0] == [];
  }

  lemma TwoEdgeWalk(g: Graph, a: Edge, b: Edge)
    requires a in g.edges && b in g.edges && a.from in g.ids && a.to == b.from && a.to in g.ids && b.to in g.ids
    ensures IsWalk(g, a.from, b.to, [a, b]) && Cost([a, b]) == a.latency + b.latency
  {
    OneEdgeWalk(g, a);
    assert [a, b][..1] == [a];
  }

  // ---------------------------------------------------------------------------------------------
  // The sentinel
  // ---------------------------------------------------------------------------------------------

  /** From the sentinel nothing is ever reached. */
  lemma FromSentinelFails(q: Query, e: Edge)
    requires q.source == SENTINEL && q.target != SENTINEL && q.source in q.G().ids && q.target in q.G().ids
    requires e == Edge(SENTINEL, q.target, 1) && q.edges == [e]
    ensures !AlwaysCorrect(q)
  {
    assert IsNearest(Start(q), SENTINEL);
    OneEdgeWalk(q.G(), e);
    StartReached(q);
    NoPathFails(q, Start(q), [e]);
  }

  /** To the sentinel an empty path is returned. */
  lemma ToSentinelFails(q: Query, e: Edge)
    requires q.target == SENTINEL && q.source != SENTINEL && q.source in q.G().ids && q.target in q.G().ids
    requires e == Edge(q.source, SENTINEL, 1) && q.edges == [e]
    ensures Outcome(q, Found([], 1)) && !AlwaysCorrect(q)
  {
    OneEdge(e);
    var st := FirstState(q, e);
    assert IsNearest(st, SENTINEL);
    GivesPath(q, st, []);
    assert !Correct(q, Found([], 1));
  }

  /** Past the sentinel nothing is reached. */
  lemma PastSentinelFails(q: Query, a: Edge, b: Edge)
    requires SENTINEL in q.G().ids && q.source in q.G().ids && q.target in q.G().ids
    requires q.source != SENTINEL && q.target != SENTINEL && q.source != q.target
    requires a == Edge(q.source, SENTINEL, 1) && b == Edge(SENTINEL, q.target, 1) && q.edges == [a, b]
    ensures !AlwaysCorrect(q)
  {
    TwoEdges(a, b);
    var st := FirstState(q, a);
    assert IsNearest(st, SENTINEL);
    TwoEdgeWalk(q.G(), a, b);
    NoPathFails(q, st, [a, b]);
  }

  /** Over a node list, the search is right for all tame edges exactly when no node is called -1. */
  lemma SentinelExact(nodes: seq<Node>, s: Int32, t: Int32)
    requires s in Ids(nodes) && t in Ids(nodes) && s != t
    ensures -1 !in Ids(nodes) <==>
      forall edges :: Tame(Query(nodes, edges, s, t).G(), s) ==> AlwaysCorrect(Query(nodes, edges, s, t))
  {
    if SENTINEL !in Ids(nodes) {
      forall edges | Tame(Query(nodes, edges, s, t).G(), s)
        ensures AlwaysCorrect(Query(nodes, edges, s, t))
      {
        TameIsCorrect(Query(nodes, edges, s, t));
      }
    } else if s == SENTINEL {
      var e := Edge(SENTINEL, t, 1);
      TameOne(Query(nodes, [e], s, t), e);
      FromSentinelFails(Query(nodes, [e], s, t), e);
    } else if t == SENTINEL {
      var e := Edge(s, SENTINEL, 1);
      TameOne(Query(nodes, [e], s, t), e);
      ToSentinelFails(Query(nodes, [e], s, t), e);
    } else {
      var a, b := Edge(s, SENTINEL, 1), Edge(SENTINEL, t, 1);
      TameTwo(Query(nodes, [a, b], s, t), a, b);
      PastSentinelFails(Query(nodes, [a, b], s, t), a, b);
    }
  }

  lemma TameIsCorrect(q: Query)
    requires Tame(q.G(), q.source) && SENTINEL !in q.G().ids
    ensures AlwaysCorrect(q)
  {
    forall a | Outcome(q, a)
      ensures Correct(q, a)
    {
      SearchCorrect(q, a);
    }
  }

  lemma TotalOne(a: Edge)
    ensures Total([a]) == a.latency && EdgeSet([a]) == {a}
  {
    assert [a][..0] == [];
  }

  lemma TameOne(q: Query, a: Edge)
    requires q.edges == [a] && 0 <= a.latency < INF
    ensures Tame(q.G(), q.source)
  {
    TotalOne(a);
    TotalTames(q);
  }

  lemma TameTwo(q: Query, a: Edge, b: Edge)
    requires q.edges == [a, b] && 0 <= a.latency && 0 <= b.latency && a.latency + b.latency < INF
    ensures Tame(q.G(), q.source)
  {
    TotalOne(a);
    assert [a, b][..1] == [a];
    TotalTames(q);
  }

  // ---------------------------------------------------------------------------------------------
  // Overflow
  // ---------------------------------------------------------------------------------------------

  /** The query is for the far end of two hops, with nothing else in the graph. */
  ghost predicate TwoHops(q: Query, a: Edge, b: Edge) {
    && q.G() == Graph({a.from, a.to, b.to}, {a, b}) && q.edges == [a, b] && a.to == b.from
    && q.source == a.from && q.target == b.to
    && a.from != a.to && a.from != b.to && a.to != b.to && SENTINEL !in {a.from, a.to, b.to}
    && a.latency >= 0 && b.latency >= 0
  }

  /** A first hop as long as "unreached" hides the node behind it. */
  lemma LongHopFails(q: Query, a: Edge, b: Edge)
    requires TwoHops(q, a, b) && a.latency == INF
    ensures !AlwaysCorrect(q)
  {
    TwoEdges(a, b);
    var st := FirstState(q, a);
    assert Exhausted(st);
    TwoEdgeWalk(q.G(), a, b);
    NoPathFails(q, st, [a, b]);
  }

  /** Settling the middle node, from the state after the source. */
  lemma MiddleStep(q: Query, pre: State, m: Int32, b: Edge) returns (st: State)
    requires Reached(q, pre) && IsNearest(pre, m) && m != SENTINEL && m != q.target && pre.dist[m] >= 0
    requires OutEdges(q.edges, m) == [b] && b.to == q.target && b.latency >= 0
    requires q.target in pre.unvisited && pre.dist[q.target] == INF
    ensures Reached(q, st) && st.unvisited == pre.unvisited - {m}
    ensures var d := pre.dist[m] + b.latency;
      st.dist[q.target] == if d <= INF then d else d - TWO_64
  {
    st := Steps(q, pre, m);
    SettleOntoUnreached(q.edges, pre, m, b);
  }

  lemma TwoHopRest(q: Query, a: Edge, b: Edge)
    requires TwoHops(q, a, b)
    ensures q.G().ids - {q.source} == {a.to, q.target} && {a.to, q.target} - {a.to} == {q.target}
  {
  }

  /** The state after the middle node is settled. */
  lemma SecondState(q: Query, a: Edge, b: Edge) returns (st: State)
    requires TwoHops(q, a, b) && a.latency < INF
    ensures Reached(q, st) && st.unvisited == {q.target}
    ensures var d := a.latency + b.latency;
      st.dist[q.target] == if d <= INF then d else d - TWO_64
  {
    TwoEdges(a, b);
    var pre := FirstState(q, a);
    TwoHopRest(q, a, b);
    st := MiddleStep(q, pre, a.to, b);
  }

  lemma OverflowFails(q: Query, a: Edge, b: Edge)
    requires TwoHops(q, a, b) && a.latency < INF && a.latency + b.latency >= INF
    ensures !AlwaysCorrect(q)
  {
    var st := SecondState(q, a, b);
    if a.latency + b.latency == INF {
      FarFails(q, a, b, st);
    } else {
      NegativeFails(q, st);
    }
  }

  lemma FarFails(q: Query, a: Edge, b: Edge, st: State)
    requires TwoHops(q, a, b)
    requires Reached(q, st) && st.unvisited == {q.target} && st.dist[q.target] == INF
    ensures !AlwaysCorrect(q)
  {
    assert Exhausted(st);
    TwoEdgeWalk(q.G(), a, b);
    NoPathFails(q, st, [a, b]);
  }

  /** A negative distance is the wrong answer over non-negative latencies: no walk costs that. */
  lemma NegativeFails(q: Query, st: State)
    requires Reached(q, st) && q.target in q.G().ids && q.target != SENTINEL
    requires IsNearest(st, q.target) && st.dist[q.target] < 0 && NonNegative(q.G().edges)
    ensures !AlwaysCorrect(q)
  {
    var path := NearestPath(q, st);
    GivesPath(q, st, path);
    var answer := Found(path, st.dist[q.target]);
    if Correct(q, answer) {
      var w :| IsWalk(q.G(), q.source, q.target, w) && Visits(q.source, w) == path && Cost(w) == st.dist[q.target];
      CostNonNegative(q.G(), q.source, q.target, w);
    }
  }

  lemma NearestPath(q: Query, st: State) returns (path: seq<Int32>)
    requires Reached(q, st) && q.target in q.G().ids && q.target != SENTINEL && IsNearest(st, q.target)
    ensures BackPath(st.prev, q.target, path)
  {
    var n: nat :| Reach(q, st, n);
    RunRooted(q, st, n);
    var w :| Tree(q.G(), st, q.source, q.target, w);
    TreeBackPath(q.G(), st, q.source, q.target, w);
    path := Visits(q.source, w);
  }

  lemma {:induction false} CostNonNegative(g: Graph, s: Int32, t: Int32, w: seq<Edge>)
    requires NonNegative(g.edges) && IsWalk(g, s, t, w)
    ensures Cost(w) >= 0
    decreases |w|
  {
    if w != [] {
      CostNonNegative(g, s, w[|w| - 1].from, w[..|w| - 1]);
    }
  }

  /** Over two hops the search is right exactly when the latencies add up to less than "unreached". */
  lemma TwoHopsExact(q: Query, a: Edge, b: Edge)
    requires TwoHops(q, a, b)
    ensures AlwaysCorrect(q) <==> a.latency + b.latency < INF
  {
    if a.latency + b.latency < INF {
      TameTwo(q, a, b);
      TameIsCorrect(q);
    } else if a.latency == INF {
      LongHopFails(q, a, b);
    } else {
      OverflowFails(q, a, b);
    }
  }

  /** One edge as long as "unreached" is not found. */
  lemma LongEdgeFails(q: Query, e: Edge)
    requires q.source in q.G().ids && q.target in q.G().ids && q.source != q.target && SENTINEL !in q.G().ids
    requires e == Edge(q.source, q.target, INF) && q.edges == [e]
    ensures !AlwaysCorrect(q)
  {
    OneEdge(e);
    var st := FirstState(q, e);
    assert Exhausted(st);
    OneEdgeWalk(q.G(), e);
    NoPathFails(q, st, [e]);
  }

  /** The search is right for all non-negative edges with simple walks up to `bound`. */
  ghost predicate RightWithin(nodes: seq<Node>, s: Int32, t: Int32, bound: int) {
    forall edges ::
      var q := Query(nodes, edges, s, t);
      NonNegative(q.G().edges) && SimpleWalksWithin(q.G(), s, bound) ==> AlwaysCorrect(q)
  }

  /** The search is right for all non-negative edges that add up to `bound` at most. */
  ghost predicate RightUpTo(nodes: seq<Node>, s: Int32, t: Int32, bound: int) {
    forall edges ::
      var q := Query(nodes, edges, s, t);
      NonNegative(q.G().edges) && Total(edges) <= bound ==> AlwaysCorrect(q)
  }

  /**
   * Over a node list without -1, a bound on the latencies makes the search right exactly when it is
   * below "unreached", be it a bound on the walks that repeat no node or on the sum of all latencies.
   */
  lemma OverflowExact(nodes: seq<Node>, s: Int32, t: Int32, bound: int)
    requires s in Ids(nodes) && t in Ids(nodes) && s != t && SENTINEL !in Ids(nodes)
    ensures RightWithin(nodes, s, t, bound) <==> bound < 0x7fff_ffff_ffff_ffff
    ensures RightUpTo(nodes, s, t, bound) <==> bound < 0x7fff_ffff_ffff_ffff
  {
    if bound < INF {
      forall edges | NonNegative(EdgeSet(edges)) && SimpleWalksWithin(Query(nodes, edges, s, t).G(), s, bound)
        ensures AlwaysCorrect(Query(nodes, edges, s, t))
      {
        TameIsCorrect(Query(nodes, edges, s, t));
      }
      forall edges | NonNegative(EdgeSet(edges)) && Total(edges) <= bound
        ensures AlwaysCorrect(Query(nodes, edges, s, t))
      {
        TotalTames(Query(nodes, edges, s, t));
        TameIsCorrect(Query(nodes, edges, s, t));
      }
    } else {
      var e := Edge(s, t, INF);
      TotalOne(e);
      TotalBoundsWalks(Query(nodes, [e], s, t));
      LongEdgeFails(Query(nodes, [e], s, t), e);
    }
  }

  // ---------------------------------------------------------------------------------------------
  // Negative latencies
  // ---------------------------------------------------------------------------------------------

  /** No latency is below `low`, and every simple walk from `s` costs less than "unreached". */
  ghost predicate TameAbove(g: Graph, s: Int32, low: int) {
    (forall e :: e in g.edges ==> low <= e.latency) && SimpleWalksWithin(g, s, INF - 1)
  }

  /** No walk comes back to where it started. */
  ghost predicate Acyclic(g: Graph) {
    forall v, w :: IsWalk(g, v, v, w) ==> w == []
  }

  lemma {:induction false} NonPositiveCost(g: Graph, s: Int32, t: Int32, w: seq<Edge>)
    requires IsWalk(g, s, t, w) && forall e :: e in g.edges ==> e.latency <= 0
    ensures Cost(w) <= 0
    decreases |w|
  {
    if w != [] {
      NonPositiveCost(g, s, w[|w| - 1].from, w[..|w| - 1]);
    }
  }

  lemma NonPositiveIsTame(g: Graph, s: Int32, low: int)
    requires low <= -1 && forall e :: e in g.edges ==> -1 <= e.latency <= 0
    ensures TameAbove(g, s, low)
  {
    forall t, w | IsWalk(g, s, t, w)
      ensures Cost(w) <= INF - 1
    {
      NonPositiveCost(g, s, t, w);
    }
  }

  /** If the target may be settled at a distance above the cost of some walk, the search is not always right. */
  lemma TooFarFails(q: Query, st: State, w: seq<Edge>)
    requires Reached(q, st) && q.target in q.G().ids && q.target != SENTINEL && IsNearest(st, q.target)
    requires IsWalk(q.G(), q.source, q.target, w) && Cost(w) < st.dist[q.target]
    ensures !AlwaysCorrect(q)
  {
    var path := NearestPath(q, st);
    GivesPath(q, st, path);
    assert !Correct(q, Found(path, st.dist[q.target]));
  }

  /** A target with an edge of -1 to itself. */
  lemma LoopFails(q: Query, loop: Edge, e: Edge)
    requires q.source in q.G().ids && q.target in q.G().ids && q.source != q.target && SENTINEL !in q.G().ids
    requires loop == Edge(q.target, q.target, -1) && e == Edge(q.source, q.target, 0) && q.edges == [loop, e]
    ensures !AlwaysCorrect(q)
  {
    TwoEdges(loop, e);
    var st := FirstState(q, e);
    TwoEdgeWalk(q.G(), e, loop);
    TooFarFails(q, st, [e, loop]);
  }

  /** The search is right for all edges of at least `low`, up to the limit on overflow. */
  ghost predicate RightAbove(nodes: seq<Node>, s: Int32, t: Int32, low: int) {
    forall edges ::
      var q := Query(nodes, edges, s, t);
      TameAbove(q.G(), s, low) ==> AlwaysCorrect(q)
  }

  lemma AboveIsTame(g: Graph, s: Int32, low: int)
    requires TameAbove(g, s, low) && low >= 0
    ensures Tame(g, s)
  {
  }

  /** Over a node list without -1, a lower bound on latencies makes the search right exactly if it is not negative. */
  lemma NegativeExact(nodes: seq<Node>, s: Int32, t: Int32, low: int)
    requires s in Ids(nodes) && t in Ids(nodes) && s != t && SENTINEL !in Ids(nodes)
    ensures RightAbove(nodes, s, t, low) <==> low >= 0
  {
    if low >= 0 {
      forall edges | TameAbove(Query(nodes, edges, s, t).G(), s, low)
        ensures AlwaysCorrect(Query(nodes, edges, s, t))
      {
        AboveIsTame(Query(nodes, edges, s, t).G(), s, low);
        TameIsCorrect(Query(nodes, edges, s, t));
      }
    } else {
      var loop, e := Edge(t, t, -1), Edge(s, t, 0);
      var q := Query(nodes, [loop, e], s, t);
      NonPositiveIsTame(q.G(), s, low);
      LoopFails(q, loop, e);
    }
  }

  /** A way round of -1 beside a direct edge of 0, and nothing else: no cycle is needed to go wrong. */
  ghost predicate WayRound(q: Query, a: Edge, b: Edge, direct: Edge) {
    && q.edges == [a, b, direct] && a == Edge(q.source, a.to, 0) && b == Edge(a.to, q.target, -1)
    && direct == Edge(q.source, q.target, 0)
    && q.source != q.target && a.to != q.source && a.to != q.target
    && q.source in q.G().ids && q.target in q.G().ids && a.to in q.G().ids && SENTINEL !in q.G().ids
  }

  lemma WayRoundOut(q: Query, a: Edge, b: Edge, direct: Edge)
    requires WayRound(q, a, b, direct)
    ensures OutEdges(q.edges, q.source) == [a, direct]
  {
    OneEdge(a);
    assert [a, b][..1] == [a] && [a, b, direct][..2] == [a, b];
    assert OutEdges([a, b], q.source) == [a];
  }

  lemma SettleTwoEdges(edges: seq<Edge>, st: State, u: Int32, a: Edge, b: Edge)
    requires st.Over(st.dist.Keys) && u in st.dist && OutEdges(edges, u) == [a, b]
    ensures Settle(edges, st, u) == Relax(Relax(st.(unvisited := st.unvisited - {u}), u, a), u, b)
  {
    var st0 := st.(unvisited := st.unvisited - {u});
    assert [a][..0] == [] && [a, b][..1] == [a];
    assert RelaxAll(st0, u, [a]) == Relax(RelaxAll(st0, u, [a][..0]), u, a);
    assert RelaxAll(st0, u, [a, b]) == Relax(RelaxAll(st0, u, [a, b][..1]), u, b);
  }

  lemma RelaxOpens(st: State, u: Int32, e: Edge)
    requires st.Over(st.dist.Keys) && u in st.dist && st.dist[u] == 0
    requires e.to in st.unvisited && st.dist[e.to] == INF && e.latency == 0
    ensures Relax(st, u, e).dist == st.dist[e.to := 0]
  {
  }

  /** After the source both other nodes are at distance 0, and the target may be settled first. */
  lemma WayRoundState(q: Query, a: Edge, b: Edge, direct: Edge) returns (st: State)
    requires WayRound(q, a, b, direct)
    ensures Reached(q, st) && IsNearest(st, q.target) && st.dist[q.target] == 0
  {
    StartReached(q);
    st := Steps(q, Start(q), q.source);
    WayRoundOut(q, a, b, direct);
    SettleTwoEdges(q.edges, Start(q), q.source, a, direct);
    var st0 := Start(q).(unvisited := q.G().ids - {q.source});
    RelaxOpens(st0, q.source, a);
    RelaxOpens(Relax(st0, q.source, a), q.source, direct);
    assert st.dist == st0.dist[a.to := 0][q.target := 0];
  }

  lemma WayRoundFails(q: Query, a: Edge, b: Edge, direct: Edge)
    requires WayRound(q, a, b, direct)
    ensures !AlwaysCorrect(q)
  {
    var st := WayRoundState(q, a, b, direct);
    TwoEdgeWalk(q.G(), a, b);
    TooFarFails(q, st, [a, b]);
  }

  /** How far along the way round a node is. */
  function Rank(q: Query, v: Int32): nat {
    if v == q.source then 0 else if v == q.target then 2 else 1
  }

  lemma {:induction false} RankGrows(q: Query, a: Edge, b: Edge, direct: Edge, v: Int32, x: Int32, w: seq<Edge>)
    requires WayRound(q, a, b, direct) && IsWalk(q.G(), v, x, w)
    ensures Rank(q, v) + |w| <= Rank(q, x)
    decreases |w|
  {
    if w != [] {
      var e := w[|w| - 1];
      RankGrows(q, a, b, direct, v, e.from, w[..|w| - 1]);
      assert e in [a, b, direct];
    }
  }

  /** The search is right for all edges of at least `low` that form no cycle, up to the limit on overflow. */
  ghost predicate RightAboveAcyclic(nodes: seq<Node>, s: Int32, t: Int32, low: int) {
    forall edges ::
      var q := Query(nodes, edges, s, t);
      TameAbove(q.G(), s, low) && Acyclic(q.G()) ==> AlwaysCorrect(q)
  }

  /** With a third node, the same holds even of graphs without cycles. */
  lemma NegativeExactAcyclic(nodes: seq<Node>, s: Int32, m: Int32, t: Int32, low: int)
    requires s in Ids(nodes) && m in Ids(nodes) && t in Ids(nodes) && SENTINEL !in Ids(nodes)
    requires s != t && m != s && m != t
    ensures RightAboveAcyclic(nodes, s, t, low) <==> low >= 0
  {
    if low >= 0 {
      NegativeExact(nodes, s, t, low);
    } else {
      var a, b, direct := Edge(s, m, 0), Edge(m, t, -1), Edge(s, t, 0);
      var q := Query(nodes, [a, b, direct], s, t);
      NonPositiveIsTame(q.G(), s, low);
      forall v, w | IsWalk(q.G(), v, v, w)
        ensures w == []
      {
        RankGrows(q, a, b, direct, v, v, w);
      }
      WayRoundFails(q, a, b, direct);
    }
  }
}
