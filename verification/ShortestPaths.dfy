/** When the search is right: least cost, no missed walk, one latency whatever the map order. */
module ShortestPaths {
  import opened GoTypes
  import opened Graphs
  import opened Search
  import opened SearchProofs

  // ---------------------------------------------------------------------------------------------
  // Latencies that cannot overflow
  // ---------------------------------------------------------------------------------------------

  /** No walk from `s` that repeats no node costs more than `bound`. */
  ghost predicate SimpleWalksWithin(g: Graph, s: Int32, bound: int) {
    forall t, w :: IsWalk(g, s, t, w) && NoRepeats(Visits(s, w)) ==> Cost(w) <= bound
  }

  /** No latency is negative, and every simple walk from `s` costs less than "unreached". */
  ghost predicate Tame(g: Graph, s: Int32) {
    NonNegative(g.edges) && SimpleWalksWithin(g, s, INF - 1)
  }

  ghost function Total(edges: seq<Edge>): int {
    if edges == [] then 0 else Total(edges[..|edges| - 1]) + edges[|edges| - 1].latency
  }

  /** What the edges that leave `from` cost together. */
  ghost function Spent(edges: seq<Edge>, from: set<Int32>): int {
    if edges == [] then 0
    else
      var e := edges[|edges| - 1];
      Spent(edges[..|edges| - 1], from) + if e.from in from then e.latency else 0
  }

  lemma {:induction false} SpentBounds(edges: seq<Edge>, from: set<Int32>)
    requires NonNegative(EdgeSet(edges))
    ensures 0 <= Spent(edges, from) <= Total(edges)
    ensures forall e :: e in edges && e.from in from ==> e.latency <= Spent(edges, from)
  {
    if edges != [] {
      var init := edges[..|edges| - 1];
      assert edges == init + [edges[|edges| - 1]];
      assert EdgeSet(init) <= EdgeSet(edges) && edges[|edges| - 1] in EdgeSet(edges);
      SpentBounds(init, from);
    }
  }

  lemma {:induction false} SpentAdds(edges: seq<Edge>, from: set<Int32>, u: Int32)
    requires u !in from
    ensures Spent(edges, from + {u}) == Spent(edges, from) + Spent(edges, {u})
  {
    if edges != [] {
      SpentAdds(edges[..|edges| - 1], from, u);
    }
  }

  /** The nodes that a walk leaves. */
  ghost function Left(w: seq<Edge>): set<Int32> {
    if w == [] then {} else Left(w[..|w| - 1]) + {w[|w| - 1].from}
  }

  lemma {:induction false} LeftIsVisited(g: Graph, s: Int32, t: Int32, w: seq<Edge>)
    requires IsWalk(g, s, t, w)
    ensures forall x :: x in Left(w) ==> x in Visits(s, w)[..|w|]
    decreases |w|
  {
    if w != [] {
      var init, from := w[..|w| - 1], w[|w| - 1].from;
      LeftIsVisited(g, s, from, init);
      WalkVisits(g, s, from, init);
      assert Visits(s, w)[..|w|] == Visits(s, init) == Visits(s, init)[..|init|] + [from];
    }
  }

  /** A simple walk uses edges out of different nodes, so it costs no more than they do together. */
  lemma {:induction false} SimpleWalkCost(edges: seq<Edge>, g: Graph, s: Int32, t: Int32, w: seq<Edge>)
    requires g.edges == EdgeSet(edges) && NonNegative(g.edges)
    requires IsWalk(g, s, t, w) && NoRepeats(Visits(s, w))
    ensures Cost(w) <= Spent(edges, Left(w))
    decreases |w|
  {
    if w != [] {
      var init, e := w[..|w| - 1], w[|w| - 1];
      assert Visits(s, w)[..|w|] == Visits(s, init);
      SimpleWalkCost(edges, g, s, e.from, init);
      LeftIsVisited(g, s, e.from, init);
      WalkVisits(g, s, e.from, init);
      assert e.from !in Left(init);
      SpentAdds(edges, Left(init), e.from);
      SpentBounds(edges, {e.from});
    } else {
      SpentBounds(edges, {});
    }
  }

  /** No simple walk costs more than all edges together. */
  lemma TotalBoundsWalks(q: Query)
    requires NonNegative(q.G().edges)
    ensures SimpleWalksWithin(q.G(), q.source, Total(q.edges))
  {
    forall t, w | IsWalk(q.G(), q.source, t, w) && NoRepeats(Visits(q.source, w))
      ensures Cost(w) <= Total(q.edges)
    {
      SimpleWalkCost(q.edges, q.G(), q.source, t, w);
      SpentBounds(q.edges, Left(w));
    }
  }

  /** So a sum of all latencies below "unreached" is enough. */
  lemma TotalTames(q: Query)
    requires NonNegative(q.G().edges) && Total(q.edges) < INF
    ensures Tame(q.G(), q.source)
  {
    TotalBoundsWalks(q);
  }

  // ---------------------------------------------------------------------------------------------
  // The invariant of tame runs
  // ---------------------------------------------------------------------------------------------

  ghost predicate Ordered(g: Graph, st: State)
    requires st.Over(g.ids)
  {
    forall a, b :: a in g.ids && a !in st.unvisited && b in st.unvisited ==> st.dist[a] <= st.dist[b]
  }

  ghost predicate RelaxedEdge(g: Graph, st: State, e: Edge)
    requires st.Over(g.ids) && e.from in g.ids && e.to in g.ids
  {
    st.dist[e.to] < INF && st.dist[e.to] <= st.dist[e.from] + e.latency
  }

  ghost predicate AllRelaxed(g: Graph, st: State)
    requires st.Over(g.ids)
  {
    forall e :: e in g.edges && e.from in g.ids && e.from !in st.unvisited && e.to in g.ids ==> RelaxedEdge(g, st, e)
  }

  /** No distance is negative, settled nodes are no farther than others, and their edges are relaxed. */
  ghost predicate Metric(g: Graph, st: State, s: Int32) {
    && st.Over(g.ids) && s in g.ids && st.dist[s] == 0
    && (forall v :: v in g.ids ==> 0 <= st.dist[v])
    && Ordered(g, st) && AllRelaxed(g, st)
  }

  /** Along the `previous` links the distances are exact sums. */
  lemma {:induction false} TreeExact(g: Graph, st: State, s: Int32, v: Int32, w: seq<Edge>)
    requires Metric(g, st, s) && NonNegative(g.edges) && Tree(g, st, s, v, w)
    ensures Cost(w) == st.dist[v]
    decreases |w|
  {
    if w != [] {
      TreeExact(g, st, s, w[|w| - 1].from, w[..|w| - 1]);
    }
  }

  /** The walk to `u` goes on to an unvisited node without a repeat. */
  lemma TreeGoesOn(g: Graph, st: State, s: Int32, w: seq<Edge>, e: Edge)
    requires st.Over(g.ids) && Tree(g, st, s, e.from, w)
    requires e in g.edges && e.to in st.unvisited && e.to != e.from
    ensures IsWalk(g, s, e.to, w + [e]) && NoRepeats(Visits(s, w + [e]))
  {
    var w' := w + [e];
    assert w'[..|w'| - 1] == w;
    TreeIsWalk(g, st, s, e.from, w);
  }

  /** Leaving the nearest node `u` for an unvisited one overflows nothing. */
  lemma NoOverflow(g: Graph, st: State, s: Int32, u: Int32, e: Edge)
    requires Tame(g, s) && Metric(g, st, s) && Rooted(g, st, s)
    requires u in st.unvisited && st.dist[u] < INF
    requires e in g.edges && e.from == u && e.to in st.unvisited && e.to != u
    ensures Wrap64(st.dist[u] + e.latency) == st.dist[u] + e.latency < INF
  {
    var w :| Tree(g, st, s, u, w);
    TreeExact(g, st, s, u, w);
    TreeGoesOn(g, st, s, w, e);
    assert (w + [e])[..|w|] == w;
  }

  /** An improved distance is no less than that of the node it was improved from. */
  lemma ImprovedIsFarther(g: Graph, st: State, st': State, s: Int32, u: Int32, v: Int32)
    requires Tame(g, s) && Metric(g, st, s) && Rooted(g, st, s) && st'.Over(g.ids) && v in g.ids
    requires u in st.unvisited && st.dist[u] < INF && ImprovedVia(g, st, st', u, v)
    ensures st.dist[u] <= st'.dist[v]
  {
    var e :| e in g.edges && e.from == u && e.to == v && st'.dist[v] == Wrap64(st.dist[u] + e.latency);
    NoOverflow(g, st, s, u, e);
  }

  /** What settling the nearest node `u` leaves of the distance of `v`. */
  lemma SettleDistance(edges: seq<Edge>, g: Graph, st: State, s: Int32, u: Int32, v: Int32)
    requires Tame(g, s) && g.edges == EdgeSet(edges) && Metric(g, st, s) && Rooted(g, st, s)
    requires IsNearest(st, u) && v in g.ids
    ensures var st' := Settle(edges, st, u);
      && 0 <= st'.dist[v] <= st.dist[v]
      && (v !in st.unvisited || v == u ==> st'.dist[v] == st.dist[v])
      && (v in st.unvisited ==> st.dist[u] <= st'.dist[v])
  {
    var st' := Settle(edges, st, u);
    SettleAt(edges, g, st, u, v);
    if ImprovedVia(g, st, st', u, v) {
      ImprovedIsFarther(g, st, st', s, u, v);
    }
  }

  lemma SettleRelaxes(edges: seq<Edge>, g: Graph, st: State, s: Int32, u: Int32, e: Edge)
    requires Tame(g, s) && g.edges == EdgeSet(edges) && Metric(g, st, s) && Rooted(g, st, s)
    requires IsNearest(st, u)
    requires e in g.edges && e.from in g.ids && e.from !in st.unvisited - {u} && e.to in g.ids
    ensures RelaxedEdge(g, Settle(edges, st, u), e)
  {
    SettleDistance(edges, g, st, s, u, e.from);
    SettleDistance(edges, g, st, s, u, e.to);
    if e.from != u {
      assert RelaxedEdge(g, st, e);
    } else if e.to in st.unvisited && e.to != u {
      SettleCovers(edges, st, u, e);
      NoOverflow(g, st, s, u, e);
    }
  }

  lemma MetricStep(edges: seq<Edge>, g: Graph, st: State, u: Int32, s: Int32)
    requires Tame(g, s) && g.edges == EdgeSet(edges) && Metric(g, st, s) && Rooted(g, st, s)
    requires IsNearest(st, u)
    ensures Metric(g, Settle(edges, st, u), s)
  {
    var st' := Settle(edges, st, u);
    forall v | v in g.ids
      ensures 0 <= st'.dist[v] <= st.dist[v]
      ensures v !in st.unvisited || v == u ==> st'.dist[v] == st.dist[v]
      ensures v in st.unvisited ==> st.dist[u] <= st'.dist[v]
    {
      SettleDistance(edges, g, st, s, u, v);
    }
    forall e | e in g.edges && e.from in g.ids && e.from !in st'.unvisited && e.to in g.ids
      ensures RelaxedEdge(g, st', e)
    {
      SettleRelaxes(edges, g, st, s, u, e);
    }
  }

  lemma MetricStart(q: Query)
    requires q.source in q.G().ids
    ensures Metric(q.G(), Start(q), q.source)
  {
  }

  /** If all states after `n - 1` steps satisfy the invariant, so does each after `n`. */
  lemma MetricSteps(q: Query, st: State, n: nat)
    requires q.source in q.G().ids && q.target in q.G().ids && Tame(q.G(), q.source) && n > 0 && Reach(q, st, n)
    requires forall pre :: Reach(q, pre, n - 1) ==> Metric(q.G(), pre, q.source)
    ensures Metric(q.G(), st, q.source)
  {
    var pre, u := LastStep(q, st, n);
    RunRooted(q, pre, n - 1);
    MetricStep(q.edges, q.G(), pre, u, q.source);
  }

  /** Every state of a tame run satisfies the invariant. */
  lemma {:induction false} RunMetric(q: Query, st: State, n: nat)
    requires q.source in q.G().ids && q.target in q.G().ids && Tame(q.G(), q.source) && Reach(q, st, n)
    ensures Metric(q.G(), st, q.source)
    decreases n
  {
    if n == 0 {
      MetricStart(q);
    } else {
      forall pre | Reach(q, pre, n - 1)
        ensures Metric(q.G(), pre, q.source)
      {
        RunMetric(q, pre, n - 1);
      }
      MetricSteps(q, st, n);
    }
  }

  // ---------------------------------------------------------------------------------------------
  // Walks against distances
  // ---------------------------------------------------------------------------------------------

  /** Some unvisited node is reached and lies no farther than `cost`. */
  ghost predicate Frontier(st: State, cost: int)
    requires st.unvisited <= st.dist.Keys
  {
    exists x :: x in st.unvisited && st.dist[x] < INF && st.dist[x] <= cost
  }

  /** A walk either costs at least what its settled end is away or meets the frontier first. */
  lemma {:induction false} WalkBound(g: Graph, st: State, s: Int32, v: Int32, w: seq<Edge>)
    requires Metric(g, st, s) && NonNegative(g.edges) && IsWalk(g, s, v, w)
    ensures v in g.ids
    ensures Frontier(st, Cost(w)) || (v !in st.unvisited && st.dist[v] <= Cost(w))
    decreases |w|
  {
    if w != [] {
      var e, init := w[|w| - 1], w[..|w| - 1];
      WalkBound(g, st, s, e.from, init);
      if Frontier(st, Cost(init)) {
        var x :| x in st.unvisited && st.dist[x] < INF && st.dist[x] <= Cost(init);
      } else {
        assert RelaxedEdge(g, st, e);
      }
    }
  }

  // ---------------------------------------------------------------------------------------------
  // Main results
  // ---------------------------------------------------------------------------------------------

  /** The right answer to a query, said without the algorithm. */
  ghost predicate Correct(q: Query, a: Answer) {
    var g, s, t := q.G(), q.source, q.target;
    match a
    case SourceMissing => s !in g.ids
    case TargetMissing => s in g.ids && t !in g.ids
    case NoPath => s in g.ids && t in g.ids && !Connected(g, s, t)
    case Found(path, latency) =>
      IsSimplePath(g, s, t, path) && IsLeastCost(g, s, t, latency) &&
      exists w :: IsWalk(g, s, t, w) && Visits(s, w) == path && Cost(w) == latency
  }

  /** In a final state no walk to the target is cheaper than its distance. */
  lemma FinalBound(q: Query, st: State, w: seq<Edge>)
    requires q.source in q.G().ids && q.target in st.unvisited
    requires Metric(q.G(), st, q.source) && NonNegative(q.G().edges)
    requires Halted(q, st) && SENTINEL !in q.G().ids
    requires IsWalk(q.G(), q.source, q.target, w)
    ensures st.dist[q.target] < INF && st.dist[q.target] <= Cost(w)
  {
    WalkBound(q.G(), st, q.source, q.target, w);
    var x :| x in st.unvisited && st.dist[x] < INF && st.dist[x] <= Cost(w);
  }

  lemma FinalFound(q: Query, n: nat, st: State, path: seq<Int32>, latency: Int64)
    requires q.source in q.G().ids && q.target in q.G().ids && SENTINEL !in q.G().ids && Tame(q.G(), q.source)
    requires Ends(q, n, st, Found(path, latency))
    ensures Correct(q, Found(path, latency))
  {
    var w := FinalWalk(q, n, st, path, latency);
    forall w' | IsWalk(q.G(), q.source, q.target, w')
      ensures latency <= Cost(w')
    {
      RunRooted(q, st, n);
      FinalBound(q, st, w');
    }
  }

  lemma FinalWalk(q: Query, n: nat, st: State, path: seq<Int32>, latency: Int64) returns (w: seq<Edge>)
    requires q.source in q.G().ids && q.target in q.G().ids && SENTINEL !in q.G().ids && Tame(q.G(), q.source)
    requires Ends(q, n, st, Found(path, latency))
    ensures Metric(q.G(), st, q.source) && latency == st.dist[q.target]
    ensures IsSimplePath(q.G(), q.source, q.target, path)
    ensures IsWalk(q.G(), q.source, q.target, w) && Visits(q.source, w) == path && Cost(w) == latency
  {
    RunMetric(q, st, n);
    w := PathBehind(q, n, st, path, latency);
    TreeExact(q.G(), st, q.source, q.target, w);
  }

  lemma FinalNoPath(q: Query, n: nat, st: State)
    requires q.source in q.G().ids && q.target in q.G().ids && SENTINEL !in q.G().ids && Tame(q.G(), q.source)
    requires Ends(q, n, st, NoPath)
    ensures !Connected(q.G(), q.source, q.target)
  {
    RunRooted(q, st, n);
    RunMetric(q, st, n);
    forall w | IsWalk(q.G(), q.source, q.target, w)
      ensures false
    {
      FinalBound(q, st, w);
    }
  }

  /** Tame latencies and no node called -1: every run gives the right answer. */
  lemma SearchCorrect(q: Query, a: Answer)
    requires Outcome(q, a) && Tame(q.G(), q.source) && SENTINEL !in q.G().ids
    ensures Correct(q, a)
  {
    if q.source in q.G().ids && q.target in q.G().ids {
      var n, st :| Ends(q, n, st, a);
      match a {
        case Found(path, latency) => FinalFound(q, n, st, path, latency);
        case NoPath => FinalNoPath(q, n, st);
        case _ =>
      }
    }
  }

  /**
   * Map order does not matter: two tame queries over the same graph, listed in any two orders and
   * searched with any choices among ties, agree on whether there is a path and on its latency.
   */
  lemma OrderIrrelevant(q: Query, q': Query, a: Answer, a': Answer)
    requires q.G() == q'.G() && q.source == q'.source && q.target == q'.target
    requires Tame(q.G(), q.source) && SENTINEL !in q.G().ids
    requires Outcome(q, a) && Outcome(q', a')
    ensures a == a' || (a.Found? && a'.Found? && a.latency == a'.latency)
  {
    SearchCorrect(q, a);
    SearchCorrect(q', a');
    if a.Found? && a'.Found? {
      OneLeastCost(q.G(), q.source, q.target, a.latency, a'.latency);
    }
  }

  lemma OneLeastCost(g: Graph, s: Int32, t: Int32, c: int, c': int)
    requires IsLeastCost(g, s, t, c) && IsLeastCost(g, s, t, c')
    ensures c == c'
  {
  }
}
