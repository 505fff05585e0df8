/** What every run of the search guarantees. */
module SearchProofs {
  import opened GoTypes
  import opened Graphs
  import opened Search

  // ---------------------------------------------------------------------------------------------
  // One settling step
  // ---------------------------------------------------------------------------------------------

  lemma {:induction false} OutEdgesAre(edges: seq<Edge>, u: Int32, e: Edge)
    ensures e in OutEdges(edges, u) <==> e in edges && e.from == u
  {
    if edges != [] {
      OutEdgesAre(edges[..|edges| - 1], u, e);
      assert edges == edges[..|edges| - 1] + [edges[|edges| - 1]];
    }
  }

  /** `v` received its present entries from `u` along an edge of `es`. */
  ghost predicate Improved(st: State, st': State, u: Int32, es: seq<Edge>, v: Int32)
    requires st.Over(st.dist.Keys) && st'.Over(st.dist.Keys) && u in st.dist && v in st.dist
  {
    && v in st.unvisited && st'.prev[v] == u && st'.dist[v] < st.dist[v]
    && exists e :: e in es && e.to == v && st'.dist[v] == Wrap64(st.dist[u] + e.latency)
  }

  ghost predicate Untouched(st: State, st': State, v: Int32)
    requires st.Over(st.dist.Keys) && st'.Over(st.dist.Keys) && v in st.dist
  {
    st'.dist[v] == st.dist[v] && st'.prev[v] == st.prev[v]
  }

  lemma RelaxAt(st: State, u: Int32, e: Edge, v: Int32)
    requires st.Over(st.dist.Keys) && u in st.dist && v in st.dist
    ensures Untouched(st, Relax(st, u, e), v) || Improved(st, Relax(st, u, e), u, [e], v)
    ensures e.to in st.unvisited ==> Relax(st, u, e).dist[e.to] <= Wrap64(st.dist[u] + e.latency)
  {
    if e.to == v {
      assert e in [e];
    }
  }

  /** Relaxing a list of edges leaves a node alone or improves it. */
  lemma {:induction false} RelaxAllAt(st: State, u: Int32, es: seq<Edge>, v: Int32)
    requires st.Over(st.dist.Keys) && u in st.dist && u !in st.unvisited && v in st.dist
    ensures Untouched(st, RelaxAll(st, u, es), v) || Improved(st, RelaxAll(st, u, es), u, es, v)
  {
    if es != [] {
      var init, e := es[..|es| - 1], es[|es| - 1];
      RelaxAllAt(st, u, init, v);
      RelaxAllAt(st, u, init, u);
      var mid := RelaxAll(st, u, init);
      RelaxAt(mid, u, e, v);
      ImprovedTwice(st, mid, RelaxAll(st, u, es), u, init, e, v);
      assert es == init + [e];
    }
  }

  lemma ImprovedTwice(st: State, mid: State, st': State, u: Int32, init: seq<Edge>, e: Edge, v: Int32)
    requires st.Over(st.dist.Keys) && mid.Over(st.dist.Keys) && st'.Over(st.dist.Keys)
    requires u in st.dist && v in st.dist && mid.dist[u] == st.dist[u] && mid.unvisited == st.unvisited
    requires Untouched(st, mid, v) || Improved(st, mid, u, init, v)
    requires Untouched(mid, st', v) || Improved(mid, st', u, [e], v)
    ensures Untouched(st, st', v) || Improved(st, st', u, init + [e], v)
  {
    if Improved(mid, st', u, [e], v) {
      assert e in init + [e];
    } else if Improved(st, mid, u, init, v) {
      var e' :| e' in init && e'.to == v && mid.dist[v] == Wrap64(st.dist[u] + e'.latency);
      assert e' in init + [e];
    }
  }

  /** Relaxing one edge raises no distance and takes the edge into account. */
  lemma RelaxLowers(st: State, u: Int32, e: Edge, v: Int32)
    requires st.Over(st.dist.Keys) && u in st.dist && v in st.dist
    ensures Relax(st, u, e).dist[v] <= st.dist[v]
    ensures v == e.to && v in st.unvisited ==> Relax(st, u, e).dist[v] <= Wrap64(st.dist[u] + e.latency)
  {
  }

  /** The node whose edges are relaxed keeps its own distance. */
  lemma RelaxAllKeeps(st: State, u: Int32, es: seq<Edge>)
    requires st.Over(st.dist.Keys) && u in st.dist && u !in st.unvisited
    ensures RelaxAll(st, u, es).dist[u] == st.dist[u]
  {
    RelaxAllAt(st, u, es, u);
  }

  /** Relaxing a list of edges overlooks none of them. */
  lemma {:induction false} RelaxAllCovers(st: State, u: Int32, es: seq<Edge>, e: Edge)
    requires st.Over(st.dist.Keys) && u in st.dist && u !in st.unvisited
    requires e in es && e.to in st.unvisited
    ensures RelaxAll(st, u, es).dist[e.to] <= Wrap64(st.dist[u] + e.latency)
  {
    var init, last := es[..|es| - 1], es[|es| - 1];
    var mid := RelaxAll(st, u, init);
    RelaxAllKeeps(st, u, init);
    RelaxLowers(mid, u, last, e.to);
    if e != last {
      assert es == init + [last];
      RelaxAllCovers(st, u, init, e);
    }
  }

  /** `v` was improved by settling `u`. */
  ghost predicate ImprovedVia(g: Graph, st: State, st': State, u: Int32, v: Int32)
    requires st.Over(g.ids) && st'.Over(g.ids) && u in g.ids && v in g.ids
  {
    && v in st.unvisited && v != u && st'.prev[v] == u && st'.dist[v] < st.dist[v]
    && exists e :: e in g.edges && e.from == u && e.to == v && st'.dist[v] == Wrap64(st.dist[u] + e.latency)
  }

  /** An improvement along an edge out of `u` is one along an edge of the graph. */
  lemma ImprovedInGraph(edges: seq<Edge>, g: Graph, st0: State, st: State, st': State, u: Int32, v: Int32)
    requires st.Over(g.ids) && st'.Over(g.ids) && u in g.ids && v in g.ids && g.edges == EdgeSet(edges)
    requires st0 == st.(unvisited := st.unvisited - {u}) && st0.Over(st0.dist.Keys) && st'.Over(st0.dist.Keys)
    requires Improved(st0, st', u, OutEdges(edges, u), v)
    ensures ImprovedVia(g, st, st', u, v)
  {
    var e :| e in OutEdges(edges, u) && e.to == v && st'.dist[v] == Wrap64(st0.dist[u] + e.latency);
    OutEdgesAre(edges, u, e);
    assert e in g.edges;
  }

  lemma SettleAt(edges: seq<Edge>, g: Graph, st: State, u: Int32, v: Int32)
    requires st.Over(g.ids) && u in g.ids && v in g.ids && g.edges == EdgeSet(edges)
    ensures Untouched(st, Settle(edges, st, u), v) || ImprovedVia(g, st, Settle(edges, st, u), u, v)
  {
    var st0 := st.(unvisited := st.unvisited - {u});
    var st' := Settle(edges, st, u);
    RelaxAllAt(st0, u, OutEdges(edges, u), v);
    if !Untouched(st, st', v) {
      ImprovedInGraph(edges, g, st0, st, st', u, v);
    }
  }

  lemma SettleCovers(edges: seq<Edge>, st: State, u: Int32, e: Edge)
    requires st.Over(st.dist.Keys) && u in st.dist
    requires e in edges && e.from == u && e.to in st.unvisited && e.to != u
    ensures Settle(edges, st, u).dist[e.to] <= Wrap64(st.dist[u] + e.latency)
  {
    OutEdgesAre(edges, u, e);
    RelaxAllCovers(st.(unvisited := st.unvisited - {u}), u, OutEdges(edges, u), e);
  }

  // ---------------------------------------------------------------------------------------------
  // The tree of `previous` links, for any latencies at all
  // ---------------------------------------------------------------------------------------------

  /** `w` is the walk from `s` that the `previous` links of `v` describe. */
  ghost predicate Tree(g: Graph, st: State, s: Int32, v: Int32, w: seq<Edge>)
    requires st.Over(g.ids)
    decreases |w|
  {
    && v in g.ids && st.dist[v] == Wrap64(Cost(w)) && st.dist[v] < INF
    && if w == [] then v == s && st.prev[v] == SENTINEL
       else
         var e, init := w[|w| - 1], w[..|w| - 1];
         && e in g.edges && e.to == v && e.from == st.prev[v]
         && e.from != SENTINEL && e.from !in st.unvisited
         && v !in Visits(s, init)
         && Tree(g, st, s, e.from, init)
  }

  ghost predicate Rooted(g: Graph, st: State, s: Int32) {
    && st.Over(g.ids)
    && forall v :: v in g.ids && st.dist[v] < INF ==> exists w :: Tree(g, st, s, v, w)
  }

  lemma {:induction false} TreeIsWalk(g: Graph, st: State, s: Int32, v: Int32, w: seq<Edge>)
    requires st.Over(g.ids) && Tree(g, st, s, v, w)
    ensures IsWalk(g, s, v, w) && Visits(s, w)[|w|] == v && NoRepeats(Visits(s, w))
    ensures forall i :: 0 <= i < |w| ==> Visits(s, w)[i] !in st.unvisited
    decreases |w|
  {
    if w != [] {
      TreeIsWalk(g, st, s, w[|w| - 1].from, w[..|w| - 1]);
    }
  }

  lemma {:induction false} TreeBackPath(g: Graph, st: State, s: Int32, v: Int32, w: seq<Edge>)
    requires st.Over(g.ids) && Tree(g, st, s, v, w) && v != SENTINEL
    ensures BackPath(st.prev, v, Visits(s, w))
    decreases |w|
  {
    if w != [] {
      var init := w[..|w| - 1];
      TreeBackPath(g, st, s, w[|w| - 1].from, init);
      assert Visits(s, w)[..|w|] == Visits(s, init);
    } else {
      assert Visits(s, w)[..0] == [];
    }
  }

  lemma {:induction false} BackPathUnique(prev: map<Int32, Int32>, v: Int32, p: seq<Int32>, p': seq<Int32>)
    requires BackPath(prev, v, p) && BackPath(prev, v, p')
    ensures p == p'
    decreases |p|
  {
    if v != SENTINEL {
      BackPathUnique(prev, prev[v], p[..|p| - 1], p'[..|p'| - 1]);
      assert p == p[..|p| - 1] + [v] && p' == p'[..|p'| - 1] + [v];
    }
  }

  /** Settling a node changes nothing about the walks of nodes it does not improve. */
  lemma {:induction false} TreeStable(edges: seq<Edge>, g: Graph, st: State, u: Int32, s: Int32, v: Int32, w: seq<Edge>)
    requires st.Over(g.ids) && u in g.ids && g.edges == EdgeSet(edges)
    requires Tree(g, st, s, v, w) && Untouched(st, Settle(edges, st, u), v)
    ensures Tree(g, Settle(edges, st, u), s, v, w)
    decreases |w|
  {
    if w != [] {
      var from := w[|w| - 1].from;
      SettleAt(edges, g, st, u, from);
      TreeStable(edges, g, st, u, s, from, w[..|w| - 1]);
    }
  }

  /** An improved node hangs below the node just settled. */
  lemma TreeExtends(g: Graph, st: State, st': State, u: Int32, s: Int32, v: Int32, w: seq<Edge>) returns (w': seq<Edge>)
    requires st.Over(g.ids) && st'.Over(g.ids) && u in g.ids && v in g.ids
    requires st'.unvisited == st.unvisited - {u} && u != SENTINEL
    requires Tree(g, st', s, u, w) && st'.dist[u] == st.dist[u] && ImprovedVia(g, st, st', u, v)
    ensures Tree(g, st', s, v, w')
  {
    var e :| e in g.edges && e.from == u && e.to == v && st'.dist[v] == Wrap64(st.dist[u] + e.latency);
    w' := w + [e];
    VisitsUnder(g, st', s, u, w, v);
    TreePlus(g, st', s, w, e);
  }

  /** A tree walk grows by an edge whose end carries the sum and the link. */
  lemma TreePlus(g: Graph, st: State, s: Int32, w: seq<Edge>, e: Edge)
    requires st.Over(g.ids) && e in g.edges && e.to in g.ids && Tree(g, st, s, e.from, w)
    requires e.from != SENTINEL && e.from !in st.unvisited && e.to !in Visits(s, w)
    requires st.prev[e.to] == e.from && st.dist[e.to] == Wrap64(st.dist[e.from] + e.latency) < INF
    ensures Tree(g, st, s, e.to, w + [e])
  {
    var w' := w + [e];
    assert w'[..|w'| - 1] == w;
    WrapAdd(Cost(w), e.latency);
  }

  lemma VisitsUnder(g: Graph, st: State, s: Int32, u: Int32, w: seq<Edge>, v: Int32)
    requires st.Over(g.ids) && Tree(g, st, s, u, w) && u !in st.unvisited && v in st.unvisited
    ensures v !in Visits(s, w)
  {
    TreeIsWalk(g, st, s, u, w);
  }

  lemma RootedStep(edges: seq<Edge>, g: Graph, st: State, u: Int32, s: Int32)
    requires Rooted(g, st, s) && g.edges == EdgeSet(edges)
    requires u in st.unvisited && st.dist[u] < INF && u != SENTINEL
    ensures Rooted(g, Settle(edges, st, u), s)
  {
    var st' := Settle(edges, st, u);
    SettleAt(edges, g, st, u, u);
    var wu :| Tree(g, st, s, u, wu);
    TreeStable(edges, g, st, u, s, u, wu);
    forall v | v in g.ids && st'.dist[v] < INF
      ensures exists w :: Tree(g, st', s, v, w)
    {
      SettleAt(edges, g, st, u, v);
      if Untouched(st, st', v) {
        var w :| Tree(g, st, s, v, w);
        TreeStable(edges, g, st, u, s, v, w);
      } else {
        var w := TreeExtends(g, st, st', u, s, v, wu);
      }
    }
  }

  /** Settling a nearest node extends a run by one step. */
  lemma StepReaches(q: Query, pre: State, n: nat, u: Int32)
    requires q.source in q.G().ids && Reach(q, pre, n) && pre.Over(q.G().ids)
    requires IsNearest(pre, u) && u != SENTINEL && u != q.target
    ensures Reach(q, Settle(q.edges, pre, u), n + 1)
  {
    assert Reach(q, pre, n) && StepsTo(q, pre, u, Settle(q.edges, pre, u));
  }

  /** The last step of a run. */
  lemma LastStep(q: Query, st: State, n: nat) returns (pre: State, u: Int32)
    requires q.source in q.G().ids && n > 0 && Reach(q, st, n)
    ensures Reach(q, pre, n - 1) && StepsTo(q, pre, u, st)
  {
    pre, u :| Reach(q, pre, n - 1) && StepsTo(q, pre, u, st);
  }

  lemma RootedStart(q: Query)
    requires q.source in q.G().ids
    ensures Rooted(q.G(), Start(q), q.source)
  {
    var g, st := q.G(), Start(q);
    assert Wrap64(Cost([])) == 0;
    assert Tree(g, st, q.source, q.source, []);
  }

  /** Every reachable state describes a tree rooted at the source, and the target stays unvisited. */
  lemma {:induction false} RunRooted(q: Query, st: State, n: nat)
    requires q.source in q.G().ids && q.target in q.G().ids && Reach(q, st, n)
    ensures Rooted(q.G(), st, q.source) && q.target in st.unvisited
    decreases n
  {
    if n == 0 {
      RootedStart(q);
    } else {
      var pre, u := LastStep(q, st, n);
      RunRooted(q, pre, n - 1);
      RootedStep(q.edges, q.G(), pre, u, q.source);
    }
  }

  /** The tree walk behind the path that a final state returns. */
  lemma PathBehind(q: Query, n: nat, st: State, path: seq<Int32>, latency: Int64) returns (w: seq<Edge>)
    requires q.source in q.G().ids && q.target in q.G().ids && q.target != SENTINEL
    requires Ends(q, n, st, Found(path, latency))
    ensures Tree(q.G(), st, q.source, q.target, w)
    ensures IsWalk(q.G(), q.source, q.target, w) && Visits(q.source, w) == path && Wrap64(Cost(w)) == latency
    ensures IsSimplePath(q.G(), q.source, q.target, path)
  {
    var g, s, t := q.G(), q.source, q.target;
    RunRooted(q, st, n);
    w :| Tree(g, st, s, t, w);
    TreeIsWalk(g, st, s, t, w);
    TreeBackPath(g, st, s, t, w);
    BackPathUnique(st.prev, t, path, Visits(s, w));
    WalkVisits(g, s, t, w);
  }

  /**
   * A returned path is a simple path of the snapshot, and the latency is its sum as int64 arithmetic
   * gives it: for any latencies, negative or overflowing, and any target but the sentinel.
   */
  lemma PathSound(q: Query, path: seq<Int32>, latency: Int64)
    requires Outcome(q, Found(path, latency)) && q.target != SENTINEL
    ensures IsSimplePath(q.G(), q.source, q.target, path) && 1 <= |path| <= |q.G().ids|
    ensures exists w ::
      IsWalk(q.G(), q.source, q.target, w) && Visits(q.source, w) == path && Wrap64(Cost(w)) == latency
  {
    var n, st :| Ends(q, n, st, Found(path, latency));
    var w := PathBehind(q, n, st, path, latency);
    NoRepeatsFits(path, q.G().ids);
  }
}
