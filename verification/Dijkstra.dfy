/** The search as the router runs it: loops over maps, in whatever order Go iterates them. */
module Dijkstra {
  import opened GoTypes
  import opened Graphs
  import opened Search
  import opened SearchProofs

  /** `adjacency` lists the edges out of every node, in list order; a node without any may be absent. */
  ghost predicate Adjacency(edges: seq<Edge>, adjacency: map<Int32, seq<Edge>>) {
    forall u: Int32 :: OutEdges(edges, u) == Neighbours(adjacency, u)
  }

  /** A Go map lookup: the empty slice where the key is absent. */
  function Neighbours(adjacency: map<Int32, seq<Edge>>, u: Int32): seq<Edge> {
    if u in adjacency then adjacency[u] else []
  }

  /** Group the edges by their source node. */
  method BuildAdjacency(edges: seq<Edge>) returns (adjacency: map<Int32, seq<Edge>>)
    ensures Adjacency(edges, adjacency)
  {
    adjacency := map[];
    for i := 0 to |edges|
      invariant Adjacency(edges[..i], adjacency)
    {
      var e := edges[i];
      assert edges[..i + 1][..i] == edges[..i];
      adjacency := adjacency[e.from := Neighbours(adjacency, e.from) + [e]];
    }
    assert edges[..|edges|] == edges;
  }

  /** Scan `unvisited` in arbitrary order for a node with the least distance. */
  method FindNearest(dist: map<Int32, Int64>, unvisited: set<Int32>) returns (current: Int32, least: Int64)
    requires unvisited <= dist.Keys
    ensures least == INF ==> current == SENTINEL && forall v :: v in unvisited ==> dist[v] == INF
    ensures least < INF ==> current in unvisited && dist[current] == least
    ensures forall v :: v in unvisited ==> least <= dist[v]
  {
    current, least := SENTINEL, INF;
    var rest := unvisited;
    while rest != {}
      invariant rest <= unvisited
      invariant least == INF ==> current == SENTINEL
      invariant least < INF ==> current in unvisited && dist[current] == least
      invariant forall v :: v in unvisited && v !in rest ==> least <= dist[v]
    {
      var v :| v in rest;
      rest := rest - {v};
      if dist[v] < least {
        least := dist[v];
        current := v;
      }
    }
  }

  /** Relax the edges out of `u` in list order. */
  method RelaxEdges(dist0: map<Int32, Int64>, prev0: map<Int32, Int32>, unvisited: set<Int32>, u: Int32, es: seq<Edge>)
    returns (dist: map<Int32, Int64>, prev: map<Int32, Int32>)
    requires State(dist0, prev0, unvisited).Over(dist0.Keys) && u in dist0
    ensures State(dist, prev, unvisited) == RelaxAll(State(dist0, prev0, unvisited), u, es)
  {
    dist, prev := dist0, prev0;
    ghost var st0 := State(dist0, prev0, unvisited);
    for i := 0 to |es|
      invariant State(dist, prev, unvisited) == RelaxAll(st0, u, es[..i])
    {
      var edge := es[i];
      assert es[..i + 1][..i] == es[..i];
      assert RelaxAll(st0, u, es[..i + 1]) == Relax(State(dist, prev, unvisited), u, edge);
      if edge.to !in unvisited {
        continue;
      }
      var newDist := Wrap64(dist[u] + edge.latency);
      if newDist < dist[edge.to] {
        dist := dist[edge.to := newDist];
        prev := prev[edge.to := u];
      }
    }
    assert es[..|es|] == es;
  }

  /** Walk backwards from `target`; it ends because `full` is what the links spell out. */
  method WalkBack(prev: map<Int32, Int32>, target: Int32, ghost full: seq<Int32>) returns (path: seq<Int32>)
    requires BackPath(prev, target, full)
    ensures path == full
  {
    path := [];
    var current := target;
    ghost var ahead := full;
    while current != SENTINEL
      invariant full == ahead + path && BackPath(prev, current, ahead)
      decreases |ahead|
    {
      path := [current] + path;
      ahead := ahead[..|ahead| - 1];
      current := prev[current];
    }
  }

  /** In a final state that reached the target, the backward walk is finite. */
  lemma BackWalkEnds(q: Query, n: nat, st: State) returns (full: seq<Int32>)
    requires q.source in q.G().ids && q.target in q.G().ids && Reach(q, st, n)
    requires st.Over(q.G().ids) && st.dist[q.target] < INF
    ensures BackPath(st.prev, q.target, full)
  {
    if q.target == SENTINEL {
      full := [];
    } else {
      RunRooted(q, st, n);
      var w :| Tree(q.G(), st, q.source, q.target, w);
      TreeBackPath(q.G(), st, q.source, q.target, w);
      full := Visits(q.source, w);
    }
  }

  /** Every listed node starts unreached, without a predecessor and unvisited. */
  method InitMaps(nodes: seq<Node>)
    returns (dist: map<Int32, Int64>, prev: map<Int32, Int32>, unvisited: set<Int32>)
    ensures unvisited == Ids(nodes)
    ensures dist == map v | v in Ids(nodes) :: INF
    ensures prev == map v | v in Ids(nodes) :: SENTINEL
  {
    dist, prev, unvisited := map[], map[], {};
    for i := 0 to |nodes|
      invariant unvisited == Ids(nodes[..i]) == dist.Keys == prev.Keys
      invariant forall v :: v in unvisited ==> dist[v] == INF && prev[v] == SENTINEL
    {
      var id := nodes[i].id;
      assert Ids(nodes[..i + 1]) == Ids(nodes[..i]) + {id} by {
        assert nodes[..i + 1] == nodes[..i] + [nodes[i]];
      }
      dist, prev, unvisited := dist[id := INF], prev[id := SENTINEL], unvisited + {id};
    }
    assert nodes[..|nodes|] == nodes;
  }

  /** A step of the search taken on its three maps. */
  method SettleOne(q: Query, st: State, adjacency: map<Int32, seq<Edge>>, u: Int32) returns (st': State)
    requires st.Over(q.G().ids) && u in q.G().ids
    requires Adjacency(q.edges, adjacency)
    ensures st' == Settle(q.edges, st, u)
  {
    var todo := st.unvisited - {u};
    var dist, prev := RelaxEdges(st.dist, st.prev, todo, u, Neighbours(adjacency, u));
    st' := State(dist, prev, todo);
  }

  /** The state at the head of the main loop after `n` iterations. */
  ghost predicate Running(q: Query, st: State, n: nat) {
    q.source in q.G().ids && Reach(q, st, n) && st.Over(q.G().ids) && q.target in st.unvisited
  }

  lemma RunningStep(q: Query, pre: State, n: nat, u: Int32)
    requires Running(q, pre, n) && IsNearest(pre, u) && u != SENTINEL && u != q.target
    ensures Running(q, Settle(q.edges, pre, u), n + 1)
  {
    StepReaches(q, pre, n, u);
  }

  /**
   * The main loop, one settled node an iteration.  The target is never removed from `unvisited`, so
   * the loop always leaves by one of its breaks, in a state that a run of the search ends in.
   */
  method Settling(q: Query, adjacency: map<Int32, seq<Edge>>, start: State) returns (st: State, ghost n: nat)
    requires q.source in q.G().ids && q.target in q.G().ids && start == Start(q)
    requires Adjacency(q.edges, adjacency)
    ensures Running(q, st, n) && Halted(q, st)
  {
    st := start;
    n := 0;
    while st.unvisited != {}
      invariant Running(q, st, n)
      decreases st.unvisited
    {
      var current, least := FindNearest(st.dist, st.unvisited);
      if current == SENTINEL || least == INF {
        break;
      }
      if current == q.target {
        break;
      }
      RunningStep(q, st, n, current);
      st := SettleOne(q, st, adjacency, current);
      n := n + 1;
    }
  }

  /** Every call ends, with the answer of some run of the search; nothing is required. */
  method FindPath(q: Query) returns (a: Answer)
    ensures Outcome(q, a)
  {
    var adjacency := BuildAdjacency(q.edges);
    var dist, prev, unvisited := InitMaps(q.nodes);
    if q.source !in dist {
      return SourceMissing;
    }
    if q.target !in dist {
      return TargetMissing;
    }
    var st, n := Settling(q, adjacency, State(dist[q.source := 0], prev, unvisited));
    if st.dist[q.target] == INF {
      a := NoPath;
    } else {
      ghost var full := BackWalkEnds(q, n, st);
      var path := WalkBack(st.prev, q.target, full);
      a := Found(path, st.dist[q.target]);
    }
    assert Ends(q, n, st, a);
  }
}
