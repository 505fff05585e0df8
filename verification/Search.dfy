/**
 * The shortest-path search as a transition system.  A state holds the three maps the search
 * updates; a step settles one nearest unvisited node, and any of several equally near nodes may be
 * the one a Go map iteration meets first.  Theorems about every run are in SearchProofs.
 */
module Search {
  import opened GoTypes
  import opened Graphs

  /** "Unreached": the largest int64. */
  const INF: Int64 := MAX_INT64

  /** The ID that stands for "no node" in `previous` and in the scan for the nearest node. */
  const SENTINEL: Int32 := -1

  datatype Query = Query(nodes: seq<Node>, edges: seq<Edge>, source: Int32, target: Int32) {
    function G(): Graph {
      Graph(Ids(nodes), EdgeSet(edges))
    }
  }

  datatype State = State(dist: map<Int32, Int64>, prev: map<Int32, Int32>, unvisited: set<Int32>) {
    predicate Over(ids: set<Int32>) {
      dist.Keys == ids && prev.Keys == ids && unvisited <= ids
    }
  }

  datatype Answer =
    | Found(path: seq<Int32>, latency: Int64)
    | SourceMissing
    | TargetMissing
    | NoPath

  function Start(q: Query): (st: State)
    requires q.source in q.G().ids
    ensures st.Over(q.G().ids)
  {
    var ids := q.G().ids;
    State((map v | v in ids :: INF)[q.source := 0], map v | v in ids :: SENTINEL, ids)
  }

  /** The edges that leave `u`, in list order. */
  function OutEdges(edges: seq<Edge>, u: Int32): seq<Edge> {
    if edges == [] then []
    else
      var rest := OutEdges(edges[..|edges| - 1], u);
      var e := edges[|edges| - 1];
      if e.from == u then rest + [e] else rest
  }

  function Relax(st: State, u: Int32, e: Edge): (st': State)
    requires st.Over(st.dist.Keys) && u in st.dist
    ensures st'.Over(st.dist.Keys) && st'.unvisited == st.unvisited
  {
    if e.to !in st.unvisited then st
    else
      var d := Wrap64(st.dist[u] + e.latency);
      if d < st.dist[e.to]
      then st.(dist := st.dist[e.to := d], prev := st.prev[e.to := u])
      else st
  }

  function RelaxAll(st: State, u: Int32, es: seq<Edge>): (st': State)
    requires st.Over(st.dist.Keys) && u in st.dist
    ensures st'.Over(st.dist.Keys) && st'.unvisited == st.unvisited
  {
    if es == [] then st else Relax(RelaxAll(st, u, es[..|es| - 1]), u, es[|es| - 1])
  }

  function Settle(edges: seq<Edge>, st: State, u: Int32): (st': State)
    requires st.Over(st.dist.Keys) && u in st.dist
    ensures st'.Over(st.dist.Keys) && st'.unvisited == st.unvisited - {u}
  {
    RelaxAll(st.(unvisited := st.unvisited - {u}), u, OutEdges(edges, u))
  }

  /** The scan over `unvisited` may come out with `u`. */
  predicate IsNearest(st: State, u: Int32)
    requires st.unvisited <= st.dist.Keys
  {
    u in st.unvisited && st.dist[u] < INF && forall v :: v in st.unvisited ==> st.dist[u] <= st.dist[v]
  }

  predicate Exhausted(st: State)
    requires st.unvisited <= st.dist.Keys
  {
    forall v :: v in st.unvisited ==> st.dist[v] == INF
  }

  ghost predicate Reach(q: Query, st: State, n: nat)
    requires q.source in q.G().ids
    decreases n
  {
    if n == 0 then st == Start(q)
    else exists pre, u :: Reach(q, pre, n - 1) && StepsTo(q, pre, u, st)
  }

  ghost predicate StepsTo(q: Query, pre: State, u: Int32, st: State) {
    && pre.Over(q.G().ids)
    && IsNearest(pre, u) && u != SENTINEL && u != q.target
    && st == Settle(q.edges, pre, u)
  }

  /** The main loop may leave by one of its breaks. */
  predicate Halted(q: Query, st: State)
    requires st.unvisited <= st.dist.Keys
  {
    Exhausted(st) || IsNearest(st, SENTINEL) || IsNearest(st, q.target)
  }

  /** `path` is what the backward walk from `current` through `previous` collects. */
  predicate BackPath(prev: map<Int32, Int32>, current: Int32, path: seq<Int32>)
    decreases |path|
  {
    if current == SENTINEL then path == []
    else
      && path != [] && path[|path| - 1] == current && current in prev
      && BackPath(prev, prev[current], path[..|path| - 1])
  }

  ghost predicate Ends(q: Query, n: nat, st: State, a: Answer)
    requires q.source in q.G().ids && q.target in q.G().ids
  {
    && Reach(q, st, n) && st.Over(q.G().ids) && Halted(q, st)
    && match a
       case Found(path, latency) =>
         latency == st.dist[q.target] && latency != INF && BackPath(st.prev, q.target, path)
       case NoPath => st.dist[q.target] == INF
       case _ => false
  }

  /** Some run of the search on `q` gives the answer `a`. */
  ghost predicate Outcome(q: Query, a: Answer) {
    if q.source !in q.G().ids then a == SourceMissing
    else if q.target !in q.G().ids then a == TargetMissing
    else exists n, st :: Ends(q, n, st, a)
  }
}
