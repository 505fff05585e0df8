/** The snapshots the router works on, and the walks of a graph. */
module Graphs {
  import opened GoTypes

  datatype Node = Node(id: Int32, address: Bytes, lastSeen: int)

  datatype Edge = Edge(from: Int32, to: Int32, latency: Int64)

  /** A graph without the order in which a Go map happens to list it. */
  datatype Graph = Graph(ids: set<Int32>, edges: set<Edge>)

  function Ids(nodes: seq<Node>): set<Int32> {
    set n | n in nodes :: n.id
  }

  function EdgeSet(edges: seq<Edge>): set<Edge> {
    set e | e in edges
  }

  /** `w` leads from `s` to `t` along edges of `g`, through listed nodes only. */
  ghost predicate IsWalk(g: Graph, s: Int32, t: Int32, w: seq<Edge>)
    decreases |w|
  {
    if w == [] then s == t && s in g.ids
    else
      var e := w[|w| - 1];
      e in g.edges && e.to == t && t in g.ids && IsWalk(g, s, e.from, w[..|w| - 1])
  }

  ghost function Cost(w: seq<Edge>): int {
    if w == [] then 0 else Cost(w[..|w| - 1]) + w[|w| - 1].latency
  }

  /** The nodes a walk from `s` visits, in order. */
  ghost function Visits(s: Int32, w: seq<Edge>): (p: seq<Int32>)
    ensures |p| == |w| + 1
  {
    if w == [] then [s] else Visits(s, w[..|w| - 1]) + [w[|w| - 1].to]
  }

  ghost predicate Connected(g: Graph, s: Int32, t: Int32) {
    exists w :: IsWalk(g, s, t, w)
  }

  /** No walk between the two ends is cheaper than `latency`, and one costs exactly that. */
  ghost predicate IsLeastCost(g: Graph, s: Int32, t: Int32, latency: int) {
    && (exists w :: IsWalk(g, s, t, w) && Cost(w) == latency)
    && (forall w :: IsWalk(g, s, t, w) ==> latency <= Cost(w))
  }

  /** `path` follows edges of `g` from `s` to `t` and repeats no node. */
  ghost predicate IsSimplePath(g: Graph, s: Int32, t: Int32, path: seq<Int32>) {
    && path != [] && path[0] == s && path[|path| - 1] == t
    && (forall i :: 0 <= i < |path| ==> path[i] in g.ids)
    && (forall i :: 0 <= i < |path| - 1 ==> Linked(g, path[i], path[i + 1]))
    && NoRepeats(path)
  }

  ghost predicate Linked(g: Graph, a: Int32, b: Int32) {
    exists e :: e in g.edges && e.from == a && e.to == b
  }

  ghost predicate NoRepeats<T>(s: seq<T>) {
    forall i, j :: 0 <= i < j < |s| ==> s[i] != s[j]
  }

  /** A sequence without repeats is no longer than any set that holds its elements. */
  lemma {:induction false} NoRepeatsFits<T>(s: seq<T>, all: set<T>)
    requires NoRepeats(s) && forall x :: x in s ==> x in all
    ensures |s| <= |all|
  {
    if s != [] {
      var x := s[|s| - 1];
      NoRepeatsFits(s[..|s| - 1], all - {x});
    }
  }

  lemma {:induction false} WalkVisits(g: Graph, s: Int32, t: Int32, w: seq<Edge>)
    requires IsWalk(g, s, t, w)
    ensures Visits(s, w)[0] == s && Visits(s, w)[|w|] == t
    ensures forall i :: 0 <= i <= |w| ==> Visits(s, w)[i] in g.ids
    ensures forall i :: 0 <= i < |w| ==> Linked(g, Visits(s, w)[i], Visits(s, w)[i + 1])
    decreases |w|
  {
    if w != [] {
      var e := w[|w| - 1];
      WalkVisits(g, s, e.from, w[..|w| - 1]);
      assert Linked(g, e.from, e.to);
    }
  }

  ghost predicate NonNegative(edges: set<Edge>) {
    forall e :: e in edges ==> e.latency >= 0
  }
}
