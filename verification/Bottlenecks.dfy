/** Peers whose edges are slow on average, found in one pass over the edges. */
module Bottlenecks {
  import opened GoTypes
  import opened Graphs
  import opened ShortestPaths

  /** How often `p` is an end of the edge: twice for a loop. */
  function Ends(e: Edge, p: Int32): nat {
    (if e.from == p then 1 else 0) + (if e.to == p then 1 else 0)
  }

  /** What the edge adds to the latency at `p`. */
  function Share(e: Edge, p: Int32): int {
    (if e.from == p then e.latency else 0) + (if e.to == p then e.latency else 0)
  }

  /** The number of edge ends at `p`. */
  function Degree(edges: seq<Edge>, p: Int32): nat {
    if edges == [] then 0 else Degree(edges[..|edges| - 1], p) + Ends(edges[|edges| - 1], p)
  }

  /** The latencies of the edges at `p`, a loop counted twice. */
  function Incident(edges: seq<Edge>, p: Int32): int {
    if edges == [] then 0
    else Incident(edges[..|edges| - 1], p) + Share(edges[|edges| - 1], p)
  }

  /** The two maps hold the sums over `edges`, in int64 and int32 arithmetic, for every end of an edge. */
  ghost predicate Accumulated(edges: seq<Edge>, latency: map<Int32, Int64>, degree: map<Int32, Int32>) {
    forall p: Int32 :: AccumulatedAt(edges, latency, degree, p)
  }

  ghost predicate AccumulatedAt(edges: seq<Edge>, latency: map<Int32, Int64>, degree: map<Int32, Int32>, p: Int32) {
    Counted(latency, degree, p, Incident(edges, p), Degree(edges, p))
  }

  /** The maps hold the sum `s` of `d` latencies for `p`. */
  ghost predicate Counted(latency: map<Int32, Int64>, degree: map<Int32, Int32>, p: Int32, s: int, d: nat) {
    && (p in latency <==> d > 0) && (p in degree <==> d > 0)
    && Get(latency, p) == Wrap64(s) && Get(degree, p) == Wrap32(d)
  }

  /** A Go map lookup: zero where the key is absent. */
  function Get(m: map<Int32, int>, p: Int32): int {
    if p in m then m[p] else 0
  }

  function AddLatency(m: map<Int32, Int64>, p: Int32, latency: Int64): map<Int32, Int64> {
    m[p := Wrap64(Get(m, p) + latency)]
  }

  function CountEnd(m: map<Int32, Int32>, p: Int32): map<Int32, Int32> {
    m[p := Wrap32(Get(m, p) + 1)]
  }

  lemma Wrap32Add(x: int, y: int)
    ensures Wrap32(Wrap32(x) + y) == Wrap32(x + y)
  {
    var k := (x - Wrap32(x)) / TWO_32;
    assert x + y == Wrap32(x) + y + k * TWO_32;
    assert (Wrap32(x) + y + k * TWO_32) % TWO_32 == (Wrap32(x) + y) % TWO_32;
  }

  lemma OneMore(edges: seq<Edge>, e: Edge, p: Int32)
    ensures Degree(edges + [e], p) == Degree(edges, p) + Ends(e, p)
    ensures Incident(edges + [e], p) == Incident(edges, p) + Share(e, p)
  {
    assert (edges + [e])[..|edges|] == edges;
  }

  /** The two updates for one end `x` of an edge, seen at one peer. */
  lemma CountOneEnd(latency: map<Int32, Int64>, degree: map<Int32, Int32>, x: Int32, l: Int64, p: Int32, s: int, d: nat)
    requires Counted(latency, degree, p, s, d)
    ensures var s', d' := if x == p then s + l else s, if x == p then d + 1 else d;
      Counted(AddLatency(latency, x, l), CountEnd(degree, x), p, s', d')
  {
    if x == p {
      WrapAdd(s, l);
      Wrap32Add(d, 1);
    }
  }

  /** The four updates for one edge; for a loop both ends count at once. */
  lemma AccumulateOne(edges: seq<Edge>, latency: map<Int32, Int64>, degree: map<Int32, Int32>, e: Edge, p: Int32)
    requires AccumulatedAt(edges, latency, degree, p)
    ensures AccumulatedAt(edges + [e],
                          AddLatency(AddLatency(latency, e.from, e.latency), e.to, e.latency),
                          CountEnd(CountEnd(degree, e.from), e.to), p)
  {
    OneMore(edges, e, p);
    var s, d := Incident(edges, p), Degree(edges, p);
    CountOneEnd(latency, degree, e.from, e.latency, p, s, d);
    var s1, d1 := if e.from == p then s + e.latency else s, if e.from == p then d + 1 else d;
    CountOneEnd(AddLatency(latency, e.from, e.latency), CountEnd(degree, e.from), e.to, e.latency, p, s1, d1);
  }

  lemma AccumulateEdge(edges: seq<Edge>, latency: map<Int32, Int64>, degree: map<Int32, Int32>, e: Edge)
    requires Accumulated(edges, latency, degree)
    ensures Accumulated(edges + [e],
                        AddLatency(AddLatency(latency, e.from, e.latency), e.to, e.latency),
                        CountEnd(CountEnd(degree, e.from), e.to))
  {
    var edges' := edges + [e];
    var latency' := AddLatency(AddLatency(latency, e.from, e.latency), e.to, e.latency);
    var degree' := CountEnd(CountEnd(degree, e.from), e.to);
    forall p: Int32
      ensures AccumulatedAt(edges', latency', degree', p)
    {
      AccumulateOne(edges, latency, degree, e, p);
    }
  }

  method Accumulate(edges: seq<Edge>) returns (latency: map<Int32, Int64>, degree: map<Int32, Int32>)
    ensures Accumulated(edges, latency, degree)
  {
    latency, degree := map[], map[];
    for i := 0 to |edges|
      invariant Accumulated(edges[..i], latency, degree)
    {
      var e := edges[i];
      AccumulateEdge(edges[..i], latency, degree, e);
      assert edges[..i + 1] == edges[..i] + [e];
      latency := AddLatency(latency, e.from, e.latency);
      degree := CountEnd(degree, e.from);
      latency := AddLatency(latency, e.to, e.latency);
      degree := CountEnd(degree, e.to);
    }
    assert edges[..|edges|] == edges;
  }

  /** What the scan tests, in machine arithmetic: the truncated average against the threshold. */
  predicate Flagged(edges: seq<Edge>, p: Int32, thresholdMs: Int64) {
    var degree := Wrap32(Degree(edges, p));
    degree > 0 && TruncDiv(Wrap64(Incident(edges, p)), degree) > thresholdMs
  }

  /** Lists exactly the flagged peers, each once, in arbitrary order. */
  method FindBottlenecks(edges: seq<Edge>, thresholdMs: Int64) returns (bottlenecks: seq<Int32>)
    ensures NoRepeats(bottlenecks)
    ensures forall p :: p in bottlenecks <==> Flagged(edges, p, thresholdMs)
  {
    var peerTotalLatency, peerDegree := Accumulate(edges);
    bottlenecks := [];
    var rest := peerTotalLatency.Keys;
    while rest != {}
      invariant rest <= peerTotalLatency.Keys && NoRepeats(bottlenecks)
      invariant forall p :: p in bottlenecks <==> p in peerTotalLatency && p !in rest && Flagged(edges, p, thresholdMs)
    {
      var p :| p in rest;
      rest := rest - {p};
      assert AccumulatedAt(edges, peerTotalLatency, peerDegree, p);
      var degree := peerDegree[p];
      if degree > 0 {
        var avgLatency := TruncDiv(peerTotalLatency[p], degree);
        if avgLatency > thresholdMs {
          bottlenecks := bottlenecks + [p];
        }
      }
    }
    forall p | Flagged(edges, p, thresholdMs)
      ensures p in peerTotalLatency
    {
      assert AccumulatedAt(edges, peerTotalLatency, peerDegree, p);
    }
  }

  // ---------------------------------------------------------------------------------------------
  // What the flag means, and what is conserved
  // ---------------------------------------------------------------------------------------------

  /** A simple bound on every peer's sums. */
  lemma {:induction false} SumsBound(edges: seq<Edge>, p: Int32)
    requires forall e :: e in edges ==> e.latency >= 0
    ensures Degree(edges, p) <= 2 * |edges| && 0 <= Incident(edges, p) <= 2 * Total(edges)
  {
    if edges != [] {
      var init, e := edges[..|edges| - 1], edges[|edges| - 1];
      assert edges == init + [e];
      SumsBound(init, p);
    }
  }

  /** What the flag says of a sum `s` of `d` latencies, without division: a negative sum is rounded up. */
  predicate AtLeastUnitAbove(s: int, d: int, thresholdMs: Int64) {
    d > 0 && if s >= 0 then s >= (thresholdMs + 1) * d else s > thresholdMs * d
  }

  /**
   * A peer is flagged exactly when its edges take at least a whole unit more than the threshold each,
   * by the sums that int64 and int32 leave: by its true sums as long as these fit.
   */
  lemma FlaggedMeans(edges: seq<Edge>, p: Int32, thresholdMs: Int64)
    ensures Flagged(edges, p, thresholdMs) <==>
      AtLeastUnitAbove(Wrap64(Incident(edges, p)), Wrap32(Degree(edges, p)), thresholdMs)
    ensures Degree(edges, p) <= MAX_INT32 && -MAX_INT64 <= Incident(edges, p) <= MAX_INT64 ==>
      (Flagged(edges, p, thresholdMs) <==> AtLeastUnitAbove(Incident(edges, p), Degree(edges, p), thresholdMs))
  {
    if Wrap32(Degree(edges, p)) > 0 {
      QuotientExceeds(Wrap64(Incident(edges, p)), Wrap32(Degree(edges, p)), thresholdMs);
    }
  }

  /** The average latency of the peer's edges is above the threshold, in exact arithmetic. */
  predicate ExceedsOnAverage(edges: seq<Edge>, p: Int32, thresholdMs: Int64) {
    Degree(edges, p) > 0 && Incident(edges, p) > thresholdMs * Degree(edges, p)
  }

  /**
   * The flag is never raised wrongly, and it is missing exactly for a non-negative average that
   * exceeds the threshold by less than one unit.
   */
  lemma FlagMissesFractions(edges: seq<Edge>, p: Int32, thresholdMs: Int64)
    requires Degree(edges, p) <= MAX_INT32 && -MAX_INT64 <= Incident(edges, p) <= MAX_INT64
    ensures Flagged(edges, p, thresholdMs) ==> ExceedsOnAverage(edges, p, thresholdMs)
    ensures ExceedsOnAverage(edges, p, thresholdMs) && !Flagged(edges, p, thresholdMs) <==>
      0 <= Incident(edges, p) &&
      thresholdMs * Degree(edges, p) < Incident(edges, p) < (thresholdMs + 1) * Degree(edges, p)
  {
    FlaggedMeans(edges, p, thresholdMs);
    WholeUnit(Incident(edges, p), Degree(edges, p), thresholdMs);
  }

  lemma WholeUnit(a: int, b: nat, t: int)
    ensures (t + 1) * b == t * b + b && (b == 0 ==> t * b == 0)
  {
  }

  /** Two edges of 1 and 2 at a peer: the average of 1.5 exceeds a threshold of 1 and is not flagged. */
  lemma FractionIsMissed(a: Int32, b: Int32, c: Int32)
    requires a != b && a != c
    ensures var edges := [Edge(a, b, 1), Edge(a, c, 2)];
      ExceedsOnAverage(edges, a, 1) && !Flagged(edges, a, 1)
  {
    var first, edges := [Edge(a, b, 1)], [Edge(a, b, 1), Edge(a, c, 2)];
    assert first[..0] == [] && edges[..1] == first;
    assert Degree(first, a) == 1 && Incident(first, a) == 1;
    FlagMissesFractions(edges, a, 1);
  }

  lemma QuotientExceeds(a: int, b: int, t: int)
    requires b > 0
    ensures TruncDiv(a, b) > t <==> if a >= 0 then a >= (t + 1) * b else a > t * b
  {
    var q := TruncDiv(a, b);
    if q >= t + 1 {
      Monotone(t + 1, q, b);
      Monotone(t, q - 1, b);
    } else {
      Monotone(q + 1, t + 1, b);
      Monotone(q, t, b);
    }
  }

  lemma Monotone(x: int, y: int, b: int)
    requires x <= y && b > 0
    ensures x * b <= y * b
  {
  }

  function DegreeSum(edges: seq<Edge>, peers: seq<Int32>): int {
    if peers == [] then 0 else DegreeSum(edges, peers[..|peers| - 1]) + Degree(edges, peers[|peers| - 1])
  }

  function IncidentSum(edges: seq<Edge>, peers: seq<Int32>): int {
    if peers == [] then 0 else IncidentSum(edges, peers[..|peers| - 1]) + Incident(edges, peers[|peers| - 1])
  }

  function EndSum(e: Edge, peers: seq<Int32>): nat {
    if peers == [] then 0 else EndSum(e, peers[..|peers| - 1]) + Ends(e, peers[|peers| - 1])
  }

  lemma {:induction false} EndsCounted(e: Edge, peers: seq<Int32>)
    requires NoRepeats(peers)
    ensures EndSum(e, peers) == (if e.from in peers then 1 else 0) + (if e.to in peers then 1 else 0)
  {
    if peers != [] {
      var init, last := peers[..|peers| - 1], peers[|peers| - 1];
      assert peers == init + [last] && last !in init;
      EndsCounted(e, init);
    }
  }

  lemma {:induction false} SumsGrow(edges: seq<Edge>, e: Edge, peers: seq<Int32>)
    ensures DegreeSum(edges + [e], peers) == DegreeSum(edges, peers) + EndSum(e, peers)
    ensures IncidentSum(edges + [e], peers) == IncidentSum(edges, peers) + EndSum(e, peers) * e.latency
  {
    if peers != [] {
      var init, last := peers[..|peers| - 1], peers[|peers| - 1];
      SumsGrow(edges, e, init);
      OneMore(edges, e, last);
      Distributes(EndSum(e, init), Ends(e, last), e.latency);
    }
  }

  lemma Distributes(a: int, b: int, l: int)
    ensures (a + b) * l == a * l + b * l
  {
  }

  /** Over all peers the degrees add up to twice the edges, and the incident latencies to twice the total. */
  lemma {:induction false} SumsConserved(edges: seq<Edge>, peers: seq<Int32>)
    requires NoRepeats(peers)
    requires forall e :: e in edges ==> e.from in peers && e.to in peers
    ensures DegreeSum(edges, peers) == 2 * |edges| && IncidentSum(edges, peers) == 2 * Total(edges)
  {
    if edges == [] {
      NothingToSum(peers);
    } else {
      var init, e := edges[..|edges| - 1], edges[|edges| - 1];
      assert edges == init + [e];
      SumsConserved(init, peers);
      SumsGrow(init, e, peers);
      EndsCounted(e, peers);
    }
  }

  lemma {:induction false} NothingToSum(peers: seq<Int32>)
    ensures DegreeSum([], peers) == 0 && IncidentSum([], peers) == 0
  {
    if peers != [] {
      NothingToSum(peers[..|peers| - 1]);
    }
  }
}
