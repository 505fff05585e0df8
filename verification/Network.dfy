/** A peer's view of the overlay network: a map of nodes and a string-keyed map of edges. */
module Network {
  import opened GoTypes
  import opened Keys
  import opened Graphs

  datatype Net = Net(nodes: map<Int32, Node>, edges: map<Bytes, Edge>) {
    /** Every entry is filed under its own ID or its own pair of ends. */
    ghost predicate Filed() {
      && (forall id :: id in nodes ==> nodes[id].id == id)
      && (forall k :: k in edges ==> k == EdgeKey(edges[k].from, edges[k].to))
    }

    function G(): Graph {
      Graph(nodes.Keys, edges.Values)
    }
  }

  function WithNode(net: Net, id: Int32, address: Bytes, now: int): Net {
    net.(nodes := net.nodes[id := Node(id, address, now)])
  }

  function WithEdge(net: Net, from: Int32, to: Int32, latency: Int64): Net {
    net.(edges := net.edges[EdgeKey(from, to) := Edge(from, to, latency)])
  }

  /** `nodes` is a snapshot of the node map in some order. */
  ghost predicate ListsNodes(net: Net, nodes: seq<Node>) {
    (forall n :: n in nodes <==> n in net.nodes.Values) && |nodes| == |net.nodes|
  }

  /** `edges` is a snapshot of the edge map in some order. */
  ghost predicate ListsEdges(net: Net, edges: seq<Edge>) {
    (forall e :: e in edges <==> e in net.edges.Values) && |edges| == |net.edges|
  }

  /** A pair of snapshots spells out the graph they were taken of, even taken at different times. */
  lemma SnapshotGraph(net: Net, net': Net, nodes: seq<Node>, edges: seq<Edge>)
    requires net.Filed() && ListsNodes(net, nodes) && ListsEdges(net', edges)
    ensures Ids(nodes) == net.nodes.Keys && EdgeSet(edges) == net'.edges.Values
  {
    forall id | id in net.nodes
      ensures id in Ids(nodes)
    {
      assert net.nodes[id] in nodes;
    }
  }

  /** Adding a node adds or renews the node of that ID, and touches no other node and no edge. */
  lemma NodesById(net: Net, id: Int32, address: Bytes, now: int, n: Node)
    requires net.Filed()
    ensures WithNode(net, id, address, now).Filed()
    ensures WithNode(net, id, address, now).edges == net.edges
    ensures n in WithNode(net, id, address, now).nodes.Values <==>
      if n.id == id then n.address == address && n.lastSeen == now else n in net.nodes.Values
  {
    var net' := WithNode(net, id, address, now);
    assert net'.nodes[id] == Node(id, address, now);
    if n in net.nodes.Values {
      var i :| i in net.nodes && net.nodes[i] == n;
      assert i != id ==> i in net'.nodes && net'.nodes[i] == n;
    }
  }

  /**
   * The string-keyed edge map is a map on pairs: adding an edge replaces the edge between the same
   * two nodes in that direction, if there is one, and touches no other edge and no node.
   */
  lemma EdgesByPair(net: Net, from: Int32, to: Int32, latency: Int64, e: Edge)
    requires net.Filed()
    ensures WithEdge(net, from, to, latency).Filed() && WithEdge(net, from, to, latency).nodes == net.nodes
    ensures e in WithEdge(net, from, to, latency).G().edges <==>
      if e.from == from && e.to == to then e.latency == latency else e in net.G().edges
  {
    var net', key := WithEdge(net, from, to, latency), EdgeKey(from, to);
    EdgeKeyInjective(e.from, e.to, from, to);
    if e in net'.G().edges {
      var k :| k in net'.edges && net'.edges[k] == e;
    }
    if e in net.G().edges {
      var k :| k in net.edges && net.edges[k] == e;
      assert k != key ==> k in net'.edges && net'.edges[k] == e;
    }
    assert key in net'.edges && net'.edges[key] == Edge(from, to, latency);
  }

  class NetworkGraph {
    var nodes: map<Int32, Node>
    var edges: map<Bytes, Edge>

    function View(): Net
      reads this
    {
      Net(nodes, edges)
    }

    constructor ()
      ensures View() == Net(map[], map[]) && View().Filed()
    {
      nodes, edges := map[], map[];
    }

    method AddNode(id: Int32, address: Bytes, now: int)
      requires View().Filed()
      modifies this
      ensures View() == WithNode(old(View()), id, address, now) && View().Filed()
    {
      nodes := nodes[id := Node(id, address, now)];
    }

    method AddEdge(from: Int32, to: Int32, latency: Int64)
      requires View().Filed()
      modifies this
      ensures View() == WithEdge(old(View()), from, to, latency) && View().Filed()
    {
      var key := EdgeKey(from, to);
      edges := edges[key := Edge(from, to, latency)];
    }

    method GetNodeList() returns (listed: seq<Node>)
      ensures ListsNodes(View(), listed)
    {
      listed := [];
      var rest := nodes.Keys;
      while rest != {}
        invariant rest <= nodes.Keys && |listed| + |rest| == |nodes|
        invariant forall n :: n in listed ==> n in nodes.Values
        invariant forall id :: id in nodes && id !in rest ==> nodes[id] in listed
      {
        var id :| id in rest;
        rest := rest - {id};
        listed := listed + [nodes[id]];
      }
    }

    method GetEdgeList() returns (listed: seq<Edge>)
      ensures ListsEdges(View(), listed)
    {
      listed := [];
      var rest := edges.Keys;
      while rest != {}
        invariant rest <= edges.Keys && |listed| + |rest| == |edges|
        invariant forall e :: e in listed ==> e in edges.Values
        invariant forall k :: k in edges && k !in rest ==> edges[k] in listed
      {
        var k :| k in rest;
        rest := rest - {k};
        listed := listed + [edges[k]];
      }
    }
  }
}
