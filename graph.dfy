/** src/graph.rs: the arena of nodes and edges addressed by dense ids. */
module Graph {
  import opened Wrappers
  import opened Sequences

  type NodeId = nat
  type EdgeId = nat

  /** A node: its id, its payload and the ids of the edges leaving it. */
  datatype GraphNode<T> = GraphNode(id: NodeId, data: T, outEdges: seq<EdgeId>)
  {
    /** `GraphNode::add_edge`: the edge id goes to the end of the out-edge list. */
    function AddEdge(e: EdgeId): (n: GraphNode<T>)
      ensures n.id == id && n.data == data
      ensures n.outEdges == outEdges + [e]
    {
      this.(outEdges := outEdges + [e])
    }

    /** `GraphNode::get_edges`. */
    function GetEdges(): (r: seq<EdgeId>)
      ensures r == outEdges
    {
      outEdges
    }
  }

  /** An edge from `s` to `t`. */
  datatype GraphEdge<T> = GraphEdge(id: EdgeId, s: NodeId, t: NodeId, data: T)

  /** The payload of a road-graph node: its coordinates. */
  datatype NodeData = NodeData(lat: real, lon: real)

  /** The payload of a road-graph edge. */
  datatype EdgeData = EdgeData(name: string, streetType: string, maxSpeed: u8, bidirectional: bool)

  /** The out-edge list node `v` has after the first `m` edges were added: in id
      order, each edge once for which `v` is the source, and once more for which
      `v` is the target of an edge added as bidirectional. */
  ghost function Incident<E>(edges: seq<GraphEdge<E>>, bidirectional: seq<bool>, v: NodeId, m: nat): seq<EdgeId>
    requires m <= |edges| && m <= |bidirectional|
  {
    if m == 0 then []
    else
      var asSource: seq<EdgeId> := if edges[m - 1].s == v then [m - 1] else [];
      var asTarget: seq<EdgeId> := if bidirectional[m - 1] && edges[m - 1].t == v then [m - 1] else [];
      Incident(edges, bidirectional, v, m - 1) + asSource + asTarget
  }

  /** Adding edges at the end does not change the lists built from the earlier ones. */
  lemma {:induction false} IncidentPrefix<E>(edges: seq<GraphEdge<E>>, bidirectional: seq<bool>,
                                             edges': seq<GraphEdge<E>>, bidirectional': seq<bool>, v: NodeId, m: nat)
    requires m <= |edges| <= |edges'| && m <= |bidirectional| <= |bidirectional'|
    requires edges == edges'[..|edges|] && bidirectional == bidirectional'[..|bidirectional|]
    ensures Incident(edges, bidirectional, v, m) == Incident(edges', bidirectional', v, m)
  {
    if m > 0 {
      IncidentPrefix(edges, bidirectional, edges', bidirectional', v, m - 1);
    }
  }

  /** Every id in an out-edge list names one of the first `m` edges. */
  lemma {:induction false} IncidentBound<E>(edges: seq<GraphEdge<E>>, bidirectional: seq<bool>, v: NodeId, m: nat)
    requires m <= |edges| && m <= |bidirectional|
    ensures forall i :: 0 <= i < |Incident(edges, bidirectional, v, m)| ==> Incident(edges, bidirectional, v, m)[i] < m
  {
    if m > 0 {
      IncidentBound(edges, bidirectional, v, m - 1);
    }
  }

  /** A node that no edge leaves and no bidirectional edge enters has an empty list. */
  lemma {:induction false} IncidentEmpty<E>(edges: seq<GraphEdge<E>>, bidirectional: seq<bool>, v: NodeId, m: nat)
    requires m <= |edges| && m <= |bidirectional|
    requires forall j :: 0 <= j < m ==> edges[j].s != v && (bidirectional[j] ==> edges[j].t != v)
    ensures Incident(edges, bidirectional, v, m) == []
  {
    if m > 0 {
      IncidentEmpty(edges, bidirectional, v, m - 1);
    }
  }

  /** How often edge `e` occurs in the list of node `v`: once if `v` is its source,
      once more if it is bidirectional and `v` is its target (so a bidirectional
      self-loop occurs twice), otherwise never. */
  lemma {:induction false} IncidentMultiplicity<E>(edges: seq<GraphEdge<E>>, bidirectional: seq<bool>, v: NodeId, m: nat, e: EdgeId)
    requires m <= |edges| && m <= |bidirectional|
    ensures Occurrences(Incident(edges, bidirectional, v, m), e) == Multiplicity(edges, bidirectional, v, m, e)
  {
    if m > 0 {
      IncidentMultiplicity(edges, bidirectional, v, m - 1, e);
      var prev: seq<EdgeId> := Incident(edges, bidirectional, v, m - 1);
      var asSource: seq<EdgeId> := if edges[m - 1].s == v then [m - 1] else [];
      var asTarget: seq<EdgeId> := if bidirectional[m - 1] && edges[m - 1].t == v then [m - 1] else [];
      OccurrencesAppend(prev, asSource, e);
      OccurrencesAppend(prev + asSource, asTarget, e);
    }
  }

  /** The number of times edge `e` belongs on the list of node `v`. */
  ghost function Multiplicity<E>(edges: seq<GraphEdge<E>>, bidirectional: seq<bool>, v: NodeId, m: nat, e: EdgeId): nat
    requires m <= |edges| && m <= |bidirectional|
  {
    if e < m then
      (if edges[e].s == v then 1 else 0) + (if bidirectional[e] && edges[e].t == v then 1 else 0)
    else 0
  }

  /** The arena invariants: ids equal positions, sources exist, targets of
      bidirectional edges exist, and every out-edge list is exactly the one the
      edges added so far prescribe. */
  ghost predicate ArenaValid<N, E>(nodes: seq<GraphNode<N>>, edges: seq<GraphEdge<E>>, bidirectional: seq<bool>)
  {
    && |bidirectional| == |edges|
    && (forall v :: 0 <= v < |nodes| ==> nodes[v].id == v)
    && (forall j :: 0 <= j < |edges| ==> edges[j].id == j && edges[j].s < |nodes|)
    && (forall j :: 0 <= j < |edges| && bidirectional[j] ==> edges[j].t < |nodes|)
    && (forall v :: 0 <= v < |nodes| ==> nodes[v].outEdges == Incident(edges, bidirectional, v, |edges|))
    && (forall v, i :: 0 <= v < |nodes| && 0 <= i < |nodes[v].outEdges| ==> nodes[v].outEdges[i] < |edges|)
  }

  /** Appending an edge and listing it on its source (and, when bidirectional, on
      its target) keeps the arena invariants. */
  lemma AddEdgeKeepsArenaValid<N, E>(nodes: seq<GraphNode<N>>, edges: seq<GraphEdge<E>>, bidirectional: seq<bool>,
                                     nodes': seq<GraphNode<N>>, edges': seq<GraphEdge<E>>, bidirectional': seq<bool>,
                                     s: NodeId, t: NodeId, bidir: bool)
    requires ArenaValid(nodes, edges, bidirectional)
    requires s < |nodes| && (bidir ==> t < |nodes|)
    requires |edges'| == |edges| + 1 && edges == edges'[..|edges|]
    requires edges'[|edges|].id == |edges| && edges'[|edges|].s == s && edges'[|edges|].t == t
    requires bidirectional' == bidirectional + [bidir]
    requires |nodes'| == |nodes|
    requires forall v :: 0 <= v < |nodes| ==>
      && nodes'[v].id == nodes[v].id
      && nodes'[v].outEdges == nodes[v].outEdges
           + (if v == s then [|edges|] else [])
           + (if bidir && v == t then [|edges|] else [])
    ensures ArenaValid(nodes', edges', bidirectional')
  {
    forall v | 0 <= v < |nodes'|
      ensures nodes'[v].outEdges == Incident(edges', bidirectional', v, |edges'|)
    {
      IncidentPrefix(edges, bidirectional, edges', bidirectional', v, |edges|);
    }
    forall v | 0 <= v < |nodes'|
      ensures forall i :: 0 <= i < |nodes'[v].outEdges| ==> nodes'[v].outEdges[i] < |edges'|
    {
      IncidentBound(edges', bidirectional', v, |edges'|);
    }
  }

  /** The node list after edge `e` from `s` to `t` was listed on its source and,
      when `bidir` holds, on its target. */
  function WithEdge<N>(nodes: seq<GraphNode<N>>, s: NodeId, t: NodeId, e: EdgeId, bidir: bool): (r: seq<GraphNode<N>>)
    requires s < |nodes| && (bidir ==> t < |nodes|)
    ensures |r| == |nodes|
    ensures forall v :: 0 <= v < |nodes| ==>
      && r[v].id == nodes[v].id && r[v].data == nodes[v].data
      && r[v].outEdges == nodes[v].outEdges + (if v == s then [e] else []) + (if bidir && v == t then [e] else [])
  {
    var listed := nodes[s := nodes[s].AddEdge(e)];
    if bidir then listed[t := listed[t].AddEdge(e)] else listed
  }

  /** `Graph`: the arena. `bidirectional` records, per edge, the flag `add_edge`
      was called with; the source keeps it only inside the edge payload. */
  class Graph<N, E> {
    var nodes: seq<GraphNode<N>>
    var edges: seq<GraphEdge<E>>
    ghost var bidirectional: seq<bool>

    /** The arena invariants, see ArenaValid. */
    ghost predicate Valid()
      reads this
    {
      ArenaValid(nodes, edges, bidirectional)
    }

    /** The empty graph `Graph { nodes: Vec::new(), edges: Vec::new() }`. */
    constructor ()
      ensures Valid()
      ensures nodes == [] && edges == [] && bidirectional == []
    {
      nodes := [];
      edges := [];
      bidirectional := [];
    }

    /** `Graph::add_node`: appends a node with an empty out-edge list; its id is
        the previous node count. */
    method AddNode(data: N) returns (id: NodeId)
      requires Valid()
      modifies this
      ensures Valid()
      ensures id == |old(nodes)|
      ensures nodes == old(nodes) + [GraphNode(id, data, [])]
      ensures edges == old(edges) && bidirectional == old(bidirectional)
    {
      id := |nodes|;
      IncidentEmpty(edges, bidirectional, id, |edges|);
      nodes := nodes + [GraphNode(id, data, [])];
    }

    /** `Graph::add_edge`: appends edge `|edges|` from `s` to `t`, lists it on
        `s`, and also on `t` when `bidir` holds. The source node must exist (the
        source unwraps the lookup); the target is looked up only when `bidir`. */
    method AddEdge(s: NodeId, t: NodeId, data: E, bidir: bool)
      requires Valid()
      requires s < |nodes|
      requires bidir ==> t < |nodes|
      modifies this
      ensures Valid()
      ensures edges == old(edges) + [GraphEdge(|old(edges)|, s, t, data)]
      ensures bidirectional == old(bidirectional) + [bidir]
      ensures nodes == WithEdge(old(nodes), s, t, |old(edges)|, bidir)
    {
      var e := |edges|;
      ghost var nodes0, edges0, bidirectional0 := nodes, edges, bidirectional;
      edges := edges + [GraphEdge(e, s, t, data)];
      bidirectional := bidirectional + [bidir];
      nodes := nodes[s := nodes[s].AddEdge(e)];
      if bidir {
        nodes := nodes[t := nodes[t].AddEdge(e)];
      }
      AddEdgeKeepsArenaValid(nodes0, edges0, bidirectional0, nodes, edges, bidirectional, s, t, bidir);
    }

    /** Edge `e` is on the list of node `v` exactly when `v` is its source, or it
        is bidirectional and `v` is its target. */
    lemma OutEdgesMembership(v: NodeId, e: EdgeId)
      requires Valid() && v < |nodes|
      ensures e in nodes[v].outEdges <==>
        e < |edges| && (edges[e].s == v || (bidirectional[e] && edges[e].t == v))
    {
      IncidentMultiplicity(edges, bidirectional, v, |edges|, e);
      OccurrencesMembership(nodes[v].outEdges, e);
    }
  }
}
