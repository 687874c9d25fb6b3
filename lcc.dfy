/** src/lcc.rs: the first two steps of Kosaraju's algorithm as the source has them
    (a breadth-first visit of every node that records the visit list `L` and the
    incoming edges it passes), and the two entry points that do nothing yet. */
module Lcc {
  import opened Wrappers
  import opened Sequences
  import opened Graph
  import opened LccSpec

  /** `compute_lcc`: does nothing yet (it does not even run the visit). */
  method ComputeLcc(g: Graph<NodeData, EdgeData>)
    ensures unchanged(g)
  {
  }

  /** `kosaraju`: runs the first two steps and drops their results; the third step
      is not written yet. */
  method Kosaraju(g: Graph<NodeData, EdgeData>)
    requires g.Valid()
    requires forall j :: 0 <= j < |g.edges| ==> g.edges[j].t < |g.nodes|
    ensures unchanged(g)
  {
    var order, inEdges := KosarajuStep12(g);
  }

  /** `kosaraju_step1_2`: visits every node once, starting from the unvisited node
      ids in increasing order and draining a FIFO queue from each, and returns the
      visit list `L` (`order`) and, per target node, the ids of the out-edges of
      visited nodes that enter it (`inEdges`). */
  method KosarajuStep12<N, E>(g: Graph<N, E>) returns (order: seq<NodeId>, inEdges: map<NodeId, seq<EdgeId>>)
    requires g.Valid()
    requires forall j :: 0 <= j < |g.edges| ==> g.edges[j].t < |g.nodes|
    ensures Traversable(g.nodes, g.edges)
    ensures IsVisitOrder(g.nodes, g.edges, order)
    ensures IndexesInEdges(g.edges, OutEdgeIds(g.nodes, g.edges, order), inEdges)
    ensures IsNodePermutation(|g.nodes|, order)
    ensures forall e :: 0 <= e < |g.edges| ==>
      && g.edges[e].t in inEdges
      && Occurrences(inEdges[g.edges[e].t], e) == (if g.bidirectional[e] then 2 else 1)
    ensures forall v :: v in inEdges ==> exists e :: 0 <= e < |g.edges| && g.edges[e].t == v
    ensures forall v, i :: v in inEdges && 0 <= i < |inEdges[v]| ==>
      inEdges[v][i] < |g.edges| && g.edges[inEdges[v][i]].t == v
  {
    var nodes, edges := g.nodes, g.edges;
    var n := |nodes|;
    order := [];
    inEdges := map[];
    var visited: set<NodeId> := {};
    for start := 0 to n
      invariant Listing(nodes, edges, order)
      invariant forall x :: x in visited <==> x in order
      invariant forall x :: 0 <= x < start ==> x in visited
      invariant Closed(nodes, edges, order)
      invariant IndexesInEdges(edges, OutEdgeIds(nodes, edges, order), inEdges)
    {
      if start !in visited {
        ghost var visitedBefore := visited;
        order, visited, inEdges := VisitFrom(nodes, edges, start, order, visited, inEdges);
        assert forall x :: x in visitedBefore ==> x in visited;
      }
    }
    NoNextVisitAtEnd(nodes, edges, order);
    VisitOrderIsPermutation(nodes, edges, order);
    InEdgesAfterVisit(nodes, edges, g.bidirectional, order, inEdges);
  }

  /** One pass of the outer loop of `kosaraju_step1_2`: pushes the unvisited root
      `start` and drains the queue, listing every node reached for the first time. */
  method VisitFrom<N, E>(nodes: seq<GraphNode<N>>, edges: seq<GraphEdge<E>>, start: NodeId,
                         order: seq<NodeId>, visited: set<NodeId>, inEdges: map<NodeId, seq<EdgeId>>)
    returns (order': seq<NodeId>, visited': set<NodeId>, inEdges': map<NodeId, seq<EdgeId>>)
    requires Traversable(nodes, edges) && start < |nodes|
    requires Listing(nodes, edges, order) && Closed(nodes, edges, order)
    requires forall x :: x in visited <==> x in order
    requires start !in visited && forall x :: 0 <= x < start ==> x in visited
    requires IndexesInEdges(edges, OutEdgeIds(nodes, edges, order), inEdges)
    ensures Listing(nodes, edges, order') && Closed(nodes, edges, order')
    ensures forall x :: x in visited' <==> x in order'
    ensures visited <= visited' && start in visited'
    ensures IndexesInEdges(edges, OutEdgeIds(nodes, edges, order'), inEdges')
  {
    var n := |nodes|;
    order', visited', inEdges' := order, visited, inEdges;
    var queue: seq<NodeId> := [start];
    ghost var pushed: seq<NodeId> := [start];
    ghost var popped: nat := 0;
    VisitedBounded(visited', order', n);
    assert order'[..|order|] == order;
    while queue != []
      invariant DrainLoop(nodes, edges, start, order, visited, order', visited', inEdges', queue, pushed, popped)
      decreases n - |visited'|, |queue|
    {
      order', visited', inEdges', queue, pushed, popped :=
        DrainStep(nodes, edges, start, order, visited, order', visited', inEdges', queue, pushed, popped);
    }
    DrainDone(nodes, edges, start, order, visited, order', visited', inEdges', queue, pushed, popped);
  }

  /** One turn of the drain loop: pops the front of the queue and, when that node
      is not visited yet, lists it, pushes the targets of its out-edges and records
      those edges under their targets. */
  method DrainStep<N, E>(nodes: seq<GraphNode<N>>, edges: seq<GraphEdge<E>>, start: NodeId,
                         ghost order0: seq<NodeId>, ghost visited0: set<NodeId>,
                         order: seq<NodeId>, visited: set<NodeId>, inEdges: map<NodeId, seq<EdgeId>>,
                         queue: seq<NodeId>, ghost pushed: seq<NodeId>, ghost popped: nat)
    returns (order': seq<NodeId>, visited': set<NodeId>, inEdges': map<NodeId, seq<EdgeId>>,
             queue': seq<NodeId>, ghost pushed': seq<NodeId>, ghost popped': nat)
    requires Traversable(nodes, edges) && start < |nodes|
    requires Listing(nodes, edges, order0) && Closed(nodes, edges, order0)
    requires start !in order0 && forall x :: 0 <= x < start ==> x in order0
    requires DrainLoop(nodes, edges, start, order0, visited0, order, visited, inEdges, queue, pushed, popped)
    requires queue != []
    ensures DrainLoop(nodes, edges, start, order0, visited0, order', visited', inEdges', queue', pushed', popped')
    ensures |visited'| > |visited| || (visited' == visited && |queue'| < |queue|)
  {
    var v := queue[0];
    if v in visited {
      DrainSkip(nodes, edges, start, order0, visited0, order, visited, inEdges, queue, pushed, popped);
      return order, visited, inEdges, queue[1..], pushed, popped + 1;
    }
    queue', inEdges' := RecordOutEdges(edges, nodes[v].outEdges, OutEdgeIds(nodes, edges, order), queue[1..], inEdges);
    DrainVisit(nodes, edges, start, order0, visited0, order, visited, inEdges, queue, pushed, popped, inEdges', queue');
    order', visited' := order + [v], visited + {v};
    pushed', popped' := pushed + OutTargets(nodes, edges, v), popped + 1;
  }

  /** The loop over a visited node's out-edges: each target is pushed on the
      queue and the edge is recorded under its target. */
  method RecordOutEdges<E>(edges: seq<GraphEdge<E>>, out: seq<EdgeId>, ghost es: seq<EdgeId>,
                           queue: seq<NodeId>, inEdges: map<NodeId, seq<EdgeId>>)
    returns (queue': seq<NodeId>, inEdges': map<NodeId, seq<EdgeId>>)
    requires AllBelow(out, |edges|) && AllBelow(es, |edges|)
    requires IndexesInEdges(edges, es, inEdges)
    ensures queue' == queue + TargetsOf(edges, out)
    ensures IndexesInEdges(edges, es + out, inEdges')
  {
    queue', inEdges' := queue, inEdges;
    assert es + out[..0] == es;
    for i := 0 to |out|
      invariant queue' == queue + TargetsOf(edges, out[..i])
      invariant IndexesInEdges(edges, es + out[..i], inEdges')
    {
      var e := out[i];
      var t := edges[e].t;
      queue' := queue' + [t];
      assert TargetsOf(edges, out[..i + 1]) == TargetsOf(edges, out[..i]) + [t];
      EdgesIntoAppend(edges, es + out[..i], e);
      assert es + out[..i + 1] == es + out[..i] + [e];
      if t in inEdges' {
        inEdges' := inEdges'[t := inEdges'[t] + [e]];
      } else {
        inEdges' := inEdges'[t := [e]];
      }
    }
    assert out[..|out|] == out;
  }
}
