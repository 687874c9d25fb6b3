/** The specification of the breadth-first visit of src/lcc.rs: which node a
    visit lists next, what it has discovered, and which edges enter each node;
    with the lemmas the visit's loops rely on. */
module LccSpec {
  import opened Wrappers
  import opened Sequences
  import opened Graph

  /** Every out-edge id names an edge, and every edge target names a node: the
      traversal looks up each node it reaches. */
  ghost predicate Traversable<N, E>(nodes: seq<GraphNode<N>>, edges: seq<GraphEdge<E>>)
  {
    && (forall v, i :: 0 <= v < |nodes| && 0 <= i < |nodes[v].outEdges| ==> nodes[v].outEdges[i] < |edges|)
    && (forall j :: 0 <= j < |edges| ==> edges[j].t < |nodes|)
  }

  ghost predicate AllBelow(s: seq<nat>, n: nat)
  {
    forall i :: 0 <= i < |s| ==> s[i] < n
  }

  /** The targets of the given edges, in order. */
  ghost function TargetsOf<E>(edges: seq<GraphEdge<E>>, es: seq<EdgeId>): (r: seq<NodeId>)
    requires AllBelow(es, |edges|)
    ensures |r| == |es|
    ensures forall i :: 0 <= i < |es| ==> r[i] == edges[es[i]].t
  {
    seq(|es|, i requires 0 <= i < |es| => edges[es[i]].t)
  }

  /** The targets of the out-edges of node `v`, in list order. */
  ghost function OutTargets<N, E>(nodes: seq<GraphNode<N>>, edges: seq<GraphEdge<E>>, v: NodeId): (r: seq<NodeId>)
    requires Traversable(nodes, edges) && v < |nodes|
    ensures |r| == |nodes[v].outEdges|
    ensures AllBelow(r, |nodes|)
  {
    TargetsOf(edges, nodes[v].outEdges)
  }

  /** The out-edge ids of the listed nodes, list after list. */
  ghost function OutEdgeIds<N, E>(nodes: seq<GraphNode<N>>, edges: seq<GraphEdge<E>>, listed: seq<NodeId>): (r: seq<EdgeId>)
    requires Traversable(nodes, edges) && AllBelow(listed, |nodes|)
    ensures AllBelow(r, |edges|)
  {
    if listed == [] then []
    else OutEdgeIds(nodes, edges, listed[..|listed| - 1]) + nodes[listed[|listed| - 1]].outEdges
  }

  /** The nodes discovered from the listed nodes: the targets of their out-edges,
      in the order the edges are met. */
  ghost function Discovered<N, E>(nodes: seq<GraphNode<N>>, edges: seq<GraphEdge<E>>, listed: seq<NodeId>): (r: seq<NodeId>)
    requires Traversable(nodes, edges) && AllBelow(listed, |nodes|)
    ensures AllBelow(r, |nodes|)
  {
    if listed == [] then []
    else Discovered(nodes, edges, listed[..|listed| - 1]) + OutTargets(nodes, edges, listed[|listed| - 1])
  }

  /** The first candidate that is not listed yet. */
  ghost function FirstUnlisted(candidates: seq<NodeId>, listed: seq<NodeId>): (r: Option<NodeId>)
    ensures r.Some? ==> r.value in candidates && r.value !in listed
  {
    if candidates == [] then None
    else if candidates[0] !in listed then Some(candidates[0])
    else FirstUnlisted(candidates[1..], listed)
  }

  /** The smallest id in `from..n` that is not listed yet. */
  ghost function LeastUnlisted(n: nat, listed: seq<NodeId>, from: nat): (r: Option<NodeId>)
    ensures r.Some? ==> from <= r.value < n && r.value !in listed
    decreases n - from
  {
    if from >= n then None
    else if from !in listed then Some(from)
    else LeastUnlisted(n, listed, from + 1)
  }

  /** The node a breadth-first visit lists after `listed`: the earliest discovered
      node not yet listed, or, when every discovered node is listed, the smallest
      node id not yet listed (the next root); `None` once every node is listed. */
  ghost function NextVisit<N, E>(nodes: seq<GraphNode<N>>, edges: seq<GraphEdge<E>>, listed: seq<NodeId>): (r: Option<NodeId>)
    requires Traversable(nodes, edges) && AllBelow(listed, |nodes|)
    ensures r.Some? ==> r.value < |nodes| && r.value !in listed
  {
    match FirstUnlisted(Discovered(nodes, edges, listed), listed)
    case Some(v) => Some(v)
    case None => LeastUnlisted(|nodes|, listed, 0)
  }

  /** Each node of `order` is the one a breadth-first visit lists after the nodes
      before it. */
  ghost predicate Listing<N, E>(nodes: seq<GraphNode<N>>, edges: seq<GraphEdge<E>>, order: seq<NodeId>)
    requires Traversable(nodes, edges)
  {
    && AllBelow(order, |nodes|)
    && (forall k {:trigger NextVisit(nodes, edges, order[..k])} ::
          0 <= k < |order| ==> NextVisit(nodes, edges, order[..k]) == Some(order[k]))
  }

  /** `order` lists the nodes in breadth-first visit order, and lists all of them. */
  ghost predicate IsVisitOrder<N, E>(nodes: seq<GraphNode<N>>, edges: seq<GraphEdge<E>>, order: seq<NodeId>)
    requires Traversable(nodes, edges)
  {
    Listing(nodes, edges, order) && NextVisit(nodes, edges, order) == None
  }

  /** Every node discovered from the listed nodes is listed. */
  ghost predicate Closed<N, E>(nodes: seq<GraphNode<N>>, edges: seq<GraphEdge<E>>, order: seq<NodeId>)
    requires Traversable(nodes, edges) && AllBelow(order, |nodes|)
  {
    forall x :: x in Discovered(nodes, edges, order) ==> x in order
  }

  /** The edges among `es` whose target is `v`, in order. */
  ghost function EdgesInto<E>(edges: seq<GraphEdge<E>>, es: seq<EdgeId>, v: NodeId): (r: seq<EdgeId>)
    requires AllBelow(es, |edges|)
    ensures AllBelow(r, |edges|)
  {
    if es == [] then []
    else EdgesInto(edges, es[..|es| - 1], v) + (if edges[es[|es| - 1]].t == v then [es[|es| - 1]] else [])
  }

  /** `inEdges` maps each target of an edge among `es` to the edges of `es` into
      it, and has no other keys. */
  ghost predicate IndexesInEdges<E>(edges: seq<GraphEdge<E>>, es: seq<EdgeId>, inEdges: map<NodeId, seq<EdgeId>>)
    requires AllBelow(es, |edges|)
  {
    && (forall v :: v in inEdges <==> EdgesInto(edges, es, v) != [])
    && (forall v :: v in inEdges ==> inEdges[v] == EdgesInto(edges, es, v))
  }

  /** The loop state of one drain, begun after the listing `order0`: `order` extends
      `order0` by breadth-first visits, `visited` holds the same nodes as `order`,
      `pushed` is everything ever pushed (the root, then the targets of the newly
      listed nodes' out-edges in order), the first `popped` entries are listed and
      the rest are the queue, and `inEdges` indexes the listed nodes' out-edges. */
  ghost predicate DrainLoop<N, E>(nodes: seq<GraphNode<N>>, edges: seq<GraphEdge<E>>, start: NodeId,
                                  order0: seq<NodeId>, visited0: set<NodeId>,
                                  order: seq<NodeId>, visited: set<NodeId>, inEdges: map<NodeId, seq<EdgeId>>,
                                  queue: seq<NodeId>, pushed: seq<NodeId>, popped: nat)
    requires Traversable(nodes, edges)
  {
    && Draining(nodes, edges, start, order0, order, pushed, popped)
    && queue == pushed[popped..]
    && (forall x :: x in visited <==> x in order)
    && |visited| <= |nodes| && visited0 <= visited
    && IndexesInEdges(edges, OutEdgeIds(nodes, edges, order), inEdges)
  }

  /** The state of one drain of the queue from root `start`, begun after the
      listing `order0`: `order` extends `order0` by breadth-first visits, `pushed`
      is everything ever pushed (the root, then the targets of the newly listed
      nodes' out-edges in order), and the first `popped` entries are listed. */
  ghost predicate Draining<N, E>(nodes: seq<GraphNode<N>>, edges: seq<GraphEdge<E>>, start: NodeId,
                                 order0: seq<NodeId>, order: seq<NodeId>, pushed: seq<NodeId>, popped: nat)
    requires Traversable(nodes, edges)
  {
    && Listing(nodes, edges, order) && AllBelow(pushed, |nodes|)
    && |order0| <= |order| && order0 == order[..|order0|] && AllBelow(order0, |nodes|)
    && 1 <= |pushed| && pushed[0] == start
    && Discovered(nodes, edges, order) == Discovered(nodes, edges, order0) + pushed[1..]
    && popped <= |pushed|
    && (forall i :: 0 <= i < popped ==> pushed[i] in order)
    && (popped == 0 ==> order == order0)
  }

  /** Popping an unlisted node lists it next, records its out-edges and pushes
      their targets. */
  lemma DrainVisit<N, E>(nodes: seq<GraphNode<N>>, edges: seq<GraphEdge<E>>, start: NodeId,
                         order0: seq<NodeId>, visited0: set<NodeId>,
                         order: seq<NodeId>, visited: set<NodeId>, inEdges: map<NodeId, seq<EdgeId>>,
                         queue: seq<NodeId>, pushed: seq<NodeId>, popped: nat,
                         inEdges': map<NodeId, seq<EdgeId>>, queue': seq<NodeId>)
    requires Traversable(nodes, edges) && start < |nodes|
    requires Listing(nodes, edges, order0) && Closed(nodes, edges, order0)
    requires start !in order0 && forall x :: 0 <= x < start ==> x in order0
    requires DrainLoop(nodes, edges, start, order0, visited0, order, visited, inEdges, queue, pushed, popped)
    requires queue != [] && queue[0] !in visited
    requires queue' == queue[1..] + TargetsOf(edges, nodes[queue[0]].outEdges)
    requires IndexesInEdges(edges, OutEdgeIds(nodes, edges, order) + nodes[queue[0]].outEdges, inEdges')
    ensures |visited + {queue[0]}| == |visited| + 1
    ensures DrainLoop(nodes, edges, start, order0, visited0, order + [queue[0]], visited + {queue[0]}, inEdges',
                      queue', pushed + OutTargets(nodes, edges, queue[0]), popped + 1)
  {
    var v := queue[0];
    DrainingNext(nodes, edges, start, order0, order, pushed, popped);
    DrainingVisit(nodes, edges, start, order0, order, pushed, popped);
    var targets := OutTargets(nodes, edges, v);
    assert (pushed + targets)[popped + 1..] == pushed[popped + 1..] + targets;
    VisitedBounded(visited + {v}, order + [v], |nodes|);
  }

  /** The popped node, when not listed yet, is the one a breadth-first visit lists
      next. */
  lemma DrainingNext<N, E>(nodes: seq<GraphNode<N>>, edges: seq<GraphEdge<E>>, start: NodeId,
                           order0: seq<NodeId>, order: seq<NodeId>, pushed: seq<NodeId>, popped: nat)
    requires Traversable(nodes, edges) && start < |nodes|
    requires Listing(nodes, edges, order0) && Closed(nodes, edges, order0)
    requires start !in order0 && forall x :: 0 <= x < start ==> x in order0
    requires Draining(nodes, edges, start, order0, order, pushed, popped)
    requires popped < |pushed| && pushed[popped] !in order
    ensures NextVisit(nodes, edges, order) == Some(pushed[popped])
  {
    PrefixMembers(order0, order);
    NextVisitIsPopped(nodes, edges, order0, order, pushed, popped, start);
  }

  /** Listing the popped node keeps the drain's record of what was listed and
      pushed. */
  lemma DrainingVisit<N, E>(nodes: seq<GraphNode<N>>, edges: seq<GraphEdge<E>>, start: NodeId,
                            order0: seq<NodeId>, order: seq<NodeId>, pushed: seq<NodeId>, popped: nat)
    requires Traversable(nodes, edges)
    requires Draining(nodes, edges, start, order0, order, pushed, popped)
    requires popped < |pushed| && NextVisit(nodes, edges, order) == Some(pushed[popped])
    ensures OutEdgeIds(nodes, edges, order + [pushed[popped]]) == OutEdgeIds(nodes, edges, order) + nodes[pushed[popped]].outEdges
    ensures Draining(nodes, edges, start, order0, order + [pushed[popped]],
                     pushed + OutTargets(nodes, edges, pushed[popped]), popped + 1)
  {
    var v := pushed[popped];
    var targets := OutTargets(nodes, edges, v);
    ListingExtend(nodes, edges, order, v);
    assert (pushed + targets)[1..] == pushed[1..] + targets;
    var d0 := Discovered(nodes, edges, order0);
    assert (d0 + pushed[1..]) + targets == d0 + (pushed[1..] + targets);
    var order' := order + [v];
    assert order'[..|order0|] == order0;
    forall i | 0 <= i < popped + 1
      ensures (pushed + targets)[i] in order'
    {
      assert (pushed + targets)[i] == pushed[i];
    }
  }

  /** Popping a listed node changes nothing but the queue. */
  lemma DrainSkip<N, E>(nodes: seq<GraphNode<N>>, edges: seq<GraphEdge<E>>, start: NodeId,
                        order0: seq<NodeId>, visited0: set<NodeId>,
                        order: seq<NodeId>, visited: set<NodeId>, inEdges: map<NodeId, seq<EdgeId>>,
                        queue: seq<NodeId>, pushed: seq<NodeId>, popped: nat)
    requires Traversable(nodes, edges)
    requires DrainLoop(nodes, edges, start, order0, visited0, order, visited, inEdges, queue, pushed, popped)
    requires queue != [] && queue[0] in visited
    ensures DrainLoop(nodes, edges, start, order0, visited0, order, visited, inEdges, queue[1..], pushed, popped + 1)
  {
  }

  /** Once the queue is empty, every discovered node is listed and so is the root. */
  lemma DrainDone<N, E>(nodes: seq<GraphNode<N>>, edges: seq<GraphEdge<E>>, start: NodeId,
                        order0: seq<NodeId>, visited0: set<NodeId>,
                        order: seq<NodeId>, visited: set<NodeId>, inEdges: map<NodeId, seq<EdgeId>>,
                        queue: seq<NodeId>, pushed: seq<NodeId>, popped: nat)
    requires Traversable(nodes, edges)
    requires DrainLoop(nodes, edges, start, order0, visited0, order, visited, inEdges, queue, pushed, popped)
    requires Closed(nodes, edges, order0)
    requires queue == []
    ensures Closed(nodes, edges, order) && start in order
  {
    PrefixMembers(order0, order);
    forall x | x in Discovered(nodes, edges, order)
      ensures x in order
    {
      if x !in Discovered(nodes, edges, order0) {
        assert x in pushed[1..];
      }
    }
  }

  /** Listing the next visited node extends the listing, its discoveries and its
      out-edges. */
  lemma ListingExtend<N, E>(nodes: seq<GraphNode<N>>, edges: seq<GraphEdge<E>>, order: seq<NodeId>, v: NodeId)
    requires Traversable(nodes, edges) && Listing(nodes, edges, order)
    requires NextVisit(nodes, edges, order) == Some(v)
    ensures Listing(nodes, edges, order + [v])
    ensures Discovered(nodes, edges, order + [v]) == Discovered(nodes, edges, order) + OutTargets(nodes, edges, v)
    ensures OutEdgeIds(nodes, edges, order + [v]) == OutEdgeIds(nodes, edges, order) + nodes[v].outEdges
  {
    var order' := order + [v];
    assert order'[..|order|] == order;
    forall k | 0 <= k < |order'|
      ensures NextVisit(nodes, edges, order'[..k]) == Some(order'[k])
    {
      if k < |order| {
        assert order'[..k] == order[..k];
      }
    }
  }

  lemma PrefixMembers(order0: seq<NodeId>, order: seq<NodeId>)
    requires |order0| <= |order| && order0 == order[..|order0|]
    ensures forall x :: x in order0 ==> x in order
  {
    forall x | x in order0
      ensures x in order
    {
      var i :| 0 <= i < |order0| && order0[i] == x;
      assert order[i] == x;
    }
  }

  /** The set of listed nodes has at most `n` elements. */
  lemma VisitedBounded(visited: set<NodeId>, order: seq<NodeId>, n: nat)
    requires AllBelow(order, n) && visited == set x | x in order
    ensures |visited| <= n
  {
    BoundedSetSize(visited, n);
  }

  lemma {:induction false} BoundedSetSize(s: set<nat>, n: nat)
    requires forall x :: x in s ==> x < n
    ensures |s| <= n
  {
    if n == 0 {
      assert s == {};
    } else {
      BoundedSetSize(s - {n - 1}, n - 1);
    }
  }

  lemma NextVisitIsPopped<N, E>(nodes: seq<GraphNode<N>>, edges: seq<GraphEdge<E>>, order0: seq<NodeId>, order: seq<NodeId>,
                                pushed: seq<NodeId>, p: nat, start: NodeId)
    requires Traversable(nodes, edges) && AllBelow(order, |nodes|) && AllBelow(pushed, |nodes|)
    requires |order0| <= |order| && order0 == order[..|order0|]
    requires start !in order0 && start < |nodes|
    requires forall x :: 0 <= x < start ==> x in order
    requires forall x :: x in Discovered(nodes, edges, order0) ==> x in order
    requires 1 <= |pushed| && pushed[0] == start
    requires Discovered(nodes, edges, order) == Discovered(nodes, edges, order0) + pushed[1..]
    requires p < |pushed| && pushed[p] !in order
    requires forall i :: 0 <= i < p ==> pushed[i] in order
    requires p == 0 ==> order == order0
    ensures NextVisit(nodes, edges, order) == Some(pushed[p])
  {
    var discovered := Discovered(nodes, edges, order);
    var before := Discovered(nodes, edges, order0);
    if p == 0 {
      FirstUnlistedNone(before, order);
      LeastUnlistedIs(|nodes|, order, 0, start);
    } else {
      FirstUnlistedSkip(before, pushed[1..], order);
      FirstUnlistedAt(pushed[1..], order, p - 1);
    }
  }

  lemma {:induction false} FirstUnlistedNone(candidates: seq<NodeId>, listed: seq<NodeId>)
    requires forall x :: x in candidates ==> x in listed
    ensures FirstUnlisted(candidates, listed) == None
  {
    if candidates != [] {
      FirstUnlistedNone(candidates[1..], listed);
    }
  }

  lemma {:induction false} FirstUnlistedSkip(a: seq<NodeId>, b: seq<NodeId>, listed: seq<NodeId>)
    requires forall x :: x in a ==> x in listed
    ensures FirstUnlisted(a + b, listed) == FirstUnlisted(b, listed)
  {
    if a != [] {
      assert (a + b)[1..] == a[1..] + b;
      FirstUnlistedSkip(a[1..], b, listed);
    } else {
      assert a + b == b;
    }
  }

  lemma {:induction false} FirstUnlistedAt(candidates: seq<NodeId>, listed: seq<NodeId>, p: nat)
    requires p < |candidates| && candidates[p] !in listed
    requires forall i :: 0 <= i < p ==> candidates[i] in listed
    ensures FirstUnlisted(candidates, listed) == Some(candidates[p])
  {
    if p > 0 {
      FirstUnlistedAt(candidates[1..], listed, p - 1);
    }
  }

  lemma {:induction false} LeastUnlistedIs(n: nat, listed: seq<NodeId>, from: nat, v: NodeId)
    requires from <= v < n && v !in listed
    requires forall x :: from <= x < v ==> x in listed
    ensures LeastUnlisted(n, listed, from) == Some(v)
    decreases v - from
  {
    if from < v {
      LeastUnlistedIs(n, listed, from + 1, v);
    }
  }

  lemma {:induction false} LeastUnlistedNone(n: nat, listed: seq<NodeId>, from: nat)
    requires forall x :: from <= x < n ==> x in listed
    ensures LeastUnlisted(n, listed, from) == None
    decreases n - from
  {
    if from < n {
      LeastUnlistedNone(n, listed, from + 1);
    }
  }

  lemma NoNextVisitAtEnd<N, E>(nodes: seq<GraphNode<N>>, edges: seq<GraphEdge<E>>, order: seq<NodeId>)
    requires Traversable(nodes, edges) && AllBelow(order, |nodes|)
    requires forall x :: 0 <= x < |nodes| ==> x in order
    requires forall x :: x in Discovered(nodes, edges, order) ==> x in order
    ensures NextVisit(nodes, edges, order) == None
  {
    FirstUnlistedNone(Discovered(nodes, edges, order), order);
    LeastUnlistedNone(|nodes|, order, 0);
  }

  lemma EdgesIntoAppend<E>(edges: seq<GraphEdge<E>>, es: seq<EdgeId>, e: EdgeId)
    requires AllBelow(es, |edges|) && e < |edges|
    ensures forall v :: EdgesInto(edges, es + [e], v) == EdgesInto(edges, es, v) + (if edges[e].t == v then [e] else [])
  {
    assert (es + [e])[..|es + [e]| - 1] == es;
  }

  /** No id occurs twice. */
  ghost predicate Distinct(s: seq<NodeId>)
  {
    forall i, j :: 0 <= i < j < |s| ==> s[i] != s[j]
  }

  lemma {:induction false} LeastUnlistedNoneAll(n: nat, listed: seq<NodeId>, from: nat)
    requires LeastUnlisted(n, listed, from) == None
    ensures forall x :: from <= x < n ==> x in listed
    decreases n - from
  {
    if from < n {
      LeastUnlistedNoneAll(n, listed, from + 1);
    }
  }

  /** A breadth-first listing never lists a node twice. */
  lemma ListingDistinct<N, E>(nodes: seq<GraphNode<N>>, edges: seq<GraphEdge<E>>, order: seq<NodeId>)
    requires Traversable(nodes, edges) && Listing(nodes, edges, order)
    ensures Distinct(order)
  {
    forall i, j | 0 <= i < j < |order|
      ensures order[i] != order[j]
    {
      assert NextVisit(nodes, edges, order[..j]) == Some(order[j]);
      assert order[..j][i] == order[i];
    }
  }

  /** A complete visit order lists every node. */
  lemma VisitOrderCoversAll<N, E>(nodes: seq<GraphNode<N>>, edges: seq<GraphEdge<E>>, order: seq<NodeId>)
    requires Traversable(nodes, edges) && IsVisitOrder(nodes, edges, order)
    ensures forall v :: 0 <= v < |nodes| ==> v in order
  {
    match FirstUnlisted(Discovered(nodes, edges, order), order)
    case None =>
      LeastUnlistedNoneAll(|nodes|, order, 0);
  }

  lemma {:induction false} DistinctCard(s: seq<NodeId>)
    requires Distinct(s)
    ensures |Elements(s)| == |s|
  {
    if s != [] {
      var init, last := s[..|s| - 1], s[|s| - 1];
      DistinctCard(init);
      assert s == init + [last];
      assert Elements(s) == Elements(init) + {last};
      assert last !in init by {
        forall i | 0 <= i < |init|
          ensures init[i] != last
        {
          assert init[i] == s[i];
        }
      }
    }
  }

  lemma {:induction false} CoveringSetSize(s: set<nat>, n: nat)
    requires forall x :: 0 <= x < n ==> x in s
    ensures n <= |s|
  {
    if n > 0 {
      CoveringSetSize(s - {n - 1}, n - 1);
    }
  }

  /** `order` is a permutation of the node ids: it lists each node exactly once. */
  ghost predicate IsNodePermutation(n: nat, order: seq<NodeId>)
  {
    && |order| == n
    && AllBelow(order, n)
    && Distinct(order)
    && (forall v :: 0 <= v < n ==> v in order)
  }

  /** The visit order lists each node of the graph exactly once. */
  lemma VisitOrderIsPermutation<N, E>(nodes: seq<GraphNode<N>>, edges: seq<GraphEdge<E>>, order: seq<NodeId>)
    requires Traversable(nodes, edges) && IsVisitOrder(nodes, edges, order)
    ensures IsNodePermutation(|nodes|, order)
  {
    ListingDistinct(nodes, edges, order);
    VisitOrderCoversAll(nodes, edges, order);
    var listed := Elements(order);
    DistinctCard(order);
    BoundedSetSize(listed, |nodes|);
    CoveringSetSize(listed, |nodes|);
  }

  lemma {:induction false} PrefixesAgree<N, E>(nodes: seq<GraphNode<N>>, edges: seq<GraphEdge<E>>,
                                               o1: seq<NodeId>, o2: seq<NodeId>, k: nat)
    requires Traversable(nodes, edges) && Listing(nodes, edges, o1) && Listing(nodes, edges, o2)
    requires k <= |o1| && k <= |o2|
    ensures o1[..k] == o2[..k]
  {
    if k > 0 {
      PrefixesAgree(nodes, edges, o1, o2, k - 1);
      assert NextVisit(nodes, edges, o1[..k - 1]) == Some(o1[k - 1]);
      assert NextVisit(nodes, edges, o2[..k - 1]) == Some(o2[k - 1]);
      assert o1[..k] == o1[..k - 1] + [o1[k - 1]];
      assert o2[..k] == o2[..k - 1] + [o2[k - 1]];
    }
  }

  /** The visit order is determined by the graph: there is exactly one. */
  lemma VisitOrderUnique<N, E>(nodes: seq<GraphNode<N>>, edges: seq<GraphEdge<E>>, o1: seq<NodeId>, o2: seq<NodeId>)
    requires Traversable(nodes, edges)
    requires IsVisitOrder(nodes, edges, o1) && IsVisitOrder(nodes, edges, o2)
    ensures o1 == o2
  {
    VisitOrderNotExtended(nodes, edges, o1, o2);
    VisitOrderNotExtended(nodes, edges, o2, o1);
    PrefixesAgree(nodes, edges, o1, o2, |o1|);
    assert o1 == o1[..|o1|] && o2 == o2[..|o2|];
  }

  /** No listing goes on past a complete visit order. */
  lemma VisitOrderNotExtended<N, E>(nodes: seq<GraphNode<N>>, edges: seq<GraphEdge<E>>, o1: seq<NodeId>, o2: seq<NodeId>)
    requires Traversable(nodes, edges)
    requires IsVisitOrder(nodes, edges, o1) && Listing(nodes, edges, o2)
    ensures |o2| <= |o1|
  {
    if |o1| < |o2| {
      assert o1 == o1[..|o1|];
      assert NextVisit(nodes, edges, o2[..|o1|]) == Some(o2[|o1|]);
      PrefixesAgree(nodes, edges, o1, o2, |o1|);
      assert false;
    }
  }

  /** Each id of a sequence without repetitions occurs in it once. */
  lemma {:induction false} DistinctOccurrences(s: seq<NodeId>, x: NodeId)
    requires Distinct(s)
    ensures Occurrences(s, x) == if x in s then 1 else 0
  {
    if s != [] {
      var init, last := s[..|s| - 1], s[|s| - 1];
      assert s == init + [last];
      assert Distinct(init) by {
        forall i, j | 0 <= i < j < |init|
          ensures init[i] != init[j]
        {
          assert init[i] == s[i] && init[j] == s[j];
        }
      }
      DistinctOccurrences(init, x);
      if last == x {
        assert x !in init by {
          forall i | 0 <= i < |init|
            ensures init[i] != last
          {
            assert init[i] == s[i];
          }
        }
      }
    }
  }

  /** The edges into `v` among `es` are those of `es` whose target is `v`, each as
      often as in `es`. */
  lemma {:induction false} EdgesIntoOccurrences<E>(edges: seq<GraphEdge<E>>, es: seq<EdgeId>, v: NodeId, e: EdgeId)
    requires AllBelow(es, |edges|) && e < |edges|
    ensures Occurrences(EdgesInto(edges, es, v), e) == if edges[e].t == v then Occurrences(es, e) else 0
  {
    if es != [] {
      var init, last := es[..|es| - 1], es[|es| - 1];
      EdgesIntoOccurrences(edges, init, v, e);
      var prev := EdgesInto(edges, init, v);
      var added: seq<EdgeId> := if edges[last].t == v then [last] else [];
      assert EdgesInto(edges, es, v) == prev + added;
      OccurrencesAppend(prev, added, e);
      assert Occurrences(added, e) == if edges[last].t == v && last == e then 1 else 0 by {
        if added != [] {
          assert added[..0] == [];
        }
      }
      assert Occurrences(es, e) == Occurrences(init, e) + if last == e then 1 else 0;
    }
  }

  /** Every edge into `v` among `es` is one of `es` and has target `v`. */
  lemma {:induction false} EdgesIntoMembers<E>(edges: seq<GraphEdge<E>>, es: seq<EdgeId>, v: NodeId)
    requires AllBelow(es, |edges|)
    ensures forall x :: x in EdgesInto(edges, es, v) ==> x in es && edges[x].t == v
  {
    if es != [] {
      var init, last := es[..|es| - 1], es[|es| - 1];
      EdgesIntoMembers(edges, init, v);
      assert es == init + [last];
    }
  }

  /** In the out-edge lists of the listed nodes, edge `e` occurs once for each
      listing of its source, and, when it was added as bidirectional, once more
      for each listing of its target. */
  lemma {:induction false} OutEdgeIdsOccurrences<N, E>(nodes: seq<GraphNode<N>>, edges: seq<GraphEdge<E>>,
                                                       bidirectional: seq<bool>, order: seq<NodeId>, e: EdgeId)
    requires ArenaValid(nodes, edges, bidirectional) && Traversable(nodes, edges)
    requires AllBelow(order, |nodes|) && e < |edges|
    ensures Occurrences(OutEdgeIds(nodes, edges, order), e)
         == Occurrences(order, edges[e].s) + (if bidirectional[e] then Occurrences(order, edges[e].t) else 0)
  {
    if order != [] {
      var init, last := order[..|order| - 1], order[|order| - 1];
      OutEdgeIdsOccurrences(nodes, edges, bidirectional, init, e);
      OccurrencesAppend(OutEdgeIds(nodes, edges, init), nodes[last].outEdges, e);
      IncidentMultiplicity(edges, bidirectional, last, |edges|, e);
    }
  }

  /** What `in_edges` holds once every node is visited: each edge is filed under
      its target, once, or twice when it was added as bidirectional (it is then on
      two out-edge lists); only edge targets are keys; and every filed edge enters
      its key. */
  lemma InEdgesAfterVisit<N, E>(nodes: seq<GraphNode<N>>, edges: seq<GraphEdge<E>>, bidirectional: seq<bool>,
                                order: seq<NodeId>, inEdges: map<NodeId, seq<EdgeId>>)
    requires ArenaValid(nodes, edges, bidirectional) && Traversable(nodes, edges)
    requires IsNodePermutation(|nodes|, order)
    requires IndexesInEdges(edges, OutEdgeIds(nodes, edges, order), inEdges)
    ensures forall e :: 0 <= e < |edges| ==>
      && edges[e].t in inEdges
      && Occurrences(inEdges[edges[e].t], e) == (if bidirectional[e] then 2 else 1)
    ensures forall v :: v in inEdges ==> exists e :: 0 <= e < |edges| && edges[e].t == v
    ensures forall v, i :: v in inEdges && 0 <= i < |inEdges[v]| ==>
      inEdges[v][i] < |edges| && edges[inEdges[v][i]].t == v
  {
    var es := OutEdgeIds(nodes, edges, order);
    forall e | 0 <= e < |edges|
      ensures edges[e].t in inEdges
      ensures Occurrences(inEdges[edges[e].t], e) == (if bidirectional[e] then 2 else 1)
    {
      var t := edges[e].t;
      EdgesIntoOccurrences(edges, es, t, e);
      OutEdgeIdsOccurrences(nodes, edges, bidirectional, order, e);
      DistinctOccurrences(order, edges[e].s);
      DistinctOccurrences(order, t);
      OccurrencesMembership(EdgesInto(edges, es, t), e);
    }
    forall v | v in inEdges
      ensures exists e :: 0 <= e < |edges| && edges[e].t == v
      ensures forall i :: 0 <= i < |inEdges[v]| ==> inEdges[v][i] < |edges| && edges[inEdges[v][i]].t == v
    {
      EdgesIntoMembers(edges, es, v);
      var x := inEdges[v][0];
      assert x in EdgesInto(edges, es, v);
    }
  }

  /** A node that exactly one edge enters, a one-way edge, has that edge alone
      filed under it, once. */
  lemma SoleInEdge<E>(edges: seq<GraphEdge<E>>, bidirectional: seq<bool>, inEdges: map<NodeId, seq<EdgeId>>,
                      v: NodeId, e: EdgeId)
    requires |bidirectional| == |edges|
    requires forall e' :: 0 <= e' < |edges| ==>
      && edges[e'].t in inEdges
      && Occurrences(inEdges[edges[e'].t], e') == (if bidirectional[e'] then 2 else 1)
    requires forall w, i :: w in inEdges && 0 <= i < |inEdges[w]| ==>
      inEdges[w][i] < |edges| && edges[inEdges[w][i]].t == w
    requires e < |edges| && edges[e].t == v && !bidirectional[e]
    requires forall e' :: 0 <= e' < |edges| && edges[e'].t == v ==> e' == e
    ensures v in inEdges && inEdges[v] == [e]
  {
    var s := inEdges[v];
    forall i | 0 <= i < |s|
      ensures s[i] == e
    {
      assert edges[s[i]].t == v;
    }
    UniformOccurrences(s, e);
  }
}
