/** src/read_osm.rs, `filter_nodes_and_ways`: keeps the ways a pedestrian may use
    and moves the nodes they reference into a second map. */
module ReadOsm {
  import opened Wrappers
  import opened Config
  import opened Osm
  import opened Sequences

  /** `area=yes`. */
  predicate IsArea(w: Way): (r: bool)
    ensures r <==> Tag(w, "area") == Some("yes")
  {
    "area" in w.tags && w.tags["area"] == "yes"
  }

  /** The way has a `highway` tag whose value is allowed for the key "pedestrian"
      (the key is fixed in the source, whatever network type was asked for). */
  predicate AllowedHighway(w: Way, config: Config): (r: bool)
    ensures r <==> "pedestrian" in config.allowedHighways && Tag(w, "highway").Some?
                   && Tag(w, "highway").value in config.allowedHighways["pedestrian"]
  {
    "highway" in w.tags && config.IsAllowed("pedestrian", w.tags["highway"])
  }

  /** Every point of the way is one of `nodes`. */
  ghost predicate Complete(w: Way, nodes: map<int, Node>): (r: bool)
    ensures r <==> Elements(w.nodes) <= nodes.Keys
  {
    forall i :: 0 <= i < |w.nodes| ==> w.nodes[i] in nodes
  }

  /** The test a way must pass to be kept. */
  ghost predicate Admissible(nodes: map<int, Node>, w: Way, config: Config): (r: bool)
    ensures r ==> "highway" in w.tags && "pedestrian" in config.allowedHighways
                  && w.tags["highway"] in config.allowedHighways["pedestrian"]
    ensures r ==> Tag(w, "area") != Some("yes") && forall x :: x in w.nodes ==> x in nodes
  {
    Complete(w, nodes) && !IsArea(w) && AllowedHighway(w, config)
  }

  /** The admissible ways, in input order. */
  ghost function Kept(nodes: map<int, Node>, ways: seq<Way>, config: Config): (r: seq<Way>)
    ensures |r| <= |ways|
  {
    if ways == [] then []
    else
      var last := ways[|ways| - 1];
      assert ways == ways[..|ways| - 1] + [last];
      Kept(nodes, ways[..|ways| - 1], config) + (if Admissible(nodes, last, config) then [last] else [])
  }

  /** `s` back to front. */
  ghost function Reverse<T>(s: seq<T>): (r: seq<T>)
    ensures |r| == |s|
    ensures forall i :: 0 <= i < |s| ==> r[i] == s[|s| - 1 - i]
  {
    if s == [] then [] else [s[|s| - 1]] + Reverse(s[..|s| - 1])
  }

  /** The ids of all points of the given ways. */
  ghost function Referenced(ways: seq<Way>): set<int>
  {
    if ways == [] then {}
    else
      var last := ways[|ways| - 1];
      assert ways == ways[..|ways| - 1] + [last];
      Referenced(ways[..|ways| - 1]) + Elements(last.nodes)
  }

  /** The entries of `nodes` whose keys are in `keys`. */
  ghost function Restrict(nodes: map<int, Node>, keys: set<int>): (r: map<int, Node>)
    ensures forall k :: k in r <==> k in nodes && k in keys
    ensures forall k :: k in r ==> r[k] == nodes[k]
  {
    map k | k in nodes && k in keys :: nodes[k]
  }

  /** The fold over the way's points: each is still waiting in `remaining` or was
      already moved to `filtered`. */
  function AllAvailable(ids: seq<int>, remaining: map<int, Node>, filtered: map<int, Node>): (r: bool)
    ensures r <==> forall i :: 0 <= i < |ids| ==> ids[i] in remaining || ids[i] in filtered
  {
    if ids == [] then true
    else (ids[0] in remaining || ids[0] in filtered) && AllAvailable(ids[1..], remaining, filtered)
  }

  /** `remaining` and `filtered` split `nodes` between them. */
  ghost predicate Partition(nodes: map<int, Node>, remaining: map<int, Node>, filtered: map<int, Node>)
  {
    && (forall k :: k in nodes ==> k in remaining || k in filtered)
    && (forall k :: k in filtered ==> k in nodes)
    && (forall k :: k in remaining ==> k in nodes && k !in filtered && remaining[k] == nodes[k])
  }

  /** The state of `filter_nodes_and_ways` after the ways behind `rest` were popped. */
  ghost predicate Filtering(nodes: map<int, Node>, ways: seq<Way>, config: Config, rest: seq<Way>,
                            remaining: map<int, Node>, nodesFiltered: map<int, Node>, waysFiltered: seq<Way>)
  {
    && |rest| <= |ways| && rest == ways[..|rest|]
    && Kept(nodes, ways, config) == Kept(nodes, rest, config) + Reverse(waysFiltered)
    && Partition(nodes, remaining, nodesFiltered)
    && nodesFiltered == Restrict(nodes, Referenced(waysFiltered))
  }

  /** What moving the points `ids` does to the two maps. */
  ghost predicate Moved(ids: seq<int>, remaining: map<int, Node>, filtered: map<int, Node>,
                        remaining': map<int, Node>, filtered': map<int, Node>)
  {
    && (forall k :: k in remaining' <==> k in remaining && k !in ids)
    && (forall k :: k in remaining' ==> remaining'[k] == remaining[k])
    && (forall k :: k in filtered' <==> k in filtered || (k in remaining && k in ids))
    && (forall k :: k in filtered' ==> filtered'[k] == if k in remaining && k in ids then remaining[k] else filtered[k])
  }

  /** `filter_nodes_and_ways`: pops the ways from the back, keeps each admissible
      one, and moves the nodes it references from `nodes` to the result map. The
      input map is keyed by each node's own id, as the reader builds it. */
  method FilterNodesAndWays(nodes: map<int, Node>, ways: seq<Way>, config: Config)
    returns (nodesFiltered: map<int, Node>, waysFiltered: seq<Way>)
    requires forall k :: k in nodes ==> nodes[k].id == k
    ensures waysFiltered == Reverse(Kept(nodes, ways, config))
    ensures nodesFiltered == Restrict(nodes, Referenced(waysFiltered))
    ensures forall w :: w in waysFiltered <==> w in ways && Admissible(nodes, w, config)
    ensures forall w, i :: w in waysFiltered && 0 <= i < |w.nodes| ==> w.nodes[i] in nodesFiltered
  {
    var remaining := nodes;
    var rest := ways;
    nodesFiltered := map[];
    waysFiltered := [];
    FilteringStart(nodes, ways, config);
    while rest != []
      invariant Filtering(nodes, ways, config, rest, remaining, nodesFiltered, waysFiltered)
      invariant forall k :: k in remaining ==> remaining[k].id == k
      decreases |rest|
    {
      rest, remaining, nodesFiltered, waysFiltered := FilterStep(nodes, ways, config, rest, remaining, nodesFiltered, waysFiltered);
    }
    FilteringDone(nodes, ways, config, remaining, nodesFiltered, waysFiltered);
    FilterResult(nodes, ways, config);
  }

  lemma FilteringStart(nodes: map<int, Node>, ways: seq<Way>, config: Config)
    ensures Filtering(nodes, ways, config, ways, nodes, map[], [])
  {
    assert ways[..|ways|] == ways;
    assert Restrict(nodes, Referenced([])) == map[];
  }

  lemma FilteringDone(nodes: map<int, Node>, ways: seq<Way>, config: Config,
                      remaining: map<int, Node>, nodesFiltered: map<int, Node>, waysFiltered: seq<Way>)
    requires Filtering(nodes, ways, config, [], remaining, nodesFiltered, waysFiltered)
    ensures waysFiltered == Reverse(Kept(nodes, ways, config))
    ensures nodesFiltered == Restrict(nodes, Referenced(waysFiltered))
  {
    ReverseReverse(waysFiltered);
  }

  /** One turn of the loop: pop a way and keep it (moving its nodes) if it passes. */
  method FilterStep(nodes: map<int, Node>, ways: seq<Way>, config: Config, rest: seq<Way>,
                    remaining: map<int, Node>, nodesFiltered: map<int, Node>, waysFiltered: seq<Way>)
    returns (rest': seq<Way>, remaining': map<int, Node>, nodesFiltered': map<int, Node>, waysFiltered': seq<Way>)
    requires rest != []
    requires Filtering(nodes, ways, config, rest, remaining, nodesFiltered, waysFiltered)
    requires forall k :: k in remaining ==> remaining[k].id == k
    ensures Filtering(nodes, ways, config, rest', remaining', nodesFiltered', waysFiltered')
    ensures forall k :: k in remaining' ==> remaining'[k].id == k
    ensures |rest'| < |rest|
  {
    var way := rest[|rest| - 1];
    rest' := rest[..|rest| - 1];
    var allNodesAvailable := AllAvailable(way.nodes, remaining, nodesFiltered);
    var isArea := IsArea(way);
    var allowedHighway := AllowedHighway(way, config);
    if allNodesAvailable && !isArea && allowedHighway {
      remaining', nodesFiltered' := MoveNodes(way.nodes, remaining, nodesFiltered);
      waysFiltered' := waysFiltered + [way];
      FilteringKeep(nodes, ways, config, rest, rest', way, remaining, nodesFiltered, waysFiltered, remaining', nodesFiltered');
    } else {
      remaining', nodesFiltered', waysFiltered' := remaining, nodesFiltered, waysFiltered;
      FilteringSkip(nodes, ways, config, rest, rest', way, remaining, nodesFiltered, waysFiltered);
    }
  }

  lemma FilteringKeep(nodes: map<int, Node>, ways: seq<Way>, config: Config, rest: seq<Way>, rest': seq<Way>, way: Way,
                      remaining: map<int, Node>, nodesFiltered: map<int, Node>, waysFiltered: seq<Way>,
                      remaining': map<int, Node>, nodesFiltered': map<int, Node>)
    requires Filtering(nodes, ways, config, rest, remaining, nodesFiltered, waysFiltered)
    requires rest == rest' + [way]
    requires forall i :: 0 <= i < |way.nodes| ==> way.nodes[i] in remaining || way.nodes[i] in nodesFiltered
    requires !IsArea(way) && AllowedHighway(way, config)
    requires Moved(way.nodes, remaining, nodesFiltered, remaining', nodesFiltered')
    ensures Filtering(nodes, ways, config, rest', remaining', nodesFiltered', waysFiltered + [way])
  {
    assert rest' == ways[..|rest'|] by {
      assert rest' == rest[..|rest'|];
    }
    AvailableIsComplete(nodes, remaining, nodesFiltered, way);
    KeptKeep(nodes, ways, config, rest, rest', way, waysFiltered);
    ReferencedAppend(waysFiltered, way);
    MovedPartition(nodes, way.nodes, remaining, nodesFiltered, remaining', nodesFiltered');
    MovedRestrict(nodes, Referenced(waysFiltered), way.nodes, remaining, nodesFiltered, remaining', nodesFiltered');
  }

  lemma FilteringSkip(nodes: map<int, Node>, ways: seq<Way>, config: Config, rest: seq<Way>, rest': seq<Way>, way: Way,
                      remaining: map<int, Node>, nodesFiltered: map<int, Node>, waysFiltered: seq<Way>)
    requires Filtering(nodes, ways, config, rest, remaining, nodesFiltered, waysFiltered)
    requires rest == rest' + [way]
    requires !(AllAvailable(way.nodes, remaining, nodesFiltered) && !IsArea(way) && AllowedHighway(way, config))
    ensures Filtering(nodes, ways, config, rest', remaining, nodesFiltered, waysFiltered)
  {
    assert rest' == ways[..|rest'|] by {
      assert rest' == rest[..|rest'|];
    }
    AvailableIsComplete(nodes, remaining, nodesFiltered, way);
    KeptPop(nodes, config, rest, rest', way);
  }

  /** Under the split, a way's points are all available exactly when they are all
      among the input nodes. */
  lemma AvailableIsComplete(nodes: map<int, Node>, remaining: map<int, Node>, filtered: map<int, Node>, way: Way)
    requires Partition(nodes, remaining, filtered)
    ensures AllAvailable(way.nodes, remaining, filtered) <==> Complete(way, nodes)
  {
    if AllAvailable(way.nodes, remaining, filtered) {
      forall i | 0 <= i < |way.nodes|
        ensures way.nodes[i] in nodes
      {
        var x := way.nodes[i];
        assert x in remaining || x in filtered;
      }
    } else {
      var i :| 0 <= i < |way.nodes| && way.nodes[i] !in remaining && way.nodes[i] !in filtered;
      var x := way.nodes[i];
      assert x in nodes ==> x in remaining || x in filtered;
      assert x !in nodes;
      assert !Complete(way, nodes);
    }
  }

  /** Keeping the popped way moves it from the unprocessed part of the admissible
      ways to the front of the reversed kept ones. */
  lemma KeptKeep(nodes: map<int, Node>, ways: seq<Way>, config: Config, rest: seq<Way>, rest': seq<Way>, way: Way,
                 waysFiltered: seq<Way>)
    requires Kept(nodes, ways, config) == Kept(nodes, rest, config) + Reverse(waysFiltered)
    requires rest == rest' + [way]
    requires Admissible(nodes, way, config)
    ensures Kept(nodes, ways, config) == Kept(nodes, rest', config) + Reverse(waysFiltered + [way])
  {
    KeptPop(nodes, config, rest, rest', way);
    MoveToReversed(Kept(nodes, rest', config), waysFiltered, way);
  }

  lemma KeptPop(nodes: map<int, Node>, config: Config, rest: seq<Way>, rest': seq<Way>, way: Way)
    requires rest == rest' + [way]
    ensures Kept(nodes, rest, config) == Kept(nodes, rest', config) + (if Admissible(nodes, way, config) then [way] else [])
  {
    assert rest[..|rest| - 1] == rest';
  }

  lemma ReverseAppend<T>(s: seq<T>, x: T)
    ensures Reverse(s + [x]) == [x] + Reverse(s)
  {
    assert (s + [x])[..|s|] == s;
  }

  lemma MoveToReversed<T>(a: seq<T>, b: seq<T>, x: T)
    ensures (a + [x]) + Reverse(b) == a + Reverse(b + [x])
  {
    ReverseAppend(b, x);
  }

  lemma ReferencedAppend(ways: seq<Way>, way: Way)
    ensures Referenced(ways + [way]) == Referenced(ways) + Elements(way.nodes)
  {
    assert (ways + [way])[..|ways|] == ways;
  }

  /** Moving the points of a way whose points are all known keeps the split. */
  lemma MovedPartition(nodes: map<int, Node>, ids: seq<int>, remaining: map<int, Node>, filtered: map<int, Node>,
                       remaining': map<int, Node>, filtered': map<int, Node>)
    requires Partition(nodes, remaining, filtered)
    requires Moved(ids, remaining, filtered, remaining', filtered')
    ensures Partition(nodes, remaining', filtered')
  {
  }

  /** Moving the points of a way extends the moved map to exactly the nodes the
      way adds to the referenced ids. */
  lemma MovedRestrict(nodes: map<int, Node>, referenced: set<int>, ids: seq<int>,
                      remaining: map<int, Node>, filtered: map<int, Node>,
                      remaining': map<int, Node>, filtered': map<int, Node>)
    requires Partition(nodes, remaining, filtered)
    requires filtered == Restrict(nodes, referenced)
    requires forall i :: 0 <= i < |ids| ==> ids[i] in remaining || ids[i] in filtered
    requires Moved(ids, remaining, filtered, remaining', filtered')
    ensures filtered' == Restrict(nodes, referenced + Elements(ids))
  {
    var r := Restrict(nodes, referenced + Elements(ids));
    forall k | k in filtered'
      ensures k in r && filtered'[k] == r[k]
    {
    }
    forall k | k in r
      ensures k in filtered'
    {
    }
  }

  /** The `filter_map`/`for_each` over a kept way's points: each point still in
      `remaining` is removed there and inserted into `filtered` under its id. */
  method MoveNodes(ids: seq<int>, remaining: map<int, Node>, filtered: map<int, Node>)
    returns (remaining': map<int, Node>, filtered': map<int, Node>)
    requires forall k :: k in remaining ==> remaining[k].id == k
    ensures Moved(ids, remaining, filtered, remaining', filtered')
    ensures forall k :: k in remaining' ==> remaining'[k].id == k
  {
    remaining', filtered' := remaining, filtered;
    for j := 0 to |ids|
      invariant Moved(ids[..j], remaining, filtered, remaining', filtered')
    {
      var x := ids[j];
      assert ids[..j + 1] == ids[..j] + [x];
      if x in remaining' {
        var n := remaining'[x];
        remaining' := remaining' - {x};
        filtered' := filtered'[n.id := n];
      }
    }
    assert ids[..|ids|] == ids;
  }

  /** The kept ways are exactly the admissible ones. */
  lemma {:induction false} KeptMembership(nodes: map<int, Node>, ways: seq<Way>, config: Config)
    ensures forall w :: w in Kept(nodes, ways, config) <==> w in ways && Admissible(nodes, w, config)
  {
    if ways != [] {
      var init := ways[..|ways| - 1];
      assert ways == init + [ways[|ways| - 1]];
      KeptMembership(nodes, init, config);
    }
  }

  /** A point id is referenced exactly when one of the ways has it. */
  lemma {:induction false} ReferencedMembership(ways: seq<Way>)
    ensures forall x :: x in Referenced(ways) <==> exists w :: w in ways && x in w.nodes
  {
    if ways != [] {
      var init := ways[..|ways| - 1];
      assert ways == init + [ways[|ways| - 1]];
      ReferencedMembership(init);
    }
  }

  /** What the filter hands to the converter: the kept ways are the admissible
      ones; every point of a kept way is among the kept nodes; every kept node is
      the input's node under that id and lies on some kept way. */
  lemma FilterResult(nodes: map<int, Node>, ways: seq<Way>, config: Config)
    ensures var ws := Reverse(Kept(nodes, ways, config));
            var ns := Restrict(nodes, Referenced(ws));
            && (forall w :: w in ws <==> w in ways && Admissible(nodes, w, config))
            && (forall w, i :: w in ws && 0 <= i < |w.nodes| ==> w.nodes[i] in ns)
            && (forall k :: k in ns ==> k in nodes && ns[k] == nodes[k] && exists w :: w in ws && k in w.nodes)
  {
    var ws := Reverse(Kept(nodes, ways, config));
    KeptMembership(nodes, ways, config);
    ReverseMembership(Kept(nodes, ways, config));
    KeptPointsPresent(nodes, ws);
    MovedNodesUsed(nodes, ws);
  }

  /** Every point of a way whose points are all known has its node in the
      restriction to the referenced ids. */
  lemma KeptPointsPresent(nodes: map<int, Node>, ws: seq<Way>)
    requires forall w :: w in ws ==> Complete(w, nodes)
    ensures forall w, i :: w in ws && 0 <= i < |w.nodes| ==> w.nodes[i] in Restrict(nodes, Referenced(ws))
  {
    ReferencedMembership(ws);
  }

  /** Every node of the restriction to the referenced ids lies on some way. */
  lemma MovedNodesUsed(nodes: map<int, Node>, ws: seq<Way>)
    ensures var ns := Restrict(nodes, Referenced(ws));
            forall k :: k in ns ==> k in nodes && ns[k] == nodes[k] && exists w :: w in ws && k in w.nodes
  {
    ReferencedMembership(ws);
  }

  lemma ReverseMembership<T>(s: seq<T>)
    ensures forall x :: x in Reverse(s) <==> x in s
  {
    var r := Reverse(s);
    forall x | x in r
      ensures x in s
    {
      var j :| 0 <= j < |r| && r[j] == x;
      assert s[|s| - 1 - j] == x;
    }
    forall x | x in s
      ensures x in r
    {
      var j :| 0 <= j < |s| && s[j] == x;
      assert r[|s| - 1 - j] == x;
    }
  }

  lemma {:induction false} ReverseReverse<T>(s: seq<T>)
    ensures Reverse(Reverse(s)) == s
  {
    var r := Reverse(s);
    assert forall i :: 0 <= i < |s| ==> Reverse(r)[i] == r[|s| - 1 - i] == s[i];
  }
}
