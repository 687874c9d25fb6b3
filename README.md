# OsmToRoadGraph core, modelled in Dafny

This project models the road-graph engine of OsmToRoadGraph. That is the part between
decoding an OpenStreetMap extract and writing the graph files. It has five pieces:

- **Graph arena** (`Graph`). Nodes and edges sit in two vectors and are addressed by dense
  ids. `add_node` and `add_edge` append and keep per-node out-edge lists.
  - `Graph.Graph` is a class with the fields `nodes` and `edges`, plus a ghost record of the
    `bidirectional` flag each `add_edge` call received.
  - `ArenaValid` states the arena invariants: ids equal positions; edge sources exist;
    targets of bidirectional edges exist; and every out-edge list is exactly the list the
    edges added so far prescribe (`Incident`).
- **Visit of `kosaraju_step1_2`** (`Lcc`, specified in `LccSpec`).
  - The loop tries roots in increasing id order and drains a FIFO queue from each. It
    returns the visit list `L` and the map `in_edges`.
  - `NextVisit` specifies the visit declaratively. The next node listed is the earliest
    discovered node that is not listed yet, or else the smallest unlisted id.
  - `IsVisitOrder` says a listing follows that rule to the end. Such a listing exists
    (the method builds one), is unique, and is a permutation of the node ids.
  - The four tests of `src/lcc.rs` are proved in `LccTests`.
  - `compute_lcc` and `kosaraju` do nothing observable; step 3 of Kosaraju's algorithm does
    not exist in the program and is not modelled.
- **Feasibility filter** (`ReadOsm.FilterNodesAndWays`). It pops ways from the back. It keeps
  a way when all its points are known, it is not an area, and its `highway` value is allowed
  for the key `"pedestrian"`. It then moves the way's nodes from the input map to the result
  map.
- **Conversion** (`OsmConvert`).
  - `Convert` builds one graph node per map entry and one edge per way, from the way's first
    point to its last.
  - `ParseSpeed` reads a `maxspeed` tag. It tries, in this order: a plain byte, `walk`,
    `none`, miles per hour, kilometres per hour, and the street type's default.
- **Small lookups**:
  - the two configuration records, `Config` and `OsmParseConfig`;
  - the network-type names, `NetworkType`;
  - the character filter `keep_characters`, `Util.KeepCharacters`.

Modelling conventions:

- **Panics.** A panic of the program is modelled as an error value (`Option`/`Result`).
  The exceptions are the arena lookups in `add_edge` and the out-edge lookups of the visit:
  these are preconditions, because the program has no error path there.
- **Hash-map order.** `convert` iterates a `HashMap` in an unspecified order. The model takes
  that order as a parameter `keys`, which must enumerate the map's ids once each.
  `FilterNodesAndWays` takes the node map keyed by each node's own id, which is how the
  reader builds it.
- **The filter's key.** The filter always looks up the access rules under the key
  `"pedestrian"` (src/read_osm.rs:31), whatever network type was requested, and so does
  the model.
- **The visit's shape.** The comments in `src/lcc.rs` describe a recursive depth-first
  visit. The code is a breadth-first visit with a FIFO queue, and the model follows the code.
- **Bidirectional edges in `in_edges`.** A bidirectional edge is on the out-edge lists of
  both of its ends. `in_edges` files every out-edge under its target, so such an edge is filed
  twice under `t` and never under `s`. The model states this as it is.

## Model

| member | source | states |
|---|---|---|
| Graph.GraphNode.AddEdge | src/graph.rs:71-73 | the edge id is appended to the out-edge list; the id and the payload are unchanged |
| Graph.GraphNode.GetEdges | src/graph.rs:75-77 | returns the node's out-edge list |
| Graph.Graph.constructor | src/lcc.rs:93-96 | the empty arena satisfies the arena invariants |
| Graph.Graph.AddNode | src/graph.rs:87-96 | the new id is the previous node count; exactly one node is appended, with an empty out-edge list; edges are untouched; the arena invariants are kept |
| Graph.WithEdge | src/graph.rs:115-125 | the node lists after `add_edge`: the edge id is appended to the source's list, and also to the target's list when bidirectional; ids and payloads are kept |
| Graph.Graph.AddEdge | src/graph.rs:98-126 | exactly one edge is appended, with id equal to the previous edge count and the given endpoints; its id goes on the source's list, and also on the target's list when bidirectional (twice on a self-loop's list); every other list, id and payload is unchanged; the invariants are kept; the source must exist, and the target only when bidirectional |
| Graph.Graph.OutEdgesMembership | src/graph.rs:115-125 | edge e is on node v's list exactly when v is its source, or it is bidirectional and v is its target |
| Graph.AddEdgeKeepsArenaValid | src/graph.rs:105-125 | appending an edge and listing it on its source (and on its target when bidirectional) keeps ids equal to positions and all listed ids in range |
| Graph.IncidentMultiplicity | src/graph.rs:115-125 | edge e occurs on v's list once per role: once as source, once more as target of a bidirectional edge |
| Graph.IncidentBound | src/graph.rs:105-118 | every id on an out-edge list names an existing edge |
| Graph.IncidentEmpty | src/graph.rs:87-96 | a node that no edge leaves, and that no bidirectional edge enters, has an empty list |
| Graph.IncidentPrefix | src/graph.rs:113 | appending edges does not change the lists prescribed by the earlier edges |
| Lcc.ComputeLcc | src/lcc.rs:7 | leaves the graph unchanged |
| Lcc.Kosaraju | src/lcc.rs:9-31 | runs the first two steps and leaves the graph unchanged |
| Lcc.KosarajuStep12 | src/lcc.rs:33-82 | `L` is the breadth-first visit order and a permutation of the node ids; `in_edges` indexes the out-edges of the visited nodes by target; each edge is filed under its target once, or twice when bidirectional; only edge targets are keys; every filed edge enters its key |
| Lcc.VisitFrom | src/lcc.rs:52-78 | one root's drain extends `L` by breadth-first visits until every discovered node is listed; the visited set and `L` hold the same nodes; `in_edges` keeps indexing the listed nodes' out-edges |
| Lcc.DrainStep | src/lcc.rs:54-78 | one pop either skips a visited node or lists it and pushes the targets of its out-edges; the drain invariant is kept and the loop measure decreases |
| Lcc.RecordOutEdges | src/lcc.rs:62-75 | pushes the targets of the out-edges in order, and files each edge under its target |
| LccSpec.NextVisit | src/lcc.rs:47-60 | the next node is not listed yet and is a node of the graph |
| LccSpec.FirstUnlisted | src/lcc.rs:54-58 | a chosen candidate was discovered and is not listed |
| LccSpec.LeastUnlisted | src/lcc.rs:47-50 | a chosen root lies in the range searched and is not listed |
| LccSpec.VisitOrderIsPermutation | src/lcc.rs:47-60 | a complete visit order lists every node id exactly once |
| LccSpec.ListingDistinct | src/lcc.rs:56-60 | no node is listed twice |
| LccSpec.VisitOrderCoversAll | src/lcc.rs:47-52 | a complete visit order lists every node |
| LccSpec.VisitOrderUnique | src/lcc.rs:47-77 | the visit order is determined by the graph: any two complete visit orders are equal |
| LccSpec.VisitOrderNotExtended | src/lcc.rs:47-77 | no listing is longer than a complete visit order |
| LccSpec.PrefixesAgree | src/lcc.rs:47-77 | two listings agree on every common prefix |
| LccSpec.NextVisitIsPopped | src/lcc.rs:54-60 | the next node the queue yields that is not visited yet is the one `NextVisit` prescribes |
| LccSpec.NoNextVisitAtEnd | src/lcc.rs:47-50 | once every root was tried, no node remains to list |
| LccSpec.DrainVisit | src/lcc.rs:60-77 | listing a popped unvisited node, filing its out-edges and pushing their targets keeps the drain invariant and adds one node to the visited set |
| LccSpec.DrainingNext | src/lcc.rs:54-60 | the drain lists nodes in the order `NextVisit` prescribes |
| LccSpec.DrainingVisit | src/lcc.rs:60-77 | listing the popped node appends its out-edges to the recorded edges and its out-edge targets to everything pushed |
| LccSpec.DrainSkip | src/lcc.rs:56-58 | popping a visited node keeps the drain invariant |
| LccSpec.DrainDone | src/lcc.rs:54 | once the queue is empty, every discovered node is listed, and so is the root |
| LccSpec.ListingExtend | src/lcc.rs:62-77 | appending the prescribed next node extends the listing; its discoveries grow by the node's out-edge targets and the recorded edges by its out-edges |
| LccSpec.InEdgesAfterVisit | src/lcc.rs:62-74 | after the visit, each edge is filed under its target once (twice when bidirectional), only edge targets are keys, and each filed edge enters its key |
| LccSpec.EdgesIntoAppend | src/lcc.rs:67-74 | filing one more edge appends it to its target's entry only |
| LccSpec.EdgesIntoOccurrences | src/lcc.rs:67-74 | an edge occurs under its target as often as among the recorded out-edges, and nowhere else |
| LccSpec.SoleInEdge | src/lcc.rs:62-74 | a node entered by exactly one edge, which is not bidirectional, has exactly that edge as its in-edges entry |
| LccSpec.EdgesIntoMembers | src/lcc.rs:67-74 | every edge filed under v has target v |
| LccSpec.OutEdgeIdsOccurrences | src/lcc.rs:62-63 | among the recorded out-edges, an edge occurs once per listing of its source, plus once per listing of its target when bidirectional |
| LccSpec.OutEdgeIds | src/lcc.rs:62-63 | the recorded out-edge ids all name existing edges |
| LccSpec.Discovered | src/lcc.rs:65 | every discovered node is a node of the graph |
| LccSpec.EdgesInto | src/lcc.rs:67-74 | every edge filed under a node names an existing edge |
| LccSpec.TargetsOf | src/lcc.rs:64-65 | the pushed targets are the targets of the given edges, in order |
| LccSpec.OutTargets | src/lcc.rs:62-65 | a node pushes one target per out-edge, each a node of the graph |
| LccTests.EmptyGraph | src/lcc.rs:217-228 | the empty graph's visit lists nothing and files no edge |
| LccTests.TwoNodes | src/lcc.rs:92-108 | with one bidirectional edge 0 to 1, the visit lists 0 then 1; nothing is filed under 0 and the edge is filed twice under 1 |
| LccTests.BuildTwoNodes | src/lcc.rs:99-101 | two `add_node` calls and one bidirectional `add_edge` build a valid two-node arena with edge 0 from 0 to 1 |
| LccTests.TwoNodesOrder | src/lcc.rs:103-107 | with two nodes, every complete visit order is 0 then 1 |
| LccTests.TwoNodesInEdges | src/lcc.rs:103 | with one bidirectional edge 0 to 1, the filing contract leaves 0 out and files the edge twice under 1 |
| LccTests.FourNodesAndCycle | src/lcc.rs:110-162 | the cycle test's visit lists 0, 1, 2, 3; node 0 is entered by edge 3, node 1 by 0, node 2 by 1 and node 3 by 2 |
| LccTests.BuildFourNodesAndCycle | src/lcc.rs:125-133 | the cycle test's calls of `add_node` and `add_edge` build the arena it draws |
| LccTests.FourNodesAndCycleSteps | src/lcc.rs:130-133 | the out-edge lists after each `add_edge` call of the cycle test |
| LccTests.FourNodesAndCycleResult | src/lcc.rs:135-161 | whatever the visit returns on the cycle test's arena, its order and in-edges are the ones the test expects |
| LccTests.FourNodesAndCycleVisit | src/lcc.rs:135-145 | the only complete visit order of the cycle test's graph is 0, 1, 2, 3 |
| LccTests.FourNodesAndCycleOrder | src/lcc.rs:135-145 | 0, 1, 2, 3 is a complete visit order of the cycle test's graph |
| LccTests.FourNodesAndCycleNext | src/lcc.rs:135-145 | the visit's choices in the cycle test, step by step |
| LccTests.FourNodesAndCycleInEdges | src/lcc.rs:146-161 | in the cycle test, node 0 is entered by edge 3, node 1 by 0, node 2 by 1 and node 3 by 2 |
| LccTests.DisconnectedComponent | src/lcc.rs:164-215 | the disconnected test's visit lists 0, 2, 3, 4, 1; nothing enters 0 or 1, and edge i enters node i + 2 |
| LccTests.BuildDisconnectedComponent | src/lcc.rs:179-187 | the disconnected test's calls of `add_node` and `add_edge` build the arena it draws |
| LccTests.DisconnectedComponentSteps | src/lcc.rs:185-187 | the out-edge lists after each `add_edge` call of the disconnected test |
| LccTests.DisconnectedComponentResult | src/lcc.rs:189-214 | whatever the visit returns on the disconnected test's arena, its order and in-edges are the ones the test expects |
| LccTests.DisconnectedComponentVisit | src/lcc.rs:189-199 | the only complete visit order of the disconnected test's graph is 0, 2, 3, 4, 1 |
| LccTests.DisconnectedComponentOrder | src/lcc.rs:189-199 | 0, 2, 3, 4, 1 is a complete visit order of the disconnected test's graph |
| LccTests.DisconnectedComponentNext | src/lcc.rs:189-199 | the visit's choices in the disconnected test, step by step |
| LccTests.DisconnectedComponentInEdges | src/lcc.rs:200-214 | in the disconnected test, nothing enters 0 or 1, and edge i enters node i + 2 |
| ReadOsm.FilterNodesAndWays | src/read_osm.rs:9-68 | the kept ways are the admissible ways in reverse input order; a way is kept exactly when it is complete, not an area, and has a highway allowed for "pedestrian"; the kept nodes are the input's nodes restricted to the points of the kept ways; every point of a kept way is a kept node |
| ReadOsm.FilterStep | src/read_osm.rs:20-46 | one pop keeps the loop invariant: kept ways so far are the reversed admissible suffix; the two node maps still split the input; the result map is the input restricted to the kept ways' points |
| ReadOsm.MoveNodes | src/read_osm.rs:37-43 | moves exactly the way's points still in the input map to the result map, with their nodes |
| ReadOsm.AllAvailable | src/read_osm.rs:22-24 | true exactly when each point of the way is in one of the two maps |
| ReadOsm.AvailableIsComplete | src/read_osm.rs:22-24 | while the two maps split the input, the availability test is the same as "every point is an input node", whatever ways were kept before |
| ReadOsm.FilteringKeep | src/read_osm.rs:36-45 | keeping a way and moving its nodes keeps the loop invariant |
| ReadOsm.FilteringSkip | src/read_osm.rs:34-36 | dropping a way keeps the loop invariant |
| ReadOsm.FilteringStart | src/read_osm.rs:14-15 | the invariant holds with all ways still to pop and both results empty |
| ReadOsm.FilteringDone | src/read_osm.rs:20 | when no way is left, the kept ways are the reversed admissible ways |
| ReadOsm.MovedPartition | src/read_osm.rs:37-43 | moving points keeps the two maps a split of the input |
| ReadOsm.MovedRestrict | src/read_osm.rs:37-45 | after the move, the result map is the input restricted to the kept ways' points, this way's included |
| ReadOsm.KeptKeep | src/read_osm.rs:34-45 | popping an admissible way puts it at the end of the reversed kept ways |
| ReadOsm.KeptPop | src/read_osm.rs:20-21 | popping an inadmissible way leaves the kept ways unchanged |
| ReadOsm.KeptMembership | src/read_osm.rs:22-34 | a way is kept exactly when it is an input way that is complete, not an area, and allowed |
| ReadOsm.ReferencedMembership | src/read_osm.rs:37-39 | an id is referenced exactly when one of the ways has it as a point |
| ReadOsm.FilterResult | src/read_osm.rs:22-45 | every point of a kept way is a kept node; every kept node is the input's node under that id and lies on some kept way |
| ReadOsm.KeptPointsPresent | src/read_osm.rs:22-24 | every point of a complete way is present after the move |
| ReadOsm.MovedNodesUsed | src/read_osm.rs:36-43 | every moved node is an input node and lies on some kept way |
| ReadOsm.ReverseMembership | src/read_osm.rs:20-21 | the popping order changes which ways come out only in order, not in membership |
| ReadOsm.ReverseReverse | src/read_osm.rs:20-21 | reversing the output order twice gives back the input order |
| ReadOsm.Reverse | src/read_osm.rs:20-21 | position i of the popped order holds the input's position n-1-i |
| ReadOsm.Restrict | src/read_osm.rs:39-41 | the restriction holds exactly the input's entries under the given keys |
| Sequences.Elements | src/read_osm.rs:37-38 | an id is in the set exactly when it is a point of the way |
| ReadOsm.Kept | src/read_osm.rs:45 | no more ways are kept than given |
| ReadOsm.IsArea | src/read_osm.rs:26 | a way is an area exactly when its `area` tag is present with value "yes" |
| ReadOsm.AllowedHighway | src/read_osm.rs:28-32 | a way is allowed exactly when it has a `highway` tag and that value is in the rules under the key "pedestrian" |
| ReadOsm.Complete | src/read_osm.rs:22-24 | a way is complete exactly when the set of its points lies within the node map's ids |
| ReadOsm.Admissible | src/read_osm.rs:20-34 | a kept way has a `highway` tag allowed for "pedestrian", is not tagged `area=yes`, and has all its points among the nodes |
| OsmConvert.Convert | src/osm_convert.rs:8-54 | fails exactly when some way fails, with the first failing way's error; otherwise returns a fresh valid arena with one node per map entry carrying its coordinates, and one edge per way, in order, with the way's endpoints and payload |
| OsmConvert.AddPoints | src/osm_convert.rs:20-28 | adds one node per key in order, with that node's coordinates; node_map sends each id to its position |
| OsmConvert.AddWayEdge | src/osm_convert.rs:32-49 | either the way's failure is the failure of the whole conversion, or its edge is appended and the arena describes the edges so far |
| OsmConvert.ConvertWaysOk | src/osm_convert.rs:32-49 | the conversion succeeds exactly when every way does, and then yields one edge per way, in order |
| OsmConvert.ConvertWaysFirstError | src/osm_convert.rs:32-49 | a failed conversion reports the error of the first way that fails |
| OsmConvert.WayEdgePayload | src/osm_convert.rs:33-43 | the edge's name is the `name` tag or ""; its street type is the `highway` tag; its speed is `parse_speed` of the `maxspeed` tag; it is bidirectional unless `oneway=yes`; a missing `highway` tag and an empty way fail |
| OsmConvert.WayEdge | src/osm_convert.rs:33-46 | a way yields an edge exactly when it has a `highway` tag, its `maxspeed` can be read, it has points and both end points are graph nodes; the edge joins the graph nodes of the first and last points; every error names the way, and an unknown-node error names a point of the way that is not a graph node; the payload is stated by WayEdgePayload and the endpoints' ids by WayEdgeEndpoints |
| OsmConvert.WayEdgeEndpoints | src/osm_convert.rs:45-46 | the edge runs from the graph node of the way's first point to that of its last point |
| OsmConvert.OneNodePerPoint | src/osm_convert.rs:20-28 | the graph gets as many nodes as the node map has entries |
| OsmConvert.DistinctIds | src/osm_convert.rs:20 | a duplicate-free enumeration of a set has as many entries as the set |
| OsmConvert.NodeIndex | src/osm_convert.rs:26-27 | every enumerated id maps to its position, and only those ids are keys |
| OsmConvert.WayEdges | src/osm_convert.rs:32 | one outcome per way, in order |
| OsmConvert.CollectOk | src/osm_convert.rs:32-49 | the loop completes exactly when every step succeeds, with their values in order |
| OsmConvert.CollectFirstError | src/osm_convert.rs:32-49 | an aborted loop reports the first step that failed |
| OsmConvert.CollectKeepsError | src/osm_convert.rs:32-49 | a failure in a prefix of the ways is the failure of all of them |
| OsmConvert.CollectStep | src/osm_convert.rs:32-49 | one more way either fails or appends its edge |
| OsmConvert.AddBuiltEdge | src/osm_convert.rs:48 | adding a way's edge with its own bidirectional flag keeps the arena describing the edges so far, now with that edge appended |
| OsmConvert.BuiltStep | src/osm_convert.rs:48 | adding the next way's edge extends the arena's edges by it and keeps the nodes |
| OsmConvert.ParseSpeed | src/osm_convert.rs:56-92 | a string that parses as a byte is that speed; a missing default reports the street type; "no digits" arises only for a unit without digits; "out of range" only for km/h digits that are not a byte; the branches in their order are stated for all values by ParseSpeedAbsent, ParseSpeedKeywords, ParseSpeedMphBranch, ParseSpeedKmhBranch and ParseSpeedUnrecognised |
| OsmConvert.DefaultOrError | src/config.rs:35-43 | succeeds exactly when the default speed exists, with that speed |
| OsmConvert.ParseSpeedAbsent | src/osm_convert.rs:57-59 | without a tag, the street type's speed, else the "unknown" speed, else an error |
| OsmConvert.ParseSpeedPlainNumber | src/osm_convert.rs:64-66 | a decimal number below 256, with or without '+', is the speed whatever the defaults; a larger number falls back to the default |
| OsmConvert.ParseSpeedKeywords | src/osm_convert.rs:68-71 | for every value that is not a plain byte: containing "walk" anywhere gives the walking speed; containing "none" but not "walk" gives the street type's default (or its error); both win over any unit |
| OsmConvert.ParseSpeedKeywordExamples | src/osm_convert.rs:68-71 | "walk" and "walk 30 mph" give the walking speed; "none" and "none 30 km/h" give the street type's default |
| OsmConvert.ParseSpeedMph | src/osm_convert.rs:72-76 | "n mph" and "n mp/h" give n times 1.609344, truncated and saturated at 255, for every n |
| OsmConvert.ParseSpeedThirtyMph | src/osm_convert.rs:72-76 | "30 mph" gives 48 |
| OsmConvert.ThirtyMph | src/osm_convert.rs:73-76 | 30 miles per hour truncate to 48 km/h |
| OsmConvert.ParseSpeedMphBranch | src/osm_convert.rs:72-76 | for every value that is no plain byte, contains neither "walk" nor "none" and contains "mph" or "mp/h": without digits it is a "no digits" error, otherwise all its digits together are read in miles per hour |
| OsmConvert.ParseSpeedKmhBranch | src/osm_convert.rs:77-84 | for every value that is no plain byte, contains neither keyword nor a miles-per-hour unit, and contains a km/h spelling: its digits together give the speed when they parse as a byte; no digits is a "no digits" error; other digits are an out-of-range error |
| OsmConvert.KeptDigits | src/osm_convert.rs:74 | the characters kept by the digit filter are all digits |
| OsmConvert.UnitQuantity | src/osm_convert.rs:64-74 | a number, a space and a unit word without digits, 'w' or 'o' is no plain byte, contains neither keyword, contains the unit, and keeps exactly the number's digits |
| OsmConvert.QuantityNamesNoMph | src/osm_convert.rs:72 | a number followed by a unit lacking 'm' or 'p' does not name miles per hour |
| OsmConvert.ParseSpeedKmh | src/osm_convert.rs:77-84 | "n km/h", "n kmh", "n kph" and "n kp/h" give n when n is below 256, and an out-of-range error otherwise, for every n |
| OsmConvert.ParseSpeedUnitSpellings | src/osm_convert.rs:72-80 | "30 mp/h" gives 48; "50 kph", "50 kp/h", "50 kmh" and "50 km/h" give 50 |
| OsmConvert.ParseSpeedUnitWithoutNumber | src/osm_convert.rs:72-75 | "mph" alone is an error: there are no digits to read |
| OsmConvert.ParseSpeedKmhWithoutNumber | src/osm_convert.rs:77-83 | "km/h" alone is an error: there are no digits to read |
| OsmConvert.BareMph | src/osm_convert.rs:64-74 | the bare unit "mph" is no plain byte, has neither keyword, names miles per hour and has no digits |
| OsmConvert.BareKmh | src/osm_convert.rs:64-82 | the bare unit "km/h" is no plain byte, has neither keyword, does not name miles per hour, names km/h and has no digits |
| OsmConvert.NoDigitsKept | src/osm_convert.rs:74 | the digit filter keeps nothing of a string without digits |
| OsmConvert.ParseSpeedUnrecognised | src/osm_convert.rs:85-91 | for every value that is no plain byte and contains neither keyword nor any unit spelling: the street type's default (or its error) |
| OsmConvert.ParseSpeedSignals | src/osm_convert.rs:85-91 | "signals" falls back to the street type's default |
| OsmConvert.MphToKmh | src/osm_convert.rs:73-76 | the result is n times 1.609344 rounded toward zero, or 255 when that is at least 255 |
| OsmConvert.ToDecimal | src/osm_convert.rs:64 | a rendered number is a nonempty string of digits |
| OsmConvert.DecimalRoundTrip | src/osm_convert.rs:64 | reading back a rendered number gives the number |
| OsmConvert.ParseU8Decimal | src/osm_convert.rs:64-65 | a rendered number, with or without '+', parses as a byte exactly when it is below 256 |
| OsmConvert.KeepDigitsOfQuantity | src/osm_convert.rs:74 | keeping the digits of a number followed by a digit-free unit gives the number back |
| OsmConvert.DigitsAreKept | src/osm_convert.rs:74 | a character is among "0123456789" exactly when it is a decimal digit |
| OsmConvert.QuantityIsNoByte | src/osm_convert.rs:64 | a number followed by a unit does not parse as a byte |
| OsmConvert.ContainsSuffix | src/osm_convert.rs:72 | a string contains its own suffix |
| OsmConvert.Contains | src/osm_convert.rs:68-80 | a contained pattern is no longer than the string and each of its characters occurs in the string; the empty pattern is always contained |
| OsmConvert.ContainsAfterSpace | src/osm_convert.rs:72-80 | a string contains whatever follows a space at its end |
| OsmConvert.IsMph | src/osm_convert.rs:72 | a value naming miles per hour ("mph" or "mp/h") has at least three characters, among them 'm', 'p' and 'h' |
| OsmConvert.IsKmh | src/osm_convert.rs:77-80 | a value naming km/h ("kph", "kp/h", "kmh" or "km/h") has at least three characters, among them 'k' and 'h' |
| OsmConvert.ParseU8 | src/osm_convert.rs:64-65 | a string that parses as a byte is an optional '+' then digits only, ending in a digit; a nonempty digit string below 256 parses to its value |
| OsmConvert.LacksKeyword | src/osm_convert.rs:68-80 | a string lacking a keyword's letter does not contain the keyword |
| OsmConvert.QuantityLacks | src/osm_convert.rs:68-80 | a letter absent from the unit is absent from the whole quantity |
| Config.Config.New | src/config.rs:10-21 | the three tables are stored unchanged |
| Config.Config.IsAllowed | src/config.rs:23-29 | true exactly when the key maps to a set holding the value; false for a missing key |
| Config.Config.DefaultWalkingSpeed | src/config.rs:31-33 | the stored walking speed |
| Config.Config.DefaultSpeed | src/config.rs:35-43 | the street type's speed, else the "unknown" speed; missing exactly when both are missing |
| Config.DefaultSpeedFallsBackToUnknown | src/config.rs:38-40 | a street type missing from the table gets the "unknown" speed |
| OsmParseConfig.OsmParseConfig.New | src/osm_parse_config.rs:10-20 | the three tables are stored unchanged |
| OsmParseConfig.OsmParseConfig.IsAllowed | src/osm_parse_config.rs:22-27 | true exactly when the travel mode maps to a set holding the value; false for a mode without an entry |
| OsmParseConfig.OsmParseConfig.DefaultWalkingSpeed | src/osm_parse_config.rs:29-31 | the stored walking speed |
| OsmParseConfig.OsmParseConfig.DefaultSpeed | src/osm_parse_config.rs:33-41 | the street type's speed, else the "unknown" speed; missing exactly when both are missing |
| OsmParseConfig.DefaultSpeedFallsBackToUnknown | src/osm_parse_config.rs:36-38 | a street type missing from the table gets the "unknown" speed |
| NetworkType.GetNetworkType | src/network_type.rs:8-15 | "pedestrian"/"p", "car"/"c" and "bicycle"/"b" give the three modes, each exactly for those names; every other name is an error |
| NetworkType.ShortNetworkTypeAsWritten | src/network_type.rs:17-23 | as written, a one-letter name for every mode |
| NetworkType.ShortNetworkTypeAsWrittenCollapses | src/network_type.rs:17-23 | as written, every mode's short name reads back as Pedestrian, so Car and Bicycle are lost |
| NetworkType.ShortNetworkType | src/network_type.rs:17-23 | the intended one-letter names |
| NetworkType.ShortNetworkTypeRoundTrip | src/network_type.rs:8-23 | the intended short name reads back as the mode it came from |
| Util.KeepCharacters | src/util.rs:2-4 | never longer than the original, and every character is one to keep |
| Util.KeepCharactersIsSubsequence | src/util.rs:3 | the result is a subsequence of the original |
| Util.KeepCharactersMaximal | src/util.rs:3 | every subsequence of the original made of kept characters is a subsequence of the result |
| Util.KeepCharactersMembership | src/util.rs:3 | a character survives exactly when it is in the original and is one to keep |
| Util.KeepCharactersAppend | src/util.rs:3 | filtering distributes over concatenation |
| Util.KeepCharactersIdentity | src/util.rs:3 | a string of kept characters is returned unchanged |
| Util.KeepCharactersIdempotent | src/util.rs:3 | filtering twice with the same characters equals filtering once |
| Util.KeepCharactersDigitExample | src/util.rs:8-14 | "85abc22" filtered to digits is "8522" |

## Left out

- `read_nodes_and_ways`, `read_osm` (src/read_osm.rs:70-103): reading the PBF file goes through an external crate and runs in parallel. These functions are not part of this model.
- src/config_creator.rs, src/osm_parse_config_creator.rs, src/output.rs, src/main.rs: YAML and file reading, file writing, command-line parsing and global state. They are not part of this model.
- The `description` and `name` formatters (src/graph.rs:46-68, 80-84) and src/graph_data.rs: they format floating-point coordinates for output and are not part of this model.
- `println!` diagnostics and `Instant` timings are left out; they do not influence any result.
- Graph.Graph.AddNode, Graph.Graph.AddEdge: ids are unbounded; the program's `as u32` casts would wrap around after 2^32 nodes or edges.
- Graph.GraphNode.AddEdge: nodes are values in the arena's sequence, so the in-place `get_mut` update becomes a replacement of one element; nothing can alias a node.
- Graph.Graph.AddEdge: a missing source node (and a missing target of a bidirectional edge) is a precondition. The program panics there, and no caller gives such ids.
- Lcc.KosarajuStep12: requires every edge target to be a node of the graph. The program would look up the out-edges of a target that does not exist, and `Graph::add_edge` accepts such one-way edges. `node_indices`, `out_edges` and `get_edge` are not in the shown source; they are modelled as `0..n`, the node's out-edge list and the edge at that index.
- Lcc.KosarajuStep12: the visit list `L` is pushed after a node's out-edges are recorded; the model lists the node in the same step, which gives the same results.
- Lcc.Kosaraju: step 3 of Kosaraju's algorithm (component assignment) exists only as a comment and is not modelled.
- OsmConvert.MphToKmh: the program multiplies in `f64`; the model computes `min(255, n * 1609344 div 1000000)` on integers. Below 160 mph the exact product is a multiple of 10^-6 well away from the next integer, so f64 rounding cannot change the truncated result. From 160 mph up both saturate at 255.
- OsmConvert.Convert: the `HashMap` iteration order is a parameter (`keys`); no particular id assignment is asserted. A panic is an error value, and the partly built graph is dropped. Node coordinates are opaque reals.
- OsmConvert.Convert: way and node ids are unbounded integers rather than `i64`.
- ReadOsm.FilterNodesAndWays: the input node map must be keyed by each node's own id, as the reader builds it. With other keys, the program's insert under `n.id` could differ from the key it removed.
- Strings are sequences of characters. The program's UTF-8 encoding is not modelled; substring and character tests give the same answers on characters as on the encoded bytes.

## Findings

| source | as written | input that shows it | evidently intended | confidence | as-written member | corrected member |
|---|---|---|---|---|---|---|
| src/network_type.rs:17-23 | the first arm `Pedestrian => "p"` is a binding pattern, not the variant, so every mode's short name is "p" | `short_network_type(&NetworkType::Car)` returns "p", which `get_network_type` reads as Pedestrian | "c" for Car and "b" for Bicycle, so the short name reads back as the same mode | high, not executed | NetworkType.ShortNetworkTypeAsWrittenCollapses | NetworkType.ShortNetworkTypeRoundTrip |
