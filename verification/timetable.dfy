/** The timetable index of lista1/zad1/astar.cpp: `astar_get_max_node_id` and
    `astar_construct_node_info`, which turn the flat edge list into one record
    per stop id holding that stop's outgoing groups of trips. */
module Timetable {
  import opened Common
  import opened Graph
  import opened TripOrder

  /** All trips from one stop to `destination` (`timetable_edge`). */
  datatype TimetableEdge = TimetableEdge(destination: int, times: seq<Trip>)

  /** Replaces the `single_edge*` back-pointer: trip `instance` of group
      `group` of the predecessor node. */
  datatype TripRef = TripRef(group: nat, instance: nat)

  /** Per-stop record (`node_info`): stop data plus the search fields. */
  datatype NodeInfo = NodeInfo(
    stopName: string,
    lon: real,
    lat: real,
    previousNode: int,
    previousEdge: Option<TripRef>,
    vehChangeCount: int,
    totalCost: int,
    currentCost: int,
    estimatedCost: int,
    neighbors: seq<TimetableEdge>)

  function TripOf(e: GraphEdge): Trip {
    Trip(e.departureTime, e.arrivalTime, e.line)
  }

  /** `astar_get_max_node_id`: the largest stop id mentioned, or 0. */
  function MaxNodeId(edges: seq<GraphEdge>): (m: int)
    ensures m >= 0
    ensures forall i :: 0 <= i < |edges| ==> edges[i].startStopId <= m && edges[i].endStopId <= m
    ensures |edges| == 0 ==> m == 0
    ensures m == 0 || exists i :: 0 <= i < |edges| && (edges[i].startStopId == m || edges[i].endStopId == m)
  {
    if |edges| == 0 then 0
    else
      var init := edges[..|edges| - 1];
      var last := edges[|edges| - 1];
      var prev := MaxNodeId(init);
      var here := if last.startStopId >= last.endStopId then last.startStopId else last.endStopId;
      assert forall i :: 0 <= i < |init| ==> init[i] == edges[i];
      if prev >= here then prev else here
  }

  /** Every stop id fits the table of `maxId + 1` records. */
  predicate IdsWithin(edges: seq<GraphEdge>, maxId: int) {
    forall i :: 0 <= i < |edges| ==>
      0 <= edges[i].startStopId <= maxId && 0 <= edges[i].endStopId <= maxId
  }

  /** A freshly resized record: empty name, zero coordinates and fields. */
  function BlankNode(): NodeInfo {
    NodeInfo("", 0.0, 0.0, 0, None, 0, 0, 0, 0, [])
  }

  predicate HasGroup(groups: seq<TimetableEdge>, dest: int) {
    exists i :: 0 <= i < |groups| && groups[i].destination == dest
  }

  predicate UniqueDestinations(groups: seq<TimetableEdge>) {
    forall i, j :: 0 <= i < j < |groups| ==> groups[i].destination != groups[j].destination
  }

  /** The neighbour loop of `astar_construct_node_info`: append the trip to the
      first group for `dest`, or open a new group at the end. With distinct
      destinations, exactly the group for `dest` gains the trip. */
  function AddTrip(groups: seq<TimetableEdge>, dest: int, t: Trip): (r: seq<TimetableEdge>)
    ensures |r| == |groups| + (if HasGroup(groups, dest) then 0 else 1)
    ensures forall i :: 0 <= i < |groups| ==> r[i].destination == groups[i].destination
    ensures !HasGroup(groups, dest) ==> r[|groups|] == TimetableEdge(dest, [t])
    ensures UniqueDestinations(groups) ==>
      && UniqueDestinations(r)
      && forall i :: 0 <= i < |groups| ==>
           r[i].times == if groups[i].destination == dest then groups[i].times + [t] else groups[i].times
  {
    if |groups| == 0 then [TimetableEdge(dest, [t])]
    else if groups[0].destination == dest then
      [groups[0].(times := groups[0].times + [t])] + groups[1..]
    else
      var rest := AddTrip(groups[1..], dest, t);
      assert HasGroup(groups, dest) <==> HasGroup(groups[1..], dest) by {
        if HasGroup(groups, dest) {
          var i :| 0 <= i < |groups| && groups[i].destination == dest;
          assert groups[1..][i - 1].destination == dest;
        }
      }
      [groups[0]] + rest
  }

  /** The record of stop `id` after the "first non-empty name wins" rule. */
  function Named(n: NodeInfo, name: string, lon: real, lat: real): NodeInfo {
    if n.stopName == "" then n.(stopName := name, lon := lon, lat := lat) else n
  }

  /** One iteration of the edge loop in `astar_construct_node_info`. */
  function AddEdge(nodes: seq<NodeInfo>, e: GraphEdge): (r: seq<NodeInfo>)
    requires 0 <= e.startStopId < |nodes| && 0 <= e.endStopId < |nodes|
    ensures |r| == |nodes|
  {
    var s, d := e.startStopId, e.endStopId;
    var n1 := nodes[s := Named(nodes[s], e.startStop, e.startStopLon, e.startStopLat)];
    var n2 := n1[d := Named(n1[d], e.endStop, e.endStopLon, e.endStopLat)];
    n2[s := n2[s].(neighbors := AddTrip(n2[s].neighbors, d, TripOf(e)))]
  }

  /** The edge loop: edges are folded in in input order. */
  function InsertEdges(nodes: seq<NodeInfo>, edges: seq<GraphEdge>): (r: seq<NodeInfo>)
    requires IdsWithin(edges, |nodes| - 1)
    ensures |r| == |nodes|
  {
    if |edges| == 0 then nodes
    else
      var init := edges[..|edges| - 1];
      assert forall i :: 0 <= i < |init| ==> init[i] == edges[i];
      AddEdge(InsertEdges(nodes, init), edges[|edges| - 1])
  }

  /** The final loop: search fields cleared, every group sorted. */
  function ResetNode(n: NodeInfo): NodeInfo {
    n.(totalCost := 0, currentCost := 0, estimatedCost := 0,
       previousEdge := None, previousNode := 0, vehChangeCount := 0,
       neighbors := seq(|n.neighbors|, i requires 0 <= i < |n.neighbors| =>
         n.neighbors[i].(times := SortTrips(n.neighbors[i].times))))
  }

  /** `astar_construct_node_info(node_max_id, edges)`. */
  function ConstructNodeInfo(maxId: int, edges: seq<GraphEdge>): (nodes: seq<NodeInfo>)
    requires maxId >= 0 && IdsWithin(edges, maxId)
    ensures |nodes| == maxId + 1
    ensures forall k :: 0 <= k < |nodes| ==>
      && nodes[k].totalCost == 0 && nodes[k].currentCost == 0 && nodes[k].estimatedCost == 0
      && nodes[k].previousEdge == None && nodes[k].previousNode == 0 && nodes[k].vehChangeCount == 0
  {
    var filled := InsertEdges(seq(maxId + 1, _ => BlankNode()), edges);
    seq(|filled|, i requires 0 <= i < |filled| => ResetNode(filled[i]))
  }

  /** The index the search builds: the table sized by `astar_get_max_node_id`. */
  function BuildIndex(edges: seq<GraphEdge>): (nodes: seq<NodeInfo>)
    requires forall i :: 0 <= i < |edges| ==> edges[i].startStopId >= 0 && edges[i].endStopId >= 0
    ensures |nodes| == MaxNodeId(edges) + 1
    ensures forall i :: 0 <= i < |edges| ==> edges[i].startStopId < |nodes| && edges[i].endStopId < |nodes|
    ensures forall k :: 0 <= k < |nodes| ==> nodes[k].previousEdge == None && nodes[k].totalCost == 0
  {
    ConstructNodeInfo(MaxNodeId(edges), edges)
  }
}
