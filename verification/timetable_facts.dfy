/** What `astar_construct_node_info` guarantees about the table it builds. */
module TimetableFacts {
  import opened Common
  import opened Graph
  import opened TripOrder
  import opened Timetable

  /** Reference: the trips of all edges from `s` to `d`, in input order. */
  function TripsBetween(edges: seq<GraphEdge>, s: int, d: int): seq<Trip> {
    if |edges| == 0 then []
    else
      var last := edges[|edges| - 1];
      TripsBetween(edges[..|edges| - 1], s, d)
        + (if last.startStopId == s && last.endStopId == d then [TripOf(last)] else [])
  }

  lemma TripsBetweenSnoc(edges: seq<GraphEdge>, e: GraphEdge, s: int, d: int)
    ensures TripsBetween(edges + [e], s, d) ==
      TripsBetween(edges, s, d) + (if e.startStopId == s && e.endStopId == d then [TripOf(e)] else [])
  {
    assert (edges + [e])[..|edges|] == edges;
  }

  /** Every edge's trip is among the trips between its endpoints. */
  lemma {:induction false} EdgeInTripsBetween(edges: seq<GraphEdge>, k: nat)
    requires k < |edges|
    ensures TripOf(edges[k]) in TripsBetween(edges, edges[k].startStopId, edges[k].endStopId)
  {
    if k < |edges| - 1 {
      var init := edges[..|edges| - 1];
      EdgeInTripsBetween(init, k);
      assert init[k] == edges[k];
    }
  }

  /** The groups of stop `s`, relative to the edges folded in so far: one
      group per destination reached, holding exactly the trips to it. */
  ghost predicate NodeGroupsMatch(g: seq<TimetableEdge>, edges: seq<GraphEdge>, s: int, n: int) {
    && UniqueDestinations(g)
    && (forall i :: 0 <= i < |g| ==>
          0 <= g[i].destination < n && g[i].times == TripsBetween(edges, s, g[i].destination))
    && (forall d :: HasGroup(g, d) <==> TripsBetween(edges, s, d) != [])
  }

  ghost predicate GroupsMatch(nodes: seq<NodeInfo>, edges: seq<GraphEdge>) {
    forall s :: 0 <= s < |nodes| ==> NodeGroupsMatch(nodes[s].neighbors, edges, s, |nodes|)
  }

  lemma AddEdgeNeighbors(nodes: seq<NodeInfo>, e: GraphEdge)
    requires 0 <= e.startStopId < |nodes| && 0 <= e.endStopId < |nodes|
    ensures forall s :: 0 <= s < |nodes| ==>
      AddEdge(nodes, e)[s].neighbors ==
        if s == e.startStopId then AddTrip(nodes[s].neighbors, e.endStopId, TripOf(e)) else nodes[s].neighbors
  {
  }

  /** A stop that is not the edge's start keeps matching. */
  lemma OtherStopMatches(g: seq<TimetableEdge>, edges: seq<GraphEdge>, e: GraphEdge, s: int, n: int)
    requires s != e.startStopId && NodeGroupsMatch(g, edges, s, n)
    ensures NodeGroupsMatch(g, edges + [e], s, n)
  {
    forall d ensures TripsBetween(edges + [e], s, d) == TripsBetween(edges, s, d) {
      TripsBetweenSnoc(edges, e, s, d);
    }
  }

  /** The edge's start stop matches after its trip is added. */
  lemma StartStopMatches(g: seq<TimetableEdge>, edges: seq<GraphEdge>, e: GraphEdge, n: int)
    requires 0 <= e.endStopId < n
    requires NodeGroupsMatch(g, edges, e.startStopId, n)
    ensures NodeGroupsMatch(AddTrip(g, e.endStopId, TripOf(e)), edges + [e], e.startStopId, n)
  {
    StartStopTimes(g, edges, e, n);
    StartStopGroups(g, edges, e);
  }

  lemma StartStopTimes(g: seq<TimetableEdge>, edges: seq<GraphEdge>, e: GraphEdge, n: int)
    requires 0 <= e.endStopId < n
    requires NodeGroupsMatch(g, edges, e.startStopId, n)
    ensures var r := AddTrip(g, e.endStopId, TripOf(e));
      forall i :: 0 <= i < |r| ==>
        0 <= r[i].destination < n && r[i].times == TripsBetween(edges + [e], e.startStopId, r[i].destination)
  {
    var s0, d0 := e.startStopId, e.endStopId;
    var r := AddTrip(g, d0, TripOf(e));
    forall i | 0 <= i < |r|
      ensures 0 <= r[i].destination < n && r[i].times == TripsBetween(edges + [e], s0, r[i].destination)
    {
      TripsBetweenSnoc(edges, e, s0, r[i].destination);
      if i == |g| {
        assert !HasGroup(g, d0);
        assert TripsBetween(edges, s0, d0) == [];
      }
    }
  }

  lemma StartStopGroups(g: seq<TimetableEdge>, edges: seq<GraphEdge>, e: GraphEdge)
    requires forall d :: HasGroup(g, d) <==> TripsBetween(edges, e.startStopId, d) != []
    ensures var r := AddTrip(g, e.endStopId, TripOf(e));
      forall d :: HasGroup(r, d) <==> TripsBetween(edges + [e], e.startStopId, d) != []
  {
    var s0, d0 := e.startStopId, e.endStopId;
    var r := AddTrip(g, d0, TripOf(e));
    forall d ensures HasGroup(r, d) <==> TripsBetween(edges + [e], s0, d) != [] {
      TripsBetweenSnoc(edges, e, s0, d);
      AddTripHasGroup(g, d0, TripOf(e), d);
    }
  }

  /** Filing a trip under `dest` adds `dest` to the destinations and no
      other. */
  lemma AddTripHasGroup(g: seq<TimetableEdge>, dest: int, t: Trip, d: int)
    ensures HasGroup(AddTrip(g, dest, t), d) <==> HasGroup(g, d) || d == dest
  {
    if HasGroup(AddTrip(g, dest, t), d) {
      AddTripGroupFrom(g, dest, t, d);
    }
    if HasGroup(g, d) || d == dest {
      AddTripGroupTo(g, dest, t, d);
    }
  }

  lemma AddTripGroupFrom(g: seq<TimetableEdge>, dest: int, t: Trip, d: int)
    requires HasGroup(AddTrip(g, dest, t), d)
    ensures HasGroup(g, d) || d == dest
  {
    var r := AddTrip(g, dest, t);
    var i :| 0 <= i < |r| && r[i].destination == d;
    if i < |g| {
      assert g[i].destination == d;
    }
  }

  lemma AddTripGroupTo(g: seq<TimetableEdge>, dest: int, t: Trip, d: int)
    requires HasGroup(g, d) || d == dest
    ensures HasGroup(AddTrip(g, dest, t), d)
  {
    var r := AddTrip(g, dest, t);
    if HasGroup(g, d) {
      var i :| 0 <= i < |g| && g[i].destination == d;
      assert r[i].destination == d;
    } else {
      assert r[|g|].destination == d;
    }
  }

  lemma AddEdgeGroups(nodes: seq<NodeInfo>, edges: seq<GraphEdge>, e: GraphEdge)
    requires 0 <= e.startStopId < |nodes| && 0 <= e.endStopId < |nodes|
    requires GroupsMatch(nodes, edges)
    ensures GroupsMatch(AddEdge(nodes, e), edges + [e])
  {
    var r := AddEdge(nodes, e);
    AddEdgeNeighbors(nodes, e);
    forall s | 0 <= s < |r| ensures NodeGroupsMatch(r[s].neighbors, edges + [e], s, |r|) {
      if s == e.startStopId {
        StartStopMatches(nodes[s].neighbors, edges, e, |nodes|);
      } else {
        OtherStopMatches(nodes[s].neighbors, edges, e, s, |nodes|);
      }
    }
  }

  lemma {:induction false} InsertEdgesGroups(nodes: seq<NodeInfo>, edges: seq<GraphEdge>)
    requires IdsWithin(edges, |nodes| - 1)
    requires forall s :: 0 <= s < |nodes| ==> nodes[s].neighbors == []
    ensures GroupsMatch(InsertEdges(nodes, edges), edges)
  {
    if |edges| == 0 {
      forall s | 0 <= s < |nodes| ensures NodeGroupsMatch(nodes[s].neighbors, edges, s, |nodes|) {
        forall d ensures !HasGroup(nodes[s].neighbors, d) && TripsBetween(edges, s, d) == [] { }
      }
    } else {
      var init := edges[..|edges| - 1];
      var last := edges[|edges| - 1];
      assert init + [last] == edges;
      assert IdsWithin(init, |nodes| - 1) by {
        forall i | 0 <= i < |init| ensures init[i] == edges[i] { }
      }
      InsertEdgesGroups(nodes, init);
      var before := InsertEdges(nodes, init);
      assert InsertEdges(nodes, edges) == AddEdge(before, last);
      AddEdgeGroups(before, init, last);
    }
  }

  /** The groups of the finished table: one per destination reached, each
      destination a valid stop, each group sorted and holding exactly the
      trips of the edges between its two stops. */
  lemma IndexGroups(maxId: int, edges: seq<GraphEdge>)
    requires maxId >= 0 && IdsWithin(edges, maxId)
    ensures var nodes := ConstructNodeInfo(maxId, edges);
      forall s :: 0 <= s < |nodes| ==>
        var g := nodes[s].neighbors;
        && UniqueDestinations(g)
        && (forall d :: HasGroup(g, d) <==> TripsBetween(edges, s, d) != [])
        && (forall i :: 0 <= i < |g| ==>
              && 0 <= g[i].destination <= maxId
              && Sorted(g[i].times)
              && multiset(g[i].times) == multiset(TripsBetween(edges, s, g[i].destination)))
  {
    var blank := seq(maxId + 1, _ => BlankNode());
    InsertEdgesGroups(blank, edges);
    var filled := InsertEdges(blank, edges);
    var nodes := ConstructNodeInfo(maxId, edges);
    forall s | 0 <= s < |nodes|
      ensures var g := nodes[s].neighbors;
        && UniqueDestinations(g)
        && (forall d :: HasGroup(g, d) <==> TripsBetween(edges, s, d) != [])
        && (forall i :: 0 <= i < |g| ==>
              && 0 <= g[i].destination <= maxId
              && Sorted(g[i].times)
              && multiset(g[i].times) == multiset(TripsBetween(edges, s, g[i].destination)))
    {
      SortedGroups(filled[s].neighbors, nodes[s].neighbors, edges, s, maxId);
    }
  }

  /** Sorting each group's trips keeps the destinations and the trip
      multisets of the unsorted table. */
  lemma SortedGroups(g0: seq<TimetableEdge>, g: seq<TimetableEdge>, edges: seq<GraphEdge>, s: int, maxId: int)
    requires NodeGroupsMatch(g0, edges, s, maxId + 1)
    requires |g| == |g0| && forall i :: 0 <= i < |g| ==>
      g[i].destination == g0[i].destination && g[i].times == SortTrips(g0[i].times)
    ensures UniqueDestinations(g)
    ensures forall d :: HasGroup(g, d) <==> TripsBetween(edges, s, d) != []
    ensures forall i :: 0 <= i < |g| ==>
      && 0 <= g[i].destination <= maxId
      && Sorted(g[i].times)
      && multiset(g[i].times) == multiset(TripsBetween(edges, s, g[i].destination))
  {
    forall d ensures HasGroup(g, d) <==> HasGroup(g0, d) {
      if HasGroup(g, d) {
        var i :| 0 <= i < |g| && g[i].destination == d;
        assert g0[i].destination == d;
      }
      if HasGroup(g0, d) {
        var i :| 0 <= i < |g0| && g0[i].destination == d;
        assert g[i].destination == d;
      }
    }
  }

  /** Every input edge is filed under its start stop, in the single group for
      its end stop. */
  lemma EdgeIndexed(maxId: int, edges: seq<GraphEdge>, k: nat)
    requires maxId >= 0 && IdsWithin(edges, maxId) && k < |edges|
    ensures var g := ConstructNodeInfo(maxId, edges)[edges[k].startStopId].neighbors;
      && (exists i :: 0 <= i < |g| && g[i].destination == edges[k].endStopId && TripOf(edges[k]) in g[i].times)
      && (forall i, j ::
            0 <= i < |g| && 0 <= j < |g| && g[i].destination == edges[k].endStopId && g[j].destination == edges[k].endStopId
            ==> i == j)
  {
    var e := edges[k];
    var g := ConstructNodeInfo(maxId, edges)[e.startStopId].neighbors;
    IndexGroups(maxId, edges);
    EdgeInTripsBetween(edges, k);
    assert HasGroup(g, e.endStopId);
    var i :| 0 <= i < |g| && g[i].destination == e.endStopId;
    assert TripOf(e) in multiset(g[i].times);
  }

  // ---------------------------------------------------------------------
  // Counting trips

  function GroupTrips(g: seq<TimetableEdge>): nat {
    if |g| == 0 then 0 else |g[0].times| + GroupTrips(g[1..])
  }

  /** Number of trips held in the whole table. */
  function TotalTrips(nodes: seq<NodeInfo>): nat {
    if |nodes| == 0 then 0 else GroupTrips(nodes[0].neighbors) + TotalTrips(nodes[1..])
  }

  lemma {:induction false} AddTripCount(g: seq<TimetableEdge>, d: int, t: Trip)
    ensures GroupTrips(AddTrip(g, d, t)) == GroupTrips(g) + 1
  {
    if |g| > 0 {
      if g[0].destination == d {
        var r := AddTrip(g, d, t);
        assert r[1..] == g[1..];
      } else {
        AddTripCount(g[1..], d, t);
        assert AddTrip(g, d, t)[1..] == AddTrip(g[1..], d, t);
      }
    }
  }

  lemma {:induction false} SameGroupSizes(a: seq<TimetableEdge>, b: seq<TimetableEdge>)
    requires |a| == |b| && forall i :: 0 <= i < |a| ==> |a[i].times| == |b[i].times|
    ensures GroupTrips(a) == GroupTrips(b)
  {
    if |a| > 0 {
      SameGroupSizes(a[1..], b[1..]);
    }
  }

  lemma {:induction false} SameNodeSizes(a: seq<NodeInfo>, b: seq<NodeInfo>)
    requires |a| == |b| && forall i :: 0 <= i < |a| ==> GroupTrips(a[i].neighbors) == GroupTrips(b[i].neighbors)
    ensures TotalTrips(a) == TotalTrips(b)
  {
    if |a| > 0 {
      SameNodeSizes(a[1..], b[1..]);
    }
  }

  lemma {:induction false} TotalTripsUpdate(nodes: seq<NodeInfo>, k: nat, x: NodeInfo)
    requires k < |nodes|
    ensures TotalTrips(nodes[k := x]) + GroupTrips(nodes[k].neighbors) == TotalTrips(nodes) + GroupTrips(x.neighbors)
  {
    if k > 0 {
      TotalTripsUpdate(nodes[1..], k - 1, x);
      assert nodes[k := x][1..] == nodes[1..][k - 1 := x];
    } else {
      assert nodes[k := x][1..] == nodes[1..];
    }
  }

  lemma AddEdgeCount(nodes: seq<NodeInfo>, e: GraphEdge)
    requires 0 <= e.startStopId < |nodes| && 0 <= e.endStopId < |nodes|
    ensures TotalTrips(AddEdge(nodes, e)) == TotalTrips(nodes) + 1
  {
    var s, d := e.startStopId, e.endStopId;
    var x := nodes[s].(neighbors := AddTrip(nodes[s].neighbors, d, TripOf(e)));
    AddEdgeNeighbors(nodes, e);
    SameNodeSizes(AddEdge(nodes, e), nodes[s := x]);
    TotalTripsUpdate(nodes, s, x);
    AddTripCount(nodes[s].neighbors, d, TripOf(e));
  }

  lemma {:induction false} InsertEdgesCount(nodes: seq<NodeInfo>, edges: seq<GraphEdge>)
    requires IdsWithin(edges, |nodes| - 1)
    ensures TotalTrips(InsertEdges(nodes, edges)) == TotalTrips(nodes) + |edges|
  {
    if |edges| > 0 {
      var init := edges[..|edges| - 1];
      assert IdsWithin(init, |nodes| - 1) by {
        forall i | 0 <= i < |init| ensures init[i] == edges[i] { }
      }
      InsertEdgesCount(nodes, init);
      AddEdgeCount(InsertEdges(nodes, init), edges[|edges| - 1]);
    }
  }

  lemma {:induction false} BlankCount(nodes: seq<NodeInfo>)
    requires forall i :: 0 <= i < |nodes| ==> nodes[i].neighbors == []
    ensures TotalTrips(nodes) == 0
  {
    if |nodes| > 0 {
      BlankCount(nodes[1..]);
    }
  }

  /** No trip is lost or invented: the table holds one trip per input edge. */
  lemma TripCount(maxId: int, edges: seq<GraphEdge>)
    requires maxId >= 0 && IdsWithin(edges, maxId)
    ensures TotalTrips(ConstructNodeInfo(maxId, edges)) == |edges|
  {
    var blank := seq(maxId + 1, _ => BlankNode());
    BlankCount(blank);
    InsertEdgesCount(blank, edges);
    var filled := InsertEdges(blank, edges);
    var nodes := ConstructNodeInfo(maxId, edges);
    forall i | 0 <= i < |nodes| ensures GroupTrips(nodes[i].neighbors) == GroupTrips(filled[i].neighbors) {
      var a, b := nodes[i].neighbors, filled[i].neighbors;
      forall j | 0 <= j < |a| ensures |a[j].times| == |b[j].times| {
        assert a[j].times == SortTrips(b[j].times);
        assert |multiset(a[j].times)| == |multiset(b[j].times)|;
      }
      SameGroupSizes(a, b);
    }
    SameNodeSizes(nodes, filled);
  }

  // ---------------------------------------------------------------------
  // Stop names and coordinates

  /** One mention of a stop by an edge, with the data the edge carries for it. */
  datatype Mention = Mention(id: int, name: string, lon: real, lat: real)

  /** Mentions in the order the construction loop reads them: each edge's
      start stop, then its end stop. */
  function Mentions(edges: seq<GraphEdge>): seq<Mention> {
    if |edges| == 0 then []
    else
      var e := edges[|edges| - 1];
      Mentions(edges[..|edges| - 1])
        + [Mention(e.startStopId, e.startStop, e.startStopLon, e.startStopLat),
           Mention(e.endStopId, e.endStop, e.endStopLon, e.endStopLat)]
  }

  predicate NamedMention(m: Mention, k: int) {
    m.id == k && m.name != ""
  }

  /** Reference: the first mention of stop k, at or after `from`, that carries
      a non-empty name. */
  function FirstNamed(ms: seq<Mention>, k: int, from: nat): (r: Option<nat>)
    requires from <= |ms|
    ensures r.Some? ==>
      && from <= r.value < |ms| && NamedMention(ms[r.value], k)
      && forall l :: from <= l < r.value ==> !NamedMention(ms[l], k)
    ensures r.None? ==> forall l :: from <= l < |ms| ==> !NamedMention(ms[l], k)
    decreases |ms| - from
  {
    if from == |ms| then None
    else if NamedMention(ms[from], k) then Some(from)
    else FirstNamed(ms, k, from + 1)
  }

  lemma {:induction false} FirstNamedSnoc(ms: seq<Mention>, m: Mention, k: int, from: nat)
    requires from <= |ms|
    ensures FirstNamed(ms + [m], k, from) ==
      if FirstNamed(ms, k, from).Some? then FirstNamed(ms, k, from)
      else if NamedMention(m, k) then Some(|ms|) else None
    decreases |ms| - from
  {
    if from < |ms| {
      assert (ms + [m])[from] == ms[from];
      FirstNamedSnoc(ms, m, k, from + 1);
    } else {
      assert (ms + [m])[from] == m;
    }
  }

  /** Name and coordinates of every record agree with its first named mention. */
  ghost predicate NamesMatch(nodes: seq<NodeInfo>, ms: seq<Mention>) {
    forall k :: 0 <= k < |nodes| ==>
      match FirstNamed(ms, k, 0)
      case Some(j) => nodes[k].stopName == ms[j].name && nodes[k].lon == ms[j].lon && nodes[k].lat == ms[j].lat
      case None => nodes[k].stopName == ""
  }

  lemma NamedStep(nodes: seq<NodeInfo>, ms: seq<Mention>, m: Mention)
    requires 0 <= m.id < |nodes| && NamesMatch(nodes, ms)
    ensures NamesMatch(nodes[m.id := Named(nodes[m.id], m.name, m.lon, m.lat)], ms + [m])
  {
    forall k | 0 <= k < |nodes| {
      FirstNamedSnoc(ms, m, k, 0);
    }
  }

  lemma AddEdgeNames(nodes: seq<NodeInfo>, ms: seq<Mention>, e: GraphEdge)
    requires 0 <= e.startStopId < |nodes| && 0 <= e.endStopId < |nodes|
    requires NamesMatch(nodes, ms)
    ensures NamesMatch(AddEdge(nodes, e), ms + [Mention(e.startStopId, e.startStop, e.startStopLon, e.startStopLat),
                                                Mention(e.endStopId, e.endStop, e.endStopLon, e.endStopLat)])
  {
    var ms1 := Mention(e.startStopId, e.startStop, e.startStopLon, e.startStopLat);
    var ms2 := Mention(e.endStopId, e.endStop, e.endStopLon, e.endStopLat);
    var s, d := e.startStopId, e.endStopId;
    var n1 := nodes[s := Named(nodes[s], e.startStop, e.startStopLon, e.startStopLat)];
    var n2 := n1[d := Named(n1[d], e.endStop, e.endStopLon, e.endStopLat)];
    NamedStep(nodes, ms, ms1);
    NamedStep(n1, ms + [ms1], ms2);
    assert ms + [ms1] + [ms2] == ms + [ms1, ms2];
    var r := AddEdge(nodes, e);
    assert forall k :: 0 <= k < |r| ==>
      r[k].stopName == n2[k].stopName && r[k].lon == n2[k].lon && r[k].lat == n2[k].lat;
  }

  lemma {:induction false} InsertEdgesNames(nodes: seq<NodeInfo>, edges: seq<GraphEdge>)
    requires IdsWithin(edges, |nodes| - 1)
    requires forall k :: 0 <= k < |nodes| ==> nodes[k].stopName == ""
    ensures NamesMatch(InsertEdges(nodes, edges), Mentions(edges))
  {
    if |edges| > 0 {
      var init := edges[..|edges| - 1];
      assert IdsWithin(init, |nodes| - 1) by {
        forall i | 0 <= i < |init| ensures init[i] == edges[i] { }
      }
      InsertEdgesNames(nodes, init);
      AddEdgeNames(InsertEdges(nodes, init), Mentions(init), edges[|edges| - 1]);
    }
  }

  /** A stop's name and coordinates come from the first edge that names it;
      later edges never overwrite them. A stop no edge names keeps the empty
      name. */
  lemma StopInfoFromFirstMention(maxId: int, edges: seq<GraphEdge>, k: int)
    requires maxId >= 0 && IdsWithin(edges, maxId) && 0 <= k <= maxId
    ensures var n, ms := ConstructNodeInfo(maxId, edges)[k], Mentions(edges);
      match FirstNamed(ms, k, 0)
      case Some(j) => n.stopName == ms[j].name && n.lon == ms[j].lon && n.lat == ms[j].lat
      case None => n.stopName == ""
  {
    var blank := seq(maxId + 1, _ => BlankNode());
    InsertEdgesNames(blank, edges);
  }
}
