/** The expansion step of `astar_compute` (lista1/zad1/astar.cpp): the start
    node's initialisation, and the relaxation of every group of trips leaving
    the node taken from the frontier. The priority queue's order is not
    modelled: a step may expand any node of the table. */
module Search {
  import opened Common
  import opened Graph
  import opened TripOrder
  import opened Timetable
  import opened TimetableFacts
  import opened Travel

  /** The node table with the open and closed sets. */
  datatype SearchState = SearchState(nodes: seq<NodeInfo>, open: set<int>, closed: set<int>)

  /** Every group leads to a stop of the table. */
  predicate DestinationsInRange(nodes: seq<NodeInfo>) {
    forall v, g :: 0 <= v < |nodes| && 0 <= g < |nodes[v].neighbors| ==>
      0 <= nodes[v].neighbors[g].destination < |nodes|
  }

  /** The back-pointer of v names a trip of a group of its predecessor that
      leads to v. */
  predicate RefValid(nodes: seq<NodeInfo>, v: int)
    requires 0 <= v < |nodes|
  {
    match nodes[v].previousEdge
    case None => true
    case Some(ref) =>
      var u := nodes[v].previousNode;
      && 0 <= u < |nodes|
      && ref.group < |nodes[u].neighbors|
      && nodes[u].neighbors[ref.group].destination == v
      && ref.instance < |nodes[u].neighbors[ref.group].times|
  }

  predicate WellFormed(nodes: seq<NodeInfo>) {
    DestinationsInRange(nodes) && forall v :: 0 <= v < |nodes| ==> RefValid(nodes, v)
  }

  /** The search invariant: a well-formed table, disjoint frontier sets inside
      it, and only discovered nodes carry a back-pointer. */
  predicate Consistent(st: SearchState) {
    && WellFormed(st.nodes)
    && st.open * st.closed == {}
    && (forall v :: v in st.open + st.closed ==> 0 <= v < |st.nodes|)
    && (forall v :: 0 <= v < |st.nodes| && st.nodes[v].previousEdge.Some? ==> v in st.open + st.closed)
  }

  /** The trip a node was reached by, following its back-pointer. */
  function PrevTrip(nodes: seq<NodeInfo>, v: int): (t: Option<Trip>)
    requires WellFormed(nodes) && 0 <= v < |nodes|
    ensures t.Some? <==> nodes[v].previousEdge.Some?
  {
    assert RefValid(nodes, v);
    match nodes[v].previousEdge
    case None => None
    case Some(ref) => Some(nodes[nodes[v].previousNode].neighbors[ref.group].times[ref.instance])
  }

  /** The line the traveller is on at v: the back-pointer trip's, or "". */
  function CurrentLine(nodes: seq<NodeInfo>, v: int): string
    requires WellFormed(nodes) && 0 <= v < |nodes|
  {
    match PrevTrip(nodes, v)
    case Some(t) => t.line
    case None => ""
  }

  /** The time the traveller is at v: the back-pointer trip's arrival, or the
      node's own cost when it has none. */
  function CurrentTime(nodes: seq<NodeInfo>, v: int): int
    requires WellFormed(nodes) && 0 <= v < |nodes|
  {
    match PrevTrip(nodes, v)
    case Some(t) => t.arrival
    case None => nodes[v].currentCost
  }

  /** What travelling along group gi of u costs. */
  function Offer(nodes: seq<NodeInfo>, u: int, gi: nat): Cost
    requires WellFormed(nodes) && 0 <= u < |nodes| && gi < |nodes[u].neighbors|
  {
    TravelCost(CurrentTime(nodes, u), nodes[u].vehChangeCount, nodes[u].neighbors[gi].times, CurrentLine(nodes, u))
  }

  /** Relaxation replaces only the search fields. */
  predicate SameGraph(a: seq<NodeInfo>, b: seq<NodeInfo>) {
    && |a| == |b|
    && forall v :: 0 <= v < |a| ==>
         a[v].neighbors == b[v].neighbors && a[v].stopName == b[v].stopName
         && a[v].lon == b[v].lon && a[v].lat == b[v].lat
  }

  lemma SameGraphTrans(a: seq<NodeInfo>, b: seq<NodeInfo>, c: seq<NodeInfo>)
    requires SameGraph(a, b) && SameGraph(b, c)
    ensures SameGraph(a, c)
  {
  }

  function Discovered(st: SearchState): set<int> {
    st.open + st.closed
  }

  /** r follows a from st touching only the nodes of t: the invariant holds,
      the graph and every record outside t are unchanged, t joins the
      discovered nodes, the open set gains and the closed set loses only nodes
      of t, and no discovered node's cost increases. */
  predicate Grows(st: SearchState, r: SearchState, t: set<int>) {
    && Consistent(r) && SameGraph(st.nodes, r.nodes)
    && Discovered(r) == Discovered(st) + t
    && st.open <= r.open <= st.open + t
    && st.closed - t <= r.closed <= st.closed
    && (forall w :: 0 <= w < |st.nodes| && w !in t ==> r.nodes[w] == st.nodes[w])
    && (forall w :: w in Discovered(st) && 0 <= w < |st.nodes| ==> r.nodes[w].currentCost <= st.nodes[w].currentCost)
  }

  lemma GrowsTrans(a: SearchState, b: SearchState, c: SearchState, t1: set<int>, t2: set<int>)
    requires Grows(a, b, t1) && Grows(b, c, t2)
    ensures Grows(a, c, t1 + t2)
  {
  }

  /** The destination's record after adopting the offer of group gi of u with
      estimate est. */
  function Adopt(nodes: seq<NodeInfo>, u: int, gi: nat, est: int): NodeInfo
    requires WellFormed(nodes) && 0 <= u < |nodes| && gi < |nodes[u].neighbors|
  {
    var v := nodes[u].neighbors[gi].destination;
    var c := Offer(nodes, u, gi);
    var ref := match c.trip case Some(i) => Some(TripRef(gi, i)) case None => None;
    nodes[v].(estimatedCost := est, currentCost := c.cost, totalCost := est + c.cost,
              previousNode := u, previousEdge := ref,
              vehChangeCount := nodes[u].vehChangeCount + (if c.changed then 1 else 0))
  }

  /** Adopting an offer keeps the table well formed and points v at the chosen
      trip. */
  lemma AdoptWellFormed(nodes: seq<NodeInfo>, u: int, gi: nat, est: int)
    requires WellFormed(nodes) && 0 <= u < |nodes| && gi < |nodes[u].neighbors|
    ensures var v := nodes[u].neighbors[gi].destination;
      var r := nodes[v := Adopt(nodes, u, gi, est)];
      && WellFormed(r) && SameGraph(nodes, r)
      && PrevTrip(r, v) == (match Offer(nodes, u, gi).trip
                             case Some(i) => Some(nodes[u].neighbors[gi].times[i])
                             case None => None)
  {
    var v := nodes[u].neighbors[gi].destination;
    var r := nodes[v := Adopt(nodes, u, gi, est)];
    assert RefValid(r, v);
    forall w | 0 <= w < |r| ensures RefValid(r, w) {
      if w != v {
        assert RefValid(nodes, w) && r[w] == nodes[w];
      }
    }
  }

  /** The body of the neighbour loop of `astar_compute` for group gi of u. An
      undiscovered destination is given the heuristic estimate h and opened;
      a discovered one is updated only when the offer is strictly cheaper, and
      reopened when it was closed. An update records u, the chosen trip, the
      offered cost and the predecessor's change count plus the change flag. */
  function Relax(st: SearchState, u: int, gi: nat, h: int -> int): (r: SearchState)
    requires Consistent(st) && 0 <= u < |st.nodes| && gi < |st.nodes[u].neighbors|
    ensures Grows(st, r, {st.nodes[u].neighbors[gi].destination})
    ensures var v := st.nodes[u].neighbors[gi].destination;
      var c := Offer(st.nodes, u, gi);
      var improves := v !in Discovered(st) || st.nodes[v].currentCost > c.cost;
      && (!improves ==> r == st)
      && (improves ==>
            && r.open == st.open + {v} && r.closed == st.closed - {v}
            && r.nodes[v].currentCost == c.cost
            && r.nodes[v].estimatedCost == (if v in Discovered(st) then st.nodes[v].estimatedCost else h(v))
            && r.nodes[v].totalCost == r.nodes[v].estimatedCost + c.cost
            && r.nodes[v].previousNode == u
            && r.nodes[v].vehChangeCount == st.nodes[u].vehChangeCount + (if c.changed then 1 else 0)
            && PrevTrip(r.nodes, v) == (match c.trip
                                         case Some(i) => Some(st.nodes[u].neighbors[gi].times[i])
                                         case None => None))
  {
    var nodes := st.nodes;
    var v := nodes[u].neighbors[gi].destination;
    assert 0 <= v < |nodes|;
    if v !in st.open && v !in st.closed then
      AdoptGrows(st, u, gi, h(v));
      SearchState(nodes[v := Adopt(nodes, u, gi, h(v))], st.open + {v}, st.closed - {v})
    else if nodes[v].currentCost > Offer(nodes, u, gi).cost then
      AdoptGrows(st, u, gi, nodes[v].estimatedCost);
      SearchState(nodes[v := Adopt(nodes, u, gi, nodes[v].estimatedCost)], st.open + {v}, st.closed - {v})
    else
      st
  }

  /** Adopting an offer that beats v's cost, or discovers v, opens v with the
      offer's cost and trip and changes nothing else. */
  lemma AdoptGrows(st: SearchState, u: int, gi: nat, est: int)
    requires Consistent(st) && 0 <= u < |st.nodes| && gi < |st.nodes[u].neighbors|
    requires var v := st.nodes[u].neighbors[gi].destination;
      v in Discovered(st) ==> 0 <= v < |st.nodes| && st.nodes[v].currentCost > Offer(st.nodes, u, gi).cost
    ensures var v := st.nodes[u].neighbors[gi].destination;
      var c := Offer(st.nodes, u, gi);
      var r := SearchState(st.nodes[v := Adopt(st.nodes, u, gi, est)], st.open + {v}, st.closed - {v});
      && Grows(st, r, {v})
      && r.nodes[v].currentCost == c.cost
      && r.nodes[v].estimatedCost == est
      && r.nodes[v].totalCost == est + c.cost
      && r.nodes[v].previousNode == u
      && r.nodes[v].vehChangeCount == st.nodes[u].vehChangeCount + (if c.changed then 1 else 0)
      && PrevTrip(r.nodes, v) == (match c.trip
                                   case Some(i) => Some(st.nodes[u].neighbors[gi].times[i])
                                   case None => None)
  {
    var v := st.nodes[u].neighbors[gi].destination;
    AdoptWellFormed(st.nodes, u, gi, est);
    var r := SearchState(st.nodes[v := Adopt(st.nodes, u, gi, est)], st.open + {v}, st.closed - {v});
    assert Discovered(r) == Discovered(st) + {v};
  }

  /** The destinations of the groups of u from index gi on. */
  function Targets(groups: seq<TimetableEdge>, gi: nat): set<int> {
    set g | gi <= g < |groups| :: groups[g].destination
  }

  lemma TargetsSplit(groups: seq<TimetableEdge>, gi: nat)
    requires gi < |groups|
    ensures Targets(groups, gi) == {groups[gi].destination} + Targets(groups, gi + 1)
  {
    forall x | x in Targets(groups, gi) ensures x in {groups[gi].destination} + Targets(groups, gi + 1) {
      var g :| gi <= g < |groups| && groups[g].destination == x;
      if g > gi {
        assert x in Targets(groups, gi + 1);
      }
    }
  }

  /** The neighbour loop from group gi on: every destination ends up
      discovered, only destinations change, the open set only grows, the closed
      set only shrinks, and no discovered cost increases. */
  function ExpandFrom(st: SearchState, u: int, gi: nat, h: int -> int): (r: SearchState)
    requires Consistent(st) && 0 <= u < |st.nodes| && gi <= |st.nodes[u].neighbors|
    ensures Grows(st, r, Targets(st.nodes[u].neighbors, gi))
    decreases |st.nodes[u].neighbors| - gi
  {
    var groups := st.nodes[u].neighbors;
    if gi == |groups| then
      assert Targets(groups, gi) == {};
      st
    else
      var next := Relax(st, u, gi, h);
      var r := ExpandFrom(next, u, gi + 1, h);
      assert next.nodes[u].neighbors == groups;
      GrowsTrans(st, next, r, {groups[gi].destination}, Targets(groups, gi + 1));
      TargetsSplit(groups, gi);
      r
  }

  /** One iteration of the main loop on the popped node u: u leaves the open
      set and is closed, then every group leaving u is relaxed. Afterwards u
      and all its destinations are discovered, u stays closed unless one of its
      own groups reopened it, and nothing outside those destinations changes. */
  function Step(st: SearchState, u: int, h: int -> int): (r: SearchState)
    requires Consistent(st) && 0 <= u < |st.nodes|
    ensures Consistent(r) && SameGraph(st.nodes, r.nodes)
    ensures Discovered(r) == Discovered(st) + {u} + Targets(st.nodes[u].neighbors, 0)
    ensures u !in Targets(st.nodes[u].neighbors, 0) ==> u in r.closed && u !in r.open
    ensures forall w :: 0 <= w < |st.nodes| && w !in Targets(st.nodes[u].neighbors, 0) ==> r.nodes[w] == st.nodes[w]
    ensures forall w :: w in Discovered(st) && 0 <= w < |st.nodes| ==> r.nodes[w].currentCost <= st.nodes[w].currentCost
  {
    var popped := SearchState(st.nodes, st.open - {u}, st.closed + {u});
    assert Discovered(popped) == Discovered(st) + {u};
    ExpandFrom(popped, u, 0, h)
  }

  /** b is a later state of the same search as a: the invariant holds, the
      graph is the same, nothing discovered is forgotten and no discovered
      cost rises. */
  predicate Advances(a: SearchState, b: SearchState) {
    && Consistent(b) && SameGraph(a.nodes, b.nodes)
    && Discovered(a) <= Discovered(b)
    && forall w :: w in Discovered(a) && 0 <= w < |a.nodes| ==> b.nodes[w].currentCost <= a.nodes[w].currentCost
  }

  lemma AdvancesTrans(a: SearchState, b: SearchState, c: SearchState)
    requires Advances(a, b) && Advances(b, c)
    ensures Advances(a, c)
  {
    SameGraphTrans(a.nodes, b.nodes, c.nodes);
  }

  /** A sequence of pops. */
  function Run(st: SearchState, pops: seq<int>, h: int -> int): (r: SearchState)
    requires Consistent(st) && forall i :: 0 <= i < |pops| ==> 0 <= pops[i] < |st.nodes|
    ensures Advances(st, r)
    decreases |pops|
  {
    if |pops| == 0 then st
    else
      var next := Step(st, pops[0], h);
      assert Advances(st, next);
      var r := Run(next, pops[1..], h);
      AdvancesTrans(st, next, r);
      r
  }

  /** The constructed table is well formed and carries no back-pointers. */
  lemma IndexWellFormed(maxId: int, edges: seq<GraphEdge>)
    requires maxId >= 0 && IdsWithin(edges, maxId)
    ensures var nodes := ConstructNodeInfo(maxId, edges);
      && WellFormed(nodes)
      && forall v :: 0 <= v < |nodes| ==> nodes[v].previousEdge.None?
  {
    IndexGroups(maxId, edges);
  }

  /** The set-up of `astar_compute`: the table is sized by the largest id,
      and the start stop is at the start time with a zero estimate and is
      the only open node. */
  function Start(maxId: int, edges: seq<GraphEdge>, start: int, startTime: int): (r: SearchState)
    requires maxId == MaxNodeId(edges) && IdsWithin(edges, maxId) && 0 <= start <= maxId
    ensures Consistent(r) && |r.nodes| == maxId + 1
    ensures r.open == {start} && r.closed == {}
    ensures CurrentTime(r.nodes, start) == startTime && r.nodes[start].totalCost == startTime
    ensures forall v :: 0 <= v < |r.nodes| ==> r.nodes[v].previousEdge.None?
    ensures SameGraph(ConstructNodeInfo(maxId, edges), r.nodes)
    ensures r.nodes[start].estimatedCost == 0
    ensures r.nodes[start] == ConstructNodeInfo(maxId, edges)[start].(currentCost := startTime, estimatedCost := 0, totalCost := startTime)
    ensures forall v :: 0 <= v < |r.nodes| && v != start ==> r.nodes[v] == ConstructNodeInfo(maxId, edges)[v]
  {
    var nodes := ConstructNodeInfo(maxId, edges);
    IndexWellFormed(maxId, edges);
    var n := nodes[start].(currentCost := startTime, estimatedCost := 0, totalCost := startTime + 0);
    var r := SearchState(nodes[start := n], {start}, {});
    assert forall v :: 0 <= v < |r.nodes| ==> r.nodes[v].neighbors == nodes[v].neighbors && r.nodes[v].previousEdge.None?;
    r
  }
}
