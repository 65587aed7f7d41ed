/** `astar_travel_cost` (lista1/zad1/astar.cpp): the cost of moving along one
    group of trips from the node being expanded. */
module Travel {
  import opened Common
  import opened TripOrder

  /** The day-length penalty used when no trip is left. */
  const DaySeconds: int := 24 * 60 * 60

  /** (new path cost, chosen trip's index in the group, whether the line changed). */
  datatype Cost = Cost(cost: int, trip: Option<nat>, changed: bool)

  /** `(low + high) / 2` on non-negative indices: inside a non-empty window. */
  function Midpoint(lo: nat, hi: nat): (c: nat)
    requires lo < hi
    ensures lo <= c < hi
  {
    (lo + hi) / 2
  }

  /** The bisection in `astar_travel_cost` for the first trip leaving at or
      after t, from the window [lo, hi). */
  function LowerBound(times: seq<Trip>, t: int, lo: nat, hi: nat): (k: nat)
    requires lo <= hi <= |times|
    requires lo == 0 || times[lo - 1].departure < t
    requires hi == |times| || times[hi].departure >= t
    ensures lo <= k <= hi
    ensures k == 0 || times[k - 1].departure < t
    ensures k == |times| || times[k].departure >= t
    decreases hi - lo
  {
    if lo < hi then
      var center := Midpoint(lo, hi);
      if times[center].departure < t then LowerBound(times, t, center + 1, hi)
      else LowerBound(times, t, lo, center)
    else hi
  }

  /** The index the search settles on. On a group sorted by departure it is the
      least index whose departure is at or after t: every earlier trip leaves
      strictly earlier and every later one no earlier. */
  function EarliestBoardable(times: seq<Trip>, t: int): (k: nat)
    ensures k <= |times|
    ensures DeparturesSorted(times) ==>
      && (forall j :: 0 <= j < k ==> times[j].departure < t)
      && (forall j :: k <= j < |times| ==> times[j].departure >= t)
  {
    LowerBound(times, t, 0, |times|)
  }

  predicate DeparturesSorted(times: seq<Trip>) {
    forall i, j :: 0 <= i <= j < |times| ==> times[i].departure <= times[j].departure
  }

  predicate SameSlot(a: Trip, b: Trip) {
    a.departure == b.departure && a.arrival == b.arrival
  }

  /** m lies in the contiguous run of trips with the same (departure, arrival)
      that starts at k. */
  predicate InRun(times: seq<Trip>, k: nat, m: nat) {
    k <= m < |times| && forall l :: k <= l <= m ==> SameSlot(times[l], times[k])
  }

  /** The forward scan in `astar_travel_cost` over the trips sharing the found
      trip's departure and arrival: the first one of the run on `line`. */
  function SameLineScan(times: seq<Trip>, k: nat, i: nat, line: string): (r: Option<nat>)
    requires k < i <= |times| && InRun(times, k, i - 1)
    ensures r.Some? ==> InRun(times, k, r.value) && i <= r.value && times[r.value].line == line
    ensures r.Some? ==> forall m :: i <= m < r.value ==> times[m].line != line
    ensures r.None? ==> forall m: nat :: i <= m && InRun(times, k, m) ==> times[m].line != line
    decreases |times| - i
  {
    if i == |times| then None
    else if times[i].departure != times[k].departure || times[i].arrival != times[k].arrival then
      None
    else if times[i].line == line then Some(i)
    else SameLineScan(times, k, i + 1, line)
  }

  /** `astar_travel_cost` for a traveller at time t on `line` with `changes`
      vehicle changes so far. The cost is always the arrival of the earliest
      boardable trip plus the change count, plus one when the line changes; a
      trip of the same run on the current line is preferred and avoids the
      change; with no trip left the cost is t plus one day. */
  function TravelCost(t: int, changes: int, times: seq<Trip>, line: string): (r: Cost)
    ensures var k := EarliestBoardable(times, t);
      && (k == |times| <==> r.trip.None?)
      && (k == |times| ==> r == Cost(t + DaySeconds, None, false))
      && (k < |times| ==>
            && InRun(times, k, r.trip.value)
            && times[r.trip.value].departure >= t
            && r.cost == times[k].arrival + changes + (if r.changed then 1 else 0)
            && (r.changed <==> forall m: nat :: InRun(times, k, m) ==> times[m].line != line)
            && (r.changed ==> r.trip.value == k)
            && (!r.changed ==>
                  && times[r.trip.value].line == line
                  && forall m :: k <= m < r.trip.value ==> times[m].line != line))
  {
    var k := EarliestBoardable(times, t);
    if k < |times| then
      if times[k].line != line then
        match SameLineScan(times, k, k + 1, line)
        case Some(i) => Cost(times[i].arrival + changes, Some(i), false)
        case None => Cost(times[k].arrival + changes + 1, Some(k), true)
      else
        Cost(times[k].arrival + changes, Some(k), false)
    else
      Cost(t + DaySeconds, None, false)
  }
}
