/** The route reconstruction at the end of `astar_compute`
    (lista1/zad1/astar.cpp): the walk along back-pointers from the destination
    and the grouping of the resulting legs into stages ridden on one line.
    The printed text is replaced by the list of stages it describes. */
module Route {
  import opened Common
  import opened TripOrder
  import opened Timetable
  import opened Search

  /** One ridden trip, from stop `from` to stop `to`. */
  datatype Leg = Leg(from: int, to: int, trip: Trip)

  /** One printed block: the line, where and when to board, where and when to
      alight. */
  datatype Stage = Stage(line: string, boardStop: int, boardTime: int, alightStop: int, alightTime: int)

  /** legs follow the back-pointers, in travel order, from a node without one
      to v. */
  predicate Chain(nodes: seq<NodeInfo>, legs: seq<Leg>, v: int)
    requires WellFormed(nodes) && 0 <= v < |nodes|
  {
    && (forall i :: 0 <= i < |legs| ==>
          && 0 <= legs[i].from < |nodes| && 0 <= legs[i].to < |nodes|
          && nodes[legs[i].to].previousNode == legs[i].from
          && PrevTrip(nodes, legs[i].to) == Some(legs[i].trip))
    && (forall i :: 0 <= i < |legs| - 1 ==> legs[i].to == legs[i + 1].from)
    && (|legs| == 0 ==> nodes[v].previousEdge.None?)
    && (|legs| > 0 ==> legs[|legs| - 1].to == v && nodes[legs[0].from].previousEdge.None?)
  }

  /** The stack-building loop: follow back-pointers from v while there is
      one. Back-pointers may form a cycle, on which the source loops forever;
      the walk is bounded by fuel and yields None when the fuel runs out. */
  function Walk(nodes: seq<NodeInfo>, v: int, fuel: nat): (r: Option<seq<Leg>>)
    requires WellFormed(nodes) && 0 <= v < |nodes|
    ensures r.Some? ==> |r.value| <= fuel
    ensures r == Some([]) <==> PrevTrip(nodes, v).None?
    ensures r.Some? && |r.value| > 0 ==> r.value[|r.value| - 1].to == v
    decreases fuel
  {
    assert RefValid(nodes, v);
    match PrevTrip(nodes, v)
    case None => Some([])
    case Some(t) =>
      if fuel == 0 then None
      else
        var u := nodes[v].previousNode;
        match Walk(nodes, u, fuel - 1)
        case None => None
        case Some(legs) => Some(legs + [Leg(u, v, t)])
  }

  /** A finished walk follows the back-pointers from a node without one
      to v. */
  lemma {:induction false} WalkChain(nodes: seq<NodeInfo>, v: int, fuel: nat)
    requires WellFormed(nodes) && 0 <= v < |nodes|
    ensures Walk(nodes, v, fuel).Some? ==> Chain(nodes, Walk(nodes, v, fuel).value, v)
    decreases fuel
  {
    assert RefValid(nodes, v);
    match PrevTrip(nodes, v)
    case None =>
    case Some(t) =>
      if fuel > 0 {
        var u := nodes[v].previousNode;
        WalkChain(nodes, u, fuel - 1);
        match Walk(nodes, u, fuel - 1)
        case None =>
        case Some(legs) =>
          ChainSnoc(nodes, legs, u, v, t);
      }
  }

  /** A chain into u extends by the back-pointer from v to u. */
  lemma ChainSnoc(nodes: seq<NodeInfo>, legs: seq<Leg>, u: int, v: int, t: Trip)
    requires WellFormed(nodes) && 0 <= u < |nodes| && 0 <= v < |nodes| && Chain(nodes, legs, u)
    requires nodes[v].previousNode == u && PrevTrip(nodes, v) == Some(t)
    ensures Chain(nodes, legs + [Leg(u, v, t)], v)
  {
    var r := legs + [Leg(u, v, t)];
    assert forall i :: 0 <= i < |legs| ==> r[i] == legs[i];
  }

  /** The chain of back-pointers into v is unique: whenever one exists, the
      walk with as much fuel as it has legs finds exactly it. */
  lemma {:induction false} WalkFindsChain(nodes: seq<NodeInfo>, legs: seq<Leg>, v: int)
    requires WellFormed(nodes) && 0 <= v < |nodes| && Chain(nodes, legs, v)
    ensures Walk(nodes, v, |legs|) == Some(legs)
    decreases |legs|
  {
    if |legs| > 0 {
      var n := |legs| - 1;
      var init := legs[..n];
      var u := legs[n].from;
      assert legs[n].to == v;
      assert Chain(nodes, init, u);
      WalkFindsChain(nodes, init, u);
      assert init + [legs[n]] == legs;
    }
  }

  /** Extra fuel does not change a walk that finished. */
  lemma {:induction false} WalkFuel(nodes: seq<NodeInfo>, v: int, fuel: nat, more: nat)
    requires WellFormed(nodes) && 0 <= v < |nodes| && fuel <= more
    requires Walk(nodes, v, fuel).Some?
    ensures Walk(nodes, v, more) == Walk(nodes, v, fuel)
    decreases fuel
  {
    assert RefValid(nodes, v);
    match PrevTrip(nodes, v)
    case None =>
    case Some(t) =>
      var u := nodes[v].previousNode;
      WalkFuel(nodes, u, fuel - 1, more - 1);
  }

  /** The state of the printing loop: the stages so far (the last one not yet
      closed), `current_line` and `previous_arrival`. */
  datatype Grouping = Grouping(stages: seq<Stage>, currentLine: string, previousArrival: int)

  /** Consecutive stages are on different lines. */
  predicate Alternating(s: seq<Stage>) {
    forall i, j :: 0 <= i < |s| && 0 <= j < |s| && j == i + 1 ==> s[i].line != s[j].line
  }

  /** Closes the open stage, if any, at the given stop and time. */
  function CloseLast(s: seq<Stage>, stop: int, time: int): (r: seq<Stage>)
    ensures |r| == |s|
    ensures forall j :: 0 <= j < |s| - 1 ==> r[j] == s[j]
    ensures |s| > 0 ==> r[|s| - 1] == s[|s| - 1].(alightStop := stop, alightTime := time)
  {
    if |s| > 0 then s[..|s| - 1] + [s[|s| - 1].(alightStop := stop, alightTime := time)] else s
  }

  /** A stage boarding the given leg, not yet closed. */
  function BoardLeg(leg: Leg): Stage {
    Stage(leg.trip.line, leg.from, leg.trip.departure, 0, 0)
  }

  /** Closes the open stage where the next one starts, at the previous
      arrival; while the current line is "" the loop prints no alighting and
      the stages stay as they are. */
  function CloseOpen(g: Grouping, stop: int): (s: seq<Stage>)
    ensures |s| == |g.stages|
    ensures forall j :: 0 <= j < |s| ==> s[j].line == g.stages[j].line
  {
    if g.currentLine != "" then CloseLast(g.stages, stop, g.previousArrival) else g.stages
  }

  /** The printing loop over the legs in travel order. A leg whose line
      differs from the current one closes the open stage where the leg starts
      (unless the current line is ""), and opens a stage boarding the leg. */
  function GroupLegs(legs: seq<Leg>): (g: Grouping)
    ensures |legs| == 0 ==> g == Grouping([], "", 0)
    ensures |legs| > 0 ==>
      g.currentLine == legs[|legs| - 1].trip.line && g.previousArrival == legs[|legs| - 1].trip.arrival
    ensures |g.stages| == 0 ==> g.currentLine == ""
    ensures |g.stages| > 0 <==> exists i :: 0 <= i < |legs| && legs[i].trip.line != ""
    ensures |g.stages| > 0 ==> g.stages[|g.stages| - 1].line == g.currentLine
    ensures Alternating(g.stages)
  {
    if |legs| == 0 then Grouping([], "", 0)
    else
      var g := GroupLegs(legs[..|legs| - 1]);
      var leg := legs[|legs| - 1];
      assert forall i :: 0 <= i < |legs| - 1 ==> legs[..|legs| - 1][i] == legs[i];
      if leg.trip.line != g.currentLine then
        Grouping(CloseOpen(g, leg.from) + [BoardLeg(leg)],
                 leg.trip.line, leg.trip.arrival)
      else
        Grouping(g.stages, g.currentLine, leg.trip.arrival)
  }

  /** The stages of a route ending at endStop: the last stage alights there at
      the last arrival. Consecutive stages are on different lines. */
  function Stages(legs: seq<Leg>, endStop: int): (s: seq<Stage>)
    ensures Alternating(s)
    ensures |s| > 0 ==> |legs| > 0 && s[|s| - 1].alightStop == endStop && s[|s| - 1].alightTime == legs[|legs| - 1].trip.arrival
    ensures |s| == 0 <==> forall i :: 0 <= i < |legs| ==> legs[i].trip.line == ""
  {
    var g := GroupLegs(legs);
    CloseLast(g.stages, endStop, g.previousArrival)
  }

  /** The line the traveller is on before leg i: the previous leg's, or "". */
  function PrevLine(legs: seq<Leg>, i: nat): string
    requires i < |legs|
  {
    if i == 0 then "" else legs[i - 1].trip.line
  }

  /** Leg i is boarded anew: its line differs from the one before it. */
  predicate Boards(legs: seq<Leg>, i: nat)
    requires i < |legs|
  {
    legs[i].trip.line != PrevLine(legs, i)
  }

  /** The indices of the legs that are boarded anew, in increasing order. */
  function BoardingLegs(legs: seq<Leg>): (ss: seq<nat>)
    ensures forall j :: 0 <= j < |ss| ==> ss[j] < |legs| && Boards(legs, ss[j])
    ensures forall j, k :: 0 <= j < k < |ss| ==> ss[j] < ss[k]
  {
    if |legs| == 0 then []
    else
      var n := |legs| - 1;
      assert forall i :: 0 <= i < n ==> legs[..n][i] == legs[i] && (Boards(legs[..n], i) <==> Boards(legs, i));
      BoardingLegs(legs[..n]) + (if Boards(legs, n) then [n] else [])
  }

  /** Every leg boarded anew is listed. */
  lemma {:induction false} BoardingLegsComplete(legs: seq<Leg>, i: nat)
    requires i < |legs| && Boards(legs, i)
    ensures i in BoardingLegs(legs)
  {
    var n := |legs| - 1;
    var init := legs[..n];
    assert BoardingLegs(legs) == BoardingLegs(init) + (if Boards(legs, n) then [n] else []);
    if i < n {
      assert init[i] == legs[i] && (i > 0 ==> init[i - 1] == legs[i - 1]);
      BoardingLegsComplete(init, i);
    }
  }

  /** ss lists leg indices, all but the first positive: the shape
      `BoardingLegs` yields. */
  predicate Boarded(legs: seq<Leg>, ss: seq<nat>) {
    forall m :: 0 <= m < |ss| ==> ss[m] < |legs| && (m > 0 ==> 0 < ss[m])
  }

  lemma BoardingLegsBoarded(legs: seq<Leg>)
    ensures Boarded(legs, BoardingLegs(legs))
  {
    var ss := BoardingLegs(legs);
    assert forall m :: 0 < m < |ss| ==> ss[0] < ss[m];
  }

  /** The j-th stage as the boarded legs ss determine it: the line, stop and
      departure of leg ss[j], alighting where the next boarded leg starts, at
      the arrival of the leg before it, or at (stop, time) for the last one.
      A stage on the line "" other than the last is never closed. */
  function StageFor(legs: seq<Leg>, ss: seq<nat>, j: nat, stop: int, time: int): Stage
    requires j < |ss| && Boarded(legs, ss)
  {
    var leg := legs[ss[j]];
    if j + 1 < |ss| then
      if leg.trip.line != "" then
        Stage(leg.trip.line, leg.from, leg.trip.departure, legs[ss[j + 1]].from, legs[ss[j + 1] - 1].trip.arrival)
      else
        BoardLeg(leg)
    else
      Stage(leg.trip.line, leg.from, leg.trip.departure, stop, time)
  }

  /** The stages read off the legs directly: one per leg boarded anew. */
  function StagesFromBoardings(legs: seq<Leg>, stop: int, time: int): (s: seq<Stage>)
    ensures |s| == |BoardingLegs(legs)|
  {
    var ss := BoardingLegs(legs);
    BoardingLegsBoarded(legs);
    seq(|ss|, j requires 0 <= j < |ss| => StageFor(legs, ss, j, stop, time))
  }

  lemma StageForExtend(init: seq<Leg>, legs: seq<Leg>, ss: seq<nat>, j: nat, stop: int, time: int)
    requires |init| <= |legs| && forall i :: 0 <= i < |init| ==> init[i] == legs[i]
    requires j < |ss| && Boarded(init, ss) && Boarded(legs, ss)
    ensures StageFor(init, ss, j, stop, time) == StageFor(legs, ss, j, stop, time)
  {
  }

  /** Boarding leg n closes the previously last stage where leg n starts, at
      the arrival of leg n - 1 (unless its line is ""), and adds leg n's
      stage. */
  lemma StageForAppend(legs: seq<Leg>, ss: seq<nat>, n: nat, j: nat, stop: int, time: int)
    requires Boarded(legs, ss) && Boarded(legs, ss + [n])
    requires j <= |ss|
    ensures j + 1 < |ss| ==> StageFor(legs, ss + [n], j, stop, time) == StageFor(legs, ss, j, stop, time)
    ensures j + 1 == |ss| ==>
      StageFor(legs, ss + [n], j, stop, time) ==
        if legs[ss[j]].trip.line != "" then StageFor(legs, ss, j, legs[n].from, legs[n - 1].trip.arrival)
        else StageFor(legs, ss, j, 0, 0)
    ensures j == |ss| ==>
      StageFor(legs, ss + [n], j, stop, time) == BoardLeg(legs[n]).(alightStop := stop, alightTime := time)
  {
    var ss' := ss + [n];
    assert ss'[j] == if j < |ss| then ss[j] else n;
    assert j + 1 < |ss| ==> ss'[j + 1] == ss[j + 1];
    assert j + 1 == |ss| ==> ss'[j + 1] == n;
  }

  /** The j-th stage read off the legs. */
  lemma StagesFromAt(legs: seq<Leg>, stop: int, time: int, j: nat)
    requires j < |BoardingLegs(legs)|
    ensures Boarded(legs, BoardingLegs(legs))
    ensures StagesFromBoardings(legs, stop, time)[j] == StageFor(legs, BoardingLegs(legs), j, stop, time)
  {
    BoardingLegsBoarded(legs);
  }

  /** The loop's state after the legs init, as the proof needs it: its
      stages are those read off init, the previous arrival is the last leg's,
      and the current line is the last stage's. */
  predicate Tracks(g: Grouping, init: seq<Leg>) {
    && g.stages == StagesFromBoardings(init, 0, 0)
    && (|init| > 0 ==> g.previousArrival == init[|init| - 1].trip.arrival)
    && (|g.stages| > 0 ==> g.stages[|g.stages| - 1].line == g.currentLine)
  }

  /** A stage opened before the last leg, boarded anew: unchanged, or closed
      where the last leg starts. */
  lemma BoardStageOld(legs: seq<Leg>, g0: Grouping, j: nat)
    requires |legs| > 0 && Boards(legs, |legs| - 1)
    requires Tracks(g0, legs[..|legs| - 1])
    requires j < |BoardingLegs(legs[..|legs| - 1])|
    ensures j < |g0.stages| && j < |StagesFromBoardings(legs, 0, 0)|
    ensures CloseOpen(g0, legs[|legs| - 1].from)[j] == StagesFromBoardings(legs, 0, 0)[j]
  {
    var n := |legs| - 1;
    var init := legs[..n];
    var ss0 := BoardingLegs(init);
    assert BoardingLegs(legs) == ss0 + [n];
    BoardingLegsBoarded(init);
    BoardingLegsBoarded(legs);
    StagesFromAt(legs, 0, 0, j);
    LastStageLine(init, ss0, g0);
    CloseOpenAt(legs, init, ss0, g0, j);
  }

  /** Stage j of the legs before the last: unchanged, or closed where the
      last leg starts. */
  lemma CloseOpenAt(legs: seq<Leg>, init: seq<Leg>, ss0: seq<nat>, g0: Grouping, j: nat)
    requires |legs| > 1 && init == legs[..|legs| - 1]
    requires g0.previousArrival == legs[|legs| - 2].trip.arrival
    requires g0.stages == StagesFromBoardings(init, 0, 0)
    requires ss0 == BoardingLegs(init) && j < |ss0|
    requires init[ss0[|ss0| - 1]].trip.line == g0.currentLine
    requires Boarded(init, ss0) && Boarded(legs, ss0 + [|legs| - 1])
    requires StagesFromBoardings(legs, 0, 0)[j] == StageFor(legs, ss0 + [|legs| - 1], j, 0, 0)
    ensures CloseOpen(g0, legs[|legs| - 1].from)[j] == StagesFromBoardings(legs, 0, 0)[j]
  {
    var n := |legs| - 1;
    assert Boarded(legs, ss0);
    StageForAppend(legs, ss0, n, j, 0, 0);
    assert forall i :: 0 <= i < n ==> init[i] == legs[i];
    StagesFromAt(init, 0, 0, j);
    StageForExtend(init, legs, ss0, j, 0, 0);
    if j + 1 == |ss0| {
      StageForExtend(init, legs, ss0, j, legs[n].from, legs[n - 1].trip.arrival);
    }
  }

  /** The loop's current line is the line of its last stage. */
  lemma LastStageLine(init: seq<Leg>, ss0: seq<nat>, g0: Grouping)
    requires Tracks(g0, init)
    requires ss0 == BoardingLegs(init) && |ss0| > 0 && Boarded(init, ss0)
    ensures init[ss0[|ss0| - 1]].trip.line == g0.currentLine
  {
    StagesFromAt(init, 0, 0, |ss0| - 1);
  }

  /** The stage of the last leg, boarded anew, is still open. */
  lemma BoardStageNew(legs: seq<Leg>, ss0: seq<nat>)
    requires |legs| > 0 && BoardingLegs(legs) == ss0 + [|legs| - 1]
    ensures StagesFromBoardings(legs, 0, 0)[|ss0|] == BoardLeg(legs[|legs| - 1])
  {
    BoardingLegsBoarded(legs);
    StagesFromAt(legs, 0, 0, |ss0|);
  }

  lemma BoardStages(legs: seq<Leg>, g0: Grouping)
    requires |legs| > 0 && Boards(legs, |legs| - 1)
    requires Tracks(g0, legs[..|legs| - 1])
    ensures var n := |legs| - 1;
      CloseOpen(g0, legs[n].from) + [BoardLeg(legs[n])] == StagesFromBoardings(legs, 0, 0)
  {
    var n := |legs| - 1;
    var ss0 := BoardingLegs(legs[..n]);
    assert BoardingLegs(legs) == ss0 + [n];
    var co := CloseOpen(g0, legs[n].from);
    var r := StagesFromBoardings(legs, 0, 0);
    forall j | 0 <= j < |co| ensures co[j] == r[j] {
      BoardStageOld(legs, g0, j);
    }
    BoardStageNew(legs, ss0);
  }

  /** A leg on the current line boards nothing: the stages stay as they
      were. */
  lemma StayStages(legs: seq<Leg>)
    requires |legs| > 0 && !Boards(legs, |legs| - 1)
    ensures StagesFromBoardings(legs[..|legs| - 1], 0, 0) == StagesFromBoardings(legs, 0, 0)
  {
    var init := legs[..|legs| - 1];
    assert BoardingLegs(legs) == BoardingLegs(init);
    var r := StagesFromBoardings(legs, 0, 0);
    var r0 := StagesFromBoardings(init, 0, 0);
    forall j | 0 <= j < |r| ensures r0[j] == r[j] {
      StayStageAt(legs, init, j);
    }
  }

  lemma StayStageAt(legs: seq<Leg>, init: seq<Leg>, j: nat)
    requires |legs| > 0 && init == legs[..|legs| - 1]
    requires BoardingLegs(legs) == BoardingLegs(init) && j < |BoardingLegs(init)|
    ensures StagesFromBoardings(init, 0, 0)[j] == StagesFromBoardings(legs, 0, 0)[j]
  {
    var ss0 := BoardingLegs(init);
    StagesFromAt(legs, 0, 0, j);
    StagesFromAt(init, 0, 0, j);
    assert forall i :: 0 <= i < |init| ==> init[i] == legs[i];
    StageForExtend(init, legs, ss0, j, 0, 0);
  }

  /** The printing loop builds exactly the stages read off the legs, the
      last one still open. */
  lemma {:induction false} GroupLegsBoardings(legs: seq<Leg>)
    ensures GroupLegs(legs).stages == StagesFromBoardings(legs, 0, 0)
  {
    if |legs| > 0 {
      var n := |legs| - 1;
      var init := legs[..n];
      GroupLegsBoardings(init);
      var g0 := GroupLegs(init);
      assert Boards(legs, n) <==> legs[n].trip.line != g0.currentLine;
      if Boards(legs, n) {
        assert Tracks(g0, init);
        BoardStages(legs, g0);
      } else {
        StayStages(legs);
      }
    }
  }

  /** The stages of a route are exactly the stages read off its legs, the
      last one alighting at endStop at the last arrival. */
  lemma StagesAtBoardings(legs: seq<Leg>, endStop: int)
    requires |legs| > 0
    ensures Stages(legs, endStop) == StagesFromBoardings(legs, endStop, legs[|legs| - 1].trip.arrival)
  {
    GroupLegsBoardings(legs);
    var s := Stages(legs, endStop);
    var r := StagesFromBoardings(legs, endStop, legs[|legs| - 1].trip.arrival);
    forall j | 0 <= j < |s| ensures s[j] == r[j] {
      StageAtEnd(legs, endStop, j);
    }
  }

  /** Closing the last open stage at the end of the route is the only
      difference between the loop's stages and the final ones. */
  lemma StageAtEnd(legs: seq<Leg>, endStop: int, j: nat)
    requires |legs| > 0 && GroupLegs(legs).stages == StagesFromBoardings(legs, 0, 0)
    requires j < |GroupLegs(legs).stages|
    ensures Stages(legs, endStop)[j] == StagesFromBoardings(legs, endStop, legs[|legs| - 1].trip.arrival)[j]
  {
    var g := GroupLegs(legs);
    var ss := BoardingLegs(legs);
    var time := legs[|legs| - 1].trip.arrival;
    StagesFromAt(legs, 0, 0, j);
    StagesFromAt(legs, endStop, time, j);
    var s := CloseLast(g.stages, endStop, g.previousArrival);
    assert Stages(legs, endStop) == s;
    if j + 1 < |ss| {
      assert s[j] == g.stages[j];
    } else {
      assert s[j] == g.stages[j].(alightStop := endStop, alightTime := time);
    }
  }

  /** The whole reconstruction: walk back from end, then group the legs into
      stages. None when the walk runs out of fuel. */
  function Reconstruct(nodes: seq<NodeInfo>, end: int, fuel: nat): (r: Option<seq<Stage>>)
    requires WellFormed(nodes) && 0 <= end < |nodes|
    ensures r.Some? ==> Alternating(r.value)
    ensures r.Some? && |r.value| > 0 ==> r.value[|r.value| - 1].alightStop == end
  {
    match Walk(nodes, end, fuel)
    case None => None
    case Some(legs) => Some(Stages(legs, end))
  }

  /** Whenever a chain of back-pointers reaches end, the reconstruction with
      as much fuel as the chain has legs prints exactly the stages read off
      that chain, the last one alighting at end at the last arrival. */
  lemma ReconstructFromChain(nodes: seq<NodeInfo>, legs: seq<Leg>, end: int)
    requires WellFormed(nodes) && 0 <= end < |nodes| && Chain(nodes, legs, end) && |legs| > 0
    ensures Reconstruct(nodes, end, |legs|) == Some(StagesFromBoardings(legs, end, legs[|legs| - 1].trip.arrival))
  {
    WalkFindsChain(nodes, legs, end);
    StagesAtBoardings(legs, end);
  }

  /** A finished reconstruction is read off a chain of back-pointers into end. */
  lemma ReconstructOnChain(nodes: seq<NodeInfo>, end: int, fuel: nat)
    requires WellFormed(nodes) && 0 <= end < |nodes|
    requires Walk(nodes, end, fuel).Some? && |Walk(nodes, end, fuel).value| > 0
    ensures var legs := Walk(nodes, end, fuel).value;
      && Chain(nodes, legs, end)
      && Reconstruct(nodes, end, fuel) == Some(StagesFromBoardings(legs, end, legs[|legs| - 1].trip.arrival))
  {
    WalkChain(nodes, end, fuel);
    StagesAtBoardings(Walk(nodes, end, fuel).value, end);
  }
}
