/** `hash_stop_ids` (lista1/zad1/main.cpp): every distinct stop name gets an
    integer id, 1, 2, 3, ... in order of first appearance, scanning each edge's
    start name before its end name. */
module StopIds {
  import opened Graph

  /** The stop names in the order the source scans them. */
  function Endpoints(edges: seq<GraphEdge>): (names: seq<string>)
    ensures |names| == 2 * |edges|
  {
    if |edges| == 0 then []
    else Endpoints(edges[..|edges| - 1]) + [edges[|edges| - 1].startStop, edges[|edges| - 1].endStop]
  }

  /** The ids written back, in the same order as `Endpoints`. */
  function EndpointIds(edges: seq<GraphEdge>): (ids: seq<int>)
    ensures |ids| == 2 * |edges|
  {
    if |edges| == 0 then []
    else EndpointIds(edges[..|edges| - 1]) + [edges[|edges| - 1].startStopId, edges[|edges| - 1].endStopId]
  }

  /** Edge k contributes positions 2k (start) and 2k+1 (end) of both lists. */
  lemma {:induction false} EndpointsAt(edges: seq<GraphEdge>, k: nat)
    requires k < |edges|
    ensures Endpoints(edges)[2 * k] == edges[k].startStop
    ensures Endpoints(edges)[2 * k + 1] == edges[k].endStop
    ensures EndpointIds(edges)[2 * k] == edges[k].startStopId
    ensures EndpointIds(edges)[2 * k + 1] == edges[k].endStopId
  {
    if k < |edges| - 1 {
      EndpointsAt(edges[..|edges| - 1], k);
    }
  }

  /** The names in order of first appearance, each once. */
  function Distinct(names: seq<string>): (d: seq<string>)
    ensures forall n :: n in d <==> n in names
    ensures forall i, j :: 0 <= i < j < |d| ==> d[i] != d[j]
  {
    if |names| == 0 then []
    else
      var d := Distinct(names[..|names| - 1]);
      var x := names[|names| - 1];
      if x in d then d else d + [x]
  }

  lemma DistinctSnoc(names: seq<string>, x: string)
    ensures Distinct(names + [x]) ==
      (if x in Distinct(names) then Distinct(names) else Distinct(names) + [x])
  {
    assert (names + [x])[..|names|] == names;
  }

  /** Position of the first occurrence of x. */
  function IndexOf(s: seq<string>, x: string): (i: nat)
    requires x in s
    ensures i < |s| && s[i] == x
    ensures forall j :: 0 <= j < i ==> s[j] != x
  {
    if s[0] == x then 0
    else
      assert s == [s[0]] + s[1..];
      1 + IndexOf(s[1..], x)
  }

  /** The id a name receives: one more than its position among the distinct names. */
  function IdOf(order: seq<string>, x: string): int
    requires x in order
  {
    IndexOf(order, x) + 1
  }

  lemma IndexOfUnique(s: seq<string>, x: string, i: nat)
    requires i < |s| && s[i] == x
    requires forall j :: 0 <= j < i ==> s[j] != x
    ensures IndexOf(s, x) == i
  {
  }

  /** Appending a name does not move the ids already given out. */
  lemma IndexOfAppend(d: seq<string>, y: string, x: string)
    requires x in d
    ensures IndexOf(d + [y], x) == IndexOf(d, x)
  {
    var i := IndexOf(d, x);
    assert (d + [y])[..i] == d[..i];
    IndexOfUnique(d + [y], x, i);
  }

  /** The distinct names of a prefix are a prefix of the distinct names. */
  lemma {:induction false} DistinctPrefix(names: seq<string>, i: nat)
    requires i <= |names|
    ensures |Distinct(names[..i])| <= |Distinct(names)|
    ensures Distinct(names)[..|Distinct(names[..i])|] == Distinct(names[..i])
    decreases |names| - i
  {
    if i == |names| {
      assert names[..i] == names;
    } else {
      DistinctPrefix(names, i + 1);
      assert names[..i + 1] == names[..i] + [names[i]];
      DistinctSnoc(names[..i], names[i]);
    }
  }

  /** The number of distinct ids equals the number of distinct names. */
  lemma {:induction false} DistinctCount(names: seq<string>)
    ensures |Distinct(names)| == |set n | n in names|
  {
    var d := Distinct(names);
    assert (set n | n in names) == (set n | n in d);
    UniqueCard(d);
  }

  lemma {:induction false} UniqueCard(d: seq<string>)
    requires forall i, j :: 0 <= i < j < |d| ==> d[i] != d[j]
    ensures |set n | n in d| == |d|
  {
    if |d| > 0 {
      var init := d[..|d| - 1];
      UniqueCard(init);
      assert (set n | n in d) == (set n | n in init) + {d[|d| - 1]};
      assert d[|d| - 1] !in (set n | n in init);
    }
  }

  /** Ids are consecutive in order of first appearance: a name met for the
      first time gets the next unused id, a name met before keeps an older one. */
  lemma FirstAppearance(names: seq<string>, i: nat)
    requires i < |names|
    ensures names[i] !in names[..i] ==>
      IdOf(Distinct(names), names[i]) == |Distinct(names[..i])| + 1
    ensures names[i] in names[..i] ==>
      IdOf(Distinct(names), names[i]) <= |Distinct(names[..i])|
  {
    var d := Distinct(names);
    var p := Distinct(names[..i]);
    DistinctPrefix(names, i + 1);
    assert names[..i + 1] == names[..i] + [names[i]];
    DistinctSnoc(names[..i], names[i]);
    var q := Distinct(names[..i + 1]);
    assert d[..|q|] == q;
    if names[i] !in names[..i] {
      assert q == p + [names[i]];
      assert d[|p|] == names[i];
      assert d[..|p|] == p;
      IndexOfUnique(d, names[i], |p|);
    } else {
      var j := IndexOf(p, names[i]);
      assert d[..|p|] == p by { DistinctPrefix(names, i); }
      assert d[..j] == p[..j];
      IndexOfUnique(d, names[i], j);
    }
  }

  /** The contents of `name_map` once the names of `order` have been seen. */
  function IdMap(order: seq<string>): map<string, int> {
    map n | n in order :: IdOf(order, n)
  }

  lemma IdMapAppend(order: seq<string>, x: string)
    requires x !in order
    ensures IdMap(order)[x := |order| + 1] == IdMap(order + [x])
  {
    forall n | n in order ensures IdOf(order + [x], n) == IdOf(order, n) {
      IndexOfAppend(order, x, n);
    }
    IndexOfUnique(order + [x], x, |order|);
  }

  /** One lookup of `hash_stop_ids`: reuse the name's id, or give it `++index`. */
  method FindOrAdd(nameMap: map<string, int>, index: int, x: string, ghost order: seq<string>)
    returns (nameMap': map<string, int>, index': int, id: int)
    requires nameMap == IdMap(order) && index == |order|
    ensures var order' := if x in order then order else order + [x];
      nameMap' == IdMap(order') && index' == |order'| && x in order' && id == IdOf(order', x)
  {
    if x in nameMap {
      nameMap', index', id := nameMap, index, nameMap[x];
    } else {
      index' := index + 1;
      nameMap' := nameMap[x := index'];
      id := index';
      IdMapAppend(order, x);
    }
  }

  /** The two records differ at most in their stop ids. */
  predicate SameButIds(a: GraphEdge, b: GraphEdge) {
    a == b.(startStopId := a.startStopId, endStopId := a.endStopId)
  }

  /** The body of the loop in `hash_stop_ids`: the start name is looked up
      before the end name. */
  method HashEdge(nameMap: map<string, int>, index: int, e: GraphEdge, ghost before: seq<string>)
    returns (nameMap': map<string, int>, index': int, e': GraphEdge)
    requires nameMap == IdMap(Distinct(before)) && index == |Distinct(before)|
    ensures nameMap' == IdMap(Distinct(before + [e.startStop] + [e.endStop]))
    ensures index' == |Distinct(before + [e.startStop] + [e.endStop])|
    ensures SameButIds(e', e)
    ensures var order := Distinct(before + [e.startStop] + [e.endStop]);
      && e.startStop in order && e'.startStopId == IdOf(order, e.startStop)
      && e.endStop in order && e'.endStopId == IdOf(order, e.endStop)
  {
    DistinctSnoc(before, e.startStop);
    var startId, endId;
    nameMap', index', startId := FindOrAdd(nameMap, index, e.startStop, Distinct(before));
    DistinctSnoc(before + [e.startStop], e.endStop);
    ghost var mid := Distinct(before + [e.startStop]);
    nameMap', index', endId := FindOrAdd(nameMap', index', e.endStop, mid);
    if e.endStop !in mid {
      IndexOfAppend(mid, e.endStop, e.startStop);
    }
    e' := e.(startStopId := startId, endStopId := endId);
  }

  /** Seeing one more name never changes an id already given out. */
  lemma DistinctKeepsId(names: seq<string>, x: string, n: string)
    requires n in Distinct(names)
    ensures n in Distinct(names + [x]) && IdOf(Distinct(names + [x]), n) == IdOf(Distinct(names), n)
  {
    DistinctSnoc(names, x);
    if x !in Distinct(names) {
      IndexOfAppend(Distinct(names), x, n);
    }
  }

  /** What the loop of `hash_stop_ids` knows after k edges. */
  ghost predicate HashedPrefix(edges: seq<GraphEdge>, k: nat, out: seq<GraphEdge>,
                               nameMap: map<string, int>, index: int)
    requires k <= |edges|
  {
    var names := Endpoints(edges[..k]);
    var order := Distinct(names);
    && |out| == k
    && nameMap == IdMap(order) && index == |order|
    && (forall j :: 0 <= j < k ==> SameButIds(out[j], edges[j]))
    && (forall i :: 0 <= i < 2 * k ==> names[i] in order && EndpointIds(out)[i] == IdOf(order, names[i]))
  }

  lemma HashedStep(edges: seq<GraphEdge>, k: nat, out: seq<GraphEdge>, m0: map<string, int>,
                   index: int, m1: map<string, int>, index': int, e': GraphEdge)
    requires k < |edges| && HashedPrefix(edges, k, out, m0, index)
    requires var before, e := Endpoints(edges[..k]), edges[k];
      var order := Distinct(before + [e.startStop] + [e.endStop]);
      && m1 == IdMap(order) && index' == |order|
      && SameButIds(e', e)
      && e.startStop in order && e'.startStopId == IdOf(order, e.startStop)
      && e.endStop in order && e'.endStopId == IdOf(order, e.endStop)
    ensures HashedPrefix(edges, k + 1, out + [e'], m1, index')
  {
    var before, e := Endpoints(edges[..k]), edges[k];
    EndpointsSnoc(edges, k);
    EndpointIdsSnoc(out, e');
    IdsStep(before, EndpointIds(out), e.startStop, e.endStop, e'.startStopId, e'.endStopId);
    forall j | 0 <= j < k + 1 ensures SameButIds((out + [e'])[j], edges[j]) {
      if j < k {
        assert (out + [e'])[j] == out[j];
      }
    }
  }

  /** The ids written so far stay correct when two more names are seen, and
      the two new ids are the ids of those names. */
  lemma IdsStep(before: seq<string>, ids: seq<int>, s: string, t: string, sid: int, tid: int)
    requires |ids| == |before|
    requires forall i :: 0 <= i < |before| ==>
      before[i] in Distinct(before) && ids[i] == IdOf(Distinct(before), before[i])
    requires var order := Distinct(before + [s] + [t]);
      s in order && sid == IdOf(order, s) && t in order && tid == IdOf(order, t)
    ensures var after, order := before + [s] + [t], Distinct(before + [s] + [t]);
      forall i :: 0 <= i < |after| ==> after[i] in order && (ids + [sid] + [tid])[i] == IdOf(order, after[i])
  {
    var after, ids' := before + [s] + [t], ids + [sid] + [tid];
    forall i | 0 <= i < |before|
      ensures after[i] in Distinct(after) && ids'[i] == IdOf(Distinct(after), after[i])
    {
      assert after[i] == before[i] && ids'[i] == ids[i];
      DistinctKeepsId(before, s, before[i]);
      DistinctKeepsId(before + [s], t, before[i]);
    }
  }

  lemma EndpointsSnoc(edges: seq<GraphEdge>, k: nat)
    requires k < |edges|
    ensures Endpoints(edges[..k + 1]) == Endpoints(edges[..k]) + [edges[k].startStop] + [edges[k].endStop]
  {
    assert edges[..k + 1][..k] == edges[..k];
  }

  lemma EndpointIdsSnoc(out: seq<GraphEdge>, e: GraphEdge)
    ensures EndpointIds(out + [e]) == EndpointIds(out) + [e.startStopId] + [e.endStopId]
  {
    assert (out + [e])[..|out|] == out;
  }

  /** Ids given by position among the distinct names lie in
      1..(number of distinct names) and are equal exactly for equal names. */
  lemma IdsFacts(names: seq<string>, ids: seq<int>)
    requires |ids| == |names|
    requires forall i :: 0 <= i < |ids| ==> names[i] in Distinct(names) && ids[i] == IdOf(Distinct(names), names[i])
    ensures forall i :: 0 <= i < |ids| ==> 1 <= ids[i] <= |Distinct(names)|
    ensures forall i, j :: 0 <= i < |ids| && 0 <= j < |ids| ==> (ids[i] == ids[j] <==> names[i] == names[j])
  {
    var d := Distinct(names);
    forall i, j | 0 <= i < |ids| && 0 <= j < |ids|
      ensures ids[i] == ids[j] ==> names[i] == names[j]
    {
      if ids[i] == ids[j] {
        assert IndexOf(d, names[i]) == IndexOf(d, names[j]);
      }
    }
  }

  /** `hash_stop_ids`: fills in both ids of every edge, keeping every other
      field; ids follow first appearance, lie in 1..(number of distinct names),
      and two endpoints share an id exactly when they share a name. */
  method HashStopIds(edges: seq<GraphEdge>) returns (out: seq<GraphEdge>)
    ensures |out| == |edges|
    ensures forall k :: 0 <= k < |edges| ==> SameButIds(out[k], edges[k])
    ensures var names, ids := Endpoints(edges), EndpointIds(out);
      && (forall i :: 0 <= i < |ids| ==> names[i] in Distinct(names) && ids[i] == IdOf(Distinct(names), names[i]))
      && (forall i :: 0 <= i < |ids| ==> 1 <= ids[i] <= |Distinct(names)|)
      && (forall i, j :: 0 <= i < |ids| && 0 <= j < |ids| ==> (ids[i] == ids[j] <==> names[i] == names[j]))
  {
    var nameMap: map<string, int> := map[];
    var index := 0;
    out := [];
    for k := 0 to |edges|
      invariant HashedPrefix(edges, k, out, nameMap, index)
    {
      ghost var oldMap, oldIndex := nameMap, index;
      var e';
      nameMap, index, e' := HashEdge(nameMap, index, edges[k], Endpoints(edges[..k]));
      HashedStep(edges, k, out, oldMap, oldIndex, nameMap, index, e');
      out := out + [e'];
    }
    HashedDone(edges, out, nameMap, index);
  }

  /** After the last edge the loop's knowledge is the method's promise. */
  lemma HashedDone(edges: seq<GraphEdge>, out: seq<GraphEdge>, nameMap: map<string, int>, index: int)
    requires HashedPrefix(edges, |edges|, out, nameMap, index)
    ensures |out| == |edges|
    ensures forall k :: 0 <= k < |edges| ==> SameButIds(out[k], edges[k])
    ensures var names, ids := Endpoints(edges), EndpointIds(out);
      && (forall i :: 0 <= i < |ids| ==> names[i] in Distinct(names) && ids[i] == IdOf(Distinct(names), names[i]))
      && (forall i :: 0 <= i < |ids| ==> 1 <= ids[i] <= |Distinct(names)|)
      && (forall i, j :: 0 <= i < |ids| && 0 <= j < |ids| ==> (ids[i] == ids[j] <==> names[i] == names[j]))
  {
    assert edges[..|edges|] == edges;
    IdsFacts(Endpoints(edges), EndpointIds(out));
  }
}
