/** The ordering `std::sort` uses on the (departure, arrival, line) tuples of a
    timetable group (lista1/zad1/astar.cpp), and a sort that realises it. */
module TripOrder {

  /** One scheduled trip between two stops. */
  datatype Trip = Trip(departure: int, arrival: int, line: string)

  /** `std::string` less-than: lexicographic by character code, a proper
      prefix being smaller. */
  predicate StrLess(a: string, b: string)
    decreases |a|
  {
    if |a| == 0 then |b| > 0
    else if |b| == 0 then false
    else if a[0] != b[0] then a[0] < b[0]
    else StrLess(a[1..], b[1..])
  }

  lemma {:induction false} StrLessIrreflexive(a: string)
    ensures !StrLess(a, a)
    decreases |a|
  {
    if |a| > 0 {
      StrLessIrreflexive(a[1..]);
    }
  }

  lemma {:induction false} StrLessTransitive(a: string, b: string, c: string)
    requires StrLess(a, b) && StrLess(b, c)
    ensures StrLess(a, c)
    decreases |a|
  {
    if |a| > 0 && a[0] == b[0] && b[0] == c[0] {
      StrLessTransitive(a[1..], b[1..], c[1..]);
    }
  }

  /** Two different strings are always ordered one way round. */
  lemma {:induction false} StrLessTotal(a: string, b: string)
    requires a != b
    ensures StrLess(a, b) || StrLess(b, a)
    decreases |a|
  {
    if |a| > 0 && |b| > 0 && a[0] == b[0] {
      assert a == [a[0]] + a[1..] && b == [b[0]] + b[1..];
      StrLessTotal(a[1..], b[1..]);
    }
  }

  lemma {:induction false} StrLessAsymmetric(a: string, b: string)
    requires StrLess(a, b)
    ensures !StrLess(b, a)
    decreases |a|
  {
    if |a| > 0 && a[0] == b[0] {
      StrLessAsymmetric(a[1..], b[1..]);
    }
  }

  /** `std::tuple` less-than: departure first, then arrival, then line. */
  predicate TripLess(a: Trip, b: Trip) {
    || a.departure < b.departure
    || (a.departure == b.departure && a.arrival < b.arrival)
    || (a.departure == b.departure && a.arrival == b.arrival && StrLess(a.line, b.line))
  }

  predicate TripLe(a: Trip, b: Trip) {
    a == b || TripLess(a, b)
  }

  lemma TripLeTotal(a: Trip, b: Trip)
    ensures TripLe(a, b) || TripLe(b, a)
  {
    if a.line != b.line {
      StrLessTotal(a.line, b.line);
    }
  }

  lemma TripLeTransitive(a: Trip, b: Trip, c: Trip)
    requires TripLe(a, b) && TripLe(b, c)
    ensures TripLe(a, c)
  {
    if a.departure == b.departure == c.departure && a.arrival == b.arrival == c.arrival
       && StrLess(a.line, b.line) && StrLess(b.line, c.line) {
      StrLessTransitive(a.line, b.line, c.line);
    }
  }

  lemma TripLeAntisymmetric(a: Trip, b: Trip)
    requires TripLe(a, b) && TripLe(b, a)
    ensures a == b
  {
    if a != b && a.departure == b.departure && a.arrival == b.arrival {
      StrLessAsymmetric(a.line, b.line);
    }
  }

  /** Ascending in the tuple order. */
  predicate Sorted(s: seq<Trip>) {
    forall i, j :: 0 <= i < j < |s| ==> TripLe(s[i], s[j])
  }

  /** Places t before the first element it does not exceed. */
  function InsertSorted(t: Trip, s: seq<Trip>): (r: seq<Trip>)
    requires Sorted(s)
    ensures Sorted(r)
    ensures multiset(r) == multiset(s) + multiset{t}
  {
    if |s| == 0 then [t]
    else if TripLe(t, s[0]) then
      InsertFront(t, s);
      [t] + s
    else
      var rest := InsertSorted(t, s[1..]);
      InsertBehind(t, s, rest);
      [s[0]] + rest
  }

  lemma InsertFront(t: Trip, s: seq<Trip>)
    requires Sorted(s) && |s| > 0 && TripLe(t, s[0])
    ensures Sorted([t] + s)
  {
    forall j | 0 <= j < |s| ensures TripLe(t, s[j]) {
      TripLeTransitive(t, s[0], s[j]);
    }
  }

  lemma InsertBehind(t: Trip, s: seq<Trip>, rest: seq<Trip>)
    requires Sorted(s) && |s| > 0 && !TripLe(t, s[0])
    requires Sorted(rest) && multiset(rest) == multiset(s[1..]) + multiset{t}
    ensures Sorted([s[0]] + rest)
    ensures multiset([s[0]] + rest) == multiset(s) + multiset{t}
  {
    TripLeTotal(t, s[0]);
    assert s == [s[0]] + s[1..];
    forall j | 0 <= j < |rest| ensures TripLe(s[0], rest[j]) {
      assert rest[j] in multiset(rest);
      if rest[j] != t {
        assert rest[j] in multiset(s[1..]);
        var m :| 0 <= m < |s[1..]| && s[1..][m] == rest[j];
        assert s[m + 1] == rest[j];
      }
    }
  }

  /** The result of `std::sort` over the tuple order: sorted, and a
      permutation of the input. */
  function SortTrips(s: seq<Trip>): (r: seq<Trip>)
    ensures Sorted(r)
    ensures multiset(r) == multiset(s)
  {
    if |s| == 0 then []
    else
      assert s == s[..|s| - 1] + [s[|s| - 1]];
      InsertSorted(s[|s| - 1], SortTrips(s[..|s| - 1]))
  }

  /** The order is total, so a sorted permutation is unique: any correct
      sorting algorithm, `std::sort` included, yields `SortTrips`. */
  lemma {:induction false} SortedUnique(a: seq<Trip>, b: seq<Trip>)
    requires Sorted(a) && Sorted(b) && multiset(a) == multiset(b)
    ensures a == b
    decreases |a|
  {
    if |a| > 0 {
      assert |b| == |multiset(b)| == |multiset(a)| == |a|;
      SortedHeadIsLeast(a, b[0]);
      SortedHeadIsLeast(b, a[0]);
      TripLeAntisymmetric(a[0], b[0]);
      SameTail(a, b);
      SortedUnique(a[1..], b[1..]);
      assert a == [a[0]] + a[1..] && b == [b[0]] + b[1..];
    }
  }

  lemma SortedHeadIsLeast(s: seq<Trip>, x: Trip)
    requires Sorted(s) && x in multiset(s)
    ensures |s| > 0 && TripLe(s[0], x)
  {
    var i :| 0 <= i < |s| && s[i] == x;
    if i > 0 {
      assert TripLe(s[0], s[i]);
    }
  }

  lemma SameTail(a: seq<Trip>, b: seq<Trip>)
    requires |a| > 0 && |b| > 0 && a[0] == b[0] && multiset(a) == multiset(b)
    ensures multiset(a[1..]) == multiset(b[1..])
  {
    assert a == [a[0]] + a[1..] && b == [b[0]] + b[1..];
    assert multiset(a) == multiset([a[0]]) + multiset(a[1..]);
    assert multiset(b) == multiset([b[0]]) + multiset(b[1..]);
    assert multiset([a[0]]) == multiset([b[0]]);
    forall e ensures multiset(a[1..])[e] == multiset(b[1..])[e] {
      assert multiset(a)[e] == multiset([a[0]])[e] + multiset(a[1..])[e];
      assert multiset(b)[e] == multiset([b[0]])[e] + multiset(b[1..])[e];
    }
  }

  /** A sorted group is in particular ordered by departure time. */
  lemma SortedDepartures(s: seq<Trip>)
    requires Sorted(s)
    ensures forall i, j :: 0 <= i <= j < |s| ==> s[i].departure <= s[j].departure
  {
    forall i, j | 0 <= i < j < |s| ensures s[i].departure <= s[j].departure {
      assert TripLe(s[i], s[j]);
    }
  }
}
