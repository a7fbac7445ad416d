/** The paged search of a point-in-time snapshot (es_routing/webservice.py). The search engine is the sequence of all hits and
    the position of the last hit of the page before. */
module PagedSearch {
  import opened Options

  datatype Hit<V> = Hit(time: int, value: V)

  /** A data point of the answer; or the one that says the field was not found, which carries the end time. */
  datatype Point<V> = Found(timestamp: int, id: string, value: V) | UnableToFind(timestamp: int, id: string)

  /** The position a page starts at, after the last hit of the page before. */
  function From(last: Option<nat>): nat {
    match last
    case None => 0
    case Some(p) => p + 1
  }

  /** One search of the engine: the next hits, no more than a page. */
  function Search<V>(hits: seq<Hit<V>>, pageSize: nat, last: Option<nat>): (page: seq<Hit<V>>)
    requires From(last) <= |hits|
    ensures |page| <= pageSize && From(last) + |page| <= |hits|
    ensures page == hits[From(last)..From(last) + |page|]
    ensures page == [] <==> pageSize == 0 || From(last) == |hits|
  {
    var from := From(last);
    if from + pageSize <= |hits| then hits[from..from + pageSize] else hits[from..]
  }

  predicate InWindow<V>(h: Hit<V>, first: int, end: int) {
    first <= h.time <= end
  }

  function PointOf<V>(h: Hit<V>, field: string): Point<V> {
    Found(h.time, field, h.value)
  }

  /** The hits of the window, in order, as data points. */
  function Filter<V>(hits: seq<Hit<V>>, first: int, end: int, field: string): seq<Point<V>> {
    if hits == [] then []
    else (if InWindow(hits[0], first, end) then [PointOf(hits[0], field)] else []) + Filter(hits[1..], first, end, field)
  }

  /** The same, but only up to the first hit that is too early. */
  function Collect<V>(hits: seq<Hit<V>>, first: int, end: int, field: string): seq<Point<V>> {
    if hits == [] || hits[0].time < first then []
    else (if InWindow(hits[0], first, end) then [PointOf(hits[0], field)] else []) + Collect(hits[1..], first, end, field)
  }

  /** A hit more is one point more if its time is in the window, bounds included, and none otherwise. */
  lemma {:induction false} FilterMore<V>(hits: seq<Hit<V>>, h: Hit<V>, first: int, end: int, field: string)
    ensures Filter(hits + [h], first, end, field)
         == Filter(hits, first, end, field) + if first <= h.time <= end then [Found(h.time, field, h.value)] else []
  {
    if hits == [] {
      assert [h][1..] == [];
    } else {
      FilterMore(hits[1..], h, first, end, field);
      assert (hits + [h])[1..] == hits[1..] + [h];
    }
  }

  /** Stopping at the first hit that is too early is filtering the hits before it. */
  lemma {:induction false} CollectIsFilter<V>(hits: seq<Hit<V>>, first: int, end: int, field: string, k: nat)
    requires k <= |hits| && (forall i | 0 <= i < k :: hits[i].time >= first) && (k < |hits| ==> hits[k].time < first)
    ensures Collect(hits, first, end, field) == Filter(hits[..k], first, end, field)
  {
    if k > 0 {
      CollectIsFilter(hits[1..], first, end, field, k - 1);
      assert hits[..k][1..] == hits[1..][..k - 1];
    }
  }

  ghost predicate Descending<V>(hits: seq<Hit<V>>) {
    forall i, j | 0 <= i < j < |hits| :: hits[i].time >= hits[j].time
  }

  /** Some hit of the window comes after one that is too early. */
  ghost predicate Misplaced<V>(hits: seq<Hit<V>>, first: int, end: int) {
    exists i, j | 0 <= i < j < |hits| :: hits[i].time < first && InWindow(hits[j], first, end)
  }

  lemma {:induction false} FilterEmptyIff<V>(hits: seq<Hit<V>>, first: int, end: int, field: string)
    ensures Filter(hits, first, end, field) == [] <==> forall i | 0 <= i < |hits| :: !InWindow(hits[i], first, end)
  {
    if hits != [] {
      FilterEmptyIff(hits[1..], first, end, field);
      assert forall i | 0 < i < |hits| :: hits[i] == hits[1..][i - 1];
    }
  }

  /** Stopping at the first hit that is too early loses nothing exactly when no later hit is in the window. */
  lemma {:induction false} EarlyExitIsHarmlessIff<V>(hits: seq<Hit<V>>, first: int, end: int, field: string)
    ensures Collect(hits, first, end, field) == Filter(hits, first, end, field) <==> !Misplaced(hits, first, end)
  {
    if hits != [] {
      var tail := hits[1..];
      if hits[0].time < first {
        FilterEmptyIff(hits, first, end, field);
        if i :| 0 <= i < |hits| && InWindow(hits[i], first, end) {
          assert Misplaced(hits, first, end);
        }
      } else {
        EarlyExitIsHarmlessIff(tail, first, end, field);
        MisplacedInTail(hits, first, end);
        hide Misplaced;
        var head := if InWindow(hits[0], first, end) then [PointOf(hits[0], field)] else [];
        var c, f := Collect(tail, first, end, field), Filter(tail, first, end, field);
        assert head + c == head + f ==> c == f by {
          assert (head + c)[|head|..] == c && (head + f)[|head|..] == f;
        }
      }
    }
  }

  lemma MisplacedInTail<V>(hits: seq<Hit<V>>, first: int, end: int)
    requires hits != [] && hits[0].time >= first
    ensures Misplaced(hits, first, end) <==> Misplaced(hits[1..], first, end)
  {
    var tail := hits[1..];
    if Misplaced(hits, first, end) {
      var i, j :| 0 <= i < j < |hits| && hits[i].time < first && InWindow(hits[j], first, end);
      assert tail[i - 1] == hits[i] && tail[j - 1] == hits[j];
    }
    if Misplaced(tail, first, end) {
      var i, j :| 0 <= i < j < |tail| && tail[i].time < first && InWindow(tail[j], first, end);
      assert tail[i] == hits[i + 1] && tail[j] == hits[j + 1];
    }
  }

  /** In descending time none is misplaced. */
  lemma DescendingIsHarmless<V>(hits: seq<Hit<V>>, first: int, end: int, field: string)
    requires Descending(hits)
    ensures Collect(hits, first, end, field) == Filter(hits, first, end, field)
  {
    hide Collect, Filter;
    EarlyExitIsHarmlessIff(hits, first, end, field);
  }

  lemma CollectStep<V>(hits: seq<Hit<V>>, from: nat, first: int, end: int, field: string)
    requires from <= |hits|
    ensures var h := Collect(hits[from..], first, end, field);
            if from == |hits| || hits[from].time < first then h == []
            else h == (if hits[from].time <= end then [PointOf(hits[from], field)] else [])
                      + Collect(hits[from + 1..], first, end, field)
  {
    if from < |hits| {
      assert hits[from..][0] == hits[from] && hits[from..][1..] == hits[from + 1..];
    }
  }

  /** pit_search: from a position on, whatever the page size, the points of the window before the first hit that is too
      early. */
  method PitSearch<V>(hits: seq<Hit<V>>, pageSize: nat, first: int, end: int, field: string, points: seq<Point<V>>,
                      last: Option<nat>)
    returns (r: seq<Point<V>>)
    requires pageSize > 0 && From(last) <= |hits|
    ensures r == points + if last.None? && hits == [] then [UnableToFind(end, field)]
                          else Collect(hits[From(last)..], first, end, field)
    decreases |hits| - From(last)
  {
    hide Collect;
    var page := Search(hits, pageSize, last);
    var hitNum := |page|;
    CollectStep(hits, From(last), first, end, field);
    hide Search;
    if hitNum == 0 {
      if last.Some? {
        return points;
      }
      return points + [UnableToFind(end, field)];
    }
    var values := points;
    ghost var from := From(last);
    for i := 0 to hitNum
      invariant values + Collect(hits[from + i..], first, end, field) == points + Collect(hits[from..], first, end, field)
    {
      var time := page[i].time;
      var value := page[i].value;
      CollectStep(hits, from + i, first, end, field);
      assert hits[from + i] == page[i];
      if time <= end && time >= first {
        values := values + [Found(time, field, value)];
      } else if time < first {
        return values;
      }
    }
    var lastLoc := From(last) + hitNum - 1;
    assert From(Some(lastLoc)) == from + hitNum;
    r := PitSearch(hits, pageSize, first, end, field, values, Some(lastLoc));
  }

  /** The whole search, as its endpoint starts it, over hits in descending time: exactly the points of the window, in order;
      or the one that says the field was not found, if there are no hits at all. */
  method SearchAll<V>(hits: seq<Hit<V>>, first: int, end: int, field: string) returns (r: seq<Point<V>>)
    requires Descending(hits)
    ensures r == if hits == [] then [UnableToFind(end, field)] else Filter(hits, first, end, field)
  {
    r := PitSearch(hits, 10000, first, end, field, [], None);
    assert hits[From(None)..] == hits;
    DescendingIsHarmless(hits, first, end, field);
  }
}
