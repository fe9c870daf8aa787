/**
 * Choosing the shortest and the longest route (geo_local/geo.py:44-46):
 * `min` / `max` over `range(len(routes))` keyed by `routes[i]["distance_km"]`.
 * Python keeps the current best unless a later key is strictly better, so the
 * first extremal index wins a tie.
 */
module Extremum {
  import opened Wrappers
  import opened Routes

  /** k is the first position holding the least value of ds. */
  ghost predicate IsFirstMin(ds: seq<real>, k: nat)
  {
    && k < |ds|
    && (forall j :: 0 <= j < |ds| ==> ds[k] <= ds[j])
    && (forall j :: 0 <= j < k ==> ds[j] > ds[k])
  }

  /** k is the first position holding the greatest value of ds. */
  ghost predicate IsFirstMax(ds: seq<real>, k: nat)
  {
    && k < |ds|
    && (forall j :: 0 <= j < |ds| ==> ds[k] >= ds[j])
    && (forall j :: 0 <= j < k ==> ds[j] < ds[k])
  }

  /** Python's `min(range(len(ds)), key=...)`, scanning left to right. */
  function ArgMin(ds: seq<real>): (k: nat)
    requires |ds| > 0
    ensures k < |ds|
    ensures forall j :: 0 <= j < |ds| ==> ds[k] <= ds[j]
    ensures forall j :: 0 <= j < k ==> ds[j] > ds[k]
  {
    if |ds| == 1 then 0
    else
      var k := ArgMin(ds[..|ds| - 1]);
      assert forall j :: 0 <= j < |ds| - 1 ==> ds[..|ds| - 1][j] == ds[j];
      if ds[|ds| - 1] < ds[k] then |ds| - 1 else k
  }

  /** Python's `max(range(len(ds)), key=...)`, scanning left to right. */
  function ArgMax(ds: seq<real>): (k: nat)
    requires |ds| > 0
    ensures k < |ds|
    ensures forall j :: 0 <= j < |ds| ==> ds[k] >= ds[j]
    ensures forall j :: 0 <= j < k ==> ds[j] < ds[k]
  {
    if |ds| == 1 then 0
    else
      var k := ArgMax(ds[..|ds| - 1]);
      assert forall j :: 0 <= j < |ds| - 1 ==> ds[..|ds| - 1][j] == ds[j];
      if ds[|ds| - 1] > ds[k] then |ds| - 1 else k
  }

  /** The first-minimum property pins down one index: ArgMin is the only answer. */
  lemma FirstMinUnique(ds: seq<real>, k: nat)
    requires |ds| > 0 && IsFirstMin(ds, k)
    ensures k == ArgMin(ds)
  {
  }

  lemma FirstMaxUnique(ds: seq<real>, k: nat)
    requires |ds| > 0 && IsFirstMax(ds, k)
    ensures k == ArgMax(ds)
  {
  }

  /** The distances of a collection in which every fetch succeeded. */
  function Distances(routes: seq<Option<Route>>): seq<real>
    requires AllPresent(routes)
  {
    seq(|routes|, i requires 0 <= i < |routes| => routes[i].value.distanceKm)
  }

  /** `shortest_idx`, defined only when every entry is present (otherwise the script raises). */
  function ShortestIndex(routes: seq<Option<Route>>): (k: nat)
    requires |routes| > 0 && AllPresent(routes)
    ensures k < |routes|
    ensures forall j :: 0 <= j < |routes| ==> routes[k].value.distanceKm <= routes[j].value.distanceKm
    ensures forall j :: 0 <= j < k ==> routes[j].value.distanceKm > routes[k].value.distanceKm
  {
    var ds := Distances(routes);
    assert forall i :: 0 <= i < |routes| ==> ds[i] == routes[i].value.distanceKm;
    ArgMin(ds)
  }

  /** `longest_idx`, defined only when every entry is present. */
  function LongestIndex(routes: seq<Option<Route>>): (k: nat)
    requires |routes| > 0 && AllPresent(routes)
    ensures k < |routes|
    ensures forall j :: 0 <= j < |routes| ==> routes[k].value.distanceKm >= routes[j].value.distanceKm
    ensures forall j :: 0 <= j < k ==> routes[j].value.distanceKm < routes[k].value.distanceKm
  {
    var ds := Distances(routes);
    assert forall i :: 0 <= i < |routes| ==> ds[i] == routes[i].value.distanceKm;
    ArgMax(ds)
  }

  /** A single route is both the shortest and the longest. */
  lemma SingleRouteIsBothExtremes(routes: seq<Option<Route>>)
    requires |routes| == 1 && AllPresent(routes)
    ensures ShortestIndex(routes) == 0 && LongestIndex(routes) == 0
  {
  }

  /** When all distances are equal, the first route is both the shortest and the longest. */
  lemma EqualDistancesPickFirst(routes: seq<Option<Route>>)
    requires |routes| > 0 && AllPresent(routes)
    requires forall j :: 0 <= j < |routes| ==> routes[j].value.distanceKm == routes[0].value.distanceKm
    ensures ShortestIndex(routes) == 0 && LongestIndex(routes) == 0
  {
  }

  datatype Extrema = Extrema(shortest: nat, longest: nat)

  /**
   * Lines 45-46 as written: an empty collection makes `min` raise, and an absent entry
   * makes `routes[i]["distance_km"]` raise; `None` stands for that crash.
   */
  function SelectAsWritten(routes: seq<Option<Route>>): (r: Option<Extrema>)
    ensures r.None? <==> (|routes| == 0 || exists i :: 0 <= i < |routes| && routes[i].None?)
    ensures r.Some? ==> && |routes| > 0 && AllPresent(routes)
                        && IsFirstMin(Distances(routes), r.value.shortest)
                        && IsFirstMax(Distances(routes), r.value.longest)
  {
    if |routes| > 0 && AllPresent(routes) then Some(Extrema(ShortestIndex(routes), LongestIndex(routes)))
    else None
  }

  /** The first present entry of least distance, ignoring failed fetches. */
  ghost predicate IsFirstShortestPresent(routes: seq<Option<Route>>, s: nat)
  {
    && s < |routes| && routes[s].Some?
    && (forall j :: 0 <= j < |routes| && routes[j].Some? ==> routes[s].value.distanceKm <= routes[j].value.distanceKm)
    && (forall j :: 0 <= j < s && routes[j].Some? ==> routes[j].value.distanceKm > routes[s].value.distanceKm)
  }

  /** The first present entry of greatest distance, ignoring failed fetches. */
  ghost predicate IsFirstLongestPresent(routes: seq<Option<Route>>, l: nat)
  {
    && l < |routes| && routes[l].Some?
    && (forall j :: 0 <= j < |routes| && routes[j].Some? ==> routes[l].value.distanceKm >= routes[j].value.distanceKm)
    && (forall j :: 0 <= j < l && routes[j].Some? ==> routes[j].value.distanceKm < routes[l].value.distanceKm)
  }

  /** The distances of the present entries, in collection order. */
  function PresentDistances(routes: seq<Option<Route>>): (ds: seq<real>)
    ensures |ds| == |PresentIndices(routes)|
    ensures forall m :: 0 <= m < |ds| ==> ds[m] == routes[PresentIndices(routes)[m]].value.distanceKm
  {
    var p := PresentIndices(routes);
    seq(|p|, m requires 0 <= m < |p| => routes[p[m]].value.distanceKm)
  }

  /** A successful entry j sits at some position of the present indices. */
  lemma PresentPosition(routes: seq<Option<Route>>, j: nat) returns (m: nat)
    requires j < |routes| && routes[j].Some?
    ensures m < |PresentIndices(routes)| && PresentIndices(routes)[m] == j
  {
    assert j in PresentIndices(routes);
    m :| 0 <= m < |PresentIndices(routes)| && PresentIndices(routes)[m] == j;
  }

  /** ArgMin over the present distances, mapped back to the collection, is the first shortest present entry. */
  lemma PresentArgMin(routes: seq<Option<Route>>)
    requires |PresentIndices(routes)| > 0
    ensures IsFirstShortestPresent(routes, PresentIndices(routes)[ArgMin(PresentDistances(routes))])
  {
    var p := PresentIndices(routes);
    var ds := PresentDistances(routes);
    var a := ArgMin(ds);
    var best := routes[p[a]].value.distanceKm;
    assert ds[a] == best;
    forall j | 0 <= j < |routes| && routes[j].Some?
      ensures best <= routes[j].value.distanceKm
      ensures j < p[a] ==> routes[j].value.distanceKm > best
    {
      var m := PresentPosition(routes, j);
      assert ds[m] == routes[j].value.distanceKm;
      assert ds[a] <= ds[m];
      if j < p[a] {
        assert m < a;
        assert ds[m] > ds[a];
      }
    }
  }

  /** ArgMax over the present distances, mapped back to the collection, is the first longest present entry. */
  lemma PresentArgMax(routes: seq<Option<Route>>)
    requires |PresentIndices(routes)| > 0
    ensures IsFirstLongestPresent(routes, PresentIndices(routes)[ArgMax(PresentDistances(routes))])
  {
    var p := PresentIndices(routes);
    var ds := PresentDistances(routes);
    var b := ArgMax(ds);
    var best := routes[p[b]].value.distanceKm;
    assert ds[b] == best;
    forall j | 0 <= j < |routes| && routes[j].Some?
      ensures best >= routes[j].value.distanceKm
      ensures j < p[b] ==> routes[j].value.distanceKm < best
    {
      var m := PresentPosition(routes, j);
      assert ds[m] == routes[j].value.distanceKm;
      assert ds[b] >= ds[m];
      if j < p[b] {
        assert m < b;
        assert ds[m] < ds[b];
      }
    }
  }

  /**
   * The corrected selection: extremes over the successfully fetched entries only;
   * `None` exactly when no fetch succeeded.
   */
  function SelectPresent(routes: seq<Option<Route>>): (r: Option<Extrema>)
    ensures r.None? <==> forall i :: 0 <= i < |routes| ==> routes[i].None?
    ensures r.Some? ==> IsFirstShortestPresent(routes, r.value.shortest)
    ensures r.Some? ==> IsFirstLongestPresent(routes, r.value.longest)
  {
    var p := PresentIndices(routes);
    if |p| == 0 then None
    else
      var ds := PresentDistances(routes);
      PresentArgMin(routes);
      PresentArgMax(routes);
      Some(Extrema(p[ArgMin(ds)], p[ArgMax(ds)]))
  }

  /** The first shortest present entry is unique. */
  lemma FirstShortestPresentUnique(routes: seq<Option<Route>>, s: nat, t: nat)
    requires IsFirstShortestPresent(routes, s) && IsFirstShortestPresent(routes, t)
    ensures s == t
  {
  }

  /** The first longest present entry is unique. */
  lemma FirstLongestPresentUnique(routes: seq<Option<Route>>, s: nat, t: nat)
    requires IsFirstLongestPresent(routes, s) && IsFirstLongestPresent(routes, t)
    ensures s == t
  {
  }

  /** When every fetch succeeded the corrected selection is the one the script computes. */
  lemma SelectionsAgreeWhenAllPresent(routes: seq<Option<Route>>)
    requires |routes| > 0 && AllPresent(routes)
    ensures SelectPresent(routes) == SelectAsWritten(routes)
  {
    var e := SelectPresent(routes).value;
    var w := SelectAsWritten(routes).value;
    var ds := Distances(routes);
    assert IsFirstMin(ds, e.shortest);
    assert IsFirstMax(ds, e.longest);
    FirstMinUnique(ds, e.shortest);
    FirstMaxUnique(ds, e.longest);
    FirstMinUnique(ds, w.shortest);
    FirstMaxUnique(ds, w.longest);
  }

  /** One failed via-point fetch makes the script crash although a route is available to draw. */
  lemma FailedFetchCrashesSelection(r: Route)
    ensures SelectAsWritten([Some(r), None]) == None
    ensures SelectPresent([Some(r), None]) == Some(Extrema(0, 0))
  {
    var routes := [Some(r), None];
    assert routes[0].Some? && routes[1].None?;
    var e := SelectPresent(routes).value;
    assert e.shortest == 0 && e.longest == 0;
  }

  /** With exactly one successful fetch, the corrected selection calls it both shortest and longest. */
  lemma SinglePresentIsBothExtremes(routes: seq<Option<Route>>, i: nat)
    requires i < |routes| && routes[i].Some?
    requires forall j :: 0 <= j < |routes| && j != i ==> routes[j].None?
    ensures SelectPresent(routes) == Some(Extrema(i, i))
  {
  }
}
