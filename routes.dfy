/**
 * The route collection of geo_local/geo.py:41-42: one entry per request, the
 * direct route at index 0, a failed fetch kept as an absent entry.
 */
module Routes {
  import opened Wrappers
  import opened Request

  /** A normalised route: path in (lat, lon) order, distance in km, duration in minutes. */
  datatype Route = Route(path: seq<Coord>, distanceKm: real, durationMin: real)

  predicate AllPresent(routes: seq<Option<Route>>)
  {
    forall i :: 0 <= i < |routes| ==> routes[i].Some?
  }

  /** The indices of the successfully fetched entries, in increasing order. */
  function PresentIndices(routes: seq<Option<Route>>): (p: seq<nat>)
    ensures |p| <= |routes|
    ensures forall m :: 0 <= m < |p| ==> p[m] < |routes| && routes[p[m]].Some?
    ensures forall m, n :: 0 <= m < n < |p| ==> p[m] < p[n]
    ensures forall i :: 0 <= i < |routes| && routes[i].Some? ==> i in p
  {
    if |routes| == 0 then []
    else
      var init := routes[..|routes| - 1];
      assert forall i :: 0 <= i < |init| ==> init[i] == routes[i];
      PresentIndices(init) + (if routes[|routes| - 1].Some? then [|routes| - 1] else [])
  }
}
