/**
 * Normalising an OSRM route response (geo_local/geo.py:27-38) and collecting one
 * route per request (geo_local/geo.py:41-42). The HTTP call is a parameter `fetch`
 * from URL to the decoded JSON body; `None` stands for any exception raised by the
 * request, `raise_for_status` or `json()`.
 */
module Osrm {
  import opened Wrappers
  import opened Request
  import opened Routes

  /** A GeoJSON position as the service sends it: an array of numbers, normally [lon, lat]. */
  type Position = seq<real>

  /** The JSON body, keeping only the keys the script reads; an absent key is `None`. */
  datatype Geometry = Geometry(coordinates: Option<seq<Position>>)
  datatype RawRoute = RawRoute(geometry: Option<Geometry>, distance: Option<real>, duration: Option<real>)
  datatype Body = Body(routes: Option<seq<RawRoute>>)

  const MetresPerKm: real := 1000.0
  const SecondsPerMinute: real := 60.0

  /**
   * `[[lat, lon] for lon, lat in coordinates]`: the unpacking raises (and the whole
   * fetch fails) unless every position has exactly two numbers.
   */
  function ConvertPath(ps: seq<Position>): (r: Option<seq<Coord>>)
    ensures r.Some? <==> (forall i :: 0 <= i < |ps| ==> |ps[i]| == 2)
    ensures r.Some? ==> |r.value| == |ps|
    ensures r.Some? ==> forall i :: 0 <= i < |ps| ==> r.value[i].lat == ps[i][1] && r.value[i].lon == ps[i][0]
  {
    if |ps| == 0 then Some([])
    else if |ps[0]| != 2 then None
    else
      match ConvertPath(ps[1..])
      case None => None
      case Some(rest) => Some([Coord(ps[0][1], ps[0][0])] + rest)
  }

  /** A path written back in GeoJSON order, [lon, lat] per point. */
  function ToPositions(path: seq<Coord>): (ps: seq<Position>)
    ensures |ps| == |path|
    ensures forall i :: 0 <= i < |path| ==> ps[i] == [path[i].lon, path[i].lat]
  {
    seq(|path|, i requires 0 <= i < |path| => [path[i].lon, path[i].lat])
  }

  /** Swapping back what was swapped gives the service's geometry again. */
  lemma ConvertThenRestore(ps: seq<Position>)
    requires ConvertPath(ps).Some?
    ensures ToPositions(ConvertPath(ps).value) == ps
  {
    var back := ToPositions(ConvertPath(ps).value);
    forall i | 0 <= i < |ps| ensures back[i] == ps[i] {
      assert |ps[i]| == 2;
    }
  }

  /** Converting a path written in GeoJSON order gives the path itself. */
  lemma RestoreThenConvert(path: seq<Coord>)
    ensures ConvertPath(ToPositions(path)) == Some(path)
  {
    var ps := ToPositions(path);
    assert forall i :: 0 <= i < |ps| ==> |ps[i]| == 2;
    var r := ConvertPath(ps).value;
    assert forall i :: 0 <= i < |path| ==> r[i] == path[i] by {
      forall i | 0 <= i < |path| ensures r[i] == path[i] {
        assert ps[i][0] == path[i].lon && ps[i][1] == path[i].lat;
      }
    }
    assert r == path;
  }

  /** Every key the script reads is present and the first route's geometry has only [lon, lat] pairs. */
  predicate Usable(resp: Option<Body>)
  {
    && resp.Some?
    && resp.value.routes.Some?
    && |resp.value.routes.value| > 0
    && var r := resp.value.routes.value[0];
       && r.geometry.Some?
       && r.geometry.value.coordinates.Some?
       && (forall i :: 0 <= i < |r.geometry.value.coordinates.value| ==> |r.geometry.value.coordinates.value[i]| == 2)
       && r.distance.Some?
       && r.duration.Some?
  }

  function FirstRoute(resp: Option<Body>): RawRoute
    requires Usable(resp)
  {
    resp.value.routes.value[0]
  }

  /** The `try` block of `get_route` after the request: the first route, converted, or `None`. */
  function Normalize(resp: Option<Body>): (r: Option<Route>)
    ensures r.Some? <==> Usable(resp)
    ensures r.Some? ==> ToPositions(r.value.path) == FirstRoute(resp).geometry.value.coordinates.value
    ensures r.Some? ==> r.value.distanceKm * MetresPerKm == FirstRoute(resp).distance.value
    ensures r.Some? ==> r.value.durationMin * SecondsPerMinute == FirstRoute(resp).duration.value
  {
    match resp
    case None => None
    case Some(body) =>
      if body.routes.None? || |body.routes.value| == 0 then None
      else
        var raw := body.routes.value[0];
        if raw.geometry.None? || raw.geometry.value.coordinates.None? then None
        else
          match ConvertPath(raw.geometry.value.coordinates.value)
          case None => None
          case Some(path) =>
            if raw.distance.None? || raw.duration.None? then None
            else
              ConvertThenRestore(raw.geometry.value.coordinates.value);
              Some(Route(path, raw.distance.value / MetresPerKm, raw.duration.value / SecondsPerMinute))
  }

  /** A body without the "routes" key, or with an empty list, is a failed fetch, not a crash. */
  lemma MissingOrEmptyRoutesFail(body: Body)
    requires body.routes.None? || body.routes == Some([])
    ensures Normalize(Some(body)) == None
  {
  }

  /** A first route lacking its geometry, distance or duration is a failed fetch. */
  lemma MissingFieldFails(body: Body, raw: RawRoute, more: seq<RawRoute>)
    requires body.routes == Some([raw] + more)
    requires raw.geometry.None? || raw.geometry.value.coordinates.None? || raw.distance.None? || raw.duration.None?
    ensures Normalize(Some(body)) == None
  {
  }

  /** Only the first route matters: routes after it never change the outcome. */
  lemma OnlyFirstRouteUsed(raw: RawRoute, more: seq<RawRoute>, other: seq<RawRoute>)
    ensures Normalize(Some(Body(Some([raw] + more)))) == Normalize(Some(Body(Some([raw] + other))))
  {
    assert ([raw] + more)[0] == raw;
    assert ([raw] + other)[0] == raw;
  }

  /** A response of 10000 m and 900 s gives 10 km and 15 min; a two-point path comes back in (lat, lon) order. */
  lemma SampleResponse(a: Coord, b: Coord)
    ensures Normalize(Some(Body(Some([RawRoute(Some(Geometry(Some([[a.lon, a.lat], [b.lon, b.lat]]))),
                                               Some(10000.0), Some(900.0))]))))
            == Some(Route([a, b], 10.0, 15.0))
  {
    var ps: seq<Position> := [[a.lon, a.lat], [b.lon, b.lat]];
    assert ps == ToPositions([a, b]);
    RestoreThenConvert([a, b]);
  }

  /** `get_route(start, end, via)`: request the encoded URL and normalise what comes back. */
  function GetRoute(fmt: real -> string, fetch: string -> Option<Body>,
                    start: Coord, end: Coord, via: Option<seq<Coord>>): (r: Option<Route>)
    ensures r.Some? <==> Usable(fetch(RequestUrl(fmt, start, via, end)))
    ensures r.Some? ==> ToPositions(r.value.path)
                        == FirstRoute(fetch(RequestUrl(fmt, start, via, end))).geometry.value.coordinates.value
    ensures r.Some? ==> r.value.distanceKm * MetresPerKm
                        == FirstRoute(fetch(RequestUrl(fmt, start, via, end))).distance.value
    ensures r.Some? ==> r.value.durationMin * SecondsPerMinute
                        == FirstRoute(fetch(RequestUrl(fmt, start, via, end))).duration.value
  {
    Normalize(fetch(RequestUrl(fmt, start, via, end)))
  }

  /**
   * `routes = [get_route(start, end)]` followed by `routes += [get_route(start, end, via=[v]) ...]`:
   * the direct route first, then one route through each via point, in order.
   */
  method CollectRoutes(fmt: real -> string, fetch: string -> Option<Body>,
                       start: Coord, end: Coord, vias: seq<Coord>) returns (routes: seq<Option<Route>>)
    ensures |routes| == |vias| + 1
    ensures routes[0] == GetRoute(fmt, fetch, start, end, None)
    ensures forall k :: 0 <= k < |vias| ==> routes[k + 1] == GetRoute(fmt, fetch, start, end, Some([vias[k]]))
  {
    routes := [GetRoute(fmt, fetch, start, end, None)];
    for k := 0 to |vias|
      invariant |routes| == k + 1
      invariant routes[0] == GetRoute(fmt, fetch, start, end, None)
      invariant forall j :: 0 <= j < k ==> routes[j + 1] == GetRoute(fmt, fetch, start, end, Some([vias[j]]))
    {
      routes := routes + [GetRoute(fmt, fetch, start, end, Some([vias[k]]))];
    }
  }

  /** Each alternative route is requested with exactly three waypoints: start, its via point, end. */
  lemma AlternativeWaypoints(start: Coord, end: Coord, v: Coord)
    ensures Waypoints(start, Some([v]), end) == [start, v, end]
  {
  }
}
