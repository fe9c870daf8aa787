# OSRM alternative routes between two universities: a Dafny model

The script `geo_local/geo.py` asks the public OSRM route service for a direct
driving route between two fixed points in Kinshasa and for one alternative through
each of four via points. It picks the shortest and the longest of the answers and
draws them all on a folium map, with green for the shortest, red for the longest
and palette colours for the rest. This project models the computational kernel of
that script and proves properties of it:

- **Request encoding** (`Request`): the waypoint list `start ++ vias ++ end`. Each
  `(lat, lon)` is written `lon,lat`, the pairs are joined with `;`, and the result
  goes into the service URL. How a number is written as text is a parameter
  `fmt: real -> string`. The separator properties assume it writes neither `;` nor
  `,`, which Python's float text never does. Python's `str.split` is modelled as
  `Split`. It is the reference used to read the request back.
- **Response normalisation** (`Osrm`): the decoded JSON body is abstracted to the
  keys the script reads. An absent key is `None`, and a fetch that raised is `None`
  as a whole. The result is `Option<Route>`. The path is swapped to (lat, lon), the
  distance is divided by 1000 and the duration by 60. The HTTP call is a parameter
  `fetch: string -> Option<Body>`. `CollectRoutes` is the loop that builds the route
  collection, with the direct route at index 0.
- **Extremum selection** (`Extremum`): Python's `min`/`max` with a key, as a
  first-occurrence arg-min/arg-max. It is modelled as written (defined only when
  every fetch succeeded) and corrected to skip failed fetches (see Findings).
- **Styling** (`Styling`): the drawing loop, which builds the sequence of polylines
  added to the map. `StyleRoutes` keeps the source's imperative colour
  reassignment. `Drawing` is the specification it is proved against.

Two behaviours of the script are worth stating plainly:

- Failed fetches are meant to reach the drawing loop: line 70 skips an entry that
  is `None` before drawing it. The selection at lines 45-46 reads the distance of
  every entry, though, so a failed entry makes it raise first (see Findings).
- A failed fetch still uses up its index. The loop at line 69 enumerates every
  entry, so the palette slot `i % 7` and the label `Route #(i+1)` of a later route
  do not shift. The model does the same.

Observation: palette slots 0 and 1 are `"green"` and `"red"`. So a route at index 0
or 1 that is not an extreme gets the shortest or longest colour, and only its
weight (4, not 6) tells them apart. `FiveRouteColoring` and
`EmphasisIdentifiesExtremes` state this.

## Model

| member | source | states |
|---|---|---|
| `Request.Waypoints` | geo_local/geo.py:23 | the request's waypoints are the start, then every via point in order, then the end; there are `len(via) + 2` of them |
| `Request.DirectRequestHasTwoWaypoints` | geo_local/geo.py:23 | when `via` is absent or empty, the waypoints are exactly `[start, end]` |
| `Request.RequestUrl` | geo_local/geo.py:23-25 | the URL is the fixed service prefix, then the coordinate string of the waypoints, then the fixed query `?overview=full&geometries=geojson` |
| `Request.SplitJoin` | geo_local/geo.py:24 | splitting a `;`-joined string gives back the parts when no part contains the separator |
| `Request.PairComponents` | geo_local/geo.py:24 | one encoded waypoint splits on `,` into exactly two pieces: the longitude's text, then the latitude's |
| `Request.CoordinateSegments` | geo_local/geo.py:24 | the `;`-separated segments of a coordinate string are the encoded waypoints, one per waypoint, in order |
| `Request.RequestSegments` | geo_local/geo.py:23-24 | the request has `len(via) + 2` segments: start, every via in order, end; each reads back as `[fmt(lon), fmt(lat)]`, swapped relative to the `(lat, lon)` input |
| `Request.EncodingInjective` | geo_local/geo.py:24 | with an injective number formatter, two waypoint lists with the same coordinate string are equal |
| `Routes.PresentIndices` | geo_local/geo.py:69-71 | the indices of the successful entries, strictly increasing, each in range and present, and every present index among them |
| `Osrm.ConvertPath` | geo_local/geo.py:32 | the conversion succeeds exactly when every position has two numbers; it then keeps length and order and gives point i latitude `ps[i][1]` and longitude `ps[i][0]` |
| `Osrm.ConvertThenRestore` | geo_local/geo.py:32 | swapping each converted point back to `[lon, lat]` gives the service's geometry again |
| `Osrm.RestoreThenConvert` | geo_local/geo.py:32 | converting a path written in `[lon, lat]` order gives that path back: the swap applied twice is the identity |
| `Osrm.Normalize` | geo_local/geo.py:27-38 | a route comes back exactly when the fetch succeeded and `routes`, its first element, `geometry.coordinates` (all pairs), `distance` and `duration` are present; the path swapped back is the first route's geometry, `distance_km * 1000` is the distance and `duration_min * 60` the duration |
| `Osrm.MissingOrEmptyRoutesFail` | geo_local/geo.py:31-38 | a body without `routes`, or with an empty list, gives `None` |
| `Osrm.MissingFieldFails` | geo_local/geo.py:31-38 | a first route lacking its geometry, coordinates, distance or duration gives `None` |
| `Osrm.OnlyFirstRouteUsed` | geo_local/geo.py:31 | the routes after the first never change the result |
| `Osrm.SampleResponse` | geo_local/geo.py:31-35 | a response of 10000 m and 900 s with geometry `[[lonA, latA], [lonB, latB]]` gives 10 km, 15 min and the path `[A, B]` in (lat, lon) order |
| `Osrm.GetRoute` | geo_local/geo.py:22-38 | `get_route` succeeds exactly when the response to its request URL is usable; its path is that response's first geometry, swapped, its `distance_km * 1000` is the first route's distance and its `duration_min * 60` the duration |
| `Osrm.CollectRoutes` | geo_local/geo.py:41-42 | the collection has `len(vias) + 1` entries: the direct route at index 0, then the route through via point k at index k + 1 |
| `Osrm.AlternativeWaypoints` | geo_local/geo.py:42 | each alternative is requested with exactly the waypoints `[start, via, end]` |
| `Extremum.ArgMin` | geo_local/geo.py:45 | the index is in range, holds a value no greater than any other, and no earlier index holds an equal value (the first minimum wins) |
| `Extremum.ArgMax` | geo_local/geo.py:46 | the index is in range, holds a value no smaller than any other, and is the first such index |
| `Extremum.FirstMinUnique` | geo_local/geo.py:45 | any index with the first-minimum property is `ArgMin`'s answer |
| `Extremum.FirstMaxUnique` | geo_local/geo.py:46 | any index with the first-maximum property is `ArgMax`'s answer |
| `Extremum.ShortestIndex` | geo_local/geo.py:45 | when every entry is present, `shortest_idx` is in range, its distance is at most every entry's, and every earlier entry is strictly longer |
| `Extremum.LongestIndex` | geo_local/geo.py:46 | when every entry is present, `longest_idx` is in range, its distance is at least every entry's, and every earlier entry is strictly shorter |
| `Extremum.SingleRouteIsBothExtremes` | geo_local/geo.py:45-46 | with exactly one route, `shortest_idx == longest_idx == 0` |
| `Extremum.EqualDistancesPickFirst` | geo_local/geo.py:45-46 | when all distances tie, both indices are 0 |
| `Extremum.SelectAsWritten` | geo_local/geo.py:45-46 | the selection as written fails (raises) exactly when the collection is empty or any entry is a failed fetch; otherwise it gives the first minimum and the first maximum of the distances |
| `Extremum.SelectPresent` | geo_local/geo.py:45-46 | the corrected selection is `None` exactly when no fetch succeeded; otherwise both indices are successful entries, the first of least and of greatest distance among successful entries |
| `Extremum.FirstShortestPresentUnique` | geo_local/geo.py:45 | the first shortest successful entry is unique |
| `Extremum.FirstLongestPresentUnique` | geo_local/geo.py:46 | the first longest successful entry is unique |
| `Extremum.SelectionsAgreeWhenAllPresent` | geo_local/geo.py:45-46 | when every fetch succeeded, the corrected selection equals the script's |
| `Extremum.FailedFetchCrashesSelection` | geo_local/geo.py:45-46 | for `[route, failed]` the script's selection raises, while the corrected one yields index 0 as both extremes |
| `Extremum.SinglePresentIsBothExtremes` | geo_local/geo.py:45-46 | with exactly one successful fetch, at index i, the corrected selection gives i as both shortest and longest |
| `Styling.Drawing` | geo_local/geo.py:69-80 | one polyline per successful entry, in collection order; the k-th is the styled line of the k-th present index |
| `Styling.StyleRoutes` | geo_local/geo.py:69-80 | the drawing loop, with its colour reassignments and `continue`, adds exactly `Drawing`'s polylines |
| `Styling.NumbersIncrease` | geo_local/geo.py:78 | the route numbers strictly increase along the drawing, so no number labels two lines |
| `Styling.DrawnIffPresent` | geo_local/geo.py:69-78 | some line is labelled `Route #(i+1)` exactly when entry i's fetch succeeded; failed entries still use up their number |
| `Styling.PresentEntryDrawn` | geo_local/geo.py:69-80 | each successful entry i is drawn with its own path, distance and duration, and with the colour, weight and number of index i |
| `Styling.EmphasisIdentifiesExtremes` | geo_local/geo.py:72-79 | green at weight 6 means exactly the shortest index; red at weight 6 means exactly the longest when it is not also the shortest (green wins a tie); weight 6 exactly for those two |
| `Styling.FiveRouteColoring` | geo_local/geo.py:72-79 | with five routes, the shortest at 2 and the longest at 4, the colours are green, red, green, orange, red and the weights 4, 4, 6, 4, 6 |
| `Styling.DrawRoutes` | geo_local/geo.py:44-80 | the drawing step uses the corrected selection; with no successful fetch no route line is drawn |
| `Styling.HighlightedLineIsShortest` | geo_local/geo.py:45-79 | among the drawn lines, a line is green at weight 6 exactly when it is the selected shortest, and no successful route is shorter than it |
| `Styling.ExactlyOneHighlightedLine` | geo_local/geo.py:72-79 | when some fetch succeeded, exactly one drawn line is green at weight 6 |
| `Styling.SingleRouteScenario` | geo_local/geo.py:41-80 | with one successful route, it is both extremes and is drawn as `Route #1` in green at weight 6 |
| `Styling.PlotRoutes` | geo_local/geo.py:41-80 | the script end to end: the collection has the direct route at index 0 and one route per via point, the lines are `Drawing` at the corrected selection, and with no via points and a successful direct fetch exactly one line is drawn, `Route #1` in green at weight 6 |

## Left out

- The HTTP request, `raise_for_status`, `resp.json()` and the 10-second timeout (geo_local/geo.py:28-30) are network I/O. They are the parameter `fetch`, whose `None` stands for any exception they raise. Modelling `fetch` as a function of the URL means the same URL always gets the same answer.
- The decoded JSON keeps only the read keys, with numbers as reals. Values of other JSON types are not modelled. A string or `null` distance would make the division raise and so end in `None`. Other cases would not fail: a `true`/`false` distance or duration divides without error, and a position written as a two-character string or a two-key object unpacks into `lon, lat` at line 32.
- Python's float text for `f"{lon}"` is the parameter `fmt`. The separator lemmas assume only that it writes neither `;` nor `,`.
- Floating point: distances, durations and coordinates are exact reals, so `/ 1000` and `/ 60` do not round and NaN is not modelled.
- The popup text, with its `:.2f` and `:.1f` formatting, is reduced to the route number, distance and duration it shows (`Polyline.number`, `distanceKm`, `durationMin`).
- folium rendering is a foreign library: the map, its centre midpoint (geo_local/geo.py:49-51), the two markers, the black direct line, `opacity`, the legend HTML (geo_local/geo.py:51-66, 83-96) and `add_to`.
- Saving the HTML file, opening the browser (geo_local/geo.py:99-101) and printing to the console (geo_local/geo.py:37, 104-106) are I/O.
- The fixed coordinates `UPN`, `UNIVERSITE_KIM` and `VIA_POINTS` (geo_local/geo.py:7-16) are left as inputs: the lemmas hold for any points. Only the palette (geo_local/geo.py:19) is a constant of the model.
- The map is a sequence of polylines, not a mutable object: the drawing loop only appends to it.

## Findings

| source | as written | input that shows it | evidently intended | confidence | as-written member | corrected member |
|---|---|---|---|---|---|---|
| geo_local/geo.py:45-46 | `min`/`max` apply `routes[i]["distance_km"]` to every entry, so one failed fetch (`None`) raises `TypeError` and the script stops before drawing anything, although line 70 expects failed entries to reach the drawing loop | `routes = [route, None]`: the direct route succeeded, a via-point fetch failed | choose the extremes among the successful entries only, and draw whatever succeeded | high, not executed | `Extremum.SelectAsWritten` (shown by `Extremum.FailedFetchCrashesSelection`) | `Extremum.SelectPresent` (used by `Styling.DrawRoutes`; equal to the script's selection when every fetch succeeded, `Extremum.SelectionsAgreeWhenAllPresent`) |
