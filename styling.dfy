/**
 * The drawing loop of geo_local/geo.py:68-80: every successfully fetched route
 * becomes one polyline; the shortest is green, otherwise the longest is red,
 * otherwise the palette colour of its index; both extremes are drawn thicker.
 * The map widget is modelled by the sequence of polylines added to it.
 */
module Styling {
  import opened Wrappers
  import opened Request
  import opened Routes
  import opened Extremum
  import opened Osrm

  const Palette: seq<string> := ["green", "red", "blue", "orange", "purple", "darkcyan", "magenta"]
  const ShortestColor: string := "green"
  const LongestColor: string := "red"
  const EmphasisWeight: nat := 6
  const NormalWeight: nat := 4

  /**
   * One polyline added to the map. `number` is the n of the popup's "Route #n";
   * the popup also shows the distance and duration carried here.
   */
  datatype Polyline = Polyline(path: seq<Coord>, color: string, weight: nat, number: nat,
                               distanceKm: real, durationMin: real)

  /** The colour rule, as a decision: shortest first, then longest, then the palette slot of i. */
  function ColorFor(i: nat, shortest: nat, longest: nat): string
  {
    if i == shortest then ShortestColor
    else if i == longest then LongestColor
    else Palette[i % |Palette|]
  }

  function WeightFor(i: nat, shortest: nat, longest: nat): nat
  {
    if i == shortest || i == longest then EmphasisWeight else NormalWeight
  }

  /** The polyline drawn for entry i, route r. */
  function LineFor(i: nat, r: Route, shortest: nat, longest: nat): Polyline
  {
    Polyline(r.path, ColorFor(i, shortest, longest), WeightFor(i, shortest, longest), i + 1,
             r.distanceKm, r.durationMin)
  }

  /** What the drawing loop adds to the map: one line per present entry, in collection order. */
  function Drawing(routes: seq<Option<Route>>, shortest: nat, longest: nat): (d: seq<Polyline>)
    ensures |d| == |PresentIndices(routes)|
    ensures forall k :: 0 <= k < |d| ==>
              d[k] == LineFor(PresentIndices(routes)[k], routes[PresentIndices(routes)[k]].value, shortest, longest)
  {
    if |routes| == 0 then []
    else
      var n := |routes| - 1;
      var init := routes[..n];
      assert forall i :: 0 <= i < |init| ==> init[i] == routes[i];
      Drawing(init, shortest, longest)
      + (if routes[n].Some? then [LineFor(n, routes[n].value, shortest, longest)] else [])
  }

  /**
   * The loop itself: a failed entry is skipped but still uses up its index, so it
   * shifts neither the palette slots nor the route numbers of later entries.
   */
  method StyleRoutes(routes: seq<Option<Route>>, shortest: nat, longest: nat) returns (lines: seq<Polyline>)
    ensures lines == Drawing(routes, shortest, longest)
  {
    lines := [];
    for i := 0 to |routes|
      invariant lines == Drawing(routes[..i], shortest, longest)
    {
      assert routes[..i + 1][..i] == routes[..i];
      if routes[i].None? {
        continue;
      }
      var r := routes[i].value;
      var color := Palette[i % |Palette|];
      if i == shortest {
        color := ShortestColor;
      } else if i == longest {
        color := LongestColor;
      }
      var weight := if i == shortest || i == longest then EmphasisWeight else NormalWeight;
      lines := lines + [Polyline(r.path, color, weight, i + 1, r.distanceKm, r.durationMin)];
    }
    assert routes[..|routes|] == routes;
  }

  /** Route numbers strictly increase along the drawing, so no number is used twice. */
  lemma NumbersIncrease(routes: seq<Option<Route>>, shortest: nat, longest: nat, k: nat, k': nat)
    requires k < k' < |Drawing(routes, shortest, longest)|
    ensures Drawing(routes, shortest, longest)[k].number < Drawing(routes, shortest, longest)[k'].number
  {
  }

  /** Some line of the drawing is labelled "Route #n". */
  ghost predicate HasNumber(d: seq<Polyline>, n: nat)
  {
    exists k :: 0 <= k < |d| && d[k].number == n
  }

  /** Entry i is drawn, labelled "Route #(i+1)", exactly when its fetch succeeded. */
  lemma DrawnIffPresent(routes: seq<Option<Route>>, shortest: nat, longest: nat, i: nat)
    requires i < |routes|
    ensures HasNumber(Drawing(routes, shortest, longest), i + 1) <==> routes[i].Some?
  {
    var d := Drawing(routes, shortest, longest);
    var p := PresentIndices(routes);
    if HasNumber(d, i + 1) {
      var k :| 0 <= k < |d| && d[k].number == i + 1;
      assert d[k] == LineFor(p[k], routes[p[k]].value, shortest, longest);
    }
    if routes[i].Some? {
      PresentEntryDrawn(routes, shortest, longest, i);
    }
  }

  /** A successfully fetched entry i is drawn with its own path, distance and duration and the style of index i. */
  lemma PresentEntryDrawn(routes: seq<Option<Route>>, shortest: nat, longest: nat, i: nat)
    requires i < |routes| && routes[i].Some?
    ensures exists k :: 0 <= k < |Drawing(routes, shortest, longest)|
                        && Drawing(routes, shortest, longest)[k] == LineFor(i, routes[i].value, shortest, longest)
  {
    var d := Drawing(routes, shortest, longest);
    var p := PresentIndices(routes);
    assert i in p;
    var k :| 0 <= k < |p| && p[k] == i;
    assert d[k] == LineFor(i, routes[i].value, shortest, longest);
  }

  /**
   * The emphasised styles pick out the extremes exactly: green at weight 6 is the
   * shortest, red at weight 6 the longest (when it is not also the shortest).
   */
  lemma EmphasisIdentifiesExtremes(i: nat, shortest: nat, longest: nat)
    ensures (ColorFor(i, shortest, longest) == ShortestColor && WeightFor(i, shortest, longest) == EmphasisWeight)
            <==> i == shortest
    ensures (ColorFor(i, shortest, longest) == LongestColor && WeightFor(i, shortest, longest) == EmphasisWeight)
            <==> (i == longest && i != shortest)
    ensures WeightFor(i, shortest, longest) == EmphasisWeight <==> (i == shortest || i == longest)
  {
  }

  /**
   * The colour alone does not: palette slots 0 and 1 are green and red, so with five
   * routes, the shortest at 2 and the longest at 4, the colours are
   * green, red, green, orange, red.
   */
  lemma FiveRouteColoring()
    ensures ColorFor(0, 2, 4) == "green" && WeightFor(0, 2, 4) == 4
    ensures ColorFor(1, 2, 4) == "red" && WeightFor(1, 2, 4) == 4
    ensures ColorFor(2, 2, 4) == "green" && WeightFor(2, 2, 4) == 6
    ensures ColorFor(3, 2, 4) == "orange" && WeightFor(3, 2, 4) == 4
    ensures ColorFor(4, 2, 4) == "red" && WeightFor(4, 2, 4) == 6
  {
  }

  /**
   * The whole drawing step, using the selection that ignores failed fetches:
   * with no successful fetch nothing is drawn (the markers and direct line stay).
   */
  method DrawRoutes(routes: seq<Option<Route>>) returns (lines: seq<Polyline>)
    ensures SelectPresent(routes).None? ==> lines == []
    ensures SelectPresent(routes).Some? ==>
              lines == Drawing(routes, SelectPresent(routes).value.shortest, SelectPresent(routes).value.longest)
  {
    var sel := SelectPresent(routes);
    if sel.None? {
      lines := [];
    } else {
      lines := StyleRoutes(routes, sel.value.shortest, sel.value.longest);
    }
  }

  /**
   * In the drawing of the corrected selection, a line is green at weight 6 exactly when
   * it is the line of the first shortest successful route, and no successful route is shorter.
   */
  lemma HighlightedLineIsShortest(routes: seq<Option<Route>>, k: nat)
    requires SelectPresent(routes).Some?
    requires k < |Drawing(routes, SelectPresent(routes).value.shortest, SelectPresent(routes).value.longest)|
    ensures var e := SelectPresent(routes).value;
            var line := Drawing(routes, e.shortest, e.longest)[k];
            (line.color == ShortestColor && line.weight == EmphasisWeight) <==> line.number == e.shortest + 1
    ensures var e := SelectPresent(routes).value;
            var line := Drawing(routes, e.shortest, e.longest)[k];
            line.color == ShortestColor && line.weight == EmphasisWeight ==>
              forall j :: 0 <= j < |routes| && routes[j].Some? ==> line.distanceKm <= routes[j].value.distanceKm
  {
    var e := SelectPresent(routes).value;
    var i := PresentIndices(routes)[k];
    EmphasisIdentifiesExtremes(i, e.shortest, e.longest);
  }

  /** A line drawn in the shortest route's style. */
  predicate Highlighted(line: Polyline)
  {
    line.color == ShortestColor && line.weight == EmphasisWeight
  }

  /** When some fetch succeeded, exactly one line of the drawing is green at weight 6. */
  lemma ExactlyOneHighlightedLine(routes: seq<Option<Route>>)
    requires SelectPresent(routes).Some?
    ensures var e := SelectPresent(routes).value;
            var d := Drawing(routes, e.shortest, e.longest);
            && (exists k :: 0 <= k < |d| && Highlighted(d[k]))
            && (forall k, k' :: 0 <= k < |d| && 0 <= k' < |d| && Highlighted(d[k]) && Highlighted(d[k']) ==> k == k')
  {
    var e := SelectPresent(routes).value;
    var d := Drawing(routes, e.shortest, e.longest);
    PresentEntryDrawn(routes, e.shortest, e.longest, e.shortest);
    EmphasisIdentifiesExtremes(e.shortest, e.shortest, e.longest);
    forall k, k' | 0 <= k < |d| && 0 <= k' < |d| && Highlighted(d[k]) && Highlighted(d[k'])
      ensures k == k'
    {
      HighlightedLineIsShortest(routes, k);
      HighlightedLineIsShortest(routes, k');
    }
  }

  /** The no-via scenario: one successful route, numbered 1, drawn green at weight 6. */
  lemma SingleRouteScenario(r: Route)
    ensures SelectPresent([Some(r)]) == Some(Extrema(0, 0))
    ensures Drawing([Some(r)], 0, 0) == [Polyline(r.path, "green", 6, 1, r.distanceKm, r.durationMin)]
  {
    SinglePresentIsBothExtremes([Some(r)], 0);
    var d := Drawing([Some(r)], 0, 0);
    assert PresentIndices([Some(r)])[0] == 0;
    assert d[0] == LineFor(0, r, 0, 0);
  }

  /**
   * The script end to end: collect the direct route and one route per via point,
   * then draw them with the corrected selection. With no via points and a
   * successful direct fetch, exactly one line is drawn: Route #1, green, weight 6.
   */
  method PlotRoutes(fmt: real -> string, fetch: string -> Option<Body>,
                    start: Coord, end: Coord, vias: seq<Coord>) returns (routes: seq<Option<Route>>, lines: seq<Polyline>)
    ensures |routes| == |vias| + 1
    ensures routes[0] == GetRoute(fmt, fetch, start, end, None)
    ensures forall k :: 0 <= k < |vias| ==> routes[k + 1] == GetRoute(fmt, fetch, start, end, Some([vias[k]]))
    ensures SelectPresent(routes).None? ==> lines == []
    ensures SelectPresent(routes).Some? ==>
              lines == Drawing(routes, SelectPresent(routes).value.shortest, SelectPresent(routes).value.longest)
    ensures vias == [] && GetRoute(fmt, fetch, start, end, None).Some? ==>
              var r := GetRoute(fmt, fetch, start, end, None).value;
              lines == [Polyline(r.path, ShortestColor, EmphasisWeight, 1, r.distanceKm, r.durationMin)]
  {
    routes := CollectRoutes(fmt, fetch, start, end, vias);
    lines := DrawRoutes(routes);
    if vias == [] && routes[0].Some? {
      assert routes == [Some(routes[0].value)];
      SingleRouteScenario(routes[0].value);
    }
  }
}
