/**
 * Building the OSRM route-service request of `get_route` (geo_local/geo.py:22-25):
 * the waypoint list start ++ vias ++ end, each (lat, lon) written as "lon,lat",
 * the pairs joined with ';' and placed inside the service URL.
 * How one number is written as text is a parameter `fmt`.
 */
module Request {
  import opened Wrappers

  /** A WGS84 point in the order the script stores it: (latitude, longitude), degrees. */
  datatype Coord = Coord(lat: real, lon: real)

  const CoordSeparator: char := ';'
  const ComponentSeparator: char := ','
  const ServicePrefix: string := "http://router.project-osrm.org/route/v1/driving/"
  const ServiceQuery: string := "?overview=full&geometries=geojson"

  /** `via if via else []`: an absent via list and an empty one both contribute nothing. */
  function ViaPoints(via: Option<seq<Coord>>): seq<Coord>
  {
    match via
    case None => []
    case Some(vs) => vs
  }

  /** The waypoints of one request, in the order the service visits them. */
  function Waypoints(start: Coord, via: Option<seq<Coord>>, end: Coord): (r: seq<Coord>)
    ensures |r| == |ViaPoints(via)| + 2
    ensures r[0] == start && r[|r| - 1] == end
    ensures forall k :: 0 <= k < |ViaPoints(via)| ==> r[k + 1] == ViaPoints(via)[k]
  {
    [start] + ViaPoints(via) + [end]
  }

  lemma DirectRequestHasTwoWaypoints(start: Coord, via: Option<seq<Coord>>, end: Coord)
    requires via == None || via == Some([])
    ensures Waypoints(start, via, end) == [start, end]
  {
  }

  /** One waypoint as the service expects it: longitude first, then latitude. */
  function EncodePair(fmt: real -> string, c: Coord): string
  {
    fmt(c.lon) + [ComponentSeparator] + fmt(c.lat)
  }

  /** Python's `sep.join(parts)`. */
  function Join(parts: seq<string>, sep: char): string
  {
    if |parts| == 0 then ""
    else if |parts| == 1 then parts[0]
    else parts[0] + [sep] + Join(parts[1..], sep)
  }

  /** Python's `s.split(sep)`: the pieces between occurrences of `sep`; never empty. */
  function Split(s: string, sep: char): (parts: seq<string>)
    ensures |parts| >= 1
  {
    if |s| == 0 then [""]
    else
      var rest := Split(s[1..], sep);
      if s[0] == sep then [""] + rest
      else [[s[0]] + rest[0]] + rest[1..]
  }

  /** The `coord_str` of the request: every waypoint encoded, separated by ';'. */
  function CoordinateString(fmt: real -> string, cs: seq<Coord>): string
  {
    Join(seq(|cs|, i requires 0 <= i < |cs| => EncodePair(fmt, cs[i])), CoordSeparator)
  }

  /** The URL `get_route` requests. */
  function RequestUrl(fmt: real -> string, start: Coord, via: Option<seq<Coord>>, end: Coord): (url: string)
    ensures |url| == |ServicePrefix| + |CoordinateString(fmt, Waypoints(start, via, end))| + |ServiceQuery|
    ensures url[..|ServicePrefix|] == ServicePrefix
    ensures url[|url| - |ServiceQuery|..] == ServiceQuery
    ensures url[|ServicePrefix|..|url| - |ServiceQuery|] == CoordinateString(fmt, Waypoints(start, via, end))
  {
    ServicePrefix + CoordinateString(fmt, Waypoints(start, via, end)) + ServiceQuery
  }

  /** The number formatter never writes either separator (true of Python's float text). */
  ghost predicate SeparatorFree(fmt: real -> string)
  {
    forall x :: CoordSeparator !in fmt(x) && ComponentSeparator !in fmt(x)
  }

  ghost predicate Injective(fmt: real -> string)
  {
    forall x, y :: fmt(x) == fmt(y) ==> x == y
  }

  lemma {:induction false} SplitWithoutSeparator(p: string, sep: char)
    requires sep !in p
    ensures Split(p, sep) == [p]
    decreases |p|
  {
    if |p| > 0 {
      SplitWithoutSeparator(p[1..], sep);
      assert [p[0]] + p[1..] == p;
    }
  }

  lemma {:induction false} SplitAtFirstSeparator(p: string, sep: char, t: string)
    requires sep !in p
    ensures Split(p + [sep] + t, sep) == [p] + Split(t, sep)
    decreases |p|
  {
    var s := p + [sep] + t;
    if |p| == 0 {
      assert s[1..] == t;
    } else {
      assert s[1..] == p[1..] + [sep] + t;
      SplitAtFirstSeparator(p[1..], sep, t);
      assert [p[0]] + p[1..] == p;
    }
  }

  /** Splitting undoes joining when no part contains the separator. */
  lemma {:induction false} SplitJoin(parts: seq<string>, sep: char)
    requires |parts| > 0
    requires forall k :: 0 <= k < |parts| ==> sep !in parts[k]
    ensures Split(Join(parts, sep), sep) == parts
    decreases |parts|
  {
    if |parts| == 1 {
      SplitWithoutSeparator(parts[0], sep);
    } else {
      SplitJoin(parts[1..], sep);
      SplitAtFirstSeparator(parts[0], sep, Join(parts[1..], sep));
      assert [parts[0]] + parts[1..] == parts;
    }
  }

  /** Each segment reads back as exactly two components, longitude then latitude. */
  lemma PairComponents(fmt: real -> string, c: Coord)
    requires SeparatorFree(fmt)
    ensures Split(EncodePair(fmt, c), ComponentSeparator) == [fmt(c.lon), fmt(c.lat)]
  {
    SplitAtFirstSeparator(fmt(c.lon), ComponentSeparator, fmt(c.lat));
    SplitWithoutSeparator(fmt(c.lat), ComponentSeparator);
  }

  /** The ';'-separated segments of a coordinate string are the encoded waypoints, in order. */
  lemma CoordinateSegments(fmt: real -> string, cs: seq<Coord>)
    requires SeparatorFree(fmt)
    requires |cs| > 0
    ensures |Split(CoordinateString(fmt, cs), CoordSeparator)| == |cs|
    ensures forall k :: 0 <= k < |cs| ==>
              Split(CoordinateString(fmt, cs), CoordSeparator)[k] == EncodePair(fmt, cs[k])
  {
    var parts := seq(|cs|, i requires 0 <= i < |cs| => EncodePair(fmt, cs[i]));
    forall k | 0 <= k < |parts| ensures CoordSeparator !in parts[k] {
      PairComponents(fmt, cs[k]);
    }
    SplitJoin(parts, CoordSeparator);
  }

  /**
   * The request carries |via| + 2 segments: the start, every via point in order, the end;
   * each written longitude first.
   */
  lemma RequestSegments(fmt: real -> string, start: Coord, via: Option<seq<Coord>>, end: Coord)
    requires SeparatorFree(fmt)
    ensures var segs := Split(CoordinateString(fmt, Waypoints(start, via, end)), CoordSeparator);
            && |segs| == |ViaPoints(via)| + 2
            && segs[0] == EncodePair(fmt, start)
            && segs[|segs| - 1] == EncodePair(fmt, end)
            && (forall k :: 0 <= k < |ViaPoints(via)| ==> segs[k + 1] == EncodePair(fmt, ViaPoints(via)[k]))
            && (forall k :: 0 <= k < |segs| ==>
                  Split(segs[k], ComponentSeparator)
                  == [fmt(Waypoints(start, via, end)[k].lon), fmt(Waypoints(start, via, end)[k].lat)])
  {
    var ws := Waypoints(start, via, end);
    CoordinateSegments(fmt, ws);
    forall k | 0 <= k < |ws|
      ensures Split(EncodePair(fmt, ws[k]), ComponentSeparator) == [fmt(ws[k].lon), fmt(ws[k].lat)]
    {
      PairComponents(fmt, ws[k]);
    }
  }

  /** With a faithful number formatter, different waypoint lists never give the same coordinate string. */
  lemma EncodingInjective(fmt: real -> string, cs: seq<Coord>, ds: seq<Coord>)
    requires SeparatorFree(fmt) && Injective(fmt)
    requires |cs| > 0 && |ds| > 0
    requires CoordinateString(fmt, cs) == CoordinateString(fmt, ds)
    ensures cs == ds
  {
    CoordinateSegments(fmt, cs);
    CoordinateSegments(fmt, ds);
    forall k | 0 <= k < |cs| ensures cs[k] == ds[k] {
      PairComponents(fmt, cs[k]);
      PairComponents(fmt, ds[k]);
      assert fmt(cs[k].lon) == fmt(ds[k].lon);
      assert fmt(cs[k].lat) == fmt(ds[k].lat);
    }
  }
}
