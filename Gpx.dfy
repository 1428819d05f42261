/** The GPX export of `relayToGPX` and the leg-id stamping of
    `createLegDetailsTable` (js/common.js). The export is modelled as the
    sequence of `<trkpt>` and `<wpt>` elements it writes, one per line, in
    order. */
module Gpx {
  import opened JsValues
  import opened GeoJson

  /** `<trkpt lat=".." lon="..">`, with an `<ele>` child or without one. A
      missing array element is interpolated as the text "undefined" (None). */
  datatype TrackPoint = TrackPoint(lat: Option<real>, lon: Option<real>, ele: Option<real>)

  /** `<wpt lat=".." lon=".."><name>..</name></wpt>` */
  datatype Waypoint = Waypoint(lat: Option<real>, lon: Option<real>, name: string)

  function At(p: Position, i: nat): Option<real>
  {
    if i < |p| then Some(p[i]) else None
  }

  /** One coordinate: latitude is `coord[1]`, longitude `coord[0]`, and the
      elevation is written only when `coord.length === 3`. */
  function PointOf(coord: Position): TrackPoint
  {
    TrackPoint(At(coord, 1), At(coord, 0), if |coord| == 3 then Some(coord[2]) else None)
  }

  function WaypointOf(exchange: Feature): Waypoint
    requires IsExchange(exchange)
  {
    var coords := exchange.geometry.position;
    Waypoint(At(coords, 1), At(coords, 0), exchange.properties.name)
  }

  function PointsOf(path: seq<Position>): (ps: seq<TrackPoint>)
    ensures |ps| == |path|
    ensures forall j :: 0 <= j < |path| ==> ps[j] == PointOf(path[j])
  {
    if path == [] then [] else PointsOf(path[..|path| - 1]) + [PointOf(path[|path| - 1])]
  }

  /** The track points of all legs: leg after leg, coordinate after coordinate. */
  function TrackPoints(legs: seq<Feature>): seq<TrackPoint>
    requires AllLegs(legs)
  {
    if legs == [] then []
    else TrackPoints(legs[..|legs| - 1]) + PointsOf(legs[|legs| - 1].geometry.path)
  }

  function Waypoints(exchanges: seq<Feature>): seq<Waypoint>
    requires AllExchanges(exchanges)
  {
    if exchanges == [] then []
    else Waypoints(exchanges[..|exchanges| - 1]) + [WaypointOf(exchanges[|exchanges| - 1])]
  }

  /** The number of coordinates of all legs. */
  function CoordinateCount(legs: seq<Feature>): nat
    requires AllLegs(legs)
  {
    if legs == [] then 0
    else CoordinateCount(legs[..|legs| - 1]) + |legs[|legs| - 1].geometry.path|
  }

  /** The two loops of relayToGPX. */
  method RelayToGpx(legs: seq<Feature>, exchanges: seq<Feature>)
    returns (points: seq<TrackPoint>, waypoints: seq<Waypoint>)
    requires AllLegs(legs) && AllExchanges(exchanges)
    ensures points == TrackPoints(legs)
    ensures waypoints == Waypoints(exchanges)
  {
    points := [];
    for i := 0 to |legs|
      invariant points == TrackPoints(legs[..i])
    {
      assert legs[..i + 1][..i] == legs[..i];
      var coords := legs[i].geometry.path;
      ghost var before := points;
      for j := 0 to |coords|
        invariant points == before + PointsOf(coords[..j])
      {
        assert coords[..j + 1][..j] == coords[..j];
        var coord := coords[j];
        if |coord| == 3 {
          points := points + [TrackPoint(At(coord, 1), At(coord, 0), Some(coord[2]))];
        } else {
          points := points + [TrackPoint(At(coord, 1), At(coord, 0), None)];
        }
      }
      assert coords[..|coords|] == coords;
    }
    assert legs[..|legs|] == legs;
    waypoints := [];
    for i := 0 to |exchanges|
      invariant waypoints == Waypoints(exchanges[..i])
    {
      assert exchanges[..i + 1][..i] == exchanges[..i];
      var coords := exchanges[i].geometry.position;
      waypoints := waypoints + [Waypoint(At(coords, 1), At(coords, 0), exchanges[i].properties.name)];
    }
    assert exchanges[..|exchanges|] == exchanges;
  }

  /** Exactly one track point per coordinate, and the point for coordinate j of
      leg i sits after the points of the legs before it. */
  lemma {:induction false} TrackPointAt(legs: seq<Feature>, i: nat, j: nat)
    requires AllLegs(legs) && i < |legs| && j < |legs[i].geometry.path|
    ensures |TrackPoints(legs)| == CoordinateCount(legs)
    ensures AllLegs(legs[..i]) && CoordinateCount(legs[..i]) + j < CoordinateCount(legs)
    ensures TrackPoints(legs)[CoordinateCount(legs[..i]) + j] == PointOf(legs[i].geometry.path[j])
  {
    var init, last := legs[..|legs| - 1], legs[|legs| - 1];
    assert AllLegs(init);
    TrackPointCount(init);
    if i == |legs| - 1 {
      assert legs[..i] == init;
    } else {
      TrackPointAt(init, i, j);
      assert init[..i] == legs[..i];
      assert init[i] == legs[i];
    }
  }

  lemma {:induction false} TrackPointCount(legs: seq<Feature>)
    requires AllLegs(legs)
    ensures |TrackPoints(legs)| == CoordinateCount(legs)
  {
    if legs != [] {
      assert AllLegs(legs[..|legs| - 1]);
      TrackPointCount(legs[..|legs| - 1]);
    }
  }

  /** The number of points written with an `<ele>` child. */
  function WithElevation(ps: seq<TrackPoint>): nat
  {
    if ps == [] then 0 else WithElevation(ps[..|ps| - 1]) + (if ps[|ps| - 1].ele.Some? then 1 else 0)
  }

  /** The number of three-component coordinates of a path. */
  function ThreeComponent(path: seq<Position>): nat
  {
    if path == [] then 0 else ThreeComponent(path[..|path| - 1]) + (if |path[|path| - 1]| == 3 then 1 else 0)
  }

  function ThreeComponentCount(legs: seq<Feature>): nat
    requires AllLegs(legs)
  {
    if legs == [] then 0
    else ThreeComponentCount(legs[..|legs| - 1]) + ThreeComponent(legs[|legs| - 1].geometry.path)
  }

  lemma {:induction false} WithElevationAppend(a: seq<TrackPoint>, b: seq<TrackPoint>)
    ensures WithElevation(a + b) == WithElevation(a) + WithElevation(b)
  {
    if b != [] {
      assert (a + b)[..|a + b| - 1] == a + b[..|b| - 1];
      WithElevationAppend(a, b[..|b| - 1]);
    } else {
      assert a + b == a;
    }
  }

  lemma {:induction false} PathElevations(path: seq<Position>)
    ensures WithElevation(PointsOf(path)) == ThreeComponent(path)
  {
    if path != [] {
      var init := path[..|path| - 1];
      PathElevations(init);
      WithElevationAppend(PointsOf(init), [PointOf(path[|path| - 1])]);
      assert WithElevation([PointOf(path[|path| - 1])]) == if |path[|path| - 1]| == 3 then 1 else 0 by {
        assert [PointOf(path[|path| - 1])][..0] == [];
      }
    }
  }

  /** An `<ele>` child is written exactly for the three-component
      coordinates: as many track points carry one as there are such
      coordinates. */
  lemma {:induction false} ElevationCount(legs: seq<Feature>)
    requires AllLegs(legs)
    ensures WithElevation(TrackPoints(legs)) == ThreeComponentCount(legs)
  {
    if legs != [] {
      var init := legs[..|legs| - 1];
      assert AllLegs(init);
      ElevationCount(init);
      WithElevationAppend(TrackPoints(init), PointsOf(legs[|legs| - 1].geometry.path));
      PathElevations(legs[|legs| - 1].geometry.path);
    }
  }

  /** Exactly one waypoint per exchange, in order. */
  lemma {:induction false} WaypointAt(exchanges: seq<Feature>, i: nat)
    requires AllExchanges(exchanges) && i < |exchanges|
    ensures |Waypoints(exchanges)| == |exchanges|
    ensures Waypoints(exchanges)[i] == WaypointOf(exchanges[i])
  {
    var init := exchanges[..|exchanges| - 1];
    assert AllExchanges(init);
    WaypointCount(init);
    if i < |init| {
      WaypointAt(init, i);
    }
  }

  lemma {:induction false} WaypointCount(exchanges: seq<Feature>)
    requires AllExchanges(exchanges)
    ensures |Waypoints(exchanges)| == |exchanges|
  {
    if exchanges != [] {
      assert AllExchanges(exchanges[..|exchanges| - 1]);
      WaypointCount(exchanges[..|exchanges| - 1]);
    }
  }

  /** A single two-point leg with an elevation on one point only: one
      `<trkpt>` with an `<ele>` child and one without. */
  lemma ExampleMixedElevation(props: Properties, lon: real, lat: real, ele: real)
    ensures var leg := Feature(LineString([[lon, lat, ele], [lon, lat]]), props);
            var ps := TrackPoints([leg]);
            ps == [TrackPoint(Some(lat), Some(lon), Some(ele)), TrackPoint(Some(lat), Some(lon), None)]
  {
    var leg := Feature(LineString([[lon, lat, ele], [lon, lat]]), props);
    assert [leg][..0] == [];
    assert PointsOf([[lon, lat, ele], [lon, lat]])
        == [PointOf([lon, lat, ele]), PointOf([lon, lat])];
  }

  // --- createLegDetailsTable: stamping leg ids -----------------------------------

  /** `legData.id = legData.start_exchange + 1`, written into the leg's own
      properties object. */
  function Stamp(leg: Feature): Feature
  {
    leg.(properties := leg.properties.(id := leg.properties.startExchange + 1))
  }

  predicate HasExchanges(leg: Feature, exchangeCount: nat)
  {
    0 <= leg.properties.startExchange < exchangeCount && 0 <= leg.properties.endExchange < exchangeCount
  }

  /** The first leg whose start or end exchange indexes past the exchanges
      (reading `.properties` of `undefined` then throws), or |legs|. */
  function FirstUnmatched(legs: seq<Feature>, exchangeCount: nat): (p: nat)
    ensures p <= |legs|
    ensures forall i :: 0 <= i < p ==> HasExchanges(legs[i], exchangeCount)
    ensures p < |legs| ==> !HasExchanges(legs[p], exchangeCount)
  {
    if legs == [] || !HasExchanges(legs[0], exchangeCount) then 0
    else 1 + FirstUnmatched(legs[1..], exchangeCount)
  }

  function PropertiesOf(legs: seq<Feature>): (ps: seq<Properties>)
    ensures |ps| == |legs| && forall i :: 0 <= i < |legs| ==> ps[i] == legs[i].properties
  {
    if legs == [] then [] else PropertiesOf(legs[..|legs| - 1]) + [legs[|legs| - 1].properties]
  }

  /** The loop of createLegDetailsTable, on values: the legs as they are
      afterwards, and the `data` list the loop builds (the function never
      reads it, so only the stamping and the throw are observable). The leg
      that throws has already been stamped. */
  method StampLegIds(legs: seq<Feature>, exchangeCount: nat) returns (stamped: seq<Feature>, data: Outcome<seq<Properties>>)
    ensures var p := FirstUnmatched(legs, exchangeCount);
            && |stamped| == |legs|
            && (forall i :: 0 <= i < |legs| ==> stamped[i] == if i <= p then Stamp(legs[i]) else legs[i])
            && data == if p == |legs| then Ok(PropertiesOf(stamped)) else TypeError
  {
    stamped := legs;
    var rows: seq<Properties> := [];
    for i := 0 to |legs|
      invariant i <= FirstUnmatched(legs, exchangeCount)
      invariant |stamped| == |legs|
      invariant forall k :: 0 <= k < |legs| ==> stamped[k] == if k < i then Stamp(legs[k]) else legs[k]
      invariant rows == PropertiesOf(stamped[..i])
    {
      FirstUnmatchedAt(legs, exchangeCount, i);
      stamped := stamped[i := Stamp(legs[i])];
      assert stamped[..i + 1][..i] == stamped[..i];
      rows := rows + [stamped[i].properties];
      if !HasExchanges(legs[i], exchangeCount) {
        return stamped, TypeError;
      }
    }
    assert stamped[..|legs|] == stamped;
    data := Ok(rows);
  }

  lemma {:induction false} FirstUnmatchedAt(legs: seq<Feature>, exchangeCount: nat, i: nat)
    requires i <= FirstUnmatched(legs, exchangeCount) && i < |legs|
    ensures HasExchanges(legs[i], exchangeCount) ==> i < FirstUnmatched(legs, exchangeCount)
    ensures !HasExchanges(legs[i], exchangeCount) ==> i == FirstUnmatched(legs, exchangeCount)
  {
    if i > 0 {
      FirstUnmatchedAt(legs[1..], exchangeCount, i - 1);
    }
  }

  /** When every leg finds its exchanges, each row's id is one more than its
      start exchange and nothing else about the leg changes. */
  lemma StampedRows(legs: seq<Feature>, exchangeCount: nat, i: nat)
    requires forall k :: 0 <= k < |legs| ==> HasExchanges(legs[k], exchangeCount)
    requires i < |legs|
    ensures FirstUnmatched(legs, exchangeCount) == |legs|
    ensures var row := Stamp(legs[i]).properties;
            && row.id == legs[i].properties.startExchange + 1
            && row.(id := legs[i].properties.id) == legs[i].properties
  {
  }
}
