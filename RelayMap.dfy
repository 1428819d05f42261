/** The geometry bookkeeping of the `relay-map` element (js/RelayMap.js):
    the bounding box of the relay, the leg labels at each leg's middle
    coordinate, the zoom ranges of the exchange layers, and the highlight
    state the leg click and popup close handlers drive. The map library is
    represented by what the code reads from it (the ids of the rendered leg
    features) and what it writes to it (feature state, the popup). */
module RelayMap {
  import opened JsValues
  import opened GeoJson

  function Min(a: real, b: real): real { if a <= b then a else b }
  function Max(a: real, b: real): real { if a <= b then b else a }

  // --- Bounds -----------------------------------------------------------------

  /** A longitude/latitude box, as `LngLatBounds` holds it. */
  datatype Box = Box(west: real, south: real, east: real, north: real)

  /** A coordinate `LngLatBounds.extend` takes as a point: two or three
      components, and a latitude the `LngLat` constructor accepts. */
  predicate LngLatLike(p: Position)
  {
    (|p| == 2 || |p| == 3) && -90.0 <= p[1] <= 90.0
  }

  predicate PathLngLatLike(path: seq<Position>)
  {
    forall j :: 0 <= j < |path| ==> LngLatLike(path[j])
  }

  predicate LegsLngLatLike(legs: seq<Feature>)
    requires AllLegs(legs)
  {
    forall i :: 0 <= i < |legs| ==> PathLngLatLike(legs[i].geometry.path)
  }

  predicate Inside(b: Box, p: Position)
    requires LngLatLike(p)
  {
    b.west <= p[0] <= b.east && b.south <= p[1] <= b.north
  }

  /** `bounds.extend(coord)`: empty bounds (None) become the point itself. */
  function Extend(b: Option<Box>, p: Position): (r: Box)
    requires LngLatLike(p)
    ensures Inside(r, p)
  {
    match b
    case None => Box(p[0], p[1], p[0], p[1])
    case Some(c) => Box(Min(c.west, p[0]), Min(c.south, p[1]), Max(c.east, p[0]), Max(c.north, p[1]))
  }

  /** `coordinates.reduce((bounds, coord) => bounds.extend(coord), seed)`. */
  function PathBounds(seed: Option<Box>, path: seq<Position>): Option<Box>
    requires PathLngLatLike(path)
  {
    if path == [] then seed
    else Some(Extend(PathBounds(seed, path[..|path| - 1]), path[|path| - 1]))
  }

  /** The outer reduce, over the coordinates of every leg. */
  function LegsBounds(seed: Option<Box>, legs: seq<Feature>): Option<Box>
    requires AllLegs(legs) && LegsLngLatLike(legs)
  {
    if legs == [] then seed
    else PathBounds(LegsBounds(seed, legs[..|legs| - 1]), legs[|legs| - 1].geometry.path)
  }

  /** `new LngLatBounds(c, c)` for the first coordinate c of a path; an empty
      path gives `undefined`, which makes empty bounds. */
  function Seed(path: seq<Position>): Option<Box>
    requires PathLngLatLike(path)
  {
    if path == [] then None else Some(Extend(None, path[0]))
  }

  /** `relayBounds`. With no legs, `legsData[0].geometry` throws. */
  function RelayBounds(legs: seq<Feature>): (r: Outcome<Option<Box>>)
    requires AllLegs(legs) && LegsLngLatLike(legs)
    ensures r.Ok? <==> legs != []
  {
    if legs == [] then TypeError else Ok(LegsBounds(Seed(legs[0].geometry.path), legs))
  }

  /** Every coordinate of every leg, in order. */
  function AllCoordinates(legs: seq<Feature>): (ps: seq<Position>)
    requires AllLegs(legs) && LegsLngLatLike(legs)
    ensures forall j :: 0 <= j < |ps| ==> LngLatLike(ps[j])
  {
    if legs == [] then []
    else
      var init := AllCoordinates(legs[..|legs| - 1]);
      var last := legs[|legs| - 1].geometry.path;
      assert PathLngLatLike(last);
      init + last
  }

  /** The box spanned exactly by a set of coordinates: it contains each of
      them and each of its four edges is reached by one. */
  ghost predicate Spans(b: Box, ps: seq<Position>)
    requires forall j :: 0 <= j < |ps| ==> LngLatLike(ps[j])
  {
    && (forall j :: 0 <= j < |ps| ==> Inside(b, ps[j]))
    && (exists j :: 0 <= j < |ps| && |ps[j]| >= 2 && ps[j][0] == b.west)
    && (exists j :: 0 <= j < |ps| && |ps[j]| >= 2 && ps[j][1] == b.south)
    && (exists j :: 0 <= j < |ps| && |ps[j]| >= 2 && ps[j][0] == b.east)
    && (exists j :: 0 <= j < |ps| && |ps[j]| >= 2 && ps[j][1] == b.north)
  }

  /** What folding a list of coordinates into the bounds gives: nothing for
      no coordinates, else the box the coordinates span. */
  ghost predicate BoundsOf(r: Option<Box>, ps: seq<Position>)
    requires forall j :: 0 <= j < |ps| ==> LngLatLike(ps[j])
  {
    if ps == [] then r.None? else r.Some? && Spans(r.value, ps)
  }

  /** Folding more coordinates into the bounds of some coordinates gives the
      bounds of them all. */
  lemma {:induction false} PathBoundsExtends(seed: Option<Box>, before: seq<Position>, path: seq<Position>)
    requires forall j :: 0 <= j < |before| ==> LngLatLike(before[j])
    requires PathLngLatLike(path)
    requires BoundsOf(seed, before)
    ensures forall j :: 0 <= j < |before + path| ==> LngLatLike((before + path)[j])
    ensures BoundsOf(PathBounds(seed, path), before + path)
  {
    if path != [] {
      var init := path[..|path| - 1];
      var p := path[|path| - 1];
      assert PathLngLatLike(init);
      PathBoundsExtends(seed, before, init);
      assert before + path == (before + init) + [p];
      ExtendSpans(PathBounds(seed, init), before + init, p);
    } else {
      assert before + path == before;
    }
  }

  lemma ExtendSpans(b: Option<Box>, ps: seq<Position>, p: Position)
    requires forall j :: 0 <= j < |ps| ==> LngLatLike(ps[j])
    requires LngLatLike(p)
    requires BoundsOf(b, ps)
    ensures var qs := ps + [p];
            && (forall j :: 0 <= j < |qs| ==> LngLatLike(qs[j]))
            && BoundsOf(Some(Extend(b, p)), qs)
  {
    var qs := ps + [p];
    assert qs[|ps|] == p;
    var r := Extend(b, p);
    forall j | 0 <= j < |ps| ensures qs[j] == ps[j] && Inside(r, qs[j]) {
      assert qs[j] == ps[j];
    }
    if b.Some? {
      ExtendEdges(b.value, ps, p);
    } else {
      assert ps == [];
      assert qs[0] == p;
    }
  }

  /** Each edge of the extended box is reached by the new coordinate or by the
      coordinate that reached the edge before. */
  lemma ExtendEdges(c: Box, ps: seq<Position>, p: Position)
    requires forall j :: 0 <= j < |ps| ==> LngLatLike(ps[j])
    requires LngLatLike(p)
    requires ps != [] && Spans(c, ps)
    ensures var qs, r := ps + [p], Extend(Some(c), p);
            && (exists j :: 0 <= j < |qs| && |qs[j]| >= 2 && qs[j][0] == r.west)
            && (exists j :: 0 <= j < |qs| && |qs[j]| >= 2 && qs[j][1] == r.south)
            && (exists j :: 0 <= j < |qs| && |qs[j]| >= 2 && qs[j][0] == r.east)
            && (exists j :: 0 <= j < |qs| && |qs[j]| >= 2 && qs[j][1] == r.north)
  {
    var qs, r := ps + [p], Extend(Some(c), p);
    assert qs[|ps|] == p;
    var w :| 0 <= w < |ps| && |ps[w]| >= 2 && ps[w][0] == c.west;
    var s :| 0 <= s < |ps| && |ps[s]| >= 2 && ps[s][1] == c.south;
    var e :| 0 <= e < |ps| && |ps[e]| >= 2 && ps[e][0] == c.east;
    var n :| 0 <= n < |ps| && |ps[n]| >= 2 && ps[n][1] == c.north;
    assert qs[w] == ps[w] && qs[s] == ps[s] && qs[e] == ps[e] && qs[n] == ps[n];
    var w' := if p[0] < c.west then |ps| else w;
    var s' := if p[1] < c.south then |ps| else s;
    var e' := if p[0] > c.east then |ps| else e;
    var n' := if p[1] > c.north then |ps| else n;
    assert |qs[w']| >= 2 && qs[w'][0] == r.west;
    assert |qs[s']| >= 2 && qs[s'][1] == r.south;
    assert |qs[e']| >= 2 && qs[e'][0] == r.east;
    assert |qs[n']| >= 2 && qs[n'][1] == r.north;
  }

  /** The legs before the last one are still legs with LngLatLike paths. */
  lemma LegsPrefix(legs: seq<Feature>)
    requires legs != [] && AllLegs(legs) && LegsLngLatLike(legs)
    ensures AllLegs(legs[..|legs| - 1]) && LegsLngLatLike(legs[..|legs| - 1])
    ensures PathLngLatLike(legs[|legs| - 1].geometry.path)
  {
    var init := legs[..|legs| - 1];
    forall i | 0 <= i < |init| ensures IsLeg(init[i]) && PathLngLatLike(init[i].geometry.path) {
      assert init[i] == legs[i];
    }
  }

  lemma {:induction false} LegsBoundsAre(seed: Option<Box>, before: seq<Position>, legs: seq<Feature>)
    requires AllLegs(legs) && LegsLngLatLike(legs)
    requires forall j :: 0 <= j < |before| ==> LngLatLike(before[j])
    requires BoundsOf(seed, before)
    ensures PathLngLatLike(before + AllCoordinates(legs))
    ensures BoundsOf(LegsBounds(seed, legs), before + AllCoordinates(legs))
  {
    if legs == [] {
      assert before + AllCoordinates(legs) == before;
    } else {
      LegsPrefix(legs);
      LegsBoundsAre(seed, before, legs[..|legs| - 1]);
      LegsBoundsStep(seed, before, legs);
    }
  }

  /** The step of LegsBoundsAre: the last leg's path is folded into the
      bounds of everything before it. */
  lemma LegsBoundsStep(seed: Option<Box>, before: seq<Position>, legs: seq<Feature>)
    requires legs != [] && AllLegs(legs) && LegsLngLatLike(legs)
    requires AllLegs(legs[..|legs| - 1]) && LegsLngLatLike(legs[..|legs| - 1])
    requires PathLngLatLike(before + AllCoordinates(legs[..|legs| - 1]))
    requires BoundsOf(LegsBounds(seed, legs[..|legs| - 1]), before + AllCoordinates(legs[..|legs| - 1]))
    ensures PathLngLatLike(before + AllCoordinates(legs))
    ensures BoundsOf(LegsBounds(seed, legs), before + AllCoordinates(legs))
  {
    var init := legs[..|legs| - 1];
    var last := legs[|legs| - 1].geometry.path;
    assert PathLngLatLike(last);
    assert AllCoordinates(legs) == AllCoordinates(init) + last;
    assert LegsBounds(seed, legs) == PathBounds(LegsBounds(seed, init), last);
    var prefix := before + AllCoordinates(init);
    PathBoundsExtends(LegsBounds(seed, init), prefix, last);
    assert before + AllCoordinates(legs) == prefix + last;
  }

  /** `relayBounds` is the smallest box holding every coordinate of every leg
      (empty when no leg has a coordinate): seeding it with the first
      coordinate changes nothing. */
  lemma RelayBoundsSpans(legs: seq<Feature>)
    requires AllLegs(legs) && LegsLngLatLike(legs) && legs != []
    ensures BoundsOf(RelayBounds(legs).value, AllCoordinates(legs))
  {
    var first := legs[0].geometry.path;
    assert PathLngLatLike(first);
    var before := if first == [] then [] else [first[0]];
    assert BoundsOf(Seed(first), before) by {
      if first != [] {
        assert before[0] == first[0];
      }
    }
    LegsBoundsAre(Seed(first), before, legs);
    var all := AllCoordinates(legs);
    var b := LegsBounds(Seed(first), legs);
    if first != [] {
      FirstCoordinate(legs);
      // The seed coordinate is one of the legs' own coordinates.
      assert all[0] == first[0];
      assert BoundsOf(b, before + all);
      assert Spans(b.value, all) by {
        forall j | 0 <= j < |all| ensures Inside(b.value, all[j]) {
          assert (before + all)[j + 1] == all[j];
        }
        DropSeed(b.value, before + all, all);
      }
    } else {
      assert before + all == all;
    }
  }

  lemma {:induction false} FirstCoordinate(legs: seq<Feature>)
    requires AllLegs(legs) && LegsLngLatLike(legs) && legs != [] && legs[0].geometry.path != []
    ensures |AllCoordinates(legs)| > 0 && AllCoordinates(legs)[0] == legs[0].geometry.path[0]
  {
    if |legs| > 1 {
      var init := legs[..|legs| - 1];
      LegsPrefix(legs);
      assert init[0] == legs[0];
      FirstCoordinate(init);
    } else {
      assert legs[..0] == [];
    }
  }

  /** Dropping a leading coordinate that also appears later keeps the span. */
  lemma DropSeed(b: Box, withSeed: seq<Position>, all: seq<Position>)
    requires |withSeed| == |all| + 1 && withSeed[1..] == all && all != [] && withSeed[0] == all[0]
    requires forall j :: 0 <= j < |withSeed| ==> LngLatLike(withSeed[j])
    requires Spans(b, withSeed)
    ensures forall j :: 0 <= j < |all| ==> LngLatLike(all[j])
    ensures Spans(b, all)
  {
    forall j | 0 <= j < |all| ensures all[j] == withSeed[j + 1] {}
    var w :| 0 <= w < |withSeed| && withSeed[w][0] == b.west;
    var s :| 0 <= s < |withSeed| && withSeed[s][1] == b.south;
    var e :| 0 <= e < |withSeed| && withSeed[e][0] == b.east;
    var n :| 0 <= n < |withSeed| && withSeed[n][1] == b.north;
    assert all[if w == 0 then 0 else w - 1][0] == b.west;
    assert all[if s == 0 then 0 else s - 1][1] == b.south;
    assert all[if e == 0 then 0 else e - 1][0] == b.east;
    assert all[if n == 0 then 0 else n - 1][1] == b.north;
  }

  // --- Leg labels -------------------------------------------------------------

  /** A leg label: a point feature at the leg's middle coordinate (absent for
      a leg with no coordinates) carrying the leg's id and sequence. */
  datatype Label = Label(position: Option<Position>, id: int, sequence: seq<int>)

  function MidPoint(path: seq<Position>): (r: Option<Position>)
    ensures r.None? <==> path == []
  {
    if path == [] then None else Some(path[|path| / 2])
  }

  /** `legsData.map(...)` building the labels. */
  function LegLabels(legs: seq<Feature>): (labels: seq<Label>)
    requires AllLegs(legs)
    ensures |labels| == |legs|
    ensures forall i :: 0 <= i < |legs| ==>
              labels[i].id == legs[i].properties.id && labels[i].sequence == legs[i].properties.sequence
              && labels[i].position == MidPoint(legs[i].geometry.path)
  {
    seq(|legs|, i requires 0 <= i < |legs| =>
      Label(MidPoint(legs[i].geometry.path), legs[i].properties.id, legs[i].properties.sequence))
  }

  /** The label coordinate is the middle one: as many coordinates come before
      it as after it, or one more before when the count is even. */
  lemma MidPointIsMiddle(path: seq<Position>)
    requires path != []
    ensures var k := |path| / 2;
            && MidPoint(path) == Some(path[k])
            && (k == |path| - 1 - k || k == |path| - k)
  {
  }

  // --- Exchange layers --------------------------------------------------------

  /** A layer and the zoom range in which the map draws it: from `minzoom`
      up to, but not including, `maxzoom` (the map's defaults are 0 and 24). */
  datatype Layer = Layer(id: string, minzoom: int, maxzoom: int)

  predicate Visible(layer: Layer, zoom: real)
  {
    layer.minzoom as real <= zoom < layer.maxzoom as real
  }

  /** The exchange layers, in the order they are added. */
  function ExchangeLayers(useStationCodes: bool): (layers: seq<Layer>)
    ensures |layers| == 3 && layers[0].id == "exchange-circle" && layers[2] == Layer("exchange-name", 12, 24)
    ensures useStationCodes ==> layers[0].maxzoom == 12 && layers[1] == Layer("exchange-station-code", 12, 24)
    ensures !useStationCodes ==> layers[0].maxzoom == 24 && layers[1] == Layer("exchange-id", 9, 24)
  {
    [Layer("exchange-circle", 0, if useStationCodes then 12 else 24),
     if useStationCodes then Layer("exchange-station-code", 12, 24) else Layer("exchange-id", 9, 24),
     Layer("exchange-name", 12, 24)]
  }

  /** With station codes, the circle and the station-code badge take turns:
      at every zoom below the map's maximum exactly one of them is drawn. */
  lemma StationCodesTakeOver(zoom: real)
    requires 0.0 <= zoom < 24.0
    ensures var layers := ExchangeLayers(true);
            Visible(layers[0], zoom) != Visible(layers[1], zoom)
  {
  }

  /** Without station codes the circle is always drawn and the id label joins
      it from zoom 9; the names appear from zoom 12 in both modes. */
  lemma PlainExchangeLayers(zoom: real, useStationCodes: bool)
    requires 0.0 <= zoom < 24.0
    ensures var layers := ExchangeLayers(false);
            Visible(layers[0], zoom) && (Visible(layers[1], zoom) <==> zoom >= 9.0)
    ensures Visible(ExchangeLayers(useStationCodes)[2], zoom) <==> zoom >= 12.0
  {
  }

  // --- Highlight state and the popup -------------------------------------------

  /** The popup's anchor. */
  datatype Popup = Popup(lng: real, lat: real)

  /** The feature state after `highlightLeg(legId)` when `rendered` are the
      ids of the leg features the map currently draws. */
  function Highlighted(selected: map<int, bool>, legId: int, rendered: seq<int>): (s: map<int, bool>)
    ensures legId >= 0 ==> legId in s && s[legId]
    ensures forall j :: 0 <= j < |rendered| && rendered[j] != legId ==> rendered[j] in s && !s[rendered[j]]
    ensures forall k :: k in selected && !(legId >= 0 && k == legId) && !(k in rendered && k != legId) ==>
                         k in s && s[k] == selected[k]
    ensures forall k :: k in s ==> k in selected || (legId >= 0 && k == legId) || (k in rendered && k != legId)
  {
    if rendered == [] then
      if legId >= 0 then selected[legId := true] else selected
    else
      var init := rendered[..|rendered| - 1];
      var f := rendered[|rendered| - 1];
      var s := Highlighted(selected, legId, init);
      assert forall j :: 0 <= j < |init| ==> init[j] == rendered[j];
      assert forall k :: k in init ==> k in rendered;
      assert forall k :: k in rendered && k != f ==> k in init by {
        forall k | k in rendered && k != f ensures k in init {
          var j :| 0 <= j < |rendered| && rendered[j] == k;
          assert j < |init|;
          assert init[j] == k;
        }
      }
      if f != legId then s[f := false] else s
  }

  class RelayMapState {
    /** The `selected` feature state of the 'legs' source, by leg id. */
    var selected: map<int, bool>
    /** `currentLegPopup`. */
    var popup: Option<Popup>
    /** `currentActiveLeg`. */
    var activeLeg: Option<int>
    /** The elevation profile's data: the clicked leg's raw coordinates. */
    var elevationData: Option<seq<Position>>

    constructor()
      ensures selected == map[] && popup == None && activeLeg == None && elevationData == None
    {
      selected := map[];
      popup := None;
      activeLeg := None;
      elevationData := None;
    }

    /** `highlightLeg(legId)` once the map is ready. */
    method HighlightLeg(legId: int, rendered: seq<int>)
      modifies this
      ensures selected == Highlighted(old(selected), legId, rendered)
      ensures popup == old(popup) && activeLeg == old(activeLeg) && elevationData == old(elevationData)
    {
      if legId >= 0 {
        selected := selected[legId := true];
      }
      for j := 0 to |rendered|
        invariant selected == Highlighted(old(selected), legId, rendered[..j])
        invariant popup == old(popup) && activeLeg == old(activeLeg) && elevationData == old(elevationData)
      {
        assert rendered[..j + 1][..j] == rendered[..j];
        if rendered[j] != legId {
          selected := selected[rendered[j] := false];
        }
      }
      assert rendered[..|rendered|] == rendered;
    }

    /** The 'click' handler on the legs layer. `clicked` is the feature the
        map reports, `legs` the input legs and `rendered` the leg features
        drawn when the highlight runs. `profileInPopup` says whether the
        popup's HTML holds an `elevation-profile` element: the description
        written by common.js's `formatLegDescription` has none of its own, so
        it holds one only when the leg's notes or an exchange name carry
        that tag. Without it `querySelector` gives null and setting its style
        throws, before the elevation data, the zoom and the highlight. */
    method OnLegClick(clicked: Feature, legs: seq<Feature>, rendered: seq<int>, profileInPopup: bool)
      returns (outcome: Outcome<()>)
      requires IsLeg(clicked) && PathLngLatLike(clicked.geometry.path) && AllLegs(legs)
      modifies this
      ensures var path := clicked.geometry.path;
              var match_ := FirstWithId(legs, clicked.properties.id);
              && (path == [] ==>
                    outcome == TypeError
                    && selected == old(selected) && popup == old(popup) && elevationData == old(elevationData))
              && (path != [] ==>
                    var b := PathBounds(Seed(path), path).value;
                    && popup == Some(Popup(b.east, (b.south + b.north) / 2.0))
                    && (!profileInPopup ==>
                          outcome == TypeError && selected == old(selected) && elevationData == old(elevationData))
                    && (profileInPopup && match_.None? ==>
                          outcome == TypeError && selected == old(selected) && elevationData == old(elevationData))
                    && (profileInPopup && match_.Some? ==>
                          outcome == Ok(())
                          && elevationData == Some(match_.value.geometry.path)
                          && selected == Highlighted(old(selected), clicked.properties.id, rendered)))
      ensures activeLeg == old(activeLeg)
    {
      var coordinates := clicked.geometry.path;
      var bounds := PathBounds(Seed(coordinates), coordinates);
      if bounds.None? {
        // `getEast()` on empty bounds reads a property of undefined.
        return TypeError;
      }
      popup := Some(Popup(bounds.value.east, (bounds.value.south + bounds.value.north) / 2.0));
      if !profileInPopup {
        // `profile.style` on the null `querySelector` result.
        return TypeError;
      }
      var leg := FirstWithId(legs, clicked.properties.id);
      if leg.None? {
        return TypeError;
      }
      elevationData := Some(leg.value.geometry.path);
      HighlightLeg(clicked.properties.id, rendered);
      return Ok(());
    }

    /** The popup's 'close' handler. */
    method OnPopupClose(rendered: seq<int>)
      modifies this
      ensures selected == Highlighted(old(selected), -1, rendered)
      ensures activeLeg == None
      ensures popup == old(popup) && elevationData == old(elevationData)
    {
      HighlightLeg(-1, rendered);
      activeLeg := None;
    }
  }

  /** `legs.features.filter(l => l.properties.id === id)[0]`. */
  function FirstWithId(legs: seq<Feature>, id: int): (r: Option<Feature>)
    requires AllLegs(legs)
    ensures r.None? <==> forall i :: 0 <= i < |legs| ==> legs[i].properties.id != id
    ensures r.Some? ==> exists i :: 0 <= i < |legs| && legs[i] == r.value && r.value.properties.id == id
                                    && forall k :: 0 <= k < i ==> legs[k].properties.id != id
    ensures r.Some? ==> IsLeg(r.value)
  {
    if legs == [] then None
    else if legs[0].properties.id == id then Some(legs[0])
    else
      var r := FirstWithId(legs[1..], id);
      assert forall i :: 1 <= i < |legs| ==> legs[i] == legs[1..][i - 1];
      if r.Some? then
        var i :| 0 <= i < |legs[1..]| && legs[1..][i] == r.value && r.value.properties.id == id
                 && forall k :: 0 <= k < i ==> legs[1..][k].properties.id != id;
        assert legs[i + 1] == r.value;
        r
      else
        r
  }

  /** The popup is anchored on the clicked leg's east edge, halfway up its
      box, and that box is the one the leg's coordinates span. */
  lemma PopupAnchor(path: seq<Position>)
    requires PathLngLatLike(path) && path != []
    ensures var b := PathBounds(Seed(path), path);
            && b.Some? && Spans(b.value, path)
            && b.value.south <= (b.value.south + b.value.north) / 2.0 <= b.value.north
  {
    var seed := [path[0]];
    assert seed[0] == path[0];
    assert BoundsOf(Seed(path), seed);
    PathBoundsExtends(Seed(path), seed, path);
    var b := PathBounds(Seed(path), path).value;
    assert (seed + path)[1..] == path;
    DropSeed(b, seed + path, path);
  }

  /** After a highlight, the highlighted leg is the only selected one among
      the features drawn; clearing with -1 deselects every drawn feature. */
  lemma HighlightIsExclusive(selected: map<int, bool>, legId: int, rendered: seq<int>)
    requires legId >= 0
    ensures var s := Highlighted(selected, legId, rendered);
            forall k :: k in rendered ==> k in s && (s[k] <==> k == legId)
    ensures var s := Highlighted(selected, -1, rendered);
            forall k :: k in rendered && k >= 0 ==> k in s && !s[k]
  {
    var s := Highlighted(selected, legId, rendered);
    forall k | k in rendered ensures k in s && (s[k] <==> k == legId) {
      var j :| 0 <= j < |rendered| && rendered[j] == k;
    }
    var c := Highlighted(selected, -1, rendered);
    forall k | k in rendered && k >= 0 ensures k in c && !c[k] {
      var j :| 0 <= j < |rendered| && rendered[j] == k;
    }
  }

  /** Highlighting twice with the same features drawn changes nothing more. */
  lemma HighlightIdempotent(selected: map<int, bool>, legId: int, rendered: seq<int>)
    ensures Highlighted(Highlighted(selected, legId, rendered), legId, rendered) == Highlighted(selected, legId, rendered)
  {
    var once := Highlighted(selected, legId, rendered);
    var twice := Highlighted(once, legId, rendered);
    forall k | k in twice ensures k in once && twice[k] == once[k] {
      if k == legId && legId >= 0 {
      } else if k in rendered {
        var j :| 0 <= j < |rendered| && rendered[j] == k;
      }
    }
    forall k | k in once ensures k in twice {
      if k in rendered {
        var j :| 0 <= j < |rendered| && rendered[j] == k;
      }
    }
  }

  /** Only drawn features are cleared: a leg selected earlier that is not
      drawn now stays selected next to the newly highlighted one. */
  lemma StaleHighlightRemains()
    ensures var s := Highlighted(map[1 := true], 2, [2]);
            1 in s && s[1] && 2 in s && s[2]
  {
  }
}
