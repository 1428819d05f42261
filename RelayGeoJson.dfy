/** `processRelayGeoJSON` (js/common.js): split a relay's features into legs
    (LineString) and exchanges (Point), and order each list with
    `Array.prototype.sort` and a three-way comparator on one property. */
module RelayGeoJson {
  import opened GeoJson

  /** The property each list is ordered by. */
  datatype SortKey = ByStartExchange | ById

  function Key(f: Feature, k: SortKey): int
  {
    match k
    case ByStartExchange => f.properties.startExchange
    case ById => f.properties.id
  }

  /** The comparator handed to `sort`: -1, 0 or 1 as the keys compare. */
  function Compare(a: Feature, b: Feature, k: SortKey): (c: int)
    ensures c in {-1, 0, 1}
    ensures c < 0 <==> Key(a, k) < Key(b, k)
    ensures c == 0 <==> Key(a, k) == Key(b, k)
    ensures c > 0 <==> Key(a, k) > Key(b, k)
  {
    if Key(a, k) < Key(b, k) then -1
    else if Key(a, k) > Key(b, k) then 1
    else 0
  }

  predicate SortedBy(s: seq<Feature>, k: SortKey)
  {
    forall i, j :: 0 <= i < j < |s| ==> Compare(s[i], s[j], k) <= 0
  }

  /** Stable insertion: x goes before the first element that is not smaller. */
  function Insert(x: Feature, s: seq<Feature>, k: SortKey): (r: seq<Feature>)
    ensures multiset(r) == multiset(s) + multiset{x}
    ensures SortedBy(s, k) ==> SortedBy(r, k)
  {
    if s == [] || Compare(x, s[0], k) <= 0 then
      InsertFrontSorted(x, s, k);
      [x] + s
    else
      assert s == [s[0]] + s[1..];
      var rest := Insert(x, s[1..], k);
      InsertConsSorted(x, s, rest, k);
      [s[0]] + rest
  }

  lemma InsertFrontSorted(x: Feature, s: seq<Feature>, k: SortKey)
    requires s == [] || Compare(x, s[0], k) <= 0
    ensures SortedBy(s, k) ==> SortedBy([x] + s, k)
  {
    if SortedBy(s, k) {
      var r := [x] + s;
      forall i, j | 0 <= i < j < |r| ensures Compare(r[i], r[j], k) <= 0 {
        if i > 0 {
          assert r[i] == s[i - 1] && r[j] == s[j - 1];
        } else if j > 1 {
          assert Compare(s[0], s[j - 1], k) <= 0;
        }
      }
    }
  }

  lemma InsertConsSorted(x: Feature, s: seq<Feature>, rest: seq<Feature>, k: SortKey)
    requires s != [] && Compare(x, s[0], k) > 0
    requires multiset(rest) == multiset(s[1..]) + multiset{x}
    requires SortedBy(s[1..], k) ==> SortedBy(rest, k)
    ensures SortedBy(s, k) ==> SortedBy([s[0]] + rest, k)
  {
    if SortedBy(s, k) {
      assert SortedBy(s[1..], k) by {
        forall i, j | 0 <= i < j < |s[1..]| ensures Compare(s[1..][i], s[1..][j], k) <= 0 {
          assert s[1..][i] == s[i + 1] && s[1..][j] == s[j + 1];
        }
      }
      var r := [s[0]] + rest;
      forall j | 0 <= j < |rest| ensures Compare(s[0], rest[j], k) <= 0 {
        var y := rest[j];
        assert y in multiset(rest);
        if y != x {
          assert y in multiset(s[1..]);
          var m :| 0 <= m < |s[1..]| && s[1..][m] == y;
          assert s[m + 1] == y;
        }
      }
      forall i, j | 0 <= i < j < |r| ensures Compare(r[i], r[j], k) <= 0 {
        if i > 0 {
          assert r[i] == rest[i - 1] && r[j] == rest[j - 1];
        } else {
          assert r[j] == rest[j - 1];
        }
      }
    }
  }

  /** The order a stable `Array.prototype.sort` (ES2019 and later) produces
      with `Compare`: the stable sort is unique, so insertion sort gives it. */
  function SortBy(s: seq<Feature>, k: SortKey): (r: seq<Feature>)
    ensures multiset(r) == multiset(s)
    ensures SortedBy(r, k)
  {
    if s == [] then []
    else
      assert s == [s[0]] + s[1..];
      Insert(s[0], SortBy(s[1..], k), k)
  }

  /** The features of s whose key is v, in their order in s. */
  function WithKey(s: seq<Feature>, k: SortKey, v: int): seq<Feature>
  {
    if s == [] then []
    else (if Key(s[0], k) == v then [s[0]] else []) + WithKey(s[1..], k, v)
  }

  lemma {:induction false} InsertWithKey(x: Feature, s: seq<Feature>, k: SortKey, v: int)
    ensures WithKey(Insert(x, s, k), k, v)
         == (if Key(x, k) == v then [x] else []) + WithKey(s, k, v)
  {
    if s == [] || Compare(x, s[0], k) <= 0 {
      InsertFrontWithKey(x, s, k, v);
    } else {
      InsertWithKey(x, s[1..], k, v);
      InsertAfterWithKey(x, s, k, v);
    }
  }

  lemma InsertFrontWithKey(x: Feature, s: seq<Feature>, k: SortKey, v: int)
    requires s == [] || Compare(x, s[0], k) <= 0
    ensures WithKey(Insert(x, s, k), k, v)
         == (if Key(x, k) == v then [x] else []) + WithKey(s, k, v)
  {
    var r := [x] + s;
    assert Insert(x, s, k) == r;
    assert r[0] == x && r[1..] == s;
  }

  lemma InsertAfterWithKey(x: Feature, s: seq<Feature>, k: SortKey, v: int)
    requires s != [] && Compare(x, s[0], k) > 0
    requires WithKey(Insert(x, s[1..], k), k, v)
          == (if Key(x, k) == v then [x] else []) + WithKey(s[1..], k, v)
    ensures WithKey(Insert(x, s, k), k, v)
         == (if Key(x, k) == v then [x] else []) + WithKey(s, k, v)
  {
    var rest := Insert(x, s[1..], k);
    var r := [s[0]] + rest;
    assert Insert(x, s, k) == r;
    assert r[0] == s[0] && r[1..] == rest;
    if Key(x, k) == v {
      assert Key(s[0], k) != v;
      assert WithKey(r, k, v) == [] + WithKey(rest, k, v) == WithKey(rest, k, v);
      assert WithKey(s, k, v) == [] + WithKey(s[1..], k, v) == WithKey(s[1..], k, v);
    } else {
      var front := if Key(s[0], k) == v then [s[0]] else [];
      assert WithKey(rest, k, v) == [] + WithKey(s[1..], k, v) == WithKey(s[1..], k, v);
      assert WithKey(r, k, v) == front + WithKey(rest, k, v);
      assert WithKey(s, k, v) == front + WithKey(s[1..], k, v);
    }
  }

  /** Ties keep their input order: for every key value, the features carrying
      it appear in the sorted list exactly as in the input. */
  lemma {:induction false} SortByStable(s: seq<Feature>, k: SortKey, v: int)
    ensures WithKey(SortBy(s, k), k, v) == WithKey(s, k, v)
  {
    if s != [] {
      InsertWithKey(s[0], SortBy(s[1..], k), k, v);
      SortByStable(s[1..], k, v);
    }
  }

  /** The LineString features of fs, in order. */
  function LineStrings(fs: seq<Feature>): seq<Feature>
  {
    if fs == [] then []
    else LineStrings(fs[..|fs| - 1]) + (if IsLeg(fs[|fs| - 1]) then [fs[|fs| - 1]] else [])
  }

  /** The Point features of fs, in order. */
  function Points(fs: seq<Feature>): seq<Feature>
  {
    if fs == [] then []
    else Points(fs[..|fs| - 1]) + (if IsExchange(fs[|fs| - 1]) then [fs[|fs| - 1]] else [])
  }

  /** The features that are neither legs nor exchanges. */
  function Others(fs: seq<Feature>): seq<Feature>
  {
    if fs == [] then []
    else Others(fs[..|fs| - 1])
         + (if !IsLeg(fs[|fs| - 1]) && !IsExchange(fs[|fs| - 1]) then [fs[|fs| - 1]] else [])
  }

  /** Every LineString lands in the legs and every Point in the exchanges, as
      often as it occurs; nothing else lands in either, and the three parts
      together are the input. */
  lemma Partition(fs: seq<Feature>)
    ensures forall f :: multiset(LineStrings(fs))[f] == if IsLeg(f) then multiset(fs)[f] else 0
    ensures forall f :: multiset(Points(fs))[f] == if IsExchange(f) then multiset(fs)[f] else 0
    ensures multiset(LineStrings(fs)) + multiset(Points(fs)) + multiset(Others(fs)) == multiset(fs)
  {
    LineStringsCount(fs);
    PointsCount(fs);
    PartsMakeWhole(fs);
  }

  lemma {:induction false} LineStringsCount(fs: seq<Feature>)
    ensures forall f :: multiset(LineStrings(fs))[f] == if IsLeg(f) then multiset(fs)[f] else 0
  {
    if fs != [] {
      var init, last := fs[..|fs| - 1], fs[|fs| - 1];
      assert fs == init + [last];
      assert multiset(fs) == multiset(init) + multiset{last};
      LineStringsCount(init);
    }
  }

  lemma {:induction false} PointsCount(fs: seq<Feature>)
    ensures forall f :: multiset(Points(fs))[f] == if IsExchange(f) then multiset(fs)[f] else 0
  {
    if fs != [] {
      var init, last := fs[..|fs| - 1], fs[|fs| - 1];
      assert fs == init + [last];
      assert multiset(fs) == multiset(init) + multiset{last};
      PointsCount(init);
    }
  }

  lemma {:induction false} PartsMakeWhole(fs: seq<Feature>)
    ensures multiset(LineStrings(fs)) + multiset(Points(fs)) + multiset(Others(fs)) == multiset(fs)
  {
    if fs != [] {
      var init, last := fs[..|fs| - 1], fs[|fs| - 1];
      assert fs == init + [last];
      assert multiset(fs) == multiset(init) + multiset{last};
      PartsMakeWhole(init);
    }
  }

  method ProcessRelayGeoJson(relay: FeatureCollection) returns (legs: FeatureCollection, exchanges: FeatureCollection)
    ensures legs.kind == FeatureCollectionType && exchanges.kind == FeatureCollectionType
    ensures legs.features == SortBy(LineStrings(relay.features), ByStartExchange)
    ensures exchanges.features == SortBy(Points(relay.features), ById)
  {
    var legList: seq<Feature> := [];
    var exchangeList: seq<Feature> := [];
    for i := 0 to |relay.features|
      invariant legList == LineStrings(relay.features[..i])
      invariant exchangeList == Points(relay.features[..i])
    {
      var feature := relay.features[i];
      assert relay.features[..i + 1][..i] == relay.features[..i];
      if feature.geometry.LineString? {
        legList := legList + [feature];
      } else if feature.geometry.Point? {
        exchangeList := exchangeList + [feature];
      }
    }
    assert relay.features[..|relay.features|] == relay.features;
    legs := FeatureCollection(FeatureCollectionType, SortBy(legList, ByStartExchange));
    exchanges := FeatureCollection(FeatureCollectionType, SortBy(exchangeList, ById));
  }

  /** What the two collections hold, stated on the input alone: each is a
      permutation of the features of its geometry type, sorted by its key,
      with ties in input order. */
  lemma ProcessRelayGeoJsonResult(fs: seq<Feature>, v: int)
    ensures var legs := SortBy(LineStrings(fs), ByStartExchange);
            && SortedBy(legs, ByStartExchange)
            && (forall f :: multiset(legs)[f] == if IsLeg(f) then multiset(fs)[f] else 0)
            && WithKey(legs, ByStartExchange, v) == WithKey(LineStrings(fs), ByStartExchange, v)
    ensures var exchanges := SortBy(Points(fs), ById);
            && SortedBy(exchanges, ById)
            && (forall f :: multiset(exchanges)[f] == if IsExchange(f) then multiset(fs)[f] else 0)
            && WithKey(exchanges, ById, v) == WithKey(Points(fs), ById, v)
  {
    Partition(fs);
    SortByStable(LineStrings(fs), ByStartExchange, v);
    SortByStable(Points(fs), ById, v);
  }

  /** The lists handed on to the map and the GPX export have the geometry the
      GeoJSON contract promises. */
  lemma {:induction false} PartsHaveTheirGeometry(fs: seq<Feature>)
    ensures AllLegs(SortBy(LineStrings(fs), ByStartExchange))
    ensures AllExchanges(SortBy(Points(fs), ById))
  {
    Partition(fs);
    var legs := SortBy(LineStrings(fs), ByStartExchange);
    var exchanges := SortBy(Points(fs), ById);
    forall i | 0 <= i < |legs| ensures IsLeg(legs[i]) {
      assert multiset(legs)[legs[i]] > 0;
    }
    forall i | 0 <= i < |exchanges| ensures IsExchange(exchanges[i]) {
      assert multiset(exchanges)[exchanges[i]] > 0;
    }
  }
}
