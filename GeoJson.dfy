/** The GeoJSON shapes the relay pages consume: legs are LineString features,
    exchanges are Point features, both carried in feature collections. */
module GeoJson {

  /** A GeoJSON position: [longitude, latitude] or [longitude, latitude, elevation]. */
  type Position = seq<real>

  datatype Geometry =
    | LineString(path: seq<Position>)
    | Point(position: Position)
    | OtherGeometry(kind: string)  // Polygon, MultiLineString, ...: neither a leg nor an exchange

  /** The feature properties the code reads. `sequence` is a list because the
      leg-label layer reads its first element. */
  datatype Properties = Properties(
    id: int,
    sequence: seq<int>,
    startExchange: int,
    endExchange: int,
    name: string)

  datatype Feature = Feature(geometry: Geometry, properties: Properties)

  datatype FeatureCollection = FeatureCollection(kind: string, features: seq<Feature>)

  const FeatureCollectionType: string := "FeatureCollection"

  predicate IsLeg(f: Feature) { f.geometry.LineString? }

  predicate IsExchange(f: Feature) { f.geometry.Point? }

  predicate AllLegs(fs: seq<Feature>) { forall i :: 0 <= i < |fs| ==> IsLeg(fs[i]) }

  predicate AllExchanges(fs: seq<Feature>) { forall i :: 0 <= i < |fs| ==> IsExchange(fs[i]) }
}
