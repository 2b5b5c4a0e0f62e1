/** The values the conversion pipeline works on: JSON documents, geometries,
    features and datasets (a GeoDataFrame as geopandas hands it over). */
module GeoData {
  import opened Wrappers

  /** Name of the column that holds each feature's geometry. */
  const GeometryColumn: string := "geometry"

  /** A JSON value, as `json.loads` produces it. */
  datatype Json =
    | JNull
    | JBool(b: bool)
    | JNumber(n: real)
    | JString(s: string)
    | JArray(items: seq<Json>)
    | JObject(members: map<string, Json>)

  /** A top-level JSON object: the GeoJSON document that is written out. */
  type Document = map<string, Json>

  datatype Position = Position(x: real, y: real)

  /** A (possibly multi-part) geometry; its coordinates are in the dataset's CRS. */
  datatype Geometry = Geometry(kind: string, parts: seq<seq<Position>>)

  /** One row of the dataset: its geometry and its attribute values by column name. */
  datatype Feature = Feature(geometry: Geometry, properties: map<string, Json>)

  /** A dataset: its column names in order (the geometry column among them), its
      features, and its declared CRS as its string form (`crs.to_string()`), if any. */
  datatype Dataset = Dataset(columns: seq<string>, features: seq<Feature>, crs: Option<string>)

  /** The attribute columns: every column except the geometry column. */
  function AttributeNames(columns: seq<string>): set<string>
  {
    set c | c in columns && c != GeometryColumn
  }

  /** A dataset as a successful read produces it: it has a geometry column and
      every feature carries a value for exactly the attribute columns. */
  ghost predicate WellFormed(ds: Dataset)
  {
    GeometryColumn in ds.columns &&
    forall i :: 0 <= i < |ds.features| ==> ds.features[i].properties.Keys == AttributeNames(ds.columns)
  }
}
