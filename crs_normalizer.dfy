/** Coordinate-system normalisation: the output is always labelled WGS84. */
module CrsNormalizer {
  import opened Wrappers
  import opened GeoData

  /** The canonical CRS, as `crs.to_string()` prints it. */
  const Wgs84: string := "EPSG:4326"

  /** Every feature's geometry mapped through `t`; attribute values untouched. */
  function Reproject(features: seq<Feature>, t: Geometry -> Geometry): (r: seq<Feature>)
    ensures |r| == |features|
    ensures forall i :: 0 <= i < |features| ==>
              r[i].geometry == t(features[i].geometry) && r[i].properties == features[i].properties
  {
    seq(|features|, i requires 0 <= i < |features| => features[i].(geometry := t(features[i].geometry)))
  }

  /** The three-way branch on the declared CRS. `transform(c)` stands for `to_crs` from
      the CRS whose string form is `c` to WGS84: `None` when that CRS cannot be
      transformed (the conversion then fails), otherwise the coordinate mapping. */
  function Normalize(ds: Dataset, transform: string -> Option<Geometry -> Geometry>): (r: Option<Dataset>)
    // the result, when there is one, is labelled WGS84 and keeps columns and attributes
    ensures r.Some? ==> r.value.crs == Some(Wgs84) && r.value.columns == ds.columns &&
                        |r.value.features| == |ds.features| &&
                        forall i :: 0 <= i < |ds.features| ==>
                          r.value.features[i].properties == ds.features[i].properties
    // it fails exactly when a foreign CRS cannot be transformed
    ensures r.None? <==> ds.crs.Some? && ds.crs.value != Wgs84 && transform(ds.crs.value).None?
    // an undeclared CRS is only stamped: no coordinate changes
    ensures ds.crs.None? ==> r.Some? && r.value.features == ds.features
    // a WGS84 dataset passes through unchanged
    ensures ds.crs == Some(Wgs84) ==> r == Some(ds)
    // a foreign CRS moves every coordinate through the transformation
    ensures ds.crs.Some? && ds.crs.value != Wgs84 && r.Some? ==>
              forall i :: 0 <= i < |ds.features| ==>
                r.value.features[i].geometry == transform(ds.crs.value).value(ds.features[i].geometry)
  {
    match ds.crs
    case None => Some(ds.(crs := Some(Wgs84)))
    case Some(c) =>
      if c != Wgs84 then
        match transform(c)
        case None => None
        case Some(t) => Some(ds.(crs := Some(Wgs84), features := Reproject(ds.features, t)))
      else Some(ds)
  }

  /** Normalising twice is normalising once. */
  lemma NormalizeIsIdempotent(ds: Dataset, transform: string -> Option<Geometry -> Geometry>)
    requires Normalize(ds, transform).Some?
    ensures Normalize(Normalize(ds, transform).value, transform) == Normalize(ds, transform)
  {
  }

  /** Normalisation keeps a dataset well formed. */
  lemma NormalizeKeepsWellFormed(ds: Dataset, transform: string -> Option<Geometry -> Geometry>)
    requires WellFormed(ds) && Normalize(ds, transform).Some?
    ensures WellFormed(Normalize(ds, transform).value)
  {
    var r := Normalize(ds, transform).value;
    forall i | 0 <= i < |r.features|
      ensures r.features[i].properties.Keys == AttributeNames(r.columns)
    {
      assert r.features[i].properties == ds.features[i].properties;
    }
  }
}
