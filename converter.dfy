/** One conversion job (`convert_shp_to_geojson`): recover the encoding, reconcile the
    fields, normalise the CRS, name the document and write it. */
module Converter {
  import opened Wrappers
  import opened GeoData
  import opened EncodingResolver
  import opened FieldReconciler
  import opened CrsNormalizer
  import opened DocumentBuilder

  /** What the conversion asks of the file system and of its libraries. */
  datatype Environment = Environment(
    // does this path exist
    pathExists: string -> bool,
    // reading the shapefile at a path with one encoding
    read: string -> string -> ReadOutcome,
    // the transformation from a CRS to WGS84, if that CRS is supported
    transform: string -> Option<Geometry -> Geometry>,
    // the dataset serialised as a GeoJSON feature collection and parsed back
    toJson: Dataset -> Document,
    // writing a document to a path; false if the write raised
    write: string -> Document -> bool)

  /** Why a job failed. */
  datatype ConversionError =
    | NoReadableEncoding
    | MissingColumns
    | CrsTransformFailed
    | WriteFailed

  /** What a job gives back: the winning encoding and the written document, or why it
      failed. The source reports only the success flag, `Converted?`. */
  datatype ConversionOutcome =
    | Converted(encoding: string, document: Document)
    | Failed(error: ConversionError)

  /** The job as a function of its inputs. */
  function Conversion(env: Environment, shpPath: string, outputPath: string,
                      keepFields: seq<string>, layerName: string): ConversionOutcome
  {
    match FirstReadable(Encodings, env.read(shpPath))
    case None => Failed(NoReadableEncoding)
    case Some(resolved) =>
      match Apply(resolved.dataset, Reconciled(resolved.dataset.columns, keepFields))
      case None => Failed(MissingColumns)
      case Some(filtered) =>
        match Normalize(filtered, env.transform)
        case None => Failed(CrsTransformFailed)
        case Some(normalized) =>
          var document := WithName(env.toJson(normalized), layerName);
          if env.write(outputPath)(document) then Converted(resolved.encoding, document)
          else Failed(WriteFailed)
  }

  /** `convert_shp_to_geojson`: each step either fails the job or hands its result on. */
  method ConvertShpToGeojson(env: Environment, shpPath: string, outputPath: string,
                             keepFields: seq<string>, layerName: string)
    returns (outcome: ConversionOutcome)
    ensures outcome == Conversion(env, shpPath, outputPath, keepFields, layerName)
  {
    var resolved := ResolveEncoding(env.read(shpPath));
    if resolved.None? {
      return Failed(NoReadableEncoding);
    }
    var gdf := resolved.value.dataset;
    var rec := Reconcile(gdf.columns, keepFields);
    var filtered := Apply(gdf, rec);
    if filtered.None? {
      return Failed(MissingColumns);
    }
    var normalized := Normalize(filtered.value, env.transform);
    if normalized.None? {
      return Failed(CrsTransformFailed);
    }
    var geojsonData := WithName(env.toJson(normalized.value), layerName);
    if !env.write(outputPath)(geojsonData) {
      return Failed(WriteFailed);
    }
    outcome := Converted(resolved.value.encoding, geojsonData);
  }

  /** When no candidate encoding reads the source the job fails, and it fails before
      anything is written: the outcome does not depend on the writer at all. */
  lemma UnreadableSourceFailsBeforeWriting(env: Environment, shpPath: string, outputPath: string,
                                           keepFields: seq<string>, layerName: string,
                                           otherWrite: string -> Document -> bool)
    ensures (forall i :: 0 <= i < |Encodings| ==> !env.read(shpPath)(Encodings[i]).Loaded?)
            <==> Conversion(env, shpPath, outputPath, keepFields, layerName) == Failed(NoReadableEncoding)
    ensures Conversion(env, shpPath, outputPath, keepFields, layerName) == Failed(NoReadableEncoding) ==>
            Conversion(env.(write := otherWrite), shpPath, outputPath, keepFields, layerName) == Failed(NoReadableEncoding)
  {
    FirstReadableIsFirstSuccess(Encodings, env.read(shpPath));
  }

  /** A successful job used the first encoding that reads the source, and the written
      document carries the layer name under `name`. */
  lemma ConvertedUsesFirstEncodingAndName(env: Environment, shpPath: string, outputPath: string,
                                          keepFields: seq<string>, layerName: string)
    requires Conversion(env, shpPath, outputPath, keepFields, layerName).Converted?
    ensures var out := Conversion(env, shpPath, outputPath, keepFields, layerName);
            (exists i :: FirstLoadedAt(Encodings, env.read(shpPath), i) && out.encoding == Encodings[i]) &&
            NameKey in out.document && out.document[NameKey] == JString(layerName)
  {
    FirstReadableIsFirstSuccess(Encodings, env.read(shpPath));
  }

  /** A source that reads into a well-formed dataset never fails on missing columns:
      the reconciled keep-list holds only real columns. A job then fails only for its
      encoding, its CRS or its write. */
  lemma WellFormedSourceNeverMissesColumns(env: Environment, shpPath: string, outputPath: string,
                                           keepFields: seq<string>, layerName: string)
    requires forall e :: env.read(shpPath)(e).Loaded? ==> WellFormed(env.read(shpPath)(e).dataset)
    ensures Conversion(env, shpPath, outputPath, keepFields, layerName) != Failed(MissingColumns)
  {
    var resolved := FirstReadable(Encodings, env.read(shpPath));
    if resolved.Some? {
      FirstReadableIsFirstSuccess(Encodings, env.read(shpPath));
      ReconciledSelectionIsWellFormed(resolved.value.dataset, keepFields);
    }
  }
}
