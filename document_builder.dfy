/** The document step: the serialised feature collection gets the layer's name. */
module DocumentBuilder {
  import opened GeoData

  /** The key under which the layer name is attached. */
  const NameKey: string := "name"

  /** `geojson_data['name'] = layer_name`: the document afterwards has the layer name
      under `name` and every other key as before. */
  function WithName(doc: Document, layerName: string): (r: Document)
    ensures NameKey in r && r[NameKey] == JString(layerName)
    ensures r.Keys == doc.Keys + {NameKey}
    ensures forall k :: k in doc && k != NameKey ==> r[k] == doc[k]
  {
    doc[NameKey := JString(layerName)]
  }

  /** Attaching a name twice leaves only the second. */
  lemma WithNameOverrides(doc: Document, first: string, second: string)
    ensures WithName(WithName(doc, first), second) == WithName(doc, second)
  {
  }
}
