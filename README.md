# Shapefile to GeoJSON conversion, modelled in Dafny

This project models the decision logic of `convert_shp_to_geojson.py`. The script
converts the land-price shapefile layers (定级范围, 住宅用地, 商服用地, 工业用地, 公共用地)
into GeoJSON. For each layer it keeps only a requested set of attribute fields. It
normalises every layer to WGS84 (`EPSG:4326`).

What is modelled, one Dafny module per step:

- `EncodingResolver` (`encoding_resolver.dfy`): the encoding loop. The candidates
  `gbk, gb2312, utf-8, cp936, latin1` are tried in order. The first read that succeeds
  wins. A decoding error and any other exception both move on to the next candidate.
  The read itself is an oracle, `string -> ReadOutcome`. `ResolveEncoding` is the
  loop. It is proved equal to the function `FirstReadable`, and the lemma
  `FirstReadableIsFirstSuccess` characterises that function.
- `FieldReconciler` (`field_reconciler.dfy`): the field filtering. Python's `in` on
  strings is `Contains`. It is proved equal to "occurs as a contiguous substring"
  (`IsSubstring`). The two list comprehensions are `ExactMatches` and `MissingFields`.
  The nested fuzzy-match loops are the method `AppendFuzzyMatches`. It is proved equal
  to a guarded-append fold, `AppendAbsent`, over the sequence of candidate matches
  (`Candidates`). The lemmas then state what the final keep-list is. `Project` is
  `gdf[fields_to_keep]`.
- `CrsNormalizer` (`crs_normalizer.dfy`): the three-way branch on the declared CRS.
  The projection library is an oracle. It maps a CRS label to an optional coordinate
  transformation.
- `DocumentBuilder` (`document_builder.dfy`): attaching `name` to the parsed document.
- `Converter` (`converter.dfy`): the whole of `convert_shp_to_geojson`.
  `ConvertShpToGeojson` is the method. `Conversion` is the function it is proved equal
  to. The function reports which step failed; the source returns only `True`/`False`,
  which is `Converted?`.
- `JobRunner` (`job_runner.dfy`): the success-counting loop of `main`.
- `GeoData` and `Wrappers` hold the shared datatypes: JSON values, geometries,
  features, datasets and `Option`.

The file system and the libraries are fields of `Converter.Environment`:

- `pathExists` is `Path.exists`.
- `read` is `gpd.read_file` with one encoding.
- `transform` is `to_crs`.
- `toJson` is `json.loads(gdf.to_json())`.
- `write` is `json.dump` to the output file.

The model follows the code where a description of the converter could suggest
otherwise. A duplicated requested field, or a requested `geometry`, is copied into
the keep-list as it is (line 65). So the keep-list is not claimed duplicate-free
before fuzzy matching. Only the names that fuzzy matching appends are new.

## Model

| member | source | states |
|---|---|---|
| EncodingResolver.ResolveEncoding | convert_shp_to_geojson.py:39-57 | The encoding loop returns exactly `FirstReadable(Encodings, read)`: the candidates are tried in the fixed order and the loop stops at the first successful read |
| EncodingResolver.FirstReadableIsFirstSuccess | convert_shp_to_geojson.py:42-57 | Nothing is resolved iff every candidate read fails, decoding error or other error alike; otherwise the result is the encoding at the first index whose read succeeds, with the dataset read under it |
| EncodingResolver.GbkReadableResolvesToGbk | convert_shp_to_geojson.py:39-47 | A table readable as GBK resolves to GBK whatever later candidates would give |
| FieldReconciler.ContainsIsSubstring | convert_shp_to_geojson.py:75 | The executable `in` test on two strings holds iff the needle occurs contiguously in the haystack (the empty string occurs everywhere) |
| FieldReconciler.ExactMatches | convert_shp_to_geojson.py:65 | A name is among the exact matches iff it was requested and is a column |
| FieldReconciler.MissingFields | convert_shp_to_geojson.py:68 | A name is missing iff it was requested and is not a column |
| FieldReconciler.ExactAndMissingPartition | convert_shp_to_geojson.py:65-68 | Exact matches and missing fields are each a subsequence of the request (requested order kept), and their multisets add up to the request's |
| FieldReconciler.RowCandidatesMembers | convert_shp_to_geojson.py:74-75 | The candidates for one missing field are exactly the available fields that contain it or are contained in it |
| FieldReconciler.CandidatesMembers | convert_shp_to_geojson.py:73-75 | A name is a candidate iff it is an available field related to some missing field |
| FieldReconciler.AppendAbsentKeepsPrefix | convert_shp_to_geojson.py:77-78 | The guarded append keeps the list it starts from, unchanged, as a prefix |
| FieldReconciler.AppendAbsentMembers | convert_shp_to_geojson.py:77-78 | After the guarded append the list holds exactly the starting names and the candidates |
| FieldReconciler.AppendAbsentAddsOnlyNew | convert_shp_to_geojson.py:77-78 | Every name the guarded append adds is new when added: not a starting name, not added before |
| FieldReconciler.AppendAbsentIsFirstOccurrences | convert_shp_to_geojson.py:73-78 | The guarded append equals the starting list followed by each candidate that is neither in it nor an earlier candidate, in candidate order |
| FieldReconciler.AppendFuzzyMatches | convert_shp_to_geojson.py:72-78 | The nested loops leave the keep-list equal to the guarded append of all candidates, missing field by missing field and within one in column order |
| FieldReconciler.Reconcile | convert_shp_to_geojson.py:63-78 | No filtering iff the request is empty; otherwise the final keep-list and the missing fields |
| FieldReconciler.KeepListShape | convert_shp_to_geojson.py:65-78 | The keep-list is `geometry`, then the exact matches in requested order, then the new fuzzy matches at their first occurrence |
| FieldReconciler.KeepListExtendsPrefix | convert_shp_to_geojson.py:65-78 | Fuzzy matching leaves `geometry` and the exact matches untouched at the front, and appends no name twice nor any name already there |
| FieldReconciler.KeepListCoversFuzzyMatches | convert_shp_to_geojson.py:72-78 | For every missing field and every column (`geometry` included) where one name is a substring of the other, the column is kept |
| FieldReconciler.KeepListEntriesAreColumns | convert_shp_to_geojson.py:65-78 | Every kept name is `geometry` or a column |
| FieldReconciler.FuzzyEntriesAreRelated | convert_shp_to_geojson.py:73-78 | Every name after the exact matches is a column related by substring to some missing field |
| FieldReconciler.NoMissingMeansNoFuzzyMatches | convert_shp_to_geojson.py:65-69 | When nothing is missing the keep-list is `geometry` followed by the request itself |
| FieldReconciler.KeepListLength | convert_shp_to_geojson.py:65-78 | The keep-list has at most 1 + number of requested fields + number of columns entries |
| FieldReconciler.EmptyNameMatchesEveryColumn | convert_shp_to_geojson.py:73-78 | A requested empty name that is not a column pulls every column into the keep-list |
| FieldReconciler.TruncatedNameIsRecovered | convert_shp_to_geojson.py:65-78 | On the land-price columns, requesting `地价` reports it missing and keeps `geometry` and `地面地价` |
| FieldReconciler.Project | convert_shp_to_geojson.py:81 | Selecting succeeds iff every name is a column; the columns become the keep-list, and each row keeps its geometry and the values of the kept attributes |
| FieldReconciler.EmptyRequestKeepsAllColumns | convert_shp_to_geojson.py:63 | An empty request leaves the dataset unchanged, all original columns included |
| FieldReconciler.ReconciledSelectionIsWellFormed | convert_shp_to_geojson.py:63-81 | On a well-formed dataset the reconciled selection always succeeds and is again well formed |
| CrsNormalizer.Normalize | convert_shp_to_geojson.py:85-90 | The result is labelled `EPSG:4326`, with columns and attributes kept; an absent CRS is only stamped, `EPSG:4326` passes through unchanged, and only another CRS is transformed; it fails iff that CRS cannot be transformed |
| CrsNormalizer.NormalizeIsIdempotent | convert_shp_to_geojson.py:85-90 | Normalising a normalised dataset changes nothing |
| CrsNormalizer.NormalizeKeepsWellFormed | convert_shp_to_geojson.py:85-90 | Normalisation keeps a dataset well formed |
| DocumentBuilder.WithName | convert_shp_to_geojson.py:98-101 | The document has the layer name under `name`, and every other key and value as before |
| DocumentBuilder.WithNameOverrides | convert_shp_to_geojson.py:101 | Naming twice keeps only the last name |
| Converter.ConvertShpToGeojson | convert_shp_to_geojson.py:23-116 | The conversion method gives exactly the outcome of `Conversion`: encoding, then fields, then CRS, then name and write, failing at the first step that fails |
| Converter.UnreadableSourceFailsBeforeWriting | convert_shp_to_geojson.py:55-57 | The job fails for want of an encoding iff every candidate read fails, and then its outcome does not depend on the writer |
| Converter.ConvertedUsesFirstEncodingAndName | convert_shp_to_geojson.py:39-110 | A successful job used the first encoding that reads the source, and its document has the layer name under `name` |
| Converter.WellFormedSourceNeverMissesColumns | convert_shp_to_geojson.py:63-81 | A source that reads into a well-formed dataset never fails on a missing column |
| JobRunner.RunBatch | convert_shp_to_geojson.py:127-186 | Nothing is counted without the input directory; otherwise the total is the number of configured layers and the success count is the number whose source exists and whose conversion succeeds |
| JobRunner.TrueAndFalseAddUp | convert_shp_to_geojson.py:191-196 | Every per-layer success flag is counted once, as a success or as a failure |
| JobRunner.AllTrueIff | convert_shp_to_geojson.py:193-194 | All flags are counted as successes iff every flag is a success |
| JobRunner.SuccessesAndFailuresAddUp | convert_shp_to_geojson.py:191-196 | Successes plus failures (missing sources included) equal the total, so successes never exceed it |
| JobRunner.AllSucceededIff | convert_shp_to_geojson.py:193-196 | "All converted" is reported iff every configured layer has a source and converts successfully |
| JobRunner.MissingSourceIsAFailure | convert_shp_to_geojson.py:174-177 | A layer with a missing source is still counted in the total, so the batch reports at least one failure |

## Left out

- Shapefile and DBF decoding (`gpd.read_file`) is a foreign library doing file I/O. It is the `read` oracle, which yields a dataset, a decoding error or another error.
- Projection maths (`to_crs`) is foreign floating-point code. It is the `transform` oracle. A CRS is compared by its `to_string()` label only, so two spellings of WGS84 are not identified.
- Serialisation (`gdf.to_json`, `json.loads`) is the `toJson` oracle. `ensure_ascii=False`, the indentation and the file write (`json.dump`) are the `write` oracle, which only reports success. A half-written file is not modelled.
- Any other exception from a step inside the outer `try` is not modelled. Serialisation is taken to be total.
- All `print` output, the data preview (lines 93-95), `traceback.print_exc`, and the import check with `sys.exit` (lines 13-21) are console side effects.
- The output-file listing at the end of `main` (lines 198-206) is file-system reporting.
- The literal table `conversion_configs` (lines 133-164) is configuration data. `RunBatch` takes the configured layers as a parameter. The land-price column names appear in one example lemma.
- Path joining (`Path /`) is string concatenation with `/`, without path normalisation.
- `keep_fields=None` and `keep_fields=[]` are both falsy. Both are the empty sequence.
- Project: a keep-list with a duplicated name keeps the duplicate in the column list. Row values are a map, so pandas' duplicated columns are not reproduced.
