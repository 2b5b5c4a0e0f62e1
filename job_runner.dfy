/** The batch driver (`main`): runs one conversion per configured layer and counts
    the successes. */
module JobRunner {
  import opened Wrappers
  import opened Converter

  /** One configured layer: its display name, its source and output file names in the
      input directory, and the fields to keep. */
  datatype ConversionConfig = ConversionConfig(
    layerName: string, shpFile: string, outputFile: string, keepFields: seq<string>)

  /** The two counters the batch reports. */
  datatype BatchSummary = BatchSummary(successCount: nat, totalCount: nat)

  /** `directory / name`. */
  function JoinPath(directory: string, name: string): string
  {
    directory + "/" + name
  }

  /** A configured layer counts as a success when its source exists and its conversion
      succeeds. */
  predicate JobSucceeds(env: Environment, inputDir: string, config: ConversionConfig)
  {
    env.pathExists(JoinPath(inputDir, config.shpFile)) &&
    Conversion(env, JoinPath(inputDir, config.shpFile), JoinPath(inputDir, config.outputFile),
               config.keepFields, config.layerName).Converted?
  }

  /** For each configured layer in order, whether it succeeds. */
  function Outcomes(env: Environment, inputDir: string, configs: seq<ConversionConfig>): seq<bool>
  {
    seq(|configs|, i requires 0 <= i < |configs| => JobSucceeds(env, inputDir, configs[i]))
  }

  /** The number of `true` flags. */
  function CountTrue(flags: seq<bool>): nat
    decreases |flags|
  {
    if flags == [] then 0
    else CountTrue(flags[..|flags| - 1]) + (if flags[|flags| - 1] then 1 else 0)
  }

  /** The number of `false` flags. */
  function CountFalse(flags: seq<bool>): nat
    decreases |flags|
  {
    if flags == [] then 0
    else CountFalse(flags[..|flags| - 1]) + (if flags[|flags| - 1] then 0 else 1)
  }

  /** How many of the configured layers succeed. */
  function CountSucceeded(env: Environment, inputDir: string, configs: seq<ConversionConfig>): nat
  {
    CountTrue(Outcomes(env, inputDir, configs))
  }

  /** How many of the configured layers fail, a missing source included. */
  function CountFailed(env: Environment, inputDir: string, configs: seq<ConversionConfig>): nat
  {
    CountFalse(Outcomes(env, inputDir, configs))
  }

  /** `main`: nothing happens without the input directory; otherwise every configured
      layer is visited, a missing source is skipped, and a layer counts as a success
      when its conversion succeeds. */
  method RunBatch(env: Environment, inputDir: string, configs: seq<ConversionConfig>)
    returns (summary: Option<BatchSummary>)
    ensures summary.Some? <==> env.pathExists(inputDir)
    ensures summary.Some? ==>
              summary.value == BatchSummary(CountSucceeded(env, inputDir, configs), |configs|)
  {
    if !env.pathExists(inputDir) {
      return None;
    }
    ghost var flags := Outcomes(env, inputDir, configs);
    var successCount := 0;
    var totalCount := |configs|;
    for i := 0 to |configs|
      invariant successCount == CountTrue(flags[..i])
    {
      var config := configs[i];
      assert flags[..i + 1][..i] == flags[..i];
      var shpPath := JoinPath(inputDir, config.shpFile);
      var outputPath := JoinPath(inputDir, config.outputFile);
      if !env.pathExists(shpPath) {
        continue;
      }
      var outcome := ConvertShpToGeojson(env, shpPath, outputPath, config.keepFields, config.layerName);
      if outcome.Converted? {
        successCount := successCount + 1;
      }
    }
    assert flags[..|configs|] == flags;
    summary := Some(BatchSummary(successCount, totalCount));
  }

  /** Every flag is counted once, as `true` or as `false`. */
  lemma {:induction false} TrueAndFalseAddUp(flags: seq<bool>)
    ensures CountTrue(flags) + CountFalse(flags) == |flags|
    decreases |flags|
  {
    if flags != [] {
      TrueAndFalseAddUp(flags[..|flags| - 1]);
    }
  }

  /** All flags are counted as `true` exactly when all flags are `true`. */
  lemma {:induction false} AllTrueIff(flags: seq<bool>)
    ensures CountTrue(flags) == |flags| <==> forall i :: 0 <= i < |flags| ==> flags[i]
    decreases |flags|
  {
    if flags != [] {
      var earlier := flags[..|flags| - 1];
      AllTrueIff(earlier);
      TrueAndFalseAddUp(earlier);
      assert forall i :: 0 <= i < |earlier| ==> earlier[i] == flags[i];
    }
  }

  /** The successes and the failures, missing sources included, add up to the number
      of configured layers; so successes never exceed it. */
  lemma SuccessesAndFailuresAddUp(env: Environment, inputDir: string, configs: seq<ConversionConfig>)
    ensures CountSucceeded(env, inputDir, configs) + CountFailed(env, inputDir, configs) == |configs|
    ensures CountSucceeded(env, inputDir, configs) <= |configs|
  {
    TrueAndFalseAddUp(Outcomes(env, inputDir, configs));
  }

  /** "All layers converted" is reported exactly when every configured layer has a
      source and converts successfully. */
  lemma AllSucceededIff(env: Environment, inputDir: string, configs: seq<ConversionConfig>)
    ensures CountSucceeded(env, inputDir, configs) == |configs| <==>
            forall i :: 0 <= i < |configs| ==> JobSucceeds(env, inputDir, configs[i])
  {
    var flags := Outcomes(env, inputDir, configs);
    AllTrueIff(flags);
    forall i | 0 <= i < |configs| ensures flags[i] == JobSucceeds(env, inputDir, configs[i]) { }
  }

  /** A configured layer whose source is missing makes the batch report a failure. */
  lemma MissingSourceIsAFailure(env: Environment, inputDir: string, configs: seq<ConversionConfig>, k: nat)
    requires k < |configs| && !env.pathExists(JoinPath(inputDir, configs[k].shpFile))
    ensures CountSucceeded(env, inputDir, configs) < |configs|
    ensures CountFailed(env, inputDir, configs) >= 1
  {
    AllSucceededIff(env, inputDir, configs);
    SuccessesAndFailuresAddUp(env, inputDir, configs);
  }
}
