/**
 * The validation core of debug_tools/test_config.py: for every configuration
 * entry, a pass over the four required fields and then the length and region
 * checks, all clearing one `allValid` flag. JSON loading is the input `data`
 * (`None` when it failed); whether a path exists is the input `pathExists`,
 * which the source only uses for warnings.
 */
module TestConfig {
  import opened Wrappers
  import opened ConfigEntry
  import opened RegionValidation

  /** The keys every entry must have, in the order they are checked. */
  const RequiredFields: seq<string> := ["variables", "netcdf_substrings", "simulation_path", "output_file"]

  /** Python's `field in entry` for the keys of the model's entry record. */
  predicate HasField(entry: Entry, field: string)
  {
    match field
    case "variables" => entry.variables.Some?
    case "netcdf_substrings" => entry.netcdfSubstrings.Some?
    case "simulation_path" => entry.simulationPath.Some?
    case "output_file" => entry.outputFile.Some?
    case "lat_lon_aggregation_types" => entry.latLonAggregationTypes.Some?
    case "regions" => entry.regions.Some?
    case _ => false
  }

  /**
   * The rules one entry must satisfy: all four required keys present; as many
   * substring groups as variable groups; and, when a non-empty region list
   * is given, every named region recognized.
   */
  predicate ConfigEntryPasses(entry: Entry, available: bool, recognized: string -> bool)
  {
    && entry.variables.Some?
    && entry.netcdfSubstrings.Some?
    && entry.simulationPath.Some?
    && entry.outputFile.Some?
    && |entry.variables.value| == |entry.netcdfSubstrings.value|
    && (entry.regions.Some? && entry.regions.value != [] ==> RegionsAcceptable(entry.regions.value, available, recognized))
  }

  /**
   * test_json_config: False when the JSON could not be loaded; otherwise True
   * exactly when every entry passes. Whether the simulation path exists plays
   * no part.
   */
  method TestJsonConfig(data: Option<seq<Entry>>, available: bool, recognized: string -> bool, pathExists: string -> bool)
    returns (allValid: bool)
    ensures data.None? ==> !allValid
    ensures data.Some? ==> (allValid <==> forall i :: 0 <= i < |data.value| ==> ConfigEntryPasses(data.value[i], available, recognized))
  {
    if data.None? {
      return false;
    }
    var entries := data.value;
    allValid := true;
    for i := 0 to |entries|
      invariant allValid <==> forall j :: 0 <= j < i ==> ConfigEntryPasses(entries[j], available, recognized)
    {
      var entry := entries[i];
      ghost var validBefore := allValid;

      for f := 0 to |RequiredFields|
        invariant allValid <==> validBefore && forall g :: 0 <= g < f ==> HasField(entry, RequiredFields[g])
      {
        if !HasField(entry, RequiredFields[f]) {
          allValid := false;
        }
      }
      assert HasField(entry, RequiredFields[0]) && HasField(entry, RequiredFields[1])
          && HasField(entry, RequiredFields[2]) && HasField(entry, RequiredFields[3])
         <==> entry.variables.Some? && entry.netcdfSubstrings.Some? && entry.simulationPath.Some? && entry.outputFile.Some?;

      if HasField(entry, "variables") && HasField(entry, "netcdf_substrings") {
        if |entry.variables.value| != |entry.netcdfSubstrings.value| {
          allValid := false;
        }
      }

      if HasField(entry, "simulation_path") {
        // Only decides between a check mark and a warning.
        var simulationPathExists := pathExists(entry.simulationPath.value);
      }

      if HasField(entry, "regions") && entry.regions.value != [] {
        var regionIssues := ValidateRegionNames(entry.regions.value, available, recognized);
        if regionIssues != [] {
          allValid := false;
        }
      }
    }
  }

  /**
   * The per-entry rules one by one: each missing required field fails; the
   * length rule applies only when both lists are present and fails exactly
   * when their lengths differ; a named region that is not recognized, in a
   * non-empty region list, fails while validation is available; and an
   * absent or empty region list is never checked.
   */
  lemma ConfigEntryRules(entry: Entry, available: bool, recognized: string -> bool)
    ensures forall f :: f in RequiredFields && !HasField(entry, f) ==> !ConfigEntryPasses(entry, available, recognized)
    ensures (entry.variables.Some? && entry.netcdfSubstrings.Some?
             && |entry.variables.value| != |entry.netcdfSubstrings.value|) ==> !ConfigEntryPasses(entry, available, recognized)
    ensures available && entry.regions.Some? ==>
      forall k :: 0 <= k < |entry.regions.value| && entry.regions.value[k].Some? && !recognized(entry.regions.value[k].value)
        ==> !ConfigEntryPasses(entry, available, recognized)
    ensures (entry.regions.None? || entry.regions.value == []) ==>
      forall other: string -> bool :: ConfigEntryPasses(entry, available, recognized) == ConfigEntryPasses(entry, available, other)
  {
  }
}
