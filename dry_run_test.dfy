/**
 * The validation core of debug_tools/dry_run_test.py: one pass over the
 * configuration entries that clears a single `allValid` flag whenever an
 * entry breaks a rule, filling in defaults for missing aggregation types and
 * regions on the way. JSON loading is the input `data` (`None` when it
 * failed); whether a path exists is the input `pathExists`, which the source
 * only uses for a warning.
 */
module DryRun {
  import opened Wrappers
  import opened ConfigEntry
  import opened RegionValidation

  /** The aggregation type a variable group gets when the entry names none. */
  const DefaultAggregationType := "area_weighted_mean_or_sum"

  /**
   * The rules one entry must satisfy: as many substring groups as variable
   * groups (a missing list counts as empty); aggregation types, when given
   * and non-empty, one per variable group; regions, when given and non-empty,
   * one per variable group and all recognized.
   */
  predicate EntryPasses(entry: Entry, available: bool, recognized: string -> bool)
  {
    var variables := entry.variables.GetOr([]);
    && |variables| == |entry.netcdfSubstrings.GetOr([])|
    && (entry.latLonAggregationTypes.None? || entry.latLonAggregationTypes.value == []
        || |entry.latLonAggregationTypes.value| == |variables|)
    && (entry.regions.None? || entry.regions.value == []
        || (|entry.regions.value| == |variables| && RegionsAcceptable(entry.regions.value, available, recognized)))
  }

  /**
   * dry_run_test: False when the JSON could not be loaded; otherwise True
   * exactly when every entry passes, so True for a configuration with no
   * entries. Whether the simulation path exists plays no part.
   */
  method DryRunTest(data: Option<seq<Entry>>, available: bool, recognized: string -> bool, pathExists: string -> bool)
    returns (allValid: bool)
    ensures data.None? ==> !allValid
    ensures data.Some? ==> (allValid <==> forall i :: 0 <= i < |data.value| ==> EntryPasses(data.value[i], available, recognized))
  {
    if data.None? {
      return false;
    }
    var entries := data.value;
    allValid := true;
    for i := 0 to |entries|
      invariant allValid <==> forall j :: 0 <= j < i ==> EntryPasses(entries[j], available, recognized)
    {
      var entry := entries[i];
      var variables := entry.variables.GetOr([]);
      var netcdfSubstrings := entry.netcdfSubstrings.GetOr([]);
      var aggregationTypes := entry.latLonAggregationTypes.GetOr([]);
      var regions := entry.regions.GetOr([]);

      if |variables| != |netcdfSubstrings| {
        allValid := false;
      }

      // Defaults for a missing or empty list.
      if aggregationTypes == [] {
        aggregationTypes := seq(|variables|, _ => DefaultAggregationType);
      }
      if regions == [] {
        regions := seq(|variables|, _ => None);
      }

      if |aggregationTypes| != |variables| {
        allValid := false;
      }
      if |regions| != |variables| {
        allValid := false;
      }

      if regions != [] && exists k | 0 <= k < |regions| :: regions[k].Some? {
        var regionIssues := ValidateRegionNames(regions, available, recognized);
        if regionIssues != [] {
          allValid := false;
        }
      }

      // Only decides between a check mark and a warning.
      var simulationPathAccessible := pathExists(entry.simulationPath.GetOr(""));
    }
  }

  /**
   * The per-entry rules one by one: a length mismatch between variables and
   * substrings fails; missing or empty aggregation types and regions are
   * defaulted and cannot fail; an explicit aggregation list of the wrong
   * length fails; an explicit named region that is not recognized fails
   * while validation is available, and no region name matters while it is not.
   */
  lemma EntryRules(entry: Entry, available: bool, recognized: string -> bool)
    ensures |entry.variables.GetOr([])| != |entry.netcdfSubstrings.GetOr([])| ==> !EntryPasses(entry, available, recognized)
    ensures ((entry.latLonAggregationTypes.None? || entry.latLonAggregationTypes.value == [])
             && (entry.regions.None? || entry.regions.value == [])) ==>
      (EntryPasses(entry, available, recognized) <==> |entry.variables.GetOr([])| == |entry.netcdfSubstrings.GetOr([])|)
    ensures (entry.latLonAggregationTypes.Some? && entry.latLonAggregationTypes.value != []
             && |entry.latLonAggregationTypes.value| != |entry.variables.GetOr([])|) ==> !EntryPasses(entry, available, recognized)
    ensures available && entry.regions.Some? ==>
      forall k :: 0 <= k < |entry.regions.value| && entry.regions.value[k].Some? && !recognized(entry.regions.value[k].value)
        ==> !EntryPasses(entry, available, recognized)
    ensures !available ==> forall other: string -> bool :: EntryPasses(entry, available, recognized) == EntryPasses(entry, available, other)
  {
  }
}
