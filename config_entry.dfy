/**
 * One entry of the JSON job configuration that both debug tools read: the
 * variable groups to extract, the file-name substrings that select each
 * group's NetCDF files, where the simulation output lies and where the
 * result goes, with optional per-group regions and aggregation types.
 * A key that is absent from the JSON object is `None` here.
 */
module ConfigEntry {
  import opened Wrappers

  datatype Entry = Entry(
    variables: Option<seq<seq<string>>>,
    netcdfSubstrings: Option<seq<seq<string>>>,
    simulationPath: Option<string>,
    outputFile: Option<string>,
    latLonAggregationTypes: Option<seq<string>>,
    regions: Option<seq<Option<string>>>)
}
