# Scenario-matrix orientation, string helpers and configuration validators

A Dafny model of the logic at the heart of a set of post-processing utilities for
E3SM/GCAM climate-model output:

- the string and list helpers of `scripts/utility_functions.py`
  (`add_lists_elementwise`, `check_substrings_in_list`, `check_substrings_in_string`,
  `find_between_chars`, `modify_list_based_on_condition`, `replace_inside_parentheses`);
- its scenario-matrix orientation detector, `transpose_scenarios_if_needed`, which decides
  from the shape of a list of lists of scenario names (and optionally the scenario-set
  labels) whether the matrix is organised by scenario set and must be transposed into the
  member-major form the plotting code expects;
- the per-entry validation of the two debug tools that check a JSON job configuration
  before cluster submission, `dry_run_test` (`debug_tools/dry_run_test.py`) and
  `test_json_config` (`debug_tools/test_config.py`), with their shared `validate_region_names`.

Files and modules:

| file | module | models |
|---|---|---|
| `wrappers.dfy` | `Wrappers` | `Option`, for Python's `None` results and absent JSON keys |
| `utility_functions.dfy` | `UtilityFunctions` | `scripts/utility_functions.py`, as pure functions |
| `config_entry.dfy` | `ConfigEntry` | the JSON configuration entry as a record of optional fields |
| `region_validation.dfy` | `RegionValidation` | `validate_region_names` (identical text in both debug tools), a method with a loop |
| `dry_run_test.dfy` | `DryRun` | `dry_run_test`: a method folding the `allValid` flag over the entries |
| `test_config.dfy` | `TestConfig` | `test_json_config`: the same fold with a nested loop over the required fields |

Inputs the model takes in place of I/O and foreign calls:

- the parsed JSON is `data: Option<seq<Entry>>`, `None` when loading failed;
- `get_regional_bounds` printing "Did not recognize" is the predicate parameter
  `recognized: string -> bool` returning false, and `REGION_VALIDATION_AVAILABLE` (whether
  `utility_e3sm_netcdf` could be imported) is the parameter `available`;
- `Path.exists` is the parameter `pathExists: string -> bool`. The source uses it only to
  choose between a check mark and a warning. The validators' postconditions do not mention
  it, so their result cannot depend on it.

Python strings are `seq<char>`. `sub in text` is `IsSubstring` (an occurrence at some index).
`text.find(sub, start)` is `Find`, the least index at or after `start` where `sub` occurs,
or -1.

## Model

| member | source | states |
|---|---|---|
| `UtilityFunctions.Find` | scripts/utility_functions.py:109-112 | `str.find(sub, start)`: -1 exactly when `sub` occurs nowhere at or after `start`, otherwise the first index at or after `start` where it occurs |
| `UtilityFunctions.Contains` | scripts/utility_functions.py:71 | the search-based `sub in text` is true exactly when `sub` occurs somewhere in `text` |
| `UtilityFunctions.AddListsElementwise` | scripts/utility_functions.py:20-25 | `None` exactly when the lengths differ; otherwise a list of the same length whose element i is `list1[i] + list2[i]`, or `list1[i] + " (" + list2[i] + ")"` in the units form |
| `UtilityFunctions.UnitsFormIsPlainFormOfParenthesized` | scripts/utility_functions.py:22-25 | the units form equals the plain form applied to the units wrapped as `" (u)"` |
| `UtilityFunctions.CombinedElementSplitsBack` | scripts/utility_functions.py:22-25 | each combined element splits back into its operands: prefix `list1[i]`, then `list2[i]` (plain) or `" (" + list2[i] + ")"` (units) |
| `UtilityFunctions.ContainedInSome` | scripts/utility_functions.py:54 | the inner `any` is true exactly when some element of the list contains the substring |
| `UtilityFunctions.CheckSubstringsInList` | scripts/utility_functions.py:53-56 | mode "all": true iff every substring occurs in at least one element; any other mode: true iff some substring does |
| `UtilityFunctions.CheckSubstringsInString` | scripts/utility_functions.py:70-73 | mode "all": true iff every substring occurs in the string; any other mode behaves as "any": true iff some substring does |
| `UtilityFunctions.CheckSubstringsModes` | scripts/utility_functions.py:53-73 | the list check on a one-element list equals the string check; no substrings gives True for "all" and False otherwise; for non-empty substrings "all" implies "any" in both checks |
| `UtilityFunctions.CheckSubstringsInListMonotone` | scripts/utility_functions.py:53-56 | searching more list elements never turns a True answer into False |
| `UtilityFunctions.FindBetweenChars` | scripts/utility_functions.py:109-115 | `None` exactly when `start_char` does not occur, or `end_char` does not occur after the first `start_char` |
| `UtilityFunctions.FindBetweenCharsExtracts` | scripts/utility_functions.py:109-115 | with s the first start index and e the first end index at or after s+1, the result is exactly `text[s+1..e]` |
| `UtilityFunctions.FindBetweenCharsHasNoEnd` | scripts/utility_functions.py:112-115 | the extracted text contains no occurrence of a non-empty `end_char`; a one-character `end_char` does not appear in it |
| `UtilityFunctions.FindBetweenCharsBrackets` | scripts/utility_functions.py:97-115 | `"a[b]c"` between `[` and `]` is `"b"`; a missing `[` or `]` gives `None` |
| `UtilityFunctions.ModifyListBasedOnCondition` | scripts/utility_functions.py:151 | same length and order; element i is `f(x_i)` where `condition(x_i)` holds and `x_i` elsewhere |
| `UtilityFunctions.ModifyListDistributes` | scripts/utility_functions.py:151 | the conditional map of a concatenation is the concatenation of the maps |
| `UtilityFunctions.ModifyListFixedPoints` | scripts/utility_functions.py:151 | no element meeting the condition leaves the list unchanged; when no new value meets the condition, a second application changes nothing |
| `UtilityFunctions.ReplaceInsideParenthesesCases` | scripts/utility_functions.py:190 | a text with no group comes back unchanged; otherwise, with p the first `(` and c the first `)` after it, the result is `text[..p] + replacement +` the substitution of `text[c+1..]` |
| `UtilityFunctions.GroupOrNone` | scripts/utility_functions.py:190 | every text falls under one of those two cases: it has no group, or it has a first `(` with a `)` after it |
| `UtilityFunctions.NoParenGroupUnchanged` | scripts/utility_functions.py:190 | a text with no `'('` followed later by a `')'` comes back unchanged |
| `UtilityFunctions.ReplaceRemovesAllGroups` | scripts/utility_functions.py:190 | with a replacement free of parentheses, the result has no `(`…`)` group left, so substituting again changes nothing |
| `UtilityFunctions.ReplaceLeftmostGroup` | scripts/utility_functions.py:190 | scanning is left to right without overlap: text with no `'('` before a `(inner)` whose inner part has no `')'` keeps that text, gets the replacement for the group, and continues with the substitution of what follows |
| `UtilityFunctions.Transpose` | scripts/utility_functions.py:281 | the comprehension yields `num_cols` rows of length `num_rows` with `out[c][r] == scenarios[r][c]` |
| `UtilityFunctions.TransposeTwice` | scripts/utility_functions.py:281 | transposing twice gives back the matrix |
| `UtilityFunctions.TransposeScenariosIfNeeded` | scripts/utility_functions.py:263-304 | flag False: the input unchanged; flag True: the exact transpose of a rectangular input; empty or ragged input: flag False; otherwise flag True iff labels are given with `len == num_rows`, or labels are absent or fit neither dimension and `num_cols > num_rows` |
| `UtilityFunctions.TransposedResultTransposesBack` | scripts/utility_functions.py:276-304 | a transposed result with `num_cols > 0` transposes back to the input |
| `UtilityFunctions.SecondPassIsStable` | scripts/utility_functions.py:276-304 | calling again on the result with the same labels returns it unchanged with flag False, except for a square matrix whose labels fit both dimensions, which is transposed back to the input |
| `UtilityFunctions.TransposeDocExamples` | scripts/utility_functions.py:247-261 | the three examples of the doc comment: labelled 2x3 transposes, unlabelled 3x2 and 2x2 stay |
| `RegionValidation.ValidateRegionNames` | debug_tools/dry_run_test.py:33-60 | no issues when validation is unavailable; otherwise one issue message per named region that is not recognized, in order, None skipped, as many issues as positions holding an unrecognized name; no issues exactly when every named region is recognized |
| `RegionValidation.UnrecognizedSnoc` | debug_tools/dry_run_test.py:39-56 | one more loop iteration appends the region's name exactly when it is named and not recognized |
| `RegionValidation.UnrecognizedMembers` | debug_tools/dry_run_test.py:39-56 | a name is reported iff it is some region's name and not recognized; nothing is reported iff every named region is recognized; never more reports than regions |
| `RegionValidation.UnrecognizedCount` | debug_tools/dry_run_test.py:39-56 | the number of reports equals the number of positions holding a named, unrecognized region, so a repeated name is reported each time |
| `DryRun.DryRunTest` | debug_tools/dry_run_test.py:62-147 | False when JSON loading failed; otherwise True exactly when every entry passes the rules, hence True for zero entries; the path check does not affect the result |
| `DryRun.EntryRules` | debug_tools/dry_run_test.py:92-127 | a variables/substrings length mismatch fails; defaulted (missing or empty) aggregation types and regions never fail; an explicit aggregation list of the wrong length fails; an unrecognized named region fails while validation is available; region names do not matter while it is not |
| `TestConfig.TestJsonConfig` | debug_tools/test_config.py:61-144 | False when JSON loading failed; otherwise True exactly when every entry has the four required fields, matching variables/substrings lengths, and only recognized named regions in a non-empty region list; path checks do not affect the result |
| `TestConfig.ConfigEntryRules` | debug_tools/test_config.py:81-136 | each missing required field fails; the length rule applies only with both lists present and fails iff the lengths differ; an unrecognized named region fails while validation is available; an absent or empty region list is never checked |

`validate_region_names` in `debug_tools/test_config.py:33-60` has the same text as the one
in `debug_tools/dry_run_test.py:33-60`. Both validators use the one `RegionValidation.ValidateRegionNames`.

## Left out

- `create_numpy_array_from_ds` (xarray/NumPy arrays and NaN filling), `print_p_values`
  (console and file output of floating-point p-values), `sort_file` (file I/O around a
  library sort) and `get_all_files_in_path` (an `os.walk` directory traversal) are not
  modelled: they are I/O or numeric library glue.
- `check_is_list_of_lists` and the `isinstance(scenarios[0], list)` test in
  `transpose_scenarios_if_needed` are runtime type tests that the typed
  `seq<seq<string>>` model makes unnecessary.
- `scripts/gcam_compile_ehc_scalars.py` is not part of this model. It is a pandas
  concatenate/sort/split pipeline run in a multiprocessing pool over modules that are not
  available.
- `UtilityFunctions.ReplaceInsideParentheses`: the replacement is inserted literally.
  `re.sub` also expands backslash escapes and group references in the replacement string,
  and the model does not do that.
- `UtilityFunctions.AddListsElementwise`: only string elements are modelled. The plain branch's
  `a + b` also adds numbers or joins lists when the source is given such elements.
- `UtilityFunctions.ModifyListBasedOnCondition`: the new values must have the element
  type. Python lets `new_value_function` return values of any type.
- `DryRun.DryRunTest`: when an entry has more variable groups than substring groups, the
  source's display loop (`debug_tools/dry_run_test.py:139-140`) indexes past the end of
  `netcdf_substrings` and raises `IndexError`. The flag is already cleared at that point,
  and the script then exits with status 1 as it would for False, but the function never
  returns. The model returns False. The display loop only prints and is otherwise not modelled.
- JSON handling: a key whose value is JSON `null` is treated like an absent key. Type errors
  the source would raise are not modelled: a top-level value that is not a list of objects,
  or `len()` of a required field that is not a list.
- All printing, the `sys.path` probing at module load, and the stdout capture around
  `get_regional_bounds` are replaced by the parameters described above.
- The output-directory check in `test_json_config` (`Path(output_file).parent`) is not
  modelled. It only prints a warning.
