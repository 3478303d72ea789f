/**
 * validate_region_names, which debug_tools/dry_run_test.py and
 * debug_tools/test_config.py define with the same text. A region name is
 * "not recognized" when get_regional_bounds prints its "Did not recognize"
 * warning; that library call is the parameter `recognized`. `available` is
 * whether the library could be imported at all (REGION_VALIDATION_AVAILABLE).
 */
module RegionValidation {
  import opened Wrappers

  /** The issue reported for one region name that is not recognized. */
  function IssueMessage(region: string): string
  {
    "Region '" + region + "' not recognized - will use global bounds"
  }

  /** The named (non-None) regions that are not recognized, in order. */
  function Unrecognized(regions: seq<Option<string>>, recognized: string -> bool): seq<string>
  {
    if regions == [] then []
    else
      var rest := Unrecognized(regions[1..], recognized);
      match regions[0]
      case None => rest
      case Some(name) => if recognized(name) then rest else [name] + rest
  }

  /** One issue message per unrecognized region; none at all without the library. */
  function RegionIssues(regions: seq<Option<string>>, available: bool, recognized: string -> bool): seq<string>
  {
    if !available then []
    else
      var names := Unrecognized(regions, recognized);
      seq(|names|, k requires 0 <= k < |names| => IssueMessage(names[k]))
  }

  /** Region validation raises nothing: it is unavailable, or every named region is recognized. */
  predicate RegionsAcceptable(regions: seq<Option<string>>, available: bool, recognized: string -> bool)
  {
    !available || forall k :: 0 <= k < |regions| && regions[k].Some? ==> recognized(regions[k].value)
  }

  /** Scanning one more region adds its name exactly when it is named and unrecognized. */
  lemma {:induction false} UnrecognizedSnoc(regions: seq<Option<string>>, region: Option<string>, recognized: string -> bool)
    ensures Unrecognized(regions + [region], recognized)
         == Unrecognized(regions, recognized) + (if region.Some? && !recognized(region.value) then [region.value] else [])
  {
    if regions == [] {
      assert [] + [region] == [region];
      assert [region][1..] == [];
    } else {
      assert (regions + [region])[1..] == regions[1..] + [region];
      UnrecognizedSnoc(regions[1..], region, recognized);
    }
  }

  /**
   * A name is reported exactly when some entry of `regions` is that name and
   * it is not recognized; so the list is empty exactly when every named region
   * is recognized.
   */
  lemma {:induction false} UnrecognizedMembers(regions: seq<Option<string>>, recognized: string -> bool)
    ensures forall name :: name in Unrecognized(regions, recognized) <==>
      (!recognized(name) && exists k :: 0 <= k < |regions| && regions[k] == Some(name))
    ensures Unrecognized(regions, recognized) == [] <==>
      forall k :: 0 <= k < |regions| && regions[k].Some? ==> recognized(regions[k].value)
    ensures |Unrecognized(regions, recognized)| <= |regions|
  {
    if regions != [] {
      UnrecognizedMembers(regions[1..], recognized);
      forall name ensures (exists k :: 0 <= k < |regions| && regions[k] == Some(name))
                      <==> (regions[0] == Some(name) || exists k :: 0 <= k < |regions[1..]| && regions[1..][k] == Some(name))
      {
        if exists k :: 0 <= k < |regions| && regions[k] == Some(name) {
          var k :| 0 <= k < |regions| && regions[k] == Some(name);
          if k > 0 {
            assert regions[1..][k - 1] == Some(name);
          }
        }
        if exists k :: 0 <= k < |regions[1..]| && regions[1..][k] == Some(name) {
          var k :| 0 <= k < |regions[1..]| && regions[1..][k] == Some(name);
          assert regions[k + 1] == Some(name);
        }
      }
      if regions[0].Some? && !recognized(regions[0].value) {
        assert regions[0].value in Unrecognized(regions, recognized);
      }
      forall k | 1 <= k < |regions| ensures regions[k] == regions[1..][k - 1] {
      }
    }
  }

  /** The positions of the named regions that are not recognized. */
  ghost function UnrecognizedIndices(regions: seq<Option<string>>, recognized: string -> bool): set<int>
  {
    set k | 0 <= k < |regions| && regions[k].Some? && !recognized(regions[k].value)
  }

  /** One report per unrecognized entry: repeated names are reported each time. */
  lemma {:induction false} UnrecognizedCount(regions: seq<Option<string>>, recognized: string -> bool)
    ensures |Unrecognized(regions, recognized)| == |UnrecognizedIndices(regions, recognized)|
    decreases |regions|
  {
    if regions != [] {
      var init, last := regions[..|regions| - 1], regions[|regions| - 1];
      assert regions == init + [last];
      UnrecognizedSnoc(init, last, recognized);
      UnrecognizedCount(init, recognized);
      var all, before := UnrecognizedIndices(regions, recognized), UnrecognizedIndices(init, recognized);
      if last.Some? && !recognized(last.value) {
        assert all == before + {|init|};
        assert |init| !in before;
      } else {
        assert all == before;
      }
    }
  }

  /**
   * validate_region_names: loops over the regions, skipping None, and appends
   * one issue for each name that is not recognized; returns no issues when
   * region validation is unavailable.
   */
  method ValidateRegionNames(regions: seq<Option<string>>, available: bool, recognized: string -> bool)
    returns (issues: seq<string>)
    ensures issues == RegionIssues(regions, available, recognized)
    ensures issues == [] <==> RegionsAcceptable(regions, available, recognized)
    ensures available ==> |issues| == |UnrecognizedIndices(regions, recognized)|
    ensures !available ==> issues == []
  {
    if !available {
      return [];
    }
    issues := [];
    ghost var names: seq<string> := [];
    for i := 0 to |regions|
      invariant names == Unrecognized(regions[..i], recognized)
      invariant |issues| == |names|
      invariant forall k :: 0 <= k < |names| ==> issues[k] == IssueMessage(names[k])
    {
      UnrecognizedSnoc(regions[..i], regions[i], recognized);
      assert regions[..i + 1] == regions[..i] + [regions[i]];
      match regions[i]
      case None =>
      case Some(region) =>
        if !recognized(region) {
          issues := issues + [IssueMessage(region)];
          names := names + [region];
        }
    }
    assert regions[..|regions|] == regions;
    UnrecognizedMembers(regions, recognized);
    UnrecognizedCount(regions, recognized);
  }
}
