/**
 * The string and list helpers of scripts/utility_functions.py and its
 * scenario-matrix orientation detector. Every one of them is a pure function
 * in the source (comprehensions, `all`/`any`, `str.find` with slicing, one
 * regular-expression substitution), and each is a function here.
 *
 * Python strings are `seq<char>`; Python `None` results are `Option.None`.
 */
module UtilityFunctions {
  import opened Wrappers

  // ---------------------------------------------------------------------------
  // Substring search: Python's `sub in text` and `text.find(sub, start)`
  // ---------------------------------------------------------------------------

  /** `sub` occurs in `text` beginning at index `i`. */
  predicate OccursAt(text: string, sub: string, i: nat)
  {
    i + |sub| <= |text| && text[i..i + |sub|] == sub
  }

  /** Python's `sub in text`. */
  ghost predicate IsSubstring(sub: string, text: string)
  {
    exists i: nat :: OccursAt(text, sub, i)
  }

  /** `i` is the first index at or after `lo` where `sub` occurs in `text`. */
  ghost predicate IsFirstOccurrence(text: string, sub: string, lo: nat, i: nat)
  {
    lo <= i && OccursAt(text, sub, i) && forall j: nat :: lo <= j < i ==> !OccursAt(text, sub, j)
  }

  /**
   * Python's `text.find(sub, start)` for a non-negative `start`: the least
   * index at or after `start` where `sub` occurs, or -1. As in CPython, a
   * `start` past the end finds nothing, not even the empty string.
   */
  function Find(text: string, sub: string, start: nat): (r: int)
    ensures r == -1 || (r >= 0 && IsFirstOccurrence(text, sub, start, r))
    ensures r == -1 <==> forall i: nat :: start <= i ==> !OccursAt(text, sub, i)
    decreases |text| - start
  {
    if start + |sub| > |text| then -1
    else if OccursAt(text, sub, start) then start
    else Find(text, sub, start + 1)
  }

  /** Python's `sub in text`, computed by searching. */
  function Contains(text: string, sub: string): (r: bool)
    ensures r <==> IsSubstring(sub, text)
  {
    Find(text, sub, 0) != -1
  }

  // ---------------------------------------------------------------------------
  // add_lists_elementwise
  // ---------------------------------------------------------------------------

  /** The column-header form `a (b)` of a quantity and its unit. */
  function WithUnits(a: string, b: string): string
  {
    a + " (" + b + ")"
  }

  /**
   * Elementwise concatenation of two lists of strings; in the units form each
   * element of `list2` is put in parentheses after the element of `list1`.
   * `None` when the lengths differ.
   */
  function AddListsElementwise(list1: seq<string>, list2: seq<string>, list2AreUnits: bool := false): (r: Option<seq<string>>)
    ensures r.None? <==> |list1| != |list2|
    ensures r.Some? ==> |r.value| == |list1|
    ensures r.Some? && !list2AreUnits ==> forall i :: 0 <= i < |list1| ==> r.value[i] == list1[i] + list2[i]
    ensures r.Some? && list2AreUnits ==> forall i :: 0 <= i < |list1| ==> r.value[i] == WithUnits(list1[i], list2[i])
  {
    if |list1| != |list2| then None
    else if list2AreUnits then Some(seq(|list1|, i requires 0 <= i < |list1| => WithUnits(list1[i], list2[i])))
    else Some(seq(|list1|, i requires 0 <= i < |list1| => list1[i] + list2[i]))
  }

  /** Every element of `units` wrapped as ` (u)`. */
  function Parenthesized(units: seq<string>): (r: seq<string>)
    ensures |r| == |units|
  {
    seq(|units|, i requires 0 <= i < |units| => " (" + units[i] + ")")
  }

  /**
   * The units form is the plain form applied to the parenthesized units: the
   * two branches of add_lists_elementwise agree.
   */
  lemma UnitsFormIsPlainFormOfParenthesized(list1: seq<string>, list2: seq<string>)
    ensures AddListsElementwise(list1, list2, true) == AddListsElementwise(list1, Parenthesized(list2), false)
  {
    if |list1| == |list2| {
      var u := AddListsElementwise(list1, list2, true).value;
      var p := AddListsElementwise(list1, Parenthesized(list2), false).value;
      forall i | 0 <= i < |list1| ensures u[i] == p[i] {
        calc {
          u[i];
          list1[i] + " (" + list2[i] + ")";
          list1[i] + (" (" + list2[i] + ")");
          list1[i] + Parenthesized(list2)[i];
          p[i];
        }
      }
      assert u == p;
    }
  }

  /**
   * Each combined element splits back into its two operands: the prefix of
   * length |list1[i]| is list1[i], and the rest is list2[i] (plain form) or
   * list2[i] between " (" and ")" (units form).
   */
  lemma CombinedElementSplitsBack(list1: seq<string>, list2: seq<string>, list2AreUnits: bool, i: nat)
    requires |list1| == |list2| && i < |list1|
    ensures var e := AddListsElementwise(list1, list2, list2AreUnits).value[i];
      var n := |list1[i]|;
      && e[..n] == list1[i]
      && (!list2AreUnits ==> e[n..] == list2[i])
      && (list2AreUnits ==> |e| == n + |list2[i]| + 3 && e[n..n + 2] == " (" && e[n + 2..|e| - 1] == list2[i] && e[|e| - 1] == ')')
  {
  }

  // ---------------------------------------------------------------------------
  // check_substrings_in_list and check_substrings_in_string
  // ---------------------------------------------------------------------------

  /** Some element of `list` contains `sub` (the inner `any` of check_substrings_in_list). */
  ghost predicate InSomeElement(sub: string, list: seq<string>)
  {
    exists j :: 0 <= j < |list| && IsSubstring(sub, list[j])
  }

  /**
   * With mode "all": every substring is contained in some element of `list`.
   * With any other mode (meant to be "any"): some substring is.
   */
  function CheckSubstringsInList(substrings: seq<string>, list: seq<string>, allOrAny: string := "all"): (r: bool)
    ensures allOrAny == "all" ==> (r <==> forall k :: 0 <= k < |substrings| ==> InSomeElement(substrings[k], list))
    ensures allOrAny != "all" ==> (r <==> exists k :: 0 <= k < |substrings| && InSomeElement(substrings[k], list))
  {
    if allOrAny == "all" then
      forall k | 0 <= k < |substrings| :: ContainedInSome(substrings[k], list)
    else
      exists k | 0 <= k < |substrings| :: ContainedInSome(substrings[k], list)
  }

  /** `any(sub in element for element in list)`. */
  function ContainedInSome(sub: string, list: seq<string>): (r: bool)
    ensures r <==> InSomeElement(sub, list)
  {
    exists j | 0 <= j < |list| :: Contains(list[j], sub)
  }

  /**
   * With mode "all": every substring occurs in `text`. With any other mode
   * (meant to be "any"): some substring does.
   */
  function CheckSubstringsInString(substrings: seq<string>, text: string, allOrAny: string := "all"): (r: bool)
    ensures allOrAny == "all" ==> (r <==> forall k :: 0 <= k < |substrings| ==> IsSubstring(substrings[k], text))
    ensures allOrAny != "all" ==> (r <==> exists k :: 0 <= k < |substrings| && IsSubstring(substrings[k], text))
  {
    if allOrAny == "all" then
      forall k | 0 <= k < |substrings| :: Contains(text, substrings[k])
    else
      exists k | 0 <= k < |substrings| :: Contains(text, substrings[k])
  }

  /**
   * The two checks agree on a one-element list; with no substrings "all" is
   * True and every other mode False; and for a non-empty list of substrings
   * "all" implies "any", for both checks.
   */
  lemma CheckSubstringsModes(substrings: seq<string>, text: string, list: seq<string>, mode: string)
    ensures CheckSubstringsInList(substrings, [text], mode) == CheckSubstringsInString(substrings, text, mode)
    ensures substrings == [] ==> CheckSubstringsInString(substrings, text, "all") && CheckSubstringsInList(substrings, list, "all")
    ensures substrings == [] && mode != "all" ==> !CheckSubstringsInString(substrings, text, mode) && !CheckSubstringsInList(substrings, list, mode)
    ensures substrings != [] && CheckSubstringsInString(substrings, text, "all") ==> CheckSubstringsInString(substrings, text, "any")
    ensures substrings != [] && CheckSubstringsInList(substrings, list, "all") ==> CheckSubstringsInList(substrings, list, "any")
  {
    if substrings != [] {
      if CheckSubstringsInString(substrings, text, "all") {
        assert IsSubstring(substrings[0], text);
      }
      if CheckSubstringsInList(substrings, list, "all") {
        assert InSomeElement(substrings[0], list);
      }
    }
    forall k | 0 <= k < |substrings| ensures InSomeElement(substrings[k], [text]) <==> IsSubstring(substrings[k], text) {
      if IsSubstring(substrings[k], text) {
        assert [text][0] == text;
      }
    }
  }

  /** Searching more strings never turns an "all" or "any" answer from True to False. */
  lemma CheckSubstringsInListMonotone(substrings: seq<string>, list: seq<string>, more: seq<string>, mode: string)
    ensures CheckSubstringsInList(substrings, list, mode) ==> CheckSubstringsInList(substrings, list + more, mode)
  {
    forall k | 0 <= k < |substrings| && InSomeElement(substrings[k], list)
      ensures InSomeElement(substrings[k], list + more)
    {
      var j :| 0 <= j < |list| && IsSubstring(substrings[k], list[j]);
      assert (list + more)[j] == list[j];
    }
  }

  // ---------------------------------------------------------------------------
  // find_between_chars
  // ---------------------------------------------------------------------------

  /**
   * The text between the first `startChar` and the first `endChar` after it,
   * or `None` when either is missing.
   */
  function FindBetweenChars(text: string, startChar: string, endChar: string): (r: Option<string>)
    ensures r.None? <==>
      || (forall i: nat :: !OccursAt(text, startChar, i))
      || (forall s: nat | IsFirstOccurrence(text, startChar, 0, s) :: forall j: nat :: s < j ==> !OccursAt(text, endChar, j))
  {
    var s := Find(text, startChar, 0);
    if s == -1 then None
    else
      var e := Find(text, endChar, s + 1);
      if e == -1 then None
      else Some(text[s + 1..e])
  }

  /** Where both occurrences exist, the result is exactly the text strictly between them. */
  lemma FindBetweenCharsExtracts(text: string, startChar: string, endChar: string, s: nat, e: nat)
    requires IsFirstOccurrence(text, startChar, 0, s)
    requires IsFirstOccurrence(text, endChar, s + 1, e)
    ensures FindBetweenChars(text, startChar, endChar) == Some(text[s + 1..e])
  {
  }

  /**
   * The extracted text holds no occurrence of a non-empty `endChar`; in
   * particular, for a one-character `endChar`, not that character.
   */
  lemma {:induction false} FindBetweenCharsHasNoEnd(text: string, startChar: string, endChar: string)
    requires |endChar| > 0
    requires FindBetweenChars(text, startChar, endChar).Some?
    ensures forall k: nat :: !OccursAt(FindBetweenChars(text, startChar, endChar).value, endChar, k)
    ensures |endChar| == 1 ==> endChar[0] !in FindBetweenChars(text, startChar, endChar).value
  {
    var s := Find(text, startChar, 0);
    var e := Find(text, endChar, s + 1);
    var x := text[s + 1..e];
    assert FindBetweenChars(text, startChar, endChar).value == x;
    forall k: nat ensures !OccursAt(x, endChar, k) {
      if k + |endChar| <= |x| {
        assert x[k..k + |endChar|] == text[s + 1 + k..s + 1 + k + |endChar|];
        assert !OccursAt(text, endChar, s + 1 + k);
      }
    }
    if |endChar| == 1 {
      forall k | 0 <= k < |x| ensures x[k] != endChar[0] {
        assert x[k..k + 1] == [x[k]];
        assert !OccursAt(x, endChar, k);
      }
    }
  }

  /** Concrete cases: the text between brackets, and a missing opening or closing bracket. */
  lemma FindBetweenCharsBrackets()
    ensures FindBetweenChars("a[b]c", "[", "]") == Some("b")
    ensures FindBetweenChars("abc", "[", "]") == None
    ensures FindBetweenChars("a[bc", "[", "]") == None
  {
    assert "a[b]c"[0..1] == "a" && "a[b]c"[1..2] == "[";
    assert "a[b]c"[2..3] == "b" && "a[b]c"[3..4] == "]";
    assert IsFirstOccurrence("a[b]c", "[", 0, 1);
    assert IsFirstOccurrence("a[b]c", "]", 2, 3);
    FindBetweenCharsExtracts("a[b]c", "[", "]", 1, 3);
    assert "a[b]c"[2..3] == "b";
    forall i: nat ensures !OccursAt("abc", "[", i) {
      if i < 3 {
        assert i == 0 || i == 1 || i == 2;
        assert "abc"[i..i + 1] == ["abc"[i]];
      }
    }
    assert "a[bc"[0..1] == "a" && "a[bc"[1..2] == "[";
    assert IsFirstOccurrence("a[bc", "[", 0, 1);
    forall s: nat | IsFirstOccurrence("a[bc", "[", 0, s) ensures forall j: nat :: s < j ==> !OccursAt("a[bc", "]", j) {
      forall j: nat | s < j ensures !OccursAt("a[bc", "]", j) {
        if j < 4 {
          assert j == 0 || j == 1 || j == 2 || j == 3;
          assert "a[bc"[j..j + 1] == ["a[bc"[j]];
        }
      }
    }
  }

  // ---------------------------------------------------------------------------
  // modify_list_based_on_condition
  // ---------------------------------------------------------------------------

  /**
   * The list with `newValue(x)` in place of every element `x` that meets
   * `condition`, and every other element kept, in the same order.
   */
  function ModifyListBasedOnCondition<T>(original: seq<T>, condition: T -> bool, newValue: T -> T): (r: seq<T>)
    ensures |r| == |original|
    ensures forall i :: 0 <= i < |original| && condition(original[i]) ==> r[i] == newValue(original[i])
    ensures forall i :: 0 <= i < |original| && !condition(original[i]) ==> r[i] == original[i]
  {
    seq(|original|, i requires 0 <= i < |original| => if condition(original[i]) then newValue(original[i]) else original[i])
  }

  /** The conditional map works element by element, so it distributes over concatenation. */
  lemma ModifyListDistributes<T>(a: seq<T>, b: seq<T>, condition: T -> bool, newValue: T -> T)
    ensures ModifyListBasedOnCondition(a + b, condition, newValue)
         == ModifyListBasedOnCondition(a, condition, newValue) + ModifyListBasedOnCondition(b, condition, newValue)
  {
  }

  /**
   * With no element meeting the condition the list comes back unchanged; and
   * when no new value meets the condition, applying the map twice is the same
   * as applying it once.
   */
  lemma ModifyListFixedPoints<T>(original: seq<T>, condition: T -> bool, newValue: T -> T)
    ensures (forall i :: 0 <= i < |original| ==> !condition(original[i])) ==> ModifyListBasedOnCondition(original, condition, newValue) == original
    ensures (forall x :: condition(x) ==> !condition(newValue(x))) ==>
      var once := ModifyListBasedOnCondition(original, condition, newValue);
      ModifyListBasedOnCondition(once, condition, newValue) == once
  {
  }

  // ---------------------------------------------------------------------------
  // replace_inside_parentheses
  // ---------------------------------------------------------------------------

  /**
   * No '(' in `text` is followed, later, by a ')': the regular expression
   * `\([^)]*\)` has no match.
   */
  ghost predicate NoParenGroup(text: string)
  {
    forall i, j :: 0 <= i < j < |text| && text[i] == '(' ==> text[j] != ')'
  }

  /**
   * `re.sub(r"\([^)]*\)", replacement, text)`, as the left-to-right scanner the
   * regular-expression engine runs: at a '(' that has a ')' somewhere after
   * it, the text up to and including the first such ')' is replaced and
   * scanning resumes after it; any other character is copied.
   */
  function ReplaceInsideParentheses(text: string, replacement: string): (r: string)
    decreases |text|
  {
    if text == [] then []
    else if text[0] != '(' then [text[0]] + ReplaceInsideParentheses(text[1..], replacement)
    else
      var close := Find(text, ")", 1);
      if close == -1 then [text[0]] + ReplaceInsideParentheses(text[1..], replacement)
      else replacement + ReplaceInsideParentheses(text[close + 1..], replacement)
  }

  /** Searching for ")" from `lo` fails exactly when no ')' stands at or after `lo`. */
  lemma FindCloseParen(text: string, lo: nat)
    ensures Find(text, ")", lo) == -1 <==> forall k :: lo <= k < |text| ==> text[k] != ')'
  {
    forall k | lo <= k < |text| ensures text[k] == ')' <==> OccursAt(text, ")", k) {
      assert text[k..k + 1] == [text[k]];
    }
  }

  /** Dropping the first character keeps a text free of groups. */
  lemma NoParenGroupTail(text: string)
    requires text != [] && NoParenGroup(text)
    ensures NoParenGroup(text[1..])
  {
  }

  /** Text without a '(' followed later by a ')' comes back unchanged. */
  lemma {:induction false} NoParenGroupUnchanged(text: string, replacement: string)
    requires NoParenGroup(text)
    ensures ReplaceInsideParentheses(text, replacement) == text
    decreases |text|
  {
    if text != [] {
      FindCloseParen(text, 1);
      NoParenGroupTail(text);
      NoParenGroupUnchanged(text[1..], replacement);
      assert [text[0]] + text[1..] == text;
    }
  }

  /**
   * Two texts without a group, where the first has no '(' or the second no
   * ')': their concatenation has no group.
   */
  lemma ConcatNoParenGroup(a: string, b: string)
    requires NoParenGroup(a) && NoParenGroup(b)
    requires '(' !in a || ')' !in b
    ensures NoParenGroup(a + b)
  {
  }

  /**
   * When the replacement has no parentheses, every group is gone from the
   * result, so replacing a second time changes nothing.
   */
  lemma {:induction false} ReplaceRemovesAllGroups(text: string, replacement: string)
    requires '(' !in replacement && ')' !in replacement
    ensures NoParenGroup(ReplaceInsideParentheses(text, replacement))
    ensures ReplaceInsideParentheses(ReplaceInsideParentheses(text, replacement), replacement)
         == ReplaceInsideParentheses(text, replacement)
    decreases |text|
  {
    var r := ReplaceInsideParentheses(text, replacement);
    if text != [] {
      var close := Find(text, ")", 1);
      if text[0] == '(' && close != -1 {
        var rest := ReplaceInsideParentheses(text[close + 1..], replacement);
        ReplaceRemovesAllGroups(text[close + 1..], replacement);
        ConcatNoParenGroup(replacement, rest);
        assert r == replacement + rest;
      } else {
        var rest := ReplaceInsideParentheses(text[1..], replacement);
        ReplaceRemovesAllGroups(text[1..], replacement);
        if text[0] == '(' {
          // No ')' after this '(': the rest is copied as it is and has no ')'.
          FindCloseParen(text, 1);
          assert NoParenGroup(text[1..]);
          NoParenGroupUnchanged(text[1..], replacement);
          assert ')' !in rest;
        }
        ConcatNoParenGroup([text[0]], rest);
        assert r == [text[0]] + rest;
      }
    }
    NoParenGroupUnchanged(r, replacement);
  }

  /** A text that opens with a group: the group is replaced and the rest is scanned. */
  lemma ReplaceGroupAtStart(inner: string, suffix: string, replacement: string)
    requires ')' !in inner
    ensures ReplaceInsideParentheses("(" + inner + ")" + suffix, replacement)
         == replacement + ReplaceInsideParentheses(suffix, replacement)
  {
    var text := "(" + inner + ")" + suffix;
    var close := 1 + |inner|;
    assert text[close] == ')';
    assert OccursAt(text, ")", close) by {
      assert text[close..close + 1] == [text[close]];
    }
    forall k: nat | 1 <= k < close ensures !OccursAt(text, ")", k) {
      assert text[k] == inner[k - 1];
      assert text[k..k + 1] == [text[k]];
    }
    assert Find(text, ")", 1) == close;
    assert text[close + 1..] == suffix;
  }

  /**
   * The leftmost match is replaced and scanning resumes after it: text with
   * no '(' before a "(inner)" whose inner part has no ')' becomes that text,
   * then the replacement, then the substitution applied to what follows.
   */
  lemma {:induction false} ReplaceLeftmostGroup(prefix: string, inner: string, suffix: string, replacement: string)
    requires '(' !in prefix && ')' !in inner
    ensures ReplaceInsideParentheses(prefix + "(" + inner + ")" + suffix, replacement)
         == prefix + replacement + ReplaceInsideParentheses(suffix, replacement)
    decreases |prefix|
  {
    var text := prefix + "(" + inner + ")" + suffix;
    if prefix == [] {
      ReplaceGroupAtStart(inner, suffix, replacement);
      assert text == "(" + inner + ")" + suffix;
    } else {
      assert text[0] == prefix[0] && text[0] != '(';
      assert text[1..] == prefix[1..] + "(" + inner + ")" + suffix;
      ReplaceLeftmostGroup(prefix[1..], inner, suffix, replacement);
      assert [prefix[0]] + prefix[1..] == prefix;
    }
  }

  /**
   * `p` is the first '(' of `text` and `c` the first ')' after it: the
   * leftmost match of `\([^)]*\)`.
   */
  ghost predicate IsFirstGroup(text: string, p: nat, c: nat)
  {
    && p < c < |text| && text[p] == '(' && text[c] == ')'
    && (forall k :: 0 <= k < p ==> text[k] != '(')
    && (forall k :: p < k < c ==> text[k] != ')')
  }

  /** A text either has no group, or has a first '(' with a ')' after it. */
  lemma GroupOrNone(text: string)
    ensures NoParenGroup(text) || exists p: nat, c: nat :: IsFirstGroup(text, p, c)
  {
    if !NoParenGroup(text) {
      var i, j :| 0 <= i < j < |text| && text[i] == '(' && text[j] == ')';
      var p := FirstIndexOf(text, '(', 0, i);
      var c := FirstIndexOf(text, ')', p + 1, j);
      assert IsFirstGroup(text, p, c);
    }
  }

  /** The first index at or after `lo` holding `ch`, given that `i` holds it. */
  lemma FirstIndexOf(text: string, ch: char, lo: nat, i: nat) returns (f: nat)
    requires lo <= i < |text| && text[i] == ch
    ensures lo <= f <= i && text[f] == ch
    ensures forall k :: lo <= k < f ==> text[k] != ch
    decreases i - lo
  {
    if text[lo] == ch {
      f := lo;
    } else {
      f := FirstIndexOf(text, ch, lo + 1, i);
    }
  }

  /**
   * The substitution in both cases: a text without a group is returned
   * unchanged; otherwise, with `p` the first '(' and `c` the first ')' after
   * it, the text before `p` is kept, the group becomes the replacement, and
   * the substitution goes on after `c`.
   */
  lemma ReplaceInsideParenthesesCases(text: string, replacement: string, p: nat, c: nat)
    ensures NoParenGroup(text) ==> ReplaceInsideParentheses(text, replacement) == text
    ensures IsFirstGroup(text, p, c) ==>
      ReplaceInsideParentheses(text, replacement) == text[..p] + replacement + ReplaceInsideParentheses(text[c + 1..], replacement)
  {
    if NoParenGroup(text) {
      NoParenGroupUnchanged(text, replacement);
    }
    if IsFirstGroup(text, p, c) {
      var prefix, inner, suffix := text[..p], text[p + 1..c], text[c + 1..];
      assert text == prefix + "(" + inner + ")" + suffix;
      assert '(' !in prefix;
      assert ')' !in inner;
      ReplaceLeftmostGroup(prefix, inner, suffix, replacement);
    }
  }

  // ---------------------------------------------------------------------------
  // transpose_scenarios_if_needed
  // ---------------------------------------------------------------------------

  /** Every row of `m` has `cols` entries. */
  predicate IsRectangular(m: seq<seq<string>>, cols: nat)
  {
    forall r :: 0 <= r < |m| ==> |m[r]| == cols
  }

  /** The length of the first row (the source's `num_cols`), 0 for no rows. */
  function NumCols(m: seq<seq<string>>): nat
  {
    if |m| == 0 then 0 else |m[0]|
  }

  /** `t` has one row per column of `m`, and `t[c][r]` is `m[r][c]`. */
  ghost predicate IsTransposeOf(t: seq<seq<string>>, m: seq<seq<string>>, cols: nat)
    requires IsRectangular(m, cols)
  {
    && |t| == cols
    && IsRectangular(t, |m|)
    && forall c, r :: 0 <= c < cols && 0 <= r < |m| ==> t[c][r] == m[r][c]
  }

  /** The nested comprehension of the source's three transposing branches. */
  function Transpose(m: seq<seq<string>>, cols: nat): (t: seq<seq<string>>)
    requires IsRectangular(m, cols)
    ensures IsTransposeOf(t, m, cols)
  {
    seq(cols, c requires 0 <= c < cols => seq(|m|, r requires 0 <= r < |m| => m[r][c]))
  }

  /** Transposing twice gives back the matrix. */
  lemma TransposeTwice(m: seq<seq<string>>, cols: nat)
    requires IsRectangular(m, cols)
    ensures Transpose(Transpose(m, cols), |m|) == m
  {
    var t := Transpose(m, cols);
    var tt := Transpose(t, |m|);
    forall r | 0 <= r < |m| ensures tt[r] == m[r] {
      forall c | 0 <= c < cols ensures tt[r][c] == m[r][c] {
        assert tt[r][c] == t[c][r];
      }
    }
  }

  /**
   * The decision table in closed form: transpose when the labels' count
   * equals the row count, or when labels are absent or fit neither dimension
   * and there are more columns than rows.
   */
  predicate ShouldTranspose(numRows: nat, numCols: nat, scenarioSets: Option<seq<string>>)
  {
    || (scenarioSets.Some? && |scenarioSets.value| == numRows)
    || ((scenarioSets.None? || (|scenarioSets.value| != numRows && |scenarioSets.value| != numCols)) && numCols > numRows)
  }

  /**
   * The scenario matrix in member-major orientation, and whether it was
   * transposed to get there. Empty or ragged input is returned as it is.
   */
  function TransposeScenariosIfNeeded(scenarios: seq<seq<string>>, scenarioSets: Option<seq<string>> := None): (r: (seq<seq<string>>, bool))
    ensures !r.1 ==> r.0 == scenarios
    ensures r.1 ==> IsRectangular(scenarios, NumCols(scenarios)) && IsTransposeOf(r.0, scenarios, NumCols(scenarios))
    ensures |scenarios| == 0 || !IsRectangular(scenarios, NumCols(scenarios)) ==> !r.1
    ensures |scenarios| > 0 && IsRectangular(scenarios, NumCols(scenarios)) ==>
      (r.1 <==> ShouldTranspose(|scenarios|, NumCols(scenarios), scenarioSets))
  {
    if |scenarios| == 0 then (scenarios, false)
    else
      var numRows := |scenarios|;
      var numCols := |scenarios[0]|;
      if !IsRectangular(scenarios, numCols) then (scenarios, false)
      else if scenarioSets.Some? && |scenarioSets.value| == numRows && |scenarioSets.value| != numCols then
        (Transpose(scenarios, numCols), true)
      else if scenarioSets.Some? && |scenarioSets.value| == numCols && |scenarioSets.value| != numRows then
        (scenarios, false)
      else if scenarioSets.Some? && |scenarioSets.value| == numRows && numRows == numCols then
        (Transpose(scenarios, numCols), true)
      else if numCols > numRows then
        (Transpose(scenarios, numCols), true)
      else
        (scenarios, false)
  }

  /** A transposed result with at least one column transposes back to the input. */
  lemma TransposedResultTransposesBack(scenarios: seq<seq<string>>, scenarioSets: Option<seq<string>>)
    requires TransposeScenariosIfNeeded(scenarios, scenarioSets).1
    requires NumCols(scenarios) > 0
    ensures var out := TransposeScenariosIfNeeded(scenarios, scenarioSets).0;
      IsRectangular(out, NumCols(out)) && Transpose(out, NumCols(out)) == scenarios
  {
    var cols := NumCols(scenarios);
    var out := TransposeScenariosIfNeeded(scenarios, scenarioSets).0;
    assert out == Transpose(scenarios, cols);
    assert NumCols(out) == |scenarios|;
    TransposeTwice(scenarios, cols);
  }

  /**
   * Feeding the result back in with the same labels changes nothing more —
   * except for a square matrix whose labels fit both dimensions, which is
   * transposed back again each time.
   */
  lemma SecondPassIsStable(scenarios: seq<seq<string>>, scenarioSets: Option<seq<string>>)
    ensures var first := TransposeScenariosIfNeeded(scenarios, scenarioSets);
      var second := TransposeScenariosIfNeeded(first.0, scenarioSets);
      if |scenarios| > 0 && IsRectangular(scenarios, NumCols(scenarios))
         && scenarioSets.Some? && |scenarioSets.value| == |scenarios| == NumCols(scenarios)
      then second == (scenarios, true)
      else second == (first.0, false)
  {
    var first := TransposeScenariosIfNeeded(scenarios, scenarioSets);
    if first.1 {
      var rows, cols := |scenarios|, NumCols(scenarios);
      var out := first.0;
      if cols == 0 {
        assert out == [];
      } else {
        assert NumCols(out) == rows;
        assert IsRectangular(out, rows);
        TransposeTwice(scenarios, cols);
      }
    }
  }

  /** The three examples of the source's doc comment. */
  lemma TransposeDocExamples()
    ensures TransposeScenariosIfNeeded([["run_A", "run_B", "run_C"], ["exp_X", "exp_Y", "exp_Z"]], Some(["Control", "Treatment"]))
         == ([["run_A", "exp_X"], ["run_B", "exp_Y"], ["run_C", "exp_Z"]], true)
    ensures TransposeScenariosIfNeeded([["A1", "B1"], ["A2", "B2"], ["A3", "B3"]], None)
         == ([["A1", "B1"], ["A2", "B2"], ["A3", "B3"]], false)
    ensures TransposeScenariosIfNeeded([["A", "B"], ["C", "D"]], None) == ([["A", "B"], ["C", "D"]], false)
  {
    var m := [["run_A", "run_B", "run_C"], ["exp_X", "exp_Y", "exp_Z"]];
    assert IsRectangular(m, 3);
    var t := Transpose(m, 3);
    assert TransposeScenariosIfNeeded(m, Some(["Control", "Treatment"])) == (t, true);
    assert |t| == 3;
    assert t[0] == [m[0][0], m[1][0]];
    assert t[1] == [m[0][1], m[1][1]];
    assert t[2] == [m[0][2], m[1][2]];
    assert t == [[m[0][0], m[1][0]], [m[0][1], m[1][1]], [m[0][2], m[1][2]]];
    assert IsRectangular([["A1", "B1"], ["A2", "B2"], ["A3", "B3"]], 2);
    assert IsRectangular([["A", "B"], ["C", "D"]], 2);
  }
}
