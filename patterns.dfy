/**
  The regular expressions of the entity extractor, each written out as a matcher
  that tries its alternatives in the order Python's backtracking engine does, and
  `Search`, the leftmost-first driver that `re.search` is.

  A matcher `XAt(s, i)` answers what the pattern's match starting exactly at
  position `i` is (its end, or the span of the group the caller reads); `Search`
  then takes the first start position, from left to right, at which the pattern
  matches. Character classes follow `Text`: `\w`, `\d` and `\s` on their ASCII
  meaning, and `re.I` folds ASCII letters only.
*/
module Patterns {

  import opened Wrappers
  import opened Text

  /** A match found by `Search`: where it starts, and the span `lo..hi` of the group read. */
  datatype Hit = Hit(start: nat, lo: nat, hi: nat)

  /** The patterns the extractor searches for. */
  datatype Pattern =
    | TimeExpression     // TIME_RE
    | ThisWord           // this\s+\w+
    | NextWord           // next\s+\w+
    | Today              // today
    | Tomorrow           // tomorrow
    | WeekdayName        // friday|monday|tuesday|wednesday|thursday|saturday|sunday
    | DayThenWord        // \d{1,2}(st|nd|rd|th)?\s+\w+
    | WordThenDay        // \w+\s+\d{1,2}(st|nd|rd|th)?
    | DepartmentTrigger  // (?:book|for|to see)\s+(a\s+)?(?P<raw_dep>\w+)\b

  /** The alternatives of the weekday hint, in the order written. */
  const WeekdayAlternatives: seq<string> := ["friday", "monday", "tuesday", "wednesday", "thursday", "saturday", "sunday"]

  /** The alternatives that introduce a department. */
  const TriggerWords: seq<string> := ["book", "for", "to see"]

  /** `\b` at position `j`: a word character on exactly one side of it. */
  predicate IsBoundary(s: string, j: nat) {
    (0 < j <= |s| && IsWordChar(s[j - 1])) != (j < |s| && IsWordChar(s[j]))
  }

  /** `lit` (written in lower case) occurs at `i` when letter case is ignored. */
  predicate OccursAtIgnoringCase(s: string, lit: string, i: nat) {
    i + |lit| <= |s| && Lower(s[i..i + |lit|]) == lit
  }

  /** Every character of `s[lo..hi]` is whitespace. */
  predicate SpacesIn(s: string, lo: nat, hi: nat) {
    lo <= hi <= |s| && forall k :: lo <= k < hi ==> IsSpace(s[k])
  }

  /** Every character of `s[lo..hi]` is a word character. */
  predicate WordCharsIn(s: string, lo: nat, hi: nat) {
    lo <= hi <= |s| && forall k :: lo <= k < hi ==> IsWordChar(s[k])
  }

  /** Where a greedy `\w*` that starts at `i` stops. */
  function WordRunEnd(s: string, i: nat): (e: nat)
    requires i <= |s|
    ensures i <= e <= |s| && WordCharsIn(s, i, e)
    ensures e == |s| || !IsWordChar(s[e])
    decreases |s| - i
  {
    if i < |s| && IsWordChar(s[i]) then WordRunEnd(s, i + 1) else i
  }

  /** Where a greedy `\s*` that starts at `i` stops. */
  function SpaceRunEnd(s: string, i: nat): (e: nat)
    requires i <= |s|
    ensures i <= e <= |s| && SpacesIn(s, i, e)
    ensures e == |s| || !IsSpace(s[e])
    decreases |s| - i
  {
    if i < |s| && IsSpace(s[i]) then SpaceRunEnd(s, i + 1) else i
  }

  /** Whitespace from `j` never reaches past the end of the whitespace run at `j`. */
  lemma {:induction false} SpacesWithinRun(s: string, j: nat, m: nat)
    requires SpacesIn(s, j, m)
    ensures m <= SpaceRunEnd(s, j)
    decreases m - j
  {
    if j < m {
      assert SpacesIn(s, j + 1, m);
      SpacesWithinRun(s, j + 1, m);
    }
  }

  /** Word characters from `i` never reach past the end of the word run at `i`. */
  lemma {:induction false} WordCharsWithinRun(s: string, i: nat, w: nat)
    requires WordCharsIn(s, i, w)
    ensures w <= WordRunEnd(s, i)
    decreases w - i
  {
    if i < w {
      assert WordCharsIn(s, i + 1, w);
      WordCharsWithinRun(s, i + 1, w);
    }
  }

  // ---------------------------------------------------------------------------
  // TIME_RE, case-insensitive:
  //   \b\d{1,2}(:\d{2})?\s*(am|pm)?\b | \bnoon\b | \bmorning\b | \bevening\b
  // ---------------------------------------------------------------------------

  /** `(am|pm)` at `k`, ignoring case. */
  predicate AmPmAt(s: string, k: nat) {
    OccursAtIgnoringCase(s, "am", k) || OccursAtIgnoringCase(s, "pm", k)
  }

  /** `(am|pm)?\b` matches `s[k..e]`. */
  predicate MeridiemTailMatch(s: string, k: nat, e: nat) {
    k <= e <= |s| && IsBoundary(s, e) && (e == k || (e == k + 2 && AmPmAt(s, k)))
  }

  /** `(am|pm)?\b` at `k`: "am" first, then "pm", then nothing. */
  function MeridiemTail(s: string, k: nat): (r: Option<nat>)
    requires k <= |s|
    ensures r.Some? ==> MeridiemTailMatch(s, k, r.value)
    ensures r.None? ==> forall e: nat :: !MeridiemTailMatch(s, k, e)
    // the suffix is taken whenever the boundary after it allows
    ensures MeridiemTailMatch(s, k, k + 2) ==> r == Some(k + 2)
  {
    if OccursAtIgnoringCase(s, "am", k) && IsBoundary(s, k + 2) then Some(k + 2)
    else if OccursAtIgnoringCase(s, "pm", k) && IsBoundary(s, k + 2) then Some(k + 2)
    else if IsBoundary(s, k) then Some(k)
    else None
  }

  /** A lower-case literal found at `i` when case is ignored begins with the letter `s[i]` folds to. */
  lemma FirstCharIgnoringCase(s: string, lit: string, i: nat)
    ensures lit != [] && OccursAtIgnoringCase(s, lit, i) ==> i < |s| && LowerChar(s[i]) == lit[0]
  {
    if lit != [] && OccursAtIgnoringCase(s, lit, i) {
      assert Lower(s[i..i + |lit|])[0] == LowerChar(s[i]);
    }
  }

  /** `am` or `pm` starts with a letter: never at whitespace, a digit or a colon. */
  lemma AmPmStartsWithLetter(s: string, k: nat)
    ensures AmPmAt(s, k) ==> k < |s| && (LowerChar(s[k]) == 'a' || LowerChar(s[k]) == 'p')
  {
    FirstCharIgnoringCase(s, "am", k);
    FirstCharIgnoringCase(s, "pm", k);
  }

  /** `\s*(am|pm)?\b` matches `s[j..e]`: whitespace, then an optional am/pm, then a boundary at `e`. */
  predicate SpacedMeridiemMatch(s: string, j: nat, e: nat) {
    (SpacesIn(s, j, e) && MeridiemTailMatch(s, e, e))
    || (j + 2 <= e && SpacesIn(s, j, e - 2) && MeridiemTailMatch(s, e - 2, e))
  }

  /**
    `\s*(am|pm)?\b` once the greedy `\s*` has taken the spaces `lo..k`: the rest is
    tried after all of them, then after one fewer, down to none.
  */
  function SpacedMeridiem(s: string, lo: nat, k: nat): (r: Option<nat>)
    requires SpacesIn(s, lo, k)
    ensures r.Some? ==> SpacedMeridiemMatch(s, lo, r.value)
    // no way to finish after fewer of the spaces ends later
    ensures r.Some? ==> forall m: nat, e: nat :: lo <= m <= k && MeridiemTailMatch(s, m, e) ==> e <= r.value
    ensures r.None? ==> forall m: nat :: lo <= m <= k ==> MeridiemTail(s, m).None?
    decreases k
  {
    var tail := MeridiemTail(s, k);
    if tail.Some? then
      MeridiemTailLongest(s, lo, k);
      tail
    else if k == lo then None
    else SpacedMeridiem(s, lo, k - 1)
  }

  /**
    When the optional am/pm finishes after the spaces `lo..k`, backing off a space
    cannot end later: an am/pm that started on a space would need a letter there.
  */
  lemma MeridiemTailLongest(s: string, lo: nat, k: nat)
    requires SpacesIn(s, lo, k) && MeridiemTail(s, k).Some?
    ensures forall m: nat, e: nat :: lo <= m <= k && MeridiemTailMatch(s, m, e) ==> e <= MeridiemTail(s, k).value
  {
    forall m: nat, e: nat | lo <= m <= k && MeridiemTailMatch(s, m, e)
      ensures e <= MeridiemTail(s, k).value
    {
      AmPmStartsWithLetter(s, m);
    }
  }

  /** Every way `\s*(am|pm)?\b` matches at `j` is found by backing off the whitespace run, and none ends later. */
  lemma SpacedMeridiemComplete(s: string, j: nat)
    requires j <= |s|
    ensures forall e: nat :: SpacedMeridiemMatch(s, j, e) ==>
      SpacedMeridiem(s, j, SpaceRunEnd(s, j)).Some? && e <= SpacedMeridiem(s, j, SpaceRunEnd(s, j)).value
  {
    forall e: nat | SpacedMeridiemMatch(s, j, e)
      ensures SpacedMeridiem(s, j, SpaceRunEnd(s, j)).Some? && e <= SpacedMeridiem(s, j, SpaceRunEnd(s, j)).value
    {
      var m := if SpacesIn(s, j, e) && MeridiemTailMatch(s, e, e) then e else e - 2;
      assert SpacesIn(s, j, m) && MeridiemTailMatch(s, m, e);
      SpacesWithinRun(s, j, m);
      assert MeridiemTail(s, m).Some?;
    }
  }

  /** `\s*(am|pm)?\b` at `j`. */
  function ClockTail(s: string, j: nat): (r: Option<nat>)
    requires j <= |s|
    ensures r.Some? ==> SpacedMeridiemMatch(s, j, r.value)
    ensures r.Some? ==> forall e: nat :: SpacedMeridiemMatch(s, j, e) ==> e <= r.value
    ensures r.None? ==> forall e: nat :: !SpacedMeridiemMatch(s, j, e)
  {
    SpacedMeridiemComplete(s, j);
    SpacedMeridiem(s, j, SpaceRunEnd(s, j))
  }

  /** `:\d{2}` at `j`. */
  predicate MinutesAt(s: string, j: nat) {
    j + 3 <= |s| && s[j] == ':' && IsDigit(s[j + 1]) && IsDigit(s[j + 2])
  }

  /** At a digit or a colon, `\s*(am|pm)?\b` can only match the empty string. */
  lemma SpacedMeridiemAtDigitOrColon(s: string, j: nat)
    requires j < |s| && (IsDigit(s[j]) || s[j] == ':')
    ensures forall e: nat :: SpacedMeridiemMatch(s, j, e) ==> e == j
  {
    AmPmStartsWithLetter(s, j);
  }

  /** `(:\d{2})?\s*(am|pm)?\b` matches `s[j..e]`. */
  predicate AfterClockHourMatch(s: string, j: nat, e: nat) {
    SpacedMeridiemMatch(s, j, e) || (MinutesAt(s, j) && SpacedMeridiemMatch(s, j + 3, e))
  }

  /** `(:\d{2})?\s*(am|pm)?\b` after hour digits that end at `j`: with the minutes first. */
  function AfterClockHour(s: string, j: nat): (r: Option<nat>)
    requires j <= |s|
    ensures r.Some? ==> j <= r.value <= |s| && AfterClockHourMatch(s, j, r.value)
    ensures r.Some? ==> forall e: nat :: AfterClockHourMatch(s, j, e) ==> e <= r.value
    ensures r.None? ==> forall e: nat :: !AfterClockHourMatch(s, j, e)
  {
    var withMinutes := if MinutesAt(s, j) then ClockTail(s, j + 3) else None;
    if withMinutes.Some? then
      SpacedMeridiemAtDigitOrColon(s, j);
      withMinutes
    else ClockTail(s, j)
  }

  /** Between two digits there is no boundary, so no clock can end its hour there. */
  lemma NoClockBetweenDigits(s: string, j: nat)
    requires 0 < j < |s| && IsDigit(s[j - 1]) && IsDigit(s[j])
    ensures forall e: nat :: !AfterClockHourMatch(s, j, e)
  {
    SpacedMeridiemAtDigitOrColon(s, j);
  }

  /** `\b\d{1,2}(:\d{2})?\s*(am|pm)?\b` matches `s[i..e]`. */
  predicate ClockMatch(s: string, i: nat, e: nat) {
    i < |s| && IsBoundary(s, i) && IsDigit(s[i])
    && (AfterClockHourMatch(s, i + 1, e) || (i + 1 < |s| && IsDigit(s[i + 1]) && AfterClockHourMatch(s, i + 2, e)))
  }

  /** `\b\d{1,2}(:\d{2})?\s*(am|pm)?\b` at `i`: two hour digits first, then one. */
  function ClockAt(s: string, i: nat): (r: Option<nat>)
    requires i <= |s|
    ensures r.Some? ==> i < r.value <= |s| && ClockMatch(s, i, r.value)
    ensures r.Some? ==> forall e: nat :: ClockMatch(s, i, e) ==> e <= r.value
    ensures r.None? ==> forall e: nat :: !ClockMatch(s, i, e)
  {
    if !IsBoundary(s, i) || i == |s| || !IsDigit(s[i]) then None
    else
      var two := if i + 2 <= |s| && IsDigit(s[i + 1]) then AfterClockHour(s, i + 2) else None;
      if two.Some? then
        NoClockBetweenDigits(s, i + 1);
        two
      else AfterClockHour(s, i + 1)
  }

  /** `\bw\b` matches `s[i..e]`, ignoring case. */
  predicate WholeWordMatch(s: string, i: nat, w: string, e: nat) {
    e == i + |w| && IsBoundary(s, i) && OccursAtIgnoringCase(s, w, i) && IsBoundary(s, e)
  }

  /** `\bw\b` at `i`, case-insensitive. */
  function WholeWordAt(s: string, i: nat, w: string): (r: Option<nat>)
    ensures r.Some? ==> r.value <= |s| && WholeWordMatch(s, i, w, r.value)
    ensures r.None? ==> forall e: nat :: !WholeWordMatch(s, i, w, e)
  {
    if IsBoundary(s, i) && OccursAtIgnoringCase(s, w, i) && IsBoundary(s, i + |w|) then Some(i + |w|) else None
  }

  /** `TIME_RE` matches `s[i..e]`: one of its four alternatives does. */
  predicate TimeMatch(s: string, i: nat, e: nat) {
    ClockMatch(s, i, e) || WholeWordMatch(s, i, "noon", e) || WholeWordMatch(s, i, "morning", e)
    || WholeWordMatch(s, i, "evening", e)
  }

  /** The whole of `TIME_RE` at `i`: its four alternatives in order. */
  function TimeAt(s: string, i: nat): (r: Option<nat>)
    requires i <= |s|
    ensures r.Some? ==> i < r.value <= |s| && TimeMatch(s, i, r.value)
    // the alternatives start with a digit, `n`, `m` and `e`, so at most one matches
    ensures r.Some? ==> forall e: nat :: TimeMatch(s, i, e) ==> e <= r.value
    ensures r.None? ==> forall e: nat :: !TimeMatch(s, i, e)
  {
    FirstCharIgnoringCase(s, "noon", i);
    FirstCharIgnoringCase(s, "morning", i);
    FirstCharIgnoringCase(s, "evening", i);
    if ClockAt(s, i).Some? then ClockAt(s, i)
    else if WholeWordAt(s, i, "noon").Some? then WholeWordAt(s, i, "noon")
    else if WholeWordAt(s, i, "morning").Some? then WholeWordAt(s, i, "morning")
    else WholeWordAt(s, i, "evening")
  }

  // ---------------------------------------------------------------------------
  // DATE_HINTS, searched in the lower-cased text without flags
  // ---------------------------------------------------------------------------

  /** `\s+\w+` matches `s[j..e]`: the whitespace run at `j`, non-empty, then word characters up to `e`. */
  predicate SpacesWordMatch(s: string, j: nat, e: nat) {
    j <= |s| && j < SpaceRunEnd(s, j) < e && WordCharsIn(s, SpaceRunEnd(s, j), e)
  }

  /** Whitespace followed by word characters can only split where the whitespace run ends. */
  lemma SpacesWordSplit(s: string, j: nat, m: nat, e: nat)
    requires j < m < e && SpacesIn(s, j, m) && WordCharsIn(s, m, e)
    ensures m == SpaceRunEnd(s, j) && SpacesWordMatch(s, j, e)
  {
    SpacesWithinRun(s, j, m);
    assert IsWordChar(s[m]);
  }

  /** `\s+\w+` at `j`, with both runs greedy. */
  function SpacesThenWord(s: string, j: nat): (r: Option<nat>)
    requires j <= |s|
    ensures r.Some? ==> SpacesWordMatch(s, j, r.value) && (r.value == |s| || !IsWordChar(s[r.value]))
    ensures r.Some? ==> forall e: nat :: SpacesWordMatch(s, j, e) ==> e <= r.value
    ensures r.None? ==> forall e: nat :: !SpacesWordMatch(s, j, e)
  {
    var sp := SpaceRunEnd(s, j);
    var we := WordRunEnd(s, sp);
    if sp > j && we > sp then Some(we) else None
  }

  /** `kw\s+\w+` matches `s[i..e]`. */
  predicate KeywordWordMatch(s: string, i: nat, kw: string, e: nat) {
    OccursAt(s, kw, i) && SpacesWordMatch(s, i + |kw|, e)
  }

  /** `kw\s+\w+` at `i`. */
  function KeywordThenWordAt(s: string, i: nat, kw: string): (r: Option<nat>)
    requires i <= |s|
    ensures r.Some? ==> i < r.value <= |s| && KeywordWordMatch(s, i, kw, r.value)
    ensures r.Some? ==> r.value == |s| || !IsWordChar(s[r.value])
    ensures r.Some? ==> forall e: nat :: KeywordWordMatch(s, i, kw, e) ==> e <= r.value
    ensures r.None? ==> forall e: nat :: !KeywordWordMatch(s, i, kw, e)
  {
    if OccursAt(s, kw, i) then SpacesThenWord(s, i + |kw|) else None
  }

  /** The literal `w` at `i`. */
  function LiteralAt(s: string, i: nat, w: string): (r: Option<nat>)
    ensures r.Some? <==> OccursAt(s, w, i)
    ensures r.Some? ==> r.value == i + |w|
  {
    if OccursAt(s, w, i) then Some(i + |w|) else None
  }

  /** One of the literals `ws` matches `s[i..e]`. */
  predicate LiteralAltMatch(s: string, i: nat, ws: seq<string>, e: nat) {
    exists k :: 0 <= k < |ws| && OccursAt(s, ws[k], i) && e == i + |ws[k]|
  }

  /** An alternation of literals at `i`: the first alternative that occurs there. */
  function FirstLiteralAt(s: string, i: nat, ws: seq<string>): (r: Option<nat>)
    ensures r.Some? ==> r.value <= |s| && LiteralAltMatch(s, i, ws, r.value)
    ensures r.None? ==> forall e: nat :: !LiteralAltMatch(s, i, ws, e)
  {
    if ws == [] then None
    else if OccursAt(s, ws[0], i) then
      assert LiteralAltMatch(s, i, ws, i + |ws[0]|) by { assert OccursAt(s, ws[0], i); }
      Some(i + |ws[0]|)
    else
      var rest := FirstLiteralAt(s, i, ws[1..]);
      LiteralAltTail(s, i, ws);
      rest
  }

  /** When the first literal does not occur, the alternation matches exactly as its tail does. */
  lemma LiteralAltTail(s: string, i: nat, ws: seq<string>)
    requires ws != [] && !OccursAt(s, ws[0], i)
    ensures forall e: nat :: LiteralAltMatch(s, i, ws, e) <==> LiteralAltMatch(s, i, ws[1..], e)
  {
    forall e: nat ensures LiteralAltMatch(s, i, ws, e) <==> LiteralAltMatch(s, i, ws[1..], e) {
      if LiteralAltMatch(s, i, ws, e) {
        var k :| 0 <= k < |ws| && OccursAt(s, ws[k], i) && e == i + |ws[k]|;
        assert ws[1..][k - 1] == ws[k];
      }
      if LiteralAltMatch(s, i, ws[1..], e) {
        var k :| 0 <= k < |ws[1..]| && OccursAt(s, ws[1..][k], i) && e == i + |ws[1..][k]|;
        assert ws[k + 1] == ws[1..][k];
      }
    }
  }

  /**
    No two weekday names occur at the same position (their first two letters differ),
    so the first that occurs is the only match of the alternation.
  */
  lemma WeekdayOnlyMatch(s: string, i: nat)
    ensures FirstLiteralAt(s, i, WeekdayAlternatives).Some? ==>
      forall e: nat :: LiteralAltMatch(s, i, WeekdayAlternatives, e) ==> e == FirstLiteralAt(s, i, WeekdayAlternatives).value
  {
    var ws := WeekdayAlternatives;
    var heads := ["fr", "mo", "tu", "we", "th", "sa", "su"];
    assert forall k :: 0 <= k < |ws| ==> ws[k][..2] == heads[k];
    forall a, b | 0 <= a < |ws| && 0 <= b < |ws| && OccursAt(s, ws[a], i) && OccursAt(s, ws[b], i)
      ensures a == b
    {
      assert ws[a][..2] == s[i..i + 2] == ws[b][..2];
    }
  }

  /** `(st|nd|rd|th)` at `j`. */
  predicate OrdinalAt(s: string, j: nat) {
    OccursAt(s, "st", j) || OccursAt(s, "nd", j) || OccursAt(s, "rd", j) || OccursAt(s, "th", j)
  }

  /** `(st|nd|rd|th)?\s+\w+` matches `s[j..e]`. */
  predicate AfterDayMatch(s: string, j: nat, e: nat) {
    (OrdinalAt(s, j) && SpacesWordMatch(s, j + 2, e)) || SpacesWordMatch(s, j, e)
  }

  /** `(st|nd|rd|th)?\s+\w+` after day digits that end at `j`: with the suffix first. */
  function AfterDayNumber(s: string, j: nat): (r: Option<nat>)
    requires j <= |s|
    ensures r.Some? ==> j < r.value <= |s| && AfterDayMatch(s, j, r.value)
    ensures r.Some? ==> r.value == |s| || !IsWordChar(s[r.value])
    ensures r.Some? ==> forall e: nat :: AfterDayMatch(s, j, e) ==> e <= r.value
    ensures r.None? ==> forall e: nat :: !AfterDayMatch(s, j, e)
  {
    var withSuffix := if OrdinalAt(s, j) then SpacesThenWord(s, j + 2) else None;
    if withSuffix.Some? then
      // a suffix starts with a letter, so the branch without it has no whitespace to start on
      assert s[j] == s[j..j + 2][0];
      withSuffix
    else SpacesThenWord(s, j)
  }

  /** `\d{1,2}(st|nd|rd|th)?\s+\w+` matches `s[i..e]`. */
  predicate DayWordMatch(s: string, i: nat, e: nat) {
    i < |s| && IsDigit(s[i])
    && (AfterDayMatch(s, i + 1, e) || (i + 1 < |s| && IsDigit(s[i + 1]) && AfterDayMatch(s, i + 2, e)))
  }

  /** `\d{1,2}(st|nd|rd|th)?\s+\w+` at `i`: two digits first, then one. */
  function DayThenWordAt(s: string, i: nat): (r: Option<nat>)
    requires i <= |s|
    ensures r.Some? ==> i < r.value <= |s| && DayWordMatch(s, i, r.value)
    ensures r.Some? ==> r.value == |s| || !IsWordChar(s[r.value])
    ensures r.Some? ==> forall e: nat :: DayWordMatch(s, i, e) ==> e <= r.value
    ensures r.None? ==> forall e: nat :: !DayWordMatch(s, i, e)
  {
    if i == |s| || !IsDigit(s[i]) then None
    else
      var two := if i + 2 <= |s| && IsDigit(s[i + 1]) then AfterDayNumber(s, i + 2) else None;
      if two.Some? then
        // after one digit comes a second, which neither a suffix nor whitespace starts with
        assert s[i + 1] == s[i + 1..i + 3][0];
        two
      else AfterDayNumber(s, i + 1)
  }

  /** `\d{1,2}(st|nd|rd|th)?` matches `s[d..e]`. */
  predicate DayNumberMatch(s: string, d: nat, e: nat) {
    d < |s| && IsDigit(s[d])
    && (e == d + 1 || (e == d + 3 && OrdinalAt(s, d + 1))
        || (d + 1 < |s| && IsDigit(s[d + 1]) && (e == d + 2 || (e == d + 4 && OrdinalAt(s, d + 2)))))
  }

  /** `\w+\s+\d{1,2}(st|nd|rd|th)?` matches `s[i..e]`: the word run at `i`, the whitespace run after it, a day number. */
  predicate WordDayMatch(s: string, i: nat, e: nat) {
    i <= |s| && i < WordRunEnd(s, i) < SpaceRunEnd(s, WordRunEnd(s, i))
    && DayNumberMatch(s, SpaceRunEnd(s, WordRunEnd(s, i)), e)
  }

  /**
    Giving back word characters or whitespace never helps `\w+\s+\d`: what follows
    them would then be a word character or whitespace where whitespace or a digit
    is needed. So every way to split the match is the greedy one.
  */
  lemma WordDaySplit(s: string, i: nat, w: nat, d: nat, e: nat)
    requires i < w < d && WordCharsIn(s, i, w) && SpacesIn(s, w, d) && DayNumberMatch(s, d, e)
    ensures w == WordRunEnd(s, i) && d == SpaceRunEnd(s, w) && WordDayMatch(s, i, e)
  {
    WordCharsWithinRun(s, i, w);
    SpacesWithinRun(s, w, d);
  }

  /** `\w+\s+\d{1,2}(st|nd|rd|th)?` at `i`, taking two digits and the suffix when they are there. */
  function WordThenDayAt(s: string, i: nat): (r: Option<nat>)
    requires i <= |s|
    ensures r.Some? ==> i < r.value <= |s| && WordDayMatch(s, i, r.value)
    ensures r.Some? ==> forall e: nat :: WordDayMatch(s, i, e) ==> e <= r.value
    ensures r.None? ==> forall e: nat :: !WordDayMatch(s, i, e)
  {
    var we := WordRunEnd(s, i);
    var sp := SpaceRunEnd(s, we);
    if we == i || sp == we || sp == |s| || !IsDigit(s[sp]) then None
    else
      var de := if sp + 1 < |s| && IsDigit(s[sp + 1]) then sp + 2 else sp + 1;
      DayNumberLongest(s, sp);
      if OrdinalAt(s, de) then Some(de + 2) else Some(de)
  }

  /**
    `\d{1,2}(st|nd|rd|th)?` at a digit: two digits when there are two, then the suffix
    when there is one, is a match and the longest. A suffix cannot start at a digit.
  */
  lemma DayNumberLongest(s: string, d: nat)
    requires d < |s| && IsDigit(s[d])
    ensures var de := if d + 1 < |s| && IsDigit(s[d + 1]) then d + 2 else d + 1;
      var end := if OrdinalAt(s, de) then de + 2 else de;
      DayNumberMatch(s, d, end) && forall e: nat :: DayNumberMatch(s, d, e) ==> e <= end
  {
    if d + 1 < |s| && IsDigit(s[d + 1]) {
      assert !OrdinalAt(s, d + 1) by {
        if d + 3 <= |s| { assert s[d + 1..d + 3][0] == s[d + 1]; }
      }
    }
  }

  // ---------------------------------------------------------------------------
  // The department trigger, searched in the lower-cased text:
  //   (?:book|for|to see)\s+(a\s+)?(?P<raw_dep>\w+)\b
  // ---------------------------------------------------------------------------

  /** `(\w+)\b` at `k`: the span of the captured word, which runs as far as the word characters do. */
  function CapturedWord(s: string, k: nat): (r: Option<(nat, nat)>)
    requires k <= |s|
    ensures r.Some? <==> k < |s| && IsWordChar(s[k])
    ensures r.Some? ==> r.value.0 == k < r.value.1 && WordCharsIn(s, k, r.value.1) && IsBoundary(s, r.value.1)
    ensures r.Some? ==> r.value.1 == |s| || !IsWordChar(s[r.value.1])
  {
    var e := WordRunEnd(s, k);
    if e > k && IsBoundary(s, e) then Some((k, e)) else None
  }

  /**
    `\s+(a\s+)?(\w+)\b` matches after a trigger word ending at `j`, with the group at
    `lo..hi`: the whitespace run at `j`, non-empty, optionally the article `a` and more
    whitespace, then a whole word.
  */
  predicate TriggerGroupMatch(s: string, j: nat, lo: nat, hi: nat) {
    j <= |s| && j < SpaceRunEnd(s, j)
    && (lo == SpaceRunEnd(s, j)
        || (SpaceRunEnd(s, j) < |s| && s[SpaceRunEnd(s, j)] == 'a' && SpaceRunEnd(s, j) + 1 < lo
            && SpacesIn(s, SpaceRunEnd(s, j) + 1, lo)))
    && lo < hi && WordCharsIn(s, lo, hi) && IsBoundary(s, hi)
  }

  /** `\s+(a\s+)?(\w+)\b` after a trigger word that ends at `j`: with the article first. */
  function TriggerRest(s: string, j: nat): (r: Option<(nat, nat)>)
    requires j <= |s|
    ensures r.Some? ==> j < r.value.0 && TriggerGroupMatch(s, j, r.value.0, r.value.1)
    // the article is skipped whenever a word follows it
    ensures r.Some? ==> forall lo: nat, hi: nat :: TriggerGroupMatch(s, j, lo, hi) ==> lo <= r.value.0
    ensures r.None? ==> forall lo: nat, hi: nat :: !TriggerGroupMatch(s, j, lo, hi)
  {
    var sp := SpaceRunEnd(s, j);
    if sp == j then None
    else
      var afterArticle := if sp < |s| && s[sp] == 'a' then SpaceRunEnd(s, sp + 1) else sp;
      var withArticle := if afterArticle > sp + 1 then CapturedWord(s, afterArticle) else None;
      TriggerGroupStarts(s, j);
      if withArticle.Some? then withArticle else CapturedWord(s, sp)
  }

  /** A trigger group starts where the whitespace run ends, or after the article and its whitespace. */
  lemma TriggerGroupStarts(s: string, j: nat)
    requires j <= |s|
    ensures forall lo: nat, hi: nat :: TriggerGroupMatch(s, j, lo, hi) && lo != SpaceRunEnd(s, j) ==>
      lo == SpaceRunEnd(s, SpaceRunEnd(s, j) + 1)
  {
    var sp := SpaceRunEnd(s, j);
    forall lo: nat, hi: nat | TriggerGroupMatch(s, j, lo, hi) && lo != sp
      ensures lo == SpaceRunEnd(s, sp + 1)
    {
      SpacesWithinRun(s, sp + 1, lo);
      assert IsWordChar(s[lo]);
    }
  }

  /** The trigger pattern with the alternatives `words` matches at `i`, its group at `lo..hi`: some alternative leads to the group. */
  predicate TriggerMatch(s: string, i: nat, words: seq<string>, lo: nat, hi: nat) {
    words != []
    && ((OccursAt(s, words[0], i) && TriggerGroupMatch(s, i + |words[0]|, lo, hi)) || TriggerMatch(s, i, words[1..], lo, hi))
  }

  /** Whichever alternative leads to it, the group of a trigger match is a whole word. */
  lemma {:induction false} TriggerMatchGroup(s: string, i: nat, words: seq<string>, lo: nat, hi: nat)
    requires TriggerMatch(s, i, words, lo, hi)
    ensures lo < hi && WordCharsIn(s, lo, hi) && IsBoundary(s, hi)
  {
    if !(OccursAt(s, words[0], i) && TriggerGroupMatch(s, i + |words[0]|, lo, hi)) {
      TriggerMatchGroup(s, i, words[1..], lo, hi);
    }
  }

  /** No two alternatives start with the same character, so at most one of them occurs at a position. */
  predicate DistinctInitials(words: seq<string>) {
    (forall k :: 0 <= k < |words| ==> words[k] != [])
    && forall a, b :: 0 <= a < b < |words| ==> words[a][0] != words[b][0]
  }

  /** `book`, `for` and `to see` start with different letters. */
  lemma TriggerWordsDistinct()
    ensures DistinctInitials(TriggerWords)
  {
  }

  /** A trigger match needs one of its alternatives to occur. */
  lemma {:induction false} TriggerNeedsWord(s: string, i: nat, words: seq<string>)
    requires forall k :: 0 <= k < |words| ==> !OccursAt(s, words[k], i)
    ensures forall lo: nat, hi: nat :: !TriggerMatch(s, i, words, lo, hi)
  {
    if words != [] {
      forall k | 0 <= k < |words[1..]| ensures !OccursAt(s, words[1..][k], i) {
        assert words[1..][k] == words[k + 1];
      }
      TriggerNeedsWord(s, i, words[1..]);
    }
  }

  /**
    With alternatives that start differently, the group `TriggerFrom` captures starts
    at least as late as the group of any match at `i`: the article is skipped whenever
    a word follows it.
  */
  lemma {:induction false} TriggerFromLatest(s: string, i: nat, words: seq<string>)
    requires i <= |s| && DistinctInitials(words)
    ensures TriggerFrom(s, i, words).Some? ==>
      forall lo: nat, hi: nat :: TriggerMatch(s, i, words, lo, hi) ==> lo <= TriggerFrom(s, i, words).value.0
  {
    if words != [] {
      forall a, b | 0 <= a < b < |words[1..]| ensures words[1..][a] != [] && words[1..][a][0] != words[1..][b][0] {
        assert words[1..][a] == words[a + 1] && words[1..][b] == words[b + 1];
      }
      if OccursAt(s, words[0], i) {
        forall k | 0 <= k < |words[1..]| ensures !OccursAt(s, words[1..][k], i) {
          assert words[1..][k] == words[k + 1];
          assert s[i..i + |words[0]|][0] == s[i];
        }
        TriggerNeedsWord(s, i, words[1..]);
      } else {
        forall k | 0 <= k < |words[1..]| ensures words[1..][k] != [] {
          assert words[1..][k] == words[k + 1];
        }
        TriggerFromLatest(s, i, words[1..]);
      }
    }
  }

  /** The trigger alternation at `i`, each alternative followed by the rest of the pattern. */
  function TriggerFrom(s: string, i: nat, words: seq<string>): (r: Option<(nat, nat)>)
    requires i <= |s|
    ensures r.Some? ==> i < r.value.0 < r.value.1 <= |s| && TriggerMatch(s, i, words, r.value.0, r.value.1)
    ensures r.None? ==> forall lo: nat, hi: nat :: !TriggerMatch(s, i, words, lo, hi)
  {
    if words == [] then None
    else if OccursAt(s, words[0], i) && TriggerRest(s, i + |words[0]|).Some? then
      TriggerRest(s, i + |words[0]|)
    else
      TriggerFrom(s, i, words[1..])
  }

  // ---------------------------------------------------------------------------
  // re.search
  // ---------------------------------------------------------------------------

  /** `p`, a pattern read as a whole, matches `s[i..e]`. */
  predicate Matches(p: Pattern, s: string, i: nat, e: nat) {
    match p
    case TimeExpression => TimeMatch(s, i, e)
    case ThisWord => KeywordWordMatch(s, i, "this", e)
    case NextWord => KeywordWordMatch(s, i, "next", e)
    case Today => OccursAt(s, "today", i) && e == i + 5
    case Tomorrow => OccursAt(s, "tomorrow", i) && e == i + 8
    case WeekdayName => LiteralAltMatch(s, i, WeekdayAlternatives, e)
    case DayThenWord => DayWordMatch(s, i, e)
    case WordThenDay => WordDayMatch(s, i, e)
    case DepartmentTrigger => false
  }

  /** Where the match of a pattern without a capture group that starts at `i` ends. */
  function MatchEnd(p: Pattern, s: string, i: nat): (r: Option<nat>)
    requires i <= |s|
    ensures r.Some? ==> i < r.value <= |s| && Matches(p, s, i, r.value)
    // the backtracking order finds the longest match of every pattern here
    ensures r.Some? ==> forall e: nat :: Matches(p, s, i, e) ==> e <= r.value
    ensures r.None? ==> forall e: nat :: !Matches(p, s, i, e)
  {
    WeekdayOnlyMatch(s, i);
    match p
    case TimeExpression => TimeAt(s, i)
    case ThisWord => KeywordThenWordAt(s, i, "this")
    case NextWord => KeywordThenWordAt(s, i, "next")
    case Today => LiteralAt(s, i, "today")
    case Tomorrow => LiteralAt(s, i, "tomorrow")
    case WeekdayName => FirstLiteralAt(s, i, WeekdayAlternatives)
    case DayThenWord => DayThenWordAt(s, i)
    case WordThenDay => WordThenDayAt(s, i)
    case DepartmentTrigger => None
  }

  /**
    The match of `p` that starts exactly at `i`, as the span of the group the caller
    reads: `raw_dep` for the trigger, the whole match for the others.
  */
  function MatchAt(p: Pattern, s: string, i: nat): (r: Option<(nat, nat)>)
    requires i <= |s|
    ensures r.Some? ==> i <= r.value.0 < r.value.1 <= |s|
    ensures !p.DepartmentTrigger? && r.Some? ==> r.value.0 == i && Matches(p, s, i, r.value.1)
    ensures !p.DepartmentTrigger? && r.Some? ==> forall e: nat :: Matches(p, s, i, e) ==> e <= r.value.1
    ensures !p.DepartmentTrigger? && r.None? ==> forall e: nat :: !Matches(p, s, i, e)
    ensures p.DepartmentTrigger? && r.Some? ==> TriggerMatch(s, i, TriggerWords, r.value.0, r.value.1)
    // the group read is the latest one any match at `i` could capture
    ensures p.DepartmentTrigger? && r.Some? ==>
      forall lo: nat, hi: nat :: TriggerMatch(s, i, TriggerWords, lo, hi) ==> lo <= r.value.0
    ensures p.DepartmentTrigger? && r.None? ==> forall lo: nat, hi: nat :: !TriggerMatch(s, i, TriggerWords, lo, hi)
  {
    if p.DepartmentTrigger? then
      TriggerWordsDistinct();
      TriggerFromLatest(s, i, TriggerWords);
      TriggerFrom(s, i, TriggerWords)
    else if MatchEnd(p, s, i).Some? then Some((i, MatchEnd(p, s, i).value))
    else None
  }

  /** `re.search`: the match that starts leftmost, at `from` or later. */
  function Search(p: Pattern, s: string, from: nat): (r: Option<Hit>)
    requires from <= |s|
    ensures r.Some? ==> from <= r.value.start <= r.value.lo < r.value.hi <= |s|
    ensures r.Some? ==> MatchAt(p, s, r.value.start) == Some((r.value.lo, r.value.hi))
    ensures r.Some? ==> forall j :: from <= j < r.value.start ==> MatchAt(p, s, j).None?
    ensures r.None? <==> forall j :: from <= j <= |s| ==> MatchAt(p, s, j).None?
    decreases |s| - from
  {
    var m := MatchAt(p, s, from);
    if m.Some? then Some(Hit(from, m.value.0, m.value.1))
    else if from == |s| then None
    else Search(p, s, from + 1)
  }

  /** The text of the group a hit reads. */
  function HitText(s: string, h: Hit): string
    requires h.lo <= h.hi <= |s|
  {
    s[h.lo..h.hi]
  }
}
