/**
  Heuristic entity extraction (app/entity_extraction.py): the department, the
  time phrase and the date phrase of a request text, and a confidence score.

  Named-entity recognition is an input: `None` when no model is loaded, or the
  `(tag, text)` spans the model found, in document order.
*/
module EntityExtraction {

  import opened Wrappers
  import opened Text
  import opened Model
  import opened Patterns

  /** `_CANONICAL_DEPARTMENTS` of the extractor in insertion order: keyword and canonical name. */
  const KeywordTable: seq<(string, string)> := [
    ("dentist", "Dentistry"),
    ("dental", "Dentistry"),
    ("cardio", "Cardiology"),
    ("cardiologist", "Cardiology"),
    ("eye", "Ophthalmology"),
    ("general", "General Medicine"),
    ("gynac", "Gynaecology"),
    ("gynaecologist", "Gynaecology"),
    ("optometrist", "Ophthalmology")
  ]

  /** Words the trigger fallback refuses to report as a department. */
  const StopWords: set<string> := {"the", "an", "appointment", "time", "date", "dr"}

  /** `DATE_HINTS`, in priority order. */
  const DateHints: seq<Pattern> := [ThisWord, NextWord, Today, Tomorrow, WeekdayName, DayThenWord, WordThenDay]

  /** The weekdays `_clean_date_phrase` rewrites "next <day>" to. */
  const Weekdays: seq<string> := ["monday", "tuesday", "wednesday", "thursday", "friday", "saturday", "sunday"]

  // ---------------------------------------------------------------------------
  // _extract_department
  // ---------------------------------------------------------------------------

  /** The index of the first keyword, at `k` or later, that occurs in `low`; `|KeywordTable|` if none does. */
  function FirstKeyword(low: string, k: nat): (r: nat)
    requires k <= |KeywordTable|
    ensures k <= r <= |KeywordTable|
    ensures forall j :: k <= j < r ==> !Contains(low, KeywordTable[j].0)
    ensures r < |KeywordTable| ==> Contains(low, KeywordTable[r].0)
    decreases |KeywordTable| - k
  {
    if k == |KeywordTable| || Contains(low, KeywordTable[k].0) then k else FirstKeyword(low, k + 1)
  }

  /**
    The word the leftmost department trigger in `low` captures, unless it is a
    stop word; a stop word ends the search even if a later trigger would do.
  */
  function TriggeredDepartment(low: string): (r: Option<string>)
    // a word exactly when the leftmost trigger match captures one that is not a stop word, and then that word
    ensures r.Some? <==> Search(DepartmentTrigger, low, 0).Some?
                         && HitText(low, Search(DepartmentTrigger, low, 0).value) !in StopWords
    ensures r.Some? ==> r.value == HitText(low, Search(DepartmentTrigger, low, 0).value)
    ensures r.Some? ==> r.value != "" && r.value !in StopWords && Contains(low, r.value)
    ensures r.Some? ==> forall k :: 0 <= k < |r.value| ==> IsWordChar(r.value[k])
    ensures r.Some? && IsLowercase(low) ==> IsLowercase(r.value)
  {
    var m := Search(DepartmentTrigger, low, 0);
    if m.None? then None
    else
      var h := m.value;
      var raw := HitText(low, h);
      if raw in StopWords then None
      else
        TriggerSpanChars(low, h.start, h.lo, h.hi);
        CapturedWordFacts(low, h.lo, h.hi);
        Some(Strip(raw))
  }

  /** The group of a trigger match is a non-empty run of word characters. */
  lemma TriggerSpanChars(low: string, i: nat, lo: nat, hi: nat)
    requires i <= |low| && MatchAt(DepartmentTrigger, low, i) == Some((lo, hi))
    ensures lo < hi <= |low|
    ensures forall j :: lo <= j < hi ==> IsWordChar(low[j])
  {
    TriggerMatchGroup(low, i, TriggerWords, lo, hi);
  }

  /** A run of word characters keeps that property, and lower case, as a slice. */
  lemma CapturedWordChars(low: string, lo: nat, hi: nat)
    requires lo < hi <= |low| && forall j :: lo <= j < hi ==> IsWordChar(low[j])
    ensures forall k :: 0 <= k < hi - lo ==> IsWordChar(low[lo..hi][k])
    ensures IsLowercase(low) ==> IsLowercase(low[lo..hi])
  {
    var raw := low[lo..hi];
    forall k | 0 <= k < |raw|
      ensures raw[k] == low[lo + k] && IsWordChar(raw[k])
    {
    }
  }

  /** So the captured word needs no stripping, and it occurs in `low`. */
  lemma CapturedWordFacts(low: string, lo: nat, hi: nat)
    requires lo < hi <= |low| && forall j :: lo <= j < hi ==> IsWordChar(low[j])
    ensures forall k :: 0 <= k < hi - lo ==> IsWordChar(low[lo..hi][k])
    ensures IsLowercase(low) ==> IsLowercase(low[lo..hi])
    ensures Strip(low[lo..hi]) == low[lo..hi]
    ensures Contains(low, low[lo..hi])
  {
    CapturedWordChars(low, lo, hi);
    var raw := low[lo..hi];
    assert IsWordChar(raw[0]) && IsWordChar(raw[|raw| - 1]);
    StripKeeps(raw);
    ContainsSlice(low, lo, hi);
  }

  /**
    `_extract_department`: the first keyword of the table that occurs in the
    lower-cased text, reported as the keyword itself; otherwise the word after a
    trigger such as "book" or "to see".
  */
  function ExtractDepartment(text: string): (r: Option<string>)
    ensures r.Some? ==> r.value != "" && IsLowercase(r.value) && r.value !in StopWords
    ensures r.Some? ==> Contains(Lower(text), r.value)
  {
    var low := Lower(text);
    var k := FirstKeyword(low, 0);
    if k < |KeywordTable| then
      KeywordIsWord(k);
      Some(KeywordTable[k].0)
    else TriggeredDepartment(low)
  }

  lemma KeywordIsWord(k: nat)
    requires k < |KeywordTable|
    ensures var w := KeywordTable[k].0; w != "" && IsLowercase(w) && w !in StopWords
  {
    var w := KeywordTable[k].0;
    assert w in {"dentist", "dental", "cardio", "cardiologist", "eye", "general", "gynac", "gynaecologist", "optometrist"};
  }

  /** The keyword that occurs first in table order wins, wherever in the text any keyword sits. */
  lemma KeywordPriority(text: string, k: nat)
    requires k < |KeywordTable| && Contains(Lower(text), KeywordTable[k].0)
    requires forall j :: 0 <= j < k ==> !Contains(Lower(text), KeywordTable[j].0)
    ensures ExtractDepartment(text) == Some(KeywordTable[k].0)
  {
    var r := FirstKeyword(Lower(text), 0);
    assert r <= k;
  }

  /** The trigger fallback is consulted exactly when no keyword occurs. */
  lemma TriggerOnlyWithoutKeyword(text: string)
    ensures (forall k :: 0 <= k < |KeywordTable| ==> !Contains(Lower(text), KeywordTable[k].0))
            ==> ExtractDepartment(text) == TriggeredDepartment(Lower(text))
    ensures (exists k :: 0 <= k < |KeywordTable| && Contains(Lower(text), KeywordTable[k].0))
            ==> exists k :: 0 <= k < |KeywordTable| && ExtractDepartment(text) == Some(KeywordTable[k].0)
  {
    var r := FirstKeyword(Lower(text), 0);
    if exists k :: 0 <= k < |KeywordTable| && Contains(Lower(text), KeywordTable[k].0) {
      var k :| 0 <= k < |KeywordTable| && Contains(Lower(text), KeywordTable[k].0);
      assert r <= k;
    }
  }

  /**
    The keyword "cardiologist" is never reported: every text containing it also
    contains "cardio", which comes earlier in the table, and the trigger path only
    runs when no keyword occurs at all.
  */
  lemma CardiologistShadowed(text: string)
    ensures ExtractDepartment(text) != Some("cardiologist")
  {
    var low := Lower(text);
    var k := FirstKeyword(low, 0);
    if Contains(low, "cardiologist") {
      assert "cardio" + "logist" == "cardiologist";
      ContainsPrefix(low, "cardio", "logist");
      assert k <= 2;
    } else if k == |KeywordTable| {
      assert TriggeredDepartment(low) != Some("cardiologist");
    }
  }

  /** The department lookup ignores letter case. */
  lemma DepartmentIgnoresCase(text: string)
    ensures ExtractDepartment(Upper(text)) == ExtractDepartment(text)
  {
    LowerUpper(text);
  }

  // ---------------------------------------------------------------------------
  // _extract_time and _extract_date_phrase
  // ---------------------------------------------------------------------------

  /** `_extract_time`: the leftmost match of `TIME_RE` in the text as written. */
  function ExtractTime(text: string): (r: Option<string>)
    ensures r.Some? ==> r.value != "" && Contains(text, r.value)
    ensures r.None? <==> forall i :: 0 <= i <= |text| ==> MatchAt(TimeExpression, text, i).None?
    // the leftmost match, which `MatchAt` makes the longest at its start
    ensures r.Some? ==> r.value == HitText(text, Search(TimeExpression, text, 0).value)
  {
    var m := Search(TimeExpression, text, 0);
    if m.None? then None
    else
      ContainsSlice(text, m.value.lo, m.value.hi);
      Some(HitText(text, m.value))
  }

  /** For each date hint in order, whether it matches somewhere in `low`. */
  function HintsFound(low: string): seq<bool> {
    seq(|DateHints|, j requires 0 <= j < |DateHints| => Search(DateHints[j], low, 0).Some?)
  }

  /** The index of the first `true` in `found`, at `k` or later; `|found|` if there is none. */
  function FirstFound(found: seq<bool>, k: nat): (r: nat)
    requires k <= |found|
    ensures k <= r <= |found|
    ensures forall j :: k <= j < r ==> !found[j]
    ensures r < |found| ==> found[r]
    decreases |found| - k
  {
    if k == |found| || found[k] then k else FirstFound(found, k + 1)
  }

  /** `_extract_date_phrase`: the leftmost match of the first hint that matches anywhere in the lower-cased text. */
  function ExtractDatePhrase(text: string): (r: Option<string>)
    ensures r.Some? ==> r.value != "" && Contains(Lower(text), r.value)
    ensures r.None? <==> forall k :: 0 <= k < |DateHints| ==> Search(DateHints[k], Lower(text), 0).None?
  {
    var low := Lower(text);
    var found := HintsFound(low);
    var k := FirstFound(found, 0);
    if k == |DateHints| then
      assert forall j :: 0 <= j < |DateHints| ==> Search(DateHints[j], low, 0).None? by {
        forall j | 0 <= j < |DateHints| ensures Search(DateHints[j], low, 0).None? {
          assert !found[j];
        }
      }
      None
    else
      assert found[k] == Search(DateHints[k], low, 0).Some?;
      var h := Search(DateHints[k], low, 0).value;
      ContainsSlice(low, h.lo, h.hi);
      Some(HitText(low, h))
  }

  /**
    Hints are ranked by their place in the list, not by where they match: the
    first hint that matches anywhere supplies the phrase, so "tomorrow, or this
    week" yields "this week".
  */
  lemma HintPriority(text: string, k: nat)
    requires k < |DateHints| && Search(DateHints[k], Lower(text), 0).Some?
    requires forall j :: 0 <= j < k ==> Search(DateHints[j], Lower(text), 0).None?
    ensures ExtractDatePhrase(text) == Some(HitText(Lower(text), Search(DateHints[k], Lower(text), 0).value))
  {
    var found := HintsFound(Lower(text));
    var r := FirstFound(found, 0);
    assert found[k];
    assert r == k;
  }

  /** A text that mentions "today" or "tomorrow", in any letter case, always yields a date phrase. */
  lemma RelativeDayFound(text: string, w: string)
    requires w == "today" || w == "tomorrow"
    requires Contains(Lower(text), w)
    ensures ExtractDatePhrase(text).Some?
  {
    var low := Lower(text);
    var i: nat :| OccursAt(low, w, i);
    var p := if w == "today" then Today else Tomorrow;
    assert p == DateHints[if w == "today" then 2 else 3];
    assert MatchEnd(p, low, i) == Some(i + |w|);
    assert MatchAt(p, low, i).Some?;
  }

  // ---------------------------------------------------------------------------
  // _clean_date_phrase
  // ---------------------------------------------------------------------------

  /** The index of the first weekday `d`, at `k` or later, with `lowPhrase == "next " + d`; `|Weekdays|` if none. */
  function NextWeekday(lowPhrase: string, k: nat): (r: nat)
    requires k <= |Weekdays|
    ensures k <= r <= |Weekdays|
    ensures forall j :: k <= j < r ==> lowPhrase != "next " + Weekdays[j]
    ensures r < |Weekdays| ==> lowPhrase == "next " + Weekdays[r]
    decreases |Weekdays| - k
  {
    if k == |Weekdays| || lowPhrase == "next " + Weekdays[k] then k else NextWeekday(lowPhrase, k + 1)
  }

  lemma NextInjective(a: string, b: string)
    requires "next " + a == "next " + b
    ensures a == b
  {
    assert a == ("next " + a)[5..];
    assert b == ("next " + b)[5..];
  }

  /**
    `_clean_date_phrase`. Compared after lower-casing and collapsing whitespace,
    "next day" becomes "tomorrow" and "next <weekday>" becomes the weekday; any
    other present phrase comes back exactly as given, and an absent or empty one
    as `None`.
  */
  function CleanDatePhrase(phrase: Option<string>): (r: Option<string>)
    ensures r.None? <==> !Truthy(phrase)
    ensures Truthy(phrase) && Collapse(Lower(phrase.value)) == "next day" ==> r == Some("tomorrow")
    ensures forall k :: 0 <= k < |Weekdays| && Truthy(phrase) && Collapse(Lower(phrase.value)) == "next " + Weekdays[k]
              ==> r == Some(Weekdays[k])
    ensures Truthy(phrase) && Collapse(Lower(phrase.value)) != "next day"
            && (forall k :: 0 <= k < |Weekdays| ==> Collapse(Lower(phrase.value)) != "next " + Weekdays[k])
            ==> r == phrase
  {
    if !Truthy(phrase) then None else Some(CleanKey(Collapse(Lower(phrase.value)), phrase.value))
  }

  /** `_clean_date_phrase` on a present phrase whose lowered, collapsed form is `low`. */
  function CleanKey(low: string, phrase: string): (r: string)
    ensures low == "next day" ==> r == "tomorrow"
    ensures forall k :: 0 <= k < |Weekdays| && low == "next " + Weekdays[k] ==> r == Weekdays[k]
    ensures low != "next day" && (forall k :: 0 <= k < |Weekdays| ==> low != "next " + Weekdays[k]) ==> r == phrase
  {
    if low == "next day" then "tomorrow"
    else
      var k := NextWeekday(low, 0);
      assert forall j :: 0 <= j < |Weekdays| && low == "next " + Weekdays[j] ==> k == j by {
        forall j | 0 <= j < |Weekdays| && low == "next " + Weekdays[j] ensures k == j {
          assert k <= j;
          NextInjective(Weekdays[k], Weekdays[j]);
        }
      }
      if k < |Weekdays| then Weekdays[k] else phrase
  }

  /** A short lower-case word that is not "next day" is left as it is. */
  lemma CleanKeepsWord(w: string)
    requires w != "" && NoSpace(w) && IsLowercase(w) && |w| < 11 && w != "next day"
    ensures CleanDatePhrase(Some(w)) == Some(w)
  {
    CollapseWord(w);
    forall k | 0 <= k < |Weekdays| ensures w != "next " + Weekdays[k] {
      WeekdayIsWord(k);
    }
  }

  lemma WeekdayIsWord(k: nat)
    requires k < |Weekdays|
    ensures var w := Weekdays[k]; 6 <= |w| < 11 && NoSpace(w) && IsLowercase(w) && w != "next day"
  {
    var w := Weekdays[k];
    assert w in {"monday", "tuesday", "wednesday", "thursday", "friday", "saturday", "sunday"};
    assert forall i :: 0 <= i < |w| ==> 'a' <= w[i] <= 'z';
    LettersAreWord(w);
  }

  /**
    "next" and a weekday, in any letter case, with any whitespace around them and
    some between them, is cleaned to the bare weekday.
  */
  lemma NextWeekdayCleaned(g0: string, n: string, g1: string, w: string, g2: string, k: nat)
    requires AllSpace(g0) && AllSpace(g1) && g1 != [] && AllSpace(g2)
    requires Lower(n) == "next" && k < |Weekdays| && Lower(w) == Weekdays[k]
    ensures CleanDatePhrase(Some(g0 + n + g1 + w + g2)) == Some(Weekdays[k])
  {
    WeekdayIsWord(k);
    NextWordCollapsed(g0, n, g1, w, g2, Weekdays[k]);
  }

  /** Lower-cased and collapsed, such a phrase is "next ", one space and the word. */
  lemma NextWordCollapsed(g0: string, n: string, g1: string, w: string, g2: string, y: string)
    requires AllSpace(g0) && AllSpace(g1) && g1 != [] && AllSpace(g2)
    requires Lower(n) == "next" && Lower(w) == y && y != [] && NoSpace(y)
    ensures var phrase := g0 + n + g1 + w + g2; phrase != [] && Collapse(Lower(phrase)) == "next " + y
  {
    assert |n| == 4;
    NextThenWord(y);
    CollapseLowerPadded(g0, n, g1, w, g2);
  }

  /** "next" is a word, and "next", a space and a word spell "next " and the word. */
  lemma NextThenWord(y: string)
    ensures NoSpace("next") && "next" + " " + y == "next " + y
  {
  }

  /** "next day", in any letter case and spacing, is cleaned to "tomorrow". */
  lemma NextDayCleaned(g0: string, n: string, g1: string, d: string, g2: string)
    requires AllSpace(g0) && AllSpace(g1) && g1 != [] && AllSpace(g2)
    requires Lower(n) == "next" && Lower(d) == "day"
    ensures CleanDatePhrase(Some(g0 + n + g1 + d + g2)) == Some("tomorrow")
  {
    var phrase := g0 + n + g1 + d + g2;
    NextDayWords();
    CollapseLowerPadded(g0, n, g1, d, g2);
    assert |phrase| >= |n| == 4;
  }

  /** "next" and "day" are words, and with one space between them they spell "next day". */
  lemma NextDayWords()
    ensures NoSpace("next") && NoSpace("day") && "next" + " " + "day" == "next day"
  {
  }

  /** Cleaning a cleaned phrase changes nothing. */
  lemma CleanIdempotent(phrase: Option<string>)
    ensures CleanDatePhrase(CleanDatePhrase(phrase)) == CleanDatePhrase(phrase)
  {
    if Truthy(phrase) {
      CleanKeyFixed(Collapse(Lower(phrase.value)), phrase.value);
    }
  }

  /** What `CleanKey` gives is either the phrase itself or a phrase cleaning leaves alone. */
  lemma CleanKeyFixed(low: string, phrase: string)
    ensures var r := CleanKey(low, phrase); r == phrase || CleanDatePhrase(Some(r)) == Some(r)
  {
    if low == "next day" {
      CleanKeepsWord("tomorrow");
    } else {
      var k := NextWeekday(low, 0);
      if k < |Weekdays| {
        assert CleanKey(low, phrase) == Weekdays[k];
        WeekdayIsWord(k);
        CleanKeepsWord(Weekdays[k]);
      }
    }
  }

  // ---------------------------------------------------------------------------
  // extract_entities
  // ---------------------------------------------------------------------------

  /** An entity the recogniser found: its tag (`"DATE"`, `"TIME"`, ...) and its text. */
  datatype NerSpan = NerSpan(tag: string, text: string)

  /** The spans the loop visits: none when no recogniser is loaded. */
  function SpansOf(ner: Option<seq<NerSpan>>): seq<NerSpan> {
    if ner.Some? then ner.value else []
  }

  /** One span offered to the slot `tag`: it fills the slot if its tag fits and the slot is still falsy. */
  function Offer(slot: Option<string>, span: NerSpan, tag: string): (r: Option<string>)
    ensures r == slot || (span.tag == tag && r == Some(span.text))
    ensures Truthy(slot) ==> r == slot
    ensures !Truthy(slot) && span.tag == tag ==> r == Some(span.text)
  {
    if span.tag == tag && !Truthy(slot) then Some(span.text) else slot
  }

  /**
    The slot `tag` once every span has been offered to it, in order, starting
    from `None`: a filled slot holds the text of one of the spans carrying its tag.
  */
  function NerSlot(spans: seq<NerSpan>, tag: string): (r: Option<string>)
    ensures r.Some? ==> exists j :: 0 <= j < |spans| && spans[j].tag == tag && r == Some(spans[j].text)
  {
    if spans == [] then None
    else
      var init := spans[..|spans| - 1];
      var before := NerSlot(init, tag);
      var r := Offer(before, spans[|spans| - 1], tag);
      assert r.Some? && r == before ==> exists j :: 0 <= j < |spans| && spans[j].tag == tag && r == Some(spans[j].text) by {
        if r.Some? && r == before {
          var j :| 0 <= j < |init| && init[j].tag == tag && before == Some(init[j].text);
          assert spans[j] == init[j];
        }
      }
      r
  }

  /** A span that could fill the slot `tag` with something truthy. */
  predicate Fills(span: NerSpan, tag: string) {
    span.tag == tag && span.text != ""
  }

  /** Without a span that fills it, the slot stays falsy. */
  lemma {:induction false} NerSlotFalsy(spans: seq<NerSpan>, tag: string)
    requires forall j :: 0 <= j < |spans| ==> !Fills(spans[j], tag)
    ensures !Truthy(NerSlot(spans, tag))
  {
    if spans != [] {
      var init := spans[..|spans| - 1];
      assert forall j :: 0 <= j < |init| ==> init[j] == spans[j];
      NerSlotFalsy(init, tag);
    }
  }

  /** The first span that fills the slot decides it; later spans of the same tag are ignored. */
  lemma {:induction false} NerKeepsFirst(spans: seq<NerSpan>, tag: string, k: nat)
    requires k < |spans| && Fills(spans[k], tag)
    requires forall j :: 0 <= j < k ==> !Fills(spans[j], tag)
    ensures NerSlot(spans, tag) == Some(spans[k].text)
  {
    var init := spans[..|spans| - 1];
    assert forall j :: 0 <= j < |init| ==> init[j] == spans[j];
    if k == |spans| - 1 {
      NerSlotFalsy(init, tag);
    } else {
      NerKeepsFirst(init, tag, k);
    }
  }

  /** The regular-expression fallback for a slot: used only when the slot is falsy and the fallback found something. */
  function Fallback(slot: Option<string>, found: Option<string>): (r: Option<string>)
    ensures r == slot || r == found
    ensures Truthy(r) <==> Truthy(slot) || Truthy(found)
    ensures Truthy(slot) ==> r == slot
  {
    if !Truthy(slot) && Truthy(found) then found else slot
  }

  /**
    The heuristic score in hundredths: 0.5, plus 0.2 for a date, 0.2 for a time and
    0.1 for a department, capped at 0.99.
  */
  function EntityScore(hasDate: bool, hasTime: bool, hasDepartment: bool): (c: int)
    ensures c in {50, 60, 70, 80, 90, 99}
    ensures c >= 70 <==> hasDate || hasTime
    ensures c == 99 <==> hasDate && hasTime && hasDepartment
  {
    var raw := 50 + (if hasDate then 20 else 0) + (if hasTime then 20 else 0) + (if hasDepartment then 10 else 0);
    if raw < 99 then raw else 99
  }

  /** Finding one more entity never lowers the score. */
  lemma ScoreMonotone(d: bool, t: bool, p: bool, d': bool, t': bool, p': bool)
    requires (d ==> d') && (t ==> t') && (p ==> p')
    ensures EntityScore(d, t, p) <= EntityScore(d', t', p')
  {
  }

  /** The `for ent in doc.ents` loop: the first DATE span and the first TIME span fill their slots. */
  method ScanSpans(spans: seq<NerSpan>) returns (datePhrase: Option<string>, timePhrase: Option<string>)
    ensures datePhrase == NerSlot(spans, "DATE") && timePhrase == NerSlot(spans, "TIME")
  {
    datePhrase, timePhrase := None, None;
    for i := 0 to |spans|
      invariant datePhrase == NerSlot(spans[..i], "DATE")
      invariant timePhrase == NerSlot(spans[..i], "TIME")
    {
      assert spans[..i + 1][..i] == spans[..i];
      var ent := spans[i];
      if ent.tag == "DATE" && !Truthy(datePhrase) {
        datePhrase := Some(ent.text);
      }
      if ent.tag == "TIME" && !Truthy(timePhrase) {
        timePhrase := Some(ent.text);
      }
    }
    assert spans[..|spans|] == spans;
  }

  /** The confidence bookkeeping of `extract_entities`: 0.5, raised for each field found, capped at 0.99. */
  method ScoreFields(datePhrase: Option<string>, timePhrase: Option<string>, department: Option<string>)
    returns (confidence: int)
    ensures confidence == EntityScore(Truthy(datePhrase), Truthy(timePhrase), Truthy(department))
  {
    confidence := 50;
    if Truthy(datePhrase) {
      confidence := confidence + 20;
    }
    if Truthy(timePhrase) {
      confidence := confidence + 20;
    }
    if Truthy(department) {
      confidence := confidence + 10;
    }
    if confidence > 99 {
      confidence := 99;
    }
  }

  /** `extract_entities` */
  method ExtractEntities(text: string, ner: Option<seq<NerSpan>>) returns (r: EntitiesResult)
    ensures text == "" ==> r == EntitiesResult(Entities(None, None, None), 0)
    // the recogniser's first spans, with the patterns only where they left a slot empty
    ensures text != "" ==> r.entities.timePhrase == Fallback(NerSlot(SpansOf(ner), "TIME"), ExtractTime(text))
    ensures text != "" ==>
      r.entities.datePhrase == CleanDatePhrase(Fallback(NerSlot(SpansOf(ner), "DATE"), ExtractDatePhrase(text)))
    // the department always comes from the lookup, never from the recogniser
    ensures text != "" ==> r.entities.department == ExtractDepartment(text)
    // the score counts the fields after cleaning
    ensures text != "" ==>
      r.confidence == EntityScore(Truthy(r.entities.datePhrase), Truthy(r.entities.timePhrase), Truthy(r.entities.department))
  {
    if text == "" {
      return EntitiesResult(Entities(None, None, None), 0);
    }
    var datePhrase, timePhrase := ScanSpans(SpansOf(ner));
    if !Truthy(timePhrase) {
      var t := ExtractTime(text);
      if Truthy(t) {
        timePhrase := t;
      }
    }
    if !Truthy(datePhrase) {
      var d := ExtractDatePhrase(text);
      if Truthy(d) {
        datePhrase := d;
      }
    }
    var department := ExtractDepartment(text);
    datePhrase := CleanDatePhrase(datePhrase);
    var confidence := ScoreFields(datePhrase, timePhrase, department);
    r := EntitiesResult(Entities(datePhrase, timePhrase, department), confidence);
  }
}
