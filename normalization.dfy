/**
  Date/time normalization (app/normalization.py): the small clock-time parser
  `_parse_simple_time` and the combiner `normalize_datetime`.

  The natural-language date parser (`dateparser.parse`) is a function
  parameter; the settings the combiner hands it are built here from the
  caller's locale and the current instant `now`, which is an input. The parser
  is taken to answer in the target time zone already, so the final
  `astimezone(tz)` leaves the calendar fields as they are.
*/
module Normalization {

  import opened Wrappers
  import opened Text
  import opened Model

  // ---------------------------------------------------------------------------
  // _parse_simple_time
  // ---------------------------------------------------------------------------

  /** The groups captured by the anchored pattern `(\d{1,2})(:(\d{2}))?(am|pm)`. */
  datatype MeridiemMatch = MeridiemMatch(hourDigits: string, minuteDigits: Option<string>, meridiem: string)

  /** `(am|pm)` at position `j`. */
  function MeridiemAt(s: string, j: nat): Option<string> {
    if j + 2 <= |s| && (s[j..j + 2] == "am" || s[j..j + 2] == "pm") then Some(s[j..j + 2]) else None
  }

  /** `(:(\d{2}))?(am|pm)` at position `j`: the optional minutes group is tried first. */
  function AfterHourDigits(s: string, j: nat): Option<(Option<string>, string)> {
    if j + 3 <= |s| && s[j] == ':' && IsDigit(s[j + 1]) && IsDigit(s[j + 2]) && MeridiemAt(s, j + 3).Some? then
      Some((Some(s[j + 1..j + 3]), MeridiemAt(s, j + 3).value))
    else if MeridiemAt(s, j).Some? then
      Some((None, MeridiemAt(s, j).value))
    else
      None
  }

  /**
    `re.match(r"(\d{1,2})(:(\d{2}))?(am|pm)", s)`: two hour digits are tried
    before one. A match has well-formed groups and covers a prefix of `s`.
  */
  function MatchMeridiem(s: string): (r: Option<MeridiemMatch>)
    ensures r.Some? ==> MeridiemGroups(r.value) && MatchText(r.value) <= s
  {
    if |s| >= 2 && IsDigit(s[0]) && IsDigit(s[1]) && AfterHourDigits(s, 2).Some? then
      MatchAfterSound(s, 2);
      var rest := AfterHourDigits(s, 2).value;
      Some(MeridiemMatch(s[..2], rest.0, rest.1))
    else if |s| >= 1 && IsDigit(s[0]) && AfterHourDigits(s, 1).Some? then
      MatchAfterSound(s, 1);
      var rest := AfterHourDigits(s, 1).value;
      Some(MeridiemMatch(s[..1], rest.0, rest.1))
    else
      None
  }

  /** Hour digits `s[..n]` followed by a tail read after them form well-formed groups covering a prefix of `s`. */
  lemma MatchAfterSound(s: string, n: nat)
    requires 1 <= n <= 2 && n <= |s| && (forall k :: 0 <= k < n ==> IsDigit(s[k])) && AfterHourDigits(s, n).Some?
    ensures var rest := AfterHourDigits(s, n).value; var m := MeridiemMatch(s[..n], rest.0, rest.1);
      MeridiemGroups(m) && MatchText(m) <= s
  {
    var (minutes, meridiem) := AfterHourDigits(s, n).value;
    var m := MeridiemMatch(s[..n], minutes, meridiem);
    if minutes.Some? {
      assert s[n..n + 5] == [s[n]] + s[n + 1..n + 3] + s[n + 3..n + 5];
      assert MatchText(m) == s[..n] + s[n..n + 5] == s[..n + 5];
    } else {
      assert MatchText(m) == s[..n] + s[n..n + 2] == s[..n + 2];
    }
  }

  /** `int(hour_str)` */
  function HourOf(m: MeridiemMatch): nat {
    DigitsValue(m.hourDigits)
  }

  /** `int(minute_str) if minute_str else 0` */
  function MinuteOf(m: MeridiemMatch): nat {
    if m.minuteDigits.Some? then DigitsValue(m.minuteDigits.value) else 0
  }

  /** The 12-hour correction and the range check of the am/pm branch: whatever it gives is a valid 24-hour time. */
  function From12Hour(m: MeridiemMatch): (r: Option<(int, int)>)
    ensures r.Some? ==> 0 <= r.value.0 <= 23 && 0 <= r.value.1 <= 59
  {
    var hour := DigitsValue(m.hourDigits);
    var minute := if m.minuteDigits.Some? then DigitsValue(m.minuteDigits.value) else 0;
    var hour :=
      if m.meridiem == "pm" && hour < 12 then hour + 12
      else if m.meridiem == "am" && hour == 12 then 0
      else hour;
    if 0 <= hour <= 23 && 0 <= minute <= 59 then Some((hour, minute)) else None
  }

  /** End positions of `strptime`'s `%H` pattern `2[0-3]|[0-1]\d|\d` at `i`, in the order tried. */
  function HourEnds(s: string, i: nat): (ends: seq<nat>)
    ensures forall k :: 0 <= k < |ends| ==> i < ends[k] <= |s| && ends[k] <= i + 2
    ensures forall k :: 0 <= k < |ends| ==> i < |s| && IsDigit(s[i]) && (ends[k] == i + 2 ==> i + 1 < |s| && IsDigit(s[i + 1]))
  {
    (if i + 2 <= |s| && s[i] == '2' && '0' <= s[i + 1] <= '3' then [i + 2] else [])
    + (if i + 2 <= |s| && (s[i] == '0' || s[i] == '1') && IsDigit(s[i + 1]) then [i + 2] else [])
    + (if i + 1 <= |s| && IsDigit(s[i]) then [i + 1] else [])
  }

  /** End positions of `strptime`'s `%M` pattern `[0-5]\d|\d` at `i`, in the order tried. */
  function MinuteEnds(s: string, i: nat): (ends: seq<nat>)
    ensures forall k :: 0 <= k < |ends| ==> i < ends[k] <= |s| && ends[k] <= i + 2
  {
    (if i + 2 <= |s| && '0' <= s[i] <= '5' && IsDigit(s[i + 1]) then [i + 2] else [])
    + (if i + 1 <= |s| && IsDigit(s[i]) then [i + 1] else [])
  }

  /** The first way `%H:%M` matches a prefix of `s`: the end of the hour and of the minute. */
  function FirstHourMinute(s: string, hours: seq<nat>): (r: Option<(nat, nat)>)
    requires forall k :: 0 <= k < |hours| ==> hours[k] <= |s|
    ensures r.Some? ==> r.value.0 in hours && r.value.0 < |s| && s[r.value.0] == ':'
    ensures r.Some? ==> MinuteEnds(s, r.value.0 + 1) != [] && r.value.1 == MinuteEnds(s, r.value.0 + 1)[0]
  {
    if hours == [] then None
    else
      var h := hours[0];
      if h < |s| && s[h] == ':' && MinuteEnds(s, h + 1) != [] then Some((h, MinuteEnds(s, h + 1)[0]))
      else FirstHourMinute(s, hours[1..])
  }

  /**
    `datetime.strptime(s, "%H:%M")`: the first match, then "unconverted data
    remains" unless it used all of `s`. What it accepts is one or two digits, a
    colon, one or two digits, spelling an hour of the day and a minute of the
    hour, read as written.
  */
  function StrptimeHourMinute(s: string): (r: Option<(int, int)>)
    ensures r.Some? ==> ReadsAsHourMinute(s, 1, r.value.0, r.value.1) || ReadsAsHourMinute(s, 2, r.value.0, r.value.1)
  {
    match FirstHourMinute(s, HourEnds(s, 0))
    case None => None
    case Some((h, m)) =>
      if m == |s| then
        HourEndsBound(s, h);
        MinuteEndsBound(s, h + 1, m);
        assert s[h + 1..m] == s[h + 1..];
        assert ColonAt(s, h);
        Some((DigitsValue(s[..h]), DigitsValue(s[h + 1..m])))
      else None
  }

  /** `datetime.strptime(s, "%H")`: what it accepts is one or two digits spelling an hour of the day, read as written. */
  function StrptimeHour(s: string): (r: Option<int>)
    ensures r.Some? ==> 1 <= |s| <= 2 && DigitsOnly(s) && r.value == DigitsValue(s) <= 23
  {
    var ends := HourEnds(s, 0);
    if ends != [] && ends[0] == |s| then
      HourEndsBound(s, ends[0]);
      assert s[..ends[0]] == s;
      Some(DigitsValue(s))
    else None
  }

  /** The phrase as `_parse_simple_time` examines it: lowered, stripped, spaces removed; no upper-case letter and no plain space is left. */
  function CleanTimePhrase(phrase: string): (r: string)
    ensures IsLowercase(r) && NoPlainSpace(r)
  {
    RemoveSpaces(Strip(Lower(phrase)))
  }

  /**
    `_parse_simple_time`: a clock time as (hour, minute). The am/pm form is
    tried first; otherwise `%H:%M`, then `%H`. Whatever branch answers, the
    pair is a valid 24-hour time.
  */
  function ParseSimpleTime(phrase: string): (r: Option<(int, int)>)
    ensures r.Some? ==> 0 <= r.value.0 <= 23 && 0 <= r.value.1 <= 59
  {
    ParseClock(CleanTimePhrase(phrase))
  }

  /** `_parse_simple_time` after its clean-up step. */
  function ParseClock(low: string): (r: Option<(int, int)>)
    ensures r.Some? ==> 0 <= r.value.0 <= 23 && 0 <= r.value.1 <= 59
  {
    match MatchMeridiem(low)
    case Some(m) => From12Hour(m)
    case None =>
      match StrptimeHourMinute(low)
      case Some(t) => Some(t)
      case None =>
        match StrptimeHour(low)
        case Some(h) => Some((h, 0))
        case None => None
  }

  lemma DigitsValue1(s: string)
    requires |s| == 1
    ensures DigitsValue(s) == DigitValue(s[0])
  {
    assert s[..0] == [];
  }

  lemma DigitsValue2(s: string)
    requires |s| == 2
    ensures DigitsValue(s) == 10 * DigitValue(s[0]) + DigitValue(s[1])
  {
    DigitsValue1(s[..1]);
  }

  /** Every prefix `%H` accepts spells an hour of the day. */
  lemma HourEndsBound(s: string, e: nat)
    requires e in HourEnds(s, 0)
    ensures e <= |s| && DigitsValue(s[..e]) <= 23
  {
    if e == 1 { DigitsValue1(s[..1]); } else { DigitsValue2(s[..2]); }
  }

  /** Every slice `%M` accepts spells a minute of the hour. */
  lemma MinuteEndsBound(s: string, i: nat, e: nat)
    requires MinuteEnds(s, i) != [] && e == MinuteEnds(s, i)[0]
    ensures i < e <= |s| && DigitsValue(s[i..e]) <= 59
  {
    if e == i + 1 { DigitsValue1(s[i..e]); } else { DigitsValue2(s[i..e]); }
  }

  // ---------------------------------------------------------------------------
  // Properties of _parse_simple_time
  // ---------------------------------------------------------------------------

  /** `"%H:%M"`, the clock field of the normalized result. */
  function FormatTime(hour: nat, minute: nat): (s: string)
    requires hour < 100 && minute < 100
    ensures |s| == 5 && s[2] == ':'
  {
    Pad2(hour) + ":" + Pad2(minute)
  }

  /** Cleaning a cleaned phrase changes nothing. */
  lemma CleanTimePhraseIdempotent(phrase: string)
    ensures CleanTimePhrase(CleanTimePhrase(phrase)) == CleanTimePhrase(phrase)
  {
    var l := Lower(phrase);
    var r := CleanTimePhrase(phrase);
    RemoveSpacesStrip(l);
    StripKeeps(r);
    CleanFixed(r);
  }

  lemma CleanFixed(r: string)
    requires IsLowercase(r) && NoPlainSpace(r) && Strip(r) == r
    ensures CleanTimePhrase(r) == r
  {
    LowerKeepsLowercase(r);
    RemoveSpacesIdentity(r);
  }

  /** No upper-case letter and no whitespace: `_parse_simple_time` examines such a string as it is. */
  predicate Plain(s: string) {
    forall k :: 0 <= k < |s| ==> !IsUpper(s[k]) && !IsSpace(s[k])
  }

  lemma PlainConcat(a: string, b: string)
    requires Plain(a) && Plain(b)
    ensures Plain(a + b)
  {
    forall k | 0 <= k < |a + b| ensures !IsUpper((a + b)[k]) && !IsSpace((a + b)[k]) {
      if k < |a| { assert (a + b)[k] == a[k]; } else { assert (a + b)[k] == b[k - |a|]; }
    }
  }

  lemma CleanPhraseIdentity(s: string)
    requires Plain(s)
    ensures CleanTimePhrase(s) == s
  {
    assert Lower(s) == s;
    assert StripLeft(s) == s;
    assert StripRight(s) == s;
    RemoveSpacesIdentity(s);
  }

  lemma {:induction false} RemoveSpacesIdentity(s: string)
    requires forall k :: 0 <= k < |s| ==> s[k] != ' '
    ensures RemoveSpaces(s) == s
  {
    if s != [] {
      RemoveSpacesIdentity(s[1..]);
    }
  }

  /** The clock pieces the lemmas below assemble are plain. */
  lemma PlainPieces(hour: nat, minute: nat, suffix: string)
    requires hour < 100 && minute < 100 && (suffix == "am" || suffix == "pm")
    ensures Plain(Decimal(hour) + suffix)
    ensures Plain(Decimal(hour) + ":" + Pad2(minute) + suffix)
    ensures Plain(Pad2(hour) + ":" + Pad2(minute))
  {
    assert Plain(Decimal(hour)) && Plain(Pad2(hour)) && Plain(Pad2(minute)) && Plain(":") && Plain(suffix);
    PlainConcat(Decimal(hour), suffix);
    PlainConcat(Decimal(hour), ":");
    PlainConcat(Decimal(hour) + ":", Pad2(minute));
    PlainConcat(Decimal(hour) + ":" + Pad2(minute), suffix);
    PlainConcat(Pad2(hour), ":");
    PlainConcat(Pad2(hour) + ":", Pad2(minute));
  }

  /** The time the combiner writes is read back as the same hour and minute. */
  lemma FormatTimeRoundTrip(hour: nat, minute: nat)
    requires hour <= 23 && minute <= 59
    ensures ParseSimpleTime(FormatTime(hour, minute)) == Some((hour, minute))
  {
    var s := FormatTime(hour, minute);
    PlainPieces(hour, minute, "am");
    CleanPhraseIdentity(s);
    assert MatchMeridiem(s).None?;
    assert MinuteEnds(s, 3)[0] == 5;
    assert HourEnds(s, 0)[0] == 2;
    assert FirstHourMinute(s, HourEnds(s, 0)) == Some((2, 5));
    assert s[..2] == Pad2(hour) && s[3..5] == Pad2(minute);
  }

  /** What the groups of `(\d{1,2})(:(\d{2}))?(am|pm)` can hold. */
  predicate MeridiemGroups(m: MeridiemMatch) {
    1 <= |m.hourDigits| <= 2 && DigitsOnly(m.hourDigits)
    && (m.minuteDigits.Some? ==> |m.minuteDigits.value| == 2 && DigitsOnly(m.minuteDigits.value))
    && (m.meridiem == "am" || m.meridiem == "pm")
  }

  /** The text a match covers: the hour digits, `:` and the minutes when present, then the suffix. */
  function MatchText(m: MeridiemMatch): string {
    m.hourDigits + (if m.minuteDigits.Some? then ":" + m.minuteDigits.value else "") + m.meridiem
  }

  /** Any well-formed groups covering a prefix are exactly the match found: the match is unique. */
  lemma MatchMeridiemComplete(s: string, m: MeridiemMatch)
    requires MeridiemGroups(m) && MatchText(m) <= s
    ensures MatchMeridiem(s) == Some(m)
  {
    var n := |m.hourDigits|;
    var t := MatchText(m);
    var rest := t[n..];
    assert t == m.hourDigits + rest;
    assert s[..n] == t[..n] == m.hourDigits;
    assert s[n..|t|] == rest;
    AfterHourDigitsComplete(s, n, m.minuteDigits, m.meridiem);
    if n == 1 {
      assert !IsDigit(s[1]);
    } else {
      assert IsDigit(s[0]) && IsDigit(s[1]);
    }
  }

  /** The tail after the hour digits, `:MM` then the suffix or the suffix alone, is read back as written. */
  lemma AfterHourDigitsComplete(s: string, n: nat, minutes: Option<string>, meridiem: string)
    requires meridiem == "am" || meridiem == "pm"
    requires minutes.Some? ==> |minutes.value| == 2 && DigitsOnly(minutes.value)
    requires var rest := (if minutes.Some? then ":" + minutes.value else "") + meridiem;
             n + |rest| <= |s| && s[n..n + |rest|] == rest
    ensures AfterHourDigits(s, n) == Some((minutes, meridiem))
  {
    if minutes.Some? {
      var u := ":" + minutes.value + meridiem;
      assert s[n..n + 5] == u;
      assert s[n] == u[0] == ':';
      assert s[n + 1] == u[1] && s[n + 2] == u[2];
      assert s[n + 1..n + 3] == u[1..3] == minutes.value;
      assert s[n + 3..n + 5] == u[3..5] == meridiem;
    } else {
      assert s[n..n + 2] == meridiem;
      assert s[n] != ':';
    }
  }

  /**
    The 12-hour correction: the reading fails exactly when the hour passes 23 or
    the minute 59; the minute is kept as written; the hour keeps its value
    modulo 12; up to 12, "pm" gives an afternoon hour and "am" a morning one;
    13 to 23 are kept whatever the suffix.
  */
  lemma From12HourMeaning(m: MeridiemMatch)
    requires MeridiemGroups(m)
    ensures From12Hour(m).Some? <==> HourOf(m) <= 23 && MinuteOf(m) <= 59
    ensures From12Hour(m).Some? ==> From12Hour(m).value.1 == MinuteOf(m) && From12Hour(m).value.0 % 12 == HourOf(m) % 12
    ensures From12Hour(m).Some? && HourOf(m) <= 12 ==> (From12Hour(m).value.0 >= 12 <==> m.meridiem == "pm")
    ensures From12Hour(m).Some? && HourOf(m) > 12 ==> From12Hour(m).value.0 == HourOf(m)
  {
  }

  /** A bare hour `H` or a 24-hour `H:MM` is read as written. */
  lemma BareClockReads(hour: nat, minute: nat)
    requires hour <= 23 && minute <= 59
    ensures ParseSimpleTime(Decimal(hour)) == Some((hour, 0))
    ensures ParseSimpleTime(Decimal(hour) + ":" + Pad2(minute)) == Some((hour, minute))
  {
    BareHourReads(hour);
    HourMinuteReads(hour, minute);
  }

  lemma BareHourReads(hour: nat)
    requires hour <= 23
    ensures ParseSimpleTime(Decimal(hour)) == Some((hour, 0))
  {
    var s := Decimal(hour);
    DigitsColonUntouched(s);
    NoColonNoHourMinute(s);
    StrptimeHourComplete(s);
    ClockBranches(s);
  }

  /** Without a colon `%H:%M` finds nothing. */
  lemma NoColonNoHourMinute(s: string)
    requires DigitsOnly(s)
    ensures StrptimeHourMinute(s).None?
  {
    if StrptimeHourMinute(s).Some? {
      assert false;
    }
  }

  /**
    The am/pm pattern is tried first: whenever it matches the cleaned phrase,
    the reading is the 12-hour correction of that match, whatever follows the
    suffix ("03pm", "3pm tomorrow").
  */
  lemma MeridiemFirst(phrase: string)
    requires MatchMeridiem(CleanTimePhrase(phrase)).Some?
    ensures ParseSimpleTime(phrase) == From12Hour(MatchMeridiem(CleanTimePhrase(phrase)).value)
  {
  }

  /** How `_parse_simple_time` picks its answer, for a phrase its clean-up step leaves alone. */
  lemma ClockBranches(s: string)
    requires CleanTimePhrase(s) == s
    ensures MatchMeridiem(s).None? && StrptimeHourMinute(s).Some? ==> ParseSimpleTime(s) == StrptimeHourMinute(s)
    ensures MatchMeridiem(s).None? && StrptimeHourMinute(s).None? && StrptimeHour(s).Some?
      ==> ParseSimpleTime(s) == Some((StrptimeHour(s).value, 0))
  {
  }

  lemma HourMinuteReads(hour: nat, minute: nat)
    requires hour <= 23 && minute <= 59
    ensures ParseSimpleTime(Decimal(hour) + ":" + Pad2(minute)) == Some((hour, minute))
  {
    var s := Decimal(hour) + ":" + Pad2(minute);
    ClockStringShape(hour, minute);
    DigitsColonUntouched(s);
    StrptimeHourMinuteComplete(s, |Decimal(hour)|, hour, minute);
    ClockBranches(s);
  }

  /** Digits and colons survive the clean-up step unchanged and hold no am/pm suffix. */
  lemma DigitsColonUntouched(s: string)
    requires forall k :: 0 <= k < |s| ==> IsDigit(s[k]) || s[k] == ':'
    ensures CleanTimePhrase(s) == s && MatchMeridiem(s).None?
  {
    assert Plain(s);
    CleanPhraseIdentity(s);
    NoLetterNoMeridiem(s);
  }

  /** `H:MM` as the lemmas write it has its colon after the hour digits and spells the hour and minute. */
  lemma ClockStringShape(hour: nat, minute: nat)
    requires hour <= 23 && minute <= 59
    ensures ReadsAsHourMinute(Decimal(hour) + ":" + Pad2(minute), |Decimal(hour)|, hour, minute)
  {
    var d, p := Decimal(hour), Pad2(minute);
    var s := d + ":" + p;
    var c := |d|;
    assert s[..c] == d;
    assert s[c + 1..] == p;
    assert s[c] == ':';
  }

  /** A phrase made only of digits and colons has no am/pm suffix to match. */
  lemma NoLetterNoMeridiem(s: string)
    requires forall k :: 0 <= k < |s| ==> IsDigit(s[k]) || s[k] == ':'
    ensures MatchMeridiem(s).None?
  {
    forall j: nat ensures MeridiemAt(s, j).None? {
      if j + 2 <= |s| {
        assert s[j..j + 2][0] == s[j];
      }
    }
  }

  /** The 12-hour conversion for `H:MMam` and `Ham`: 12am is midnight, every other hour is kept. */
  lemma AmConversion(hour: nat, minute: nat)
    requires hour <= 23 && minute <= 59
    ensures ParseSimpleTime(Decimal(hour) + ":" + Pad2(minute) + "am") == Some((if hour == 12 then 0 else hour, minute))
    ensures ParseSimpleTime(Decimal(hour) + "am") == Some((if hour == 12 then 0 else hour, 0))
  {
    AmWithMinutes(hour, minute);
    AmBare(hour);
  }

  lemma AmWithMinutes(hour: nat, minute: nat)
    requires hour <= 23 && minute <= 59
    ensures ParseSimpleTime(Decimal(hour) + ":" + Pad2(minute) + "am") == Some((if hour == 12 then 0 else hour, minute))
  {
    ReadsWithMinutes(hour, minute, "am");
    AmValue(MeridiemMatch(Decimal(hour), Some(Pad2(minute)), "am"));
  }

  lemma AmBare(hour: nat)
    requires hour <= 23
    ensures ParseSimpleTime(Decimal(hour) + "am") == Some((if hour == 12 then 0 else hour, 0))
  {
    ReadsBare(hour, "am");
    AmValue(MeridiemMatch(Decimal(hour), None, "am"));
  }

  /** The 12-hour conversion for `H:MMpm` and `Hpm`: hours before 12 move on by 12, 12pm is noon. */
  lemma PmConversion(hour: nat, minute: nat)
    requires hour <= 23 && minute <= 59
    ensures ParseSimpleTime(Decimal(hour) + ":" + Pad2(minute) + "pm") == Some((if hour < 12 then hour + 12 else hour, minute))
    ensures ParseSimpleTime(Decimal(hour) + "pm") == Some((if hour < 12 then hour + 12 else hour, 0))
  {
    PmWithMinutes(hour, minute);
    PmBare(hour);
  }

  lemma PmWithMinutes(hour: nat, minute: nat)
    requires hour <= 23 && minute <= 59
    ensures ParseSimpleTime(Decimal(hour) + ":" + Pad2(minute) + "pm") == Some((if hour < 12 then hour + 12 else hour, minute))
  {
    ReadsWithMinutes(hour, minute, "pm");
    PmValue(MeridiemMatch(Decimal(hour), Some(Pad2(minute)), "pm"));
  }

  lemma PmBare(hour: nat)
    requires hour <= 23
    ensures ParseSimpleTime(Decimal(hour) + "pm") == Some((if hour < 12 then hour + 12 else hour, 0))
  {
    ReadsBare(hour, "pm");
    PmValue(MeridiemMatch(Decimal(hour), None, "pm"));
  }

  /** The `am` correction on groups that spell a valid 24-hour time. */
  lemma AmValue(m: MeridiemMatch)
    requires m.meridiem == "am" && HourOf(m) <= 23 && MinuteOf(m) <= 59
    ensures From12Hour(m) == Some((if HourOf(m) == 12 then 0 else HourOf(m), MinuteOf(m)))
  {
  }

  /** The `pm` correction on groups that spell a valid 24-hour time. */
  lemma PmValue(m: MeridiemMatch)
    requires m.meridiem == "pm" && HourOf(m) <= 23 && MinuteOf(m) <= 59
    ensures From12Hour(m) == Some((if HourOf(m) < 12 then HourOf(m) + 12 else HourOf(m), MinuteOf(m)))
  {
  }

  /** `H:MMam` / `H:MMpm` reach the 12-hour correction with their digits as written. */
  lemma ReadsWithMinutes(hour: nat, minute: nat, suffix: string)
    requires hour < 100 && minute < 100 && (suffix == "am" || suffix == "pm")
    ensures ParseSimpleTime(Decimal(hour) + ":" + Pad2(minute) + suffix)
            == From12Hour(MeridiemMatch(Decimal(hour), Some(Pad2(minute)), suffix))
  {
    PlainPieces(hour, minute, suffix);
    CleanPhraseIdentity(Decimal(hour) + ":" + Pad2(minute) + suffix);
    MeridiemWithMinutes(hour, minute, suffix);
  }

  /** `Ham` / `Hpm` reach the 12-hour correction with their digits as written. */
  lemma ReadsBare(hour: nat, suffix: string)
    requires hour < 100 && (suffix == "am" || suffix == "pm")
    ensures ParseSimpleTime(Decimal(hour) + suffix) == From12Hour(MeridiemMatch(Decimal(hour), None, suffix))
  {
    PlainPieces(hour, 0, suffix);
    CleanPhraseIdentity(Decimal(hour) + suffix);
    MeridiemBare(hour, suffix);
  }

  lemma MeridiemWithMinutes(hour: nat, minute: nat, suffix: string)
    requires hour < 100 && minute < 100 && (suffix == "am" || suffix == "pm")
    ensures MatchMeridiem(Decimal(hour) + ":" + Pad2(minute) + suffix)
         == Some(MeridiemMatch(Decimal(hour), Some(Pad2(minute)), suffix))
  {
    var d := Decimal(hour);
    var pm := Pad2(minute);
    var s := d + ":" + pm + suffix;
    var n := |d|;
    assert s == d + ([':'] + pm + suffix);
    assert s[..n] == d;
    assert s[n..] == [':'] + pm + suffix;
    assert s[n] == ':';
    assert s[n + 1..n + 3] == [s[n + 1], s[n + 2]] == [pm[0], pm[1]] == pm;
    assert |d + ":" + pm| == n + 3 && s[n + 3..] == suffix;
    assert s[n + 3..n + 5] == suffix;
    assert MeridiemAt(s, n + 3) == Some(suffix);
    assert AfterHourDigits(s, n) == Some((Some(Pad2(minute)), suffix));
    if n == 1 {
      assert !IsDigit(s[1]);
    }
    assert MatchMeridiem(s) == Some(MeridiemMatch(d, Some(Pad2(minute)), suffix));
  }

  lemma MeridiemBare(hour: nat, suffix: string)
    requires hour < 100 && (suffix == "am" || suffix == "pm")
    ensures MatchMeridiem(Decimal(hour) + suffix) == Some(MeridiemMatch(Decimal(hour), None, suffix))
  {
    var d := Decimal(hour);
    var s := d + suffix;
    var n := |d|;
    assert s[..n] == d;
    assert s[n..n + 2] == suffix;
    assert MeridiemAt(s, n) == Some(suffix);
    assert AfterHourDigits(s, n) == Some((None, suffix));
    if n == 1 {
      assert !IsDigit(s[1]);
    }
    assert MatchMeridiem(s) == Some(MeridiemMatch(d, None, suffix));
  }

  /** Inserting a space anywhere leaves the reading unchanged: `"3 pm"` reads as `"3pm"`, `" 14 "` as `"14"`. */
  lemma SpaceInsensitive(phrase: string, i: nat)
    requires i <= |phrase|
    ensures ParseSimpleTime(phrase[..i] + " " + phrase[i..]) == ParseSimpleTime(phrase)
  {
    var spaced := phrase[..i] + " " + phrase[i..];
    var l := Lower(phrase);
    assert Lower(spaced) == (l[..i] + " ") + l[i..];
    RemoveSpacesConcat(l[..i] + " ", l[i..]);
    RemoveSpacesConcat(l[..i], " ");
    RemoveSpacesConcat(l[..i], l[i..]);
    assert l[..i] + l[i..] == l;
    assert RemoveSpaces(Lower(spaced)) == RemoveSpaces(l);
    RemoveSpacesStrip(Lower(spaced));
    RemoveSpacesStrip(l);
  }

  /** Letter case is ignored: `"3PM"` reads as `"3pm"`. */
  lemma CaseInsensitive(phrase: string)
    ensures ParseSimpleTime(Upper(phrase)) == ParseSimpleTime(phrase)
  {
    LowerUpper(phrase);
  }

  /** A phrase that does not begin with a digit, once cleaned, is not a clock time: `"noon"`, `"morning"`, `"evening"`. */
  lemma NonDigitStartRejected(phrase: string)
    requires CleanTimePhrase(phrase) == [] || !IsDigit(CleanTimePhrase(phrase)[0])
    ensures ParseSimpleTime(phrase) == None
  {
    var low := CleanTimePhrase(phrase);
    assert HourEnds(low, 0) == [];
    assert MatchMeridiem(low).None?;
  }

  /** Hours and minutes written as digits around an optional colon: `H`, `HH`, `H:M`, `H:MM`, `HH:M`, `HH:MM`. */
  predicate IsBareClock(s: string) {
    (1 <= |s| <= 2 && DigitsOnly(s)) || ColonAt(s, 1) || ColonAt(s, 2)
  }

  predicate ColonAt(s: string, h: nat) {
    h < |s| && s[h] == ':' && DigitsOnly(s[..h]) && 1 <= |s| - h - 1 <= 2 && DigitsOnly(s[h + 1..])
  }

  /** Without an am/pm suffix only a bare `H[H][:M[M]]` string is read as a time. */
  lemma WithoutMeridiemOnlyBareClock(phrase: string)
    requires MatchMeridiem(CleanTimePhrase(phrase)).None?
    requires ParseSimpleTime(phrase).Some?
    ensures IsBareClock(CleanTimePhrase(phrase))
  {
    var s := CleanTimePhrase(phrase);
    if StrptimeHourMinute(s).None? {
      StrptimeHourMeaning(s, StrptimeHour(s).value);
    }
  }

  /** `s` is `H:M` with the colon at `c`, spelling the hour `hour` of the day and the minute `minute` of the hour. */
  predicate ReadsAsHourMinute(s: string, c: nat, hour: int, minute: int) {
    (c == 1 || c == 2) && ColonAt(s, c) && hour == DigitsValue(s[..c]) <= 23 && minute == DigitsValue(s[c + 1..]) <= 59
  }

  /** Every such string is accepted by `%H:%M` with that reading. */
  lemma StrptimeHourMinuteComplete(s: string, c: nat, hour: int, minute: int)
    requires ReadsAsHourMinute(s, c, hour, minute)
    ensures StrptimeHourMinute(s) == Some((hour, minute))
  {
    if c == 2 {
      DigitsValue2(s[..2]);
      assert s[..2][0] == s[0] && s[..2][1] == s[1];
      assert HourEnds(s, 0)[0] == 2;
    } else {
      assert !IsDigit(s[1]);
      assert HourEnds(s, 0) == [1];
    }
    var rest := s[c + 1..];
    if |rest| == 2 {
      DigitsValue2(rest);
      assert rest[0] == s[c + 1];
      assert MinuteEnds(s, c + 1)[0] == |s|;
    } else {
      assert MinuteEnds(s, c + 1)[0] == |s|;
    }
    assert FirstHourMinute(s, HourEnds(s, 0)) == Some((c, |s|));
    assert s[c + 1..|s|] == rest;
  }

  /** `%H` accepts exactly one or two digits spelling an hour of the day, read as written. */
  lemma StrptimeHourMeaning(s: string, hour: int)
    ensures StrptimeHour(s) == Some(hour) <==> 1 <= |s| <= 2 && DigitsOnly(s) && hour == DigitsValue(s) <= 23
  {
    if 1 <= |s| <= 2 && DigitsOnly(s) && hour == DigitsValue(s) <= 23 {
      StrptimeHourComplete(s);
    }
  }

  lemma StrptimeHourComplete(s: string)
    requires 1 <= |s| <= 2 && DigitsOnly(s) && DigitsValue(s) <= 23
    ensures StrptimeHour(s) == Some(DigitsValue(s))
  {
    if |s| == 2 {
      DigitsValue2(s);
      assert HourEnds(s, 0)[0] == 2;
    }
  }

  // ---------------------------------------------------------------------------
  // normalize_datetime
  // ---------------------------------------------------------------------------

  type Year = y: int | 1 <= y <= 9999 witness 1
  type Month = m: int | 1 <= m <= 12 witness 1
  type Day = d: int | 1 <= d <= 31 witness 1
  type Hour = h: int | 0 <= h <= 23
  type Minute = m: int | 0 <= m <= 59
  type Second = s: int | 0 <= s <= 59
  type Microsecond = u: int | 0 <= u <= 999999

  /** The fields of a Python `datetime` (the zone is the request's locale throughout). */
  datatype DateTime = DateTime(year: Year, month: Month, day: Day, hour: Hour, minute: Minute, second: Second, microsecond: Microsecond)

  /** The `settings` dict handed to `dateparser.parse`. */
  datatype ParserSettings = ParserSettings(timezone: string, returnAsTimezoneAware: bool, relativeBase: DateTime, preferDatesFrom: string)

  /** The pair `normalize_datetime` returns: the dict or `None`, and its confidence in hundredths. */
  datatype NormOutcome = NormOutcome(normalized: Option<Normalized>, confidence: int)

  /** 0.95: the one confidence a resolved date/time gets. */
  const SuccessConfidence := 95

  /** `now.replace(hour=0, minute=0, second=0, microsecond=0)`: the calendar date of `now` with a zero clock. */
  function Midnight(now: DateTime): (m: DateTime)
    ensures m.year == now.year && m.month == now.month && m.day == now.day
    ensures m.hour == 0 && m.minute == 0 && m.second == 0 && m.microsecond == 0
  {
    now.(hour := 0, minute := 0, second := 0, microsecond := 0)
  }

  /** The settings of every parse attempt of one call: the locale's zone, relative to today's midnight, future dates preferred. */
  function Settings(locale: string, now: DateTime): (r: ParserSettings)
    ensures r.timezone == locale && r.returnAsTimezoneAware && r.preferDatesFrom == "future"
    ensures var b := r.relativeBase;
      b.year == now.year && b.month == now.month && b.day == now.day && b.hour == 0 && b.minute == 0 && b.second == 0 && b.microsecond == 0
  {
    ParserSettings(locale, true, Midnight(now), "future")
  }

  /** The parser settings ignore the clock time of `now`: two instants of the same day give the same settings. */
  lemma SettingsIgnoreClock(locale: string, a: DateTime, b: DateTime)
    requires a.year == b.year && a.month == b.month && a.day == b.day
    ensures Settings(locale, a) == Settings(locale, b)
  {
  }

  /** How an f-string renders an optional phrase: a missing one becomes the text `None`. */
  function FormatField(s: Option<string>): string {
    if s.None? then "None" else s.value
  }

  /**
    `f"{date_phrase} {time_phrase}".strip()`, the fallback text handed to the
    date parser: when both fields, as rendered, are non-empty with no blank at
    their ends, they are joined by exactly one space.
  */
  function CombinedText(datePhrase: Option<string>, timePhrase: Option<string>): (r: string)
    ensures var d, t := FormatField(datePhrase), FormatField(timePhrase);
      d != [] && !IsSpace(d[0]) && !IsSpace(d[|d| - 1]) && t != [] && !IsSpace(t[0]) && !IsSpace(t[|t| - 1])
      ==> r == d + " " + t
  {
    var d, t := FormatField(datePhrase), FormatField(timePhrase);
    var c := d + " " + t;
    assert d != [] && t != [] && !IsSpace(d[0]) && !IsSpace(t[|t| - 1]) ==> Strip(c) == c by {
      if d != [] && t != [] && !IsSpace(d[0]) && !IsSpace(t[|t| - 1]) {
        assert c[0] == d[0];
        assert c[|c| - 1] == t[|t| - 1];
        StripKeeps(c);
      }
    }
    Strip(c)
  }

  /** `strftime("%Y-%m-%d")` */
  function FormatDate(dt: DateTime): (s: string)
    ensures |s| == 10
  {
    Pad4(dt.year as nat) + "-" + Pad2(dt.month as nat) + "-" + Pad2(dt.day as nat)
  }

  /** The clock time the combiner uses: the helper's reading of the time phrase, or 00:00. */
  function TargetTime(timePhrase: Option<string>): (t: (int, int))
    ensures 0 <= t.0 <= 23 && 0 <= t.1 <= 59
  {
    if Truthy(timePhrase) && ParseSimpleTime(timePhrase.value).Some? then ParseSimpleTime(timePhrase.value).value
    else (0, 0)
  }

  /**
    The two date-parser attempts of `normalize_datetime`: the date phrase alone when
    there is one, then the combined text if that did not resolve. `tried` lists the
    texts handed to the parser, in order.
  */
  method ParseDateAttempts(datePhrase: Option<string>, timePhrase: Option<string>, settings: ParserSettings,
                           dateParser: (string, ParserSettings) -> Option<DateTime>)
    returns (parsed: Option<DateTime>, tried: seq<string>)
    requires Truthy(datePhrase) || Truthy(timePhrase)
    ensures Truthy(datePhrase) ==> tried != [] && tried[0] == datePhrase.value
    ensures Truthy(datePhrase) && dateParser(datePhrase.value, settings).Some? ==> tried == [datePhrase.value]
    ensures !(Truthy(datePhrase) && dateParser(datePhrase.value, settings).Some?) ==>
      tried == if Truthy(datePhrase) then [datePhrase.value, CombinedText(datePhrase, timePhrase)] else [CombinedText(datePhrase, timePhrase)]
    ensures parsed.None? <==> forall k :: 0 <= k < |tried| ==> dateParser(tried[k], settings).None?
    ensures parsed.Some? ==> tried != [] && parsed == dateParser(tried[|tried| - 1], settings)
  {
    parsed := None;
    tried := [];
    if Truthy(datePhrase) {
      tried := [datePhrase.value];
      parsed := dateParser(datePhrase.value, settings);
    }
    if parsed.None? && (Truthy(datePhrase) || Truthy(timePhrase)) {
      var combined := CombinedText(datePhrase, timePhrase);
      tried := if Truthy(datePhrase) then [datePhrase.value, combined] else [combined];
      parsed := dateParser(combined, settings);
    }
    if parsed.None? {
      forall k | 0 <= k < |tried| ensures dateParser(tried[k], settings).None? {
      }
    } else {
      assert dateParser(tried[|tried| - 1], settings).Some?;
    }
  }

  /**
    `normalize_datetime`. Besides the outcome it returns `tried`, the texts handed
    to the date parser in the order they were tried.
  */
  method NormalizeDateTime(datePhrase: Option<string>, timePhrase: Option<string>, locale: string, now: DateTime,
                           dateParser: (string, ParserSettings) -> Option<DateTime>)
    returns (r: NormOutcome, tried: seq<string>)
    // no phrase at all: unresolved, and the parser is not consulted
    ensures !Truthy(datePhrase) && !Truthy(timePhrase) ==> r == NormOutcome(None, 0) && tried == []
    // the date phrase alone is tried first ...
    ensures Truthy(datePhrase) ==> tried != [] && tried[0] == datePhrase.value
    ensures Truthy(datePhrase) && dateParser(datePhrase.value, Settings(locale, now)).Some? ==> tried == [datePhrase.value]
    // ... and the combined text only when that did not resolve
    ensures (Truthy(datePhrase) || Truthy(timePhrase)) && !(Truthy(datePhrase) && dateParser(datePhrase.value, Settings(locale, now)).Some?) ==>
      tried == if Truthy(datePhrase) then [datePhrase.value, CombinedText(datePhrase, timePhrase)] else [CombinedText(datePhrase, timePhrase)]
    // unresolved exactly when every attempt failed
    ensures r.normalized.None? <==> forall k :: 0 <= k < |tried| ==> dateParser(tried[k], Settings(locale, now)).None?
    ensures r.normalized.None? ==> r.confidence == 0
    // resolved: fixed confidence, the zone echoed, the parser's calendar date, the helper's clock time
    ensures r.normalized.Some? ==> r.confidence == SuccessConfidence && r.normalized.value.tz == locale
    ensures r.normalized.Some? ==> tried != [] && dateParser(tried[|tried| - 1], Settings(locale, now)).Some?
    ensures r.normalized.Some? ==> r.normalized.value.date == FormatDate(dateParser(tried[|tried| - 1], Settings(locale, now)).value)
    ensures r.normalized.Some? ==> r.normalized.value.time == FormatTime(TargetTime(timePhrase).0, TargetTime(timePhrase).1)
  {
    if !Truthy(datePhrase) && !Truthy(timePhrase) {
      return NormOutcome(None, 0), [];
    }
    var settings := Settings(locale, now);
    var parsed;
    parsed, tried := ParseDateAttempts(datePhrase, timePhrase, settings, dateParser);
    if parsed.None? {
      return NormOutcome(None, 0), tried;
    }
    var dt := parsed.value;
    assert dt == dateParser(tried[|tried| - 1], settings).value;
    // the clock time comes from the helper when the time phrase reads as one, else 00:00
    var (targetHour, targetMinute) := TargetTime(timePhrase);
    var finalDt := dt.(hour := targetHour, minute := targetMinute, second := 0, microsecond := 0);
    assert FormatDate(finalDt) == FormatDate(dt);
    r := NormOutcome(Some(Normalized(FormatDate(finalDt), FormatTime(finalDt.hour, finalDt.minute), locale)), SuccessConfidence);
  }

  /** The date string determines the calendar date it was written from. */
  lemma FormatDateInjective(a: DateTime, b: DateTime)
    requires FormatDate(a) == FormatDate(b)
    ensures a.year == b.year && a.month == b.month && a.day == b.day
  {
    var s, u := FormatDate(a), FormatDate(b);
    assert s[..4] == Pad4(a.year as nat) && u[..4] == Pad4(b.year as nat);
    assert s[5..7] == Pad2(a.month as nat) && u[5..7] == Pad2(b.month as nat);
    assert s[8..10] == Pad2(a.day as nat) && u[8..10] == Pad2(b.day as nat);
  }

  /** A missing date phrase enters the fallback text as the word `None`: no date and `"3pm"` give `"None 3pm"`. */
  lemma MissingDateSpelledNone(phrase: string)
    requires phrase != [] && !IsSpace(phrase[0]) && !IsSpace(phrase[|phrase| - 1])
    ensures CombinedText(None, Some(phrase)) == "None " + phrase
  {
    var a := "None " + phrase;
    assert FormatField(None) + " " + FormatField(Some(phrase)) == a;
    assert a[0] == 'N';
    assert a[|a| - 1] == phrase[|phrase| - 1];
    StripKeeps(a);
  }

  /** A missing time phrase is spelled "None" in the combined fallback text. */
  lemma MissingTimeSpelledNone(phrase: string)
    requires phrase != [] && !IsSpace(phrase[0]) && !IsSpace(phrase[|phrase| - 1])
    ensures CombinedText(Some(phrase), None) == phrase + " None"
  {
    var b := phrase + " None";
    assert FormatField(Some(phrase)) + " " + FormatField(None) == b;
    assert b[0] == phrase[0];
    assert b[|b| - 1] == 'e';
    StripKeeps(b);
  }

  /**
    A time phrase that does not start with a digit once cleaned (for instance one
    spelled in words) leaves the appointment at midnight.
  */
  lemma WordTimeDefaultsToMidnight(phrase: string)
    requires CleanTimePhrase(phrase) == [] || !IsDigit(CleanTimePhrase(phrase)[0])
    ensures TargetTime(Some(phrase)) == (0, 0)
    ensures FormatTime(TargetTime(Some(phrase)).0, TargetTime(Some(phrase)).1) == "00:00"
  {
    NonDigitStartRejected(phrase);
  }
}
