# Plum appointment parser — a Dafny model

Plum turns a free-text or photographed appointment request ("book dentist next
friday at 3pm") into a structured appointment: a canonical department name, a
calendar date, a clock time and a time zone. Its `/parse` endpoint runs four
stages, each modelled here:

1. **Text acquisition** (`Pipeline.AcquireText`). Typed text is trimmed and
   trusted at confidence 0.99. An image is read by an OCR engine, whose result
   is an input of the model. A missing input is a 400 error.
2. **Entity extraction** (`EntityExtraction`, `Patterns`). This stage finds a
   department, a time phrase and a date phrase.
   - The department comes from a keyword table searched in table order, with
     a trigger-word fallback ("book …", "for …", "to see …").
   - A named-entity recogniser (a list of tagged spans, or nothing) supplies
     the first DATE and TIME spans. The time regex (`TIME_RE`) and the ranked
     date hints (`DATE_HINTS`) fill the slots it leaves empty.
   - The date phrase is cleaned ("next day" becomes "tomorrow", "next friday"
     becomes "friday").
   - The score is 0.5 + 0.2 + 0.2 + 0.1, capped at 0.99.
3. **Normalization** (`Normalization`).
   - `_parse_simple_time` reads clock phrases such as "3 PM", "10:30am" and
     "14:00".
   - `normalize_datetime` hands the date phrase, then the combined
     "<date> <time>" text, to an external date parser. It overwrites the clock
     fields with the helper's reading, or 00:00, and answers with confidence
     0.95.
4. **Guardrails and decision** (`Guardrails`, `Pipeline`).
   - Three thresholds are checked in order: OCR 0.5, entities 0.7,
     normalization 0.7.
   - A failed normalization is answered before the guardrail is consulted.
   - A booked appointment gets the canonical department name.

Every confidence is an integer number of hundredths: 99, 95, 50, 70, and the
steps 20/20/10. The source writes them all as two-decimal literals or rounds
to two places, so no floating point is needed.

The regular expressions are written out as matchers that try alternatives in
the order Python's backtracking engine does (`Patterns.MatchAt`). `re.search`
is modelled as the leftmost-first driver `Patterns.Search`. For every pattern
here, that order takes the longest match at a position (the trigger: the
latest group), and each matcher's contract says so.

A consequence of the stage order, proved in `Pipeline.Process`: the request
can stop with only two clarifications, the "unreadable" one and the
normalization-failure one.
- An entity score below 0.7 means neither a date nor a time phrase was found.
  Normalization then fails, and `/parse` returns before the guardrail runs.
- A successful normalization always has confidence 0.95.

So, through `/parse`, the guardrail's "Missing entities" and normalization
messages are never what decides the answer.

Where the source's comments and its code differ, the model follows the code:
- `strptime("%H:%M")` also accepts a one-digit minute, so "14:5" reads as
  14:05.
- The anchored `re.match` ignores anything after the am/pm suffix.
- `_extract_department` reports the keyword itself ("cardio" for a text
  containing "cardiologist"). The display name is applied later in `/parse`.

Modules: `Wrappers` (Option, Result), `Text` (the Python string operations
used), `Model` (the records passed between stages), `Patterns`,
`Normalization`, `EntityExtraction`, `Guardrails` and `Pipeline`.

## Model

| member | source | states |
|---|---|---|
| Normalization.ParseSimpleTime | app/normalization.py:143-175 | any pair `_parse_simple_time` returns is a valid 24-hour time (hour 0..23, minute 0..59), whichever branch produced it |
| Normalization.ParseClock | app/normalization.py:150-175 | after clean-up, whichever branch answers (the am/pm pattern, `%H:%M` or `%H`) gives a valid 24-hour time. The branch order is stated by `MeridiemFirst` (an am/pm match decides) and `WithoutMeridiemOnlyBareClock` (otherwise only bare clock strings read) |
| Normalization.MeridiemFirst | app/normalization.py:150-175 | whenever the am/pm pattern matches the cleaned phrase, the reading is the 12-hour correction of that match, whatever follows the suffix |
| Normalization.MatchMeridiem | app/normalization.py:150 | a match of `(\d{1,2})(:(\d{2}))?(am\|pm)` has one or two hour digits, optionally two minute digits, and "am" or "pm", and the text they spell is a prefix of the phrase |
| Normalization.MatchMeridiemComplete | app/normalization.py:150 | conversely, any such groups whose text is a prefix of the phrase are exactly the match found, so the reading is unique |
| Normalization.AfterHourDigitsComplete | app/normalization.py:150 | after the hour digits, `:MM` then the suffix, or the suffix alone, is read back as written |
| Normalization.NoLetterNoMeridiem | app/normalization.py:150 | a phrase made only of digits and colons never matches the am/pm pattern |
| Normalization.From12Hour | app/normalization.py:163-173 | whatever the 12-hour correction and range check give is a valid 24-hour time |
| Normalization.From12HourMeaning | app/normalization.py:163-173 | the reading fails iff the hour passes 23 or the minute 59. The minute is kept. The hour keeps its value modulo 12. Up to 12, "pm" gives an afternoon hour and "am" a morning one. 13 to 23 are kept whatever the suffix |
| Normalization.StrptimeHourMinute | app/normalization.py:154-155 | what `%H:%M` accepts is the whole string: one or two digits, a colon at position 1 or 2, then one or two digits. They spell an hour up to 23 and a minute up to 59, read as written |
| Normalization.StrptimeHourMinuteComplete | app/normalization.py:154-155 | every such string is accepted by `%H:%M` with that reading |
| Normalization.StrptimeHour | app/normalization.py:158-159 | what `%H` accepts is a whole string of one or two digits spelling an hour up to 23, read as written |
| Normalization.StrptimeHourComplete | app/normalization.py:158-159 | every such string is accepted by `%H` with its value |
| Normalization.StrptimeHourMeaning | app/normalization.py:158-159 | `%H` accepts a string with a given hour iff the string is one or two digits spelling that hour, at most 23 |
| Normalization.HourEnds | app/normalization.py:154-158 | each way `%H` can match takes one or two characters |
| Normalization.MinuteEnds | app/normalization.py:154 | each way `%M` can match takes one or two characters |
| Normalization.FirstHourMinute | app/normalization.py:154 | the first `%H:%M` match has a colon right after the hour and uses the first minute alternative |
| Normalization.HourEndsBound | app/normalization.py:154-158 | every digit prefix `%H` accepts has value at most 23 |
| Normalization.MinuteEndsBound | app/normalization.py:154 | every digit slice `%M` accepts has value at most 59 |
| Normalization.AmConversion | app/normalization.py:163-173 | `H:MMam` and `Ham` read as (0, m) for 12am and as (H, m) for every other hour |
| Normalization.PmConversion | app/normalization.py:163-173 | `H:MMpm` and `Hpm` read as (H+12, m) for H < 12, and 12pm as noon |
| Normalization.ReadsWithMinutes | app/normalization.py:147-165 | `H:MMam`/`H:MMpm` reach the 12-hour correction with the hour, minute and suffix groups as written |
| Normalization.ReadsBare | app/normalization.py:147-165 | `Ham`/`Hpm` reach the 12-hour correction with no minute group |
| Normalization.MeridiemWithMinutes | app/normalization.py:150 | the anchored pattern captures hour digits, minute digits and suffix of `H:MMam` |
| Normalization.MeridiemBare | app/normalization.py:150 | the anchored pattern captures hour digits and suffix of `Ham`, with no minute group |
| Normalization.SpaceInsensitive | app/normalization.py:147 | inserting a space anywhere in the phrase never changes the reading ("3 pm" = "3pm") |
| Normalization.CaseInsensitive | app/normalization.py:147 | upper-casing the phrase never changes the reading ("3PM" = "3pm") |
| Normalization.CleanTimePhrase | app/normalization.py:147 | the phrase as examined has no upper-case letter and no plain space |
| Normalization.CleanTimePhraseIdempotent | app/normalization.py:147 | cleaning a cleaned phrase changes nothing |
| Normalization.NonDigitStartRejected | app/normalization.py:150-161 | a cleaned phrase not starting with a digit ("noon", "morning", "evening") is not a time |
| Normalization.WithoutMeridiemOnlyBareClock | app/normalization.py:150-161 | without a leading am/pm match, only a whole `H`, `HH`, `H:M`, `H:MM`, `HH:M` or `HH:MM` string is read |
| Normalization.BareClockReads | app/normalization.py:143-161 | for every valid hour and minute, a bare `H` reads as (H, 0) and `H:MM` as (H, MM) |
| Normalization.BareHourReads | app/normalization.py:158-161 | a bare hour `H`, at most 23, reads as (H, 0) |
| Normalization.HourMinuteReads | app/normalization.py:154-155 | `H:MM` with a valid hour and minute reads as (H, MM) |
| Normalization.CleanPhraseIdentity | app/normalization.py:147 | a phrase with no upper-case letter and no whitespace is examined as written |
| Normalization.PlainPieces | app/normalization.py:147 | the clock strings the conversion lemmas build are left alone by the clean-up |
| Normalization.FormatTime | app/normalization.py:238 | `%H:%M` yields five characters with the colon in the middle |
| Normalization.FormatTimeRoundTrip | app/normalization.py:143-238 | the `HH:MM` string the combiner writes reads back as the same hour and minute |
| Normalization.FormatDate | app/normalization.py:237 | `%Y-%m-%d` yields a ten-character string |
| Normalization.FormatDateInjective | app/normalization.py:229-237 | equal date strings come from the same year, month and day |
| Normalization.TargetTime | app/normalization.py:215-225 | the clock time written into the appointment is always a valid 24-hour time |
| Normalization.WordTimeDefaultsToMidnight | app/normalization.py:215-225 | a time phrase not starting with a digit leaves the appointment at "00:00" |
| Normalization.Midnight | app/normalization.py:188 | the relative base keeps the calendar date of `now` and has a zero clock |
| Normalization.Settings | app/normalization.py:188-195 | the parser settings: the locale as zone, timezone-aware, future dates preferred, relative to today's midnight |
| Normalization.SettingsIgnoreClock | app/normalization.py:188-195 | two instants of the same day give the same settings |
| Normalization.CombinedText | app/normalization.py:206 | two rendered fields, each non-empty with no blank at either end, are joined by exactly one space |
| Normalization.MissingDateSpelledNone | app/normalization.py:206 | with no date phrase the fallback text is `"None " + time` |
| Normalization.MissingTimeSpelledNone | app/normalization.py:206 | with no time phrase the fallback text is `date + " None"` |
| Normalization.ParseDateAttempts | app/normalization.py:197-208 | the date phrase is tried alone first; the combined text only if that fails; the result is the last attempt's answer, None iff every attempt failed |
| Normalization.NormalizeDateTime | app/normalization.py:177-245 | no phrase: (None, 0) without consulting the parser. Otherwise the attempt order as above, and None with 0 iff every attempt failed. Success: confidence 95, tz = locale, the parser's calendar date, and the helper's time or 00:00 |
| Patterns.WordRunEnd | app/entity_extraction.py:130-141 | greedy `\w*`: every character taken is a word character and the next one is not |
| Patterns.SpaceRunEnd | app/entity_extraction.py:130-141 | greedy `\s*`: every character taken is whitespace and the next one is not |
| Patterns.SpacesWithinRun | app/entity_extraction.py:130-141 | any whitespace stretch from a position lies within the greedy `\s*` run |
| Patterns.WordCharsWithinRun | app/entity_extraction.py:130-141 | any word-character stretch from a position lies within the greedy `\w*` run |
| Patterns.MeridiemTail | app/entity_extraction.py:134 | `(am\|pm)?\b` at a position: an answer is a match (an optional am/pm in any case, then a word boundary), and None means no end matches. The suffix is taken whenever a boundary follows it |
| Patterns.SpacedMeridiem | app/entity_extraction.py:134 | backtracking over the spaces that the greedy `\s*` took: an answer is a match of `\s*(am\|pm)?\b`, and no way to finish after fewer of those spaces ends later. None means no position among those spaces starts `(am\|pm)?\b` |
| Patterns.MeridiemTailLongest | app/entity_extraction.py:134 | once `(am\|pm)?\b` finishes after the greedy spaces, backing off a space never gives a later end, since am/pm cannot start on whitespace |
| Patterns.SpacedMeridiemComplete | app/entity_extraction.py:134 | if `\s*(am\|pm)?\b` matches at a position at all, backtracking from the greedy run finds a match, and no match ends later than it |
| Patterns.ClockTail | app/entity_extraction.py:134 | `\s*(am\|pm)?\b` at a position: an answer is the longest match, and None means there is none |
| Patterns.SpacedMeridiemAtDigitOrColon | app/entity_extraction.py:134 | at a digit or a colon, `\s*(am\|pm)?\b` can only match the empty string |
| Patterns.AfterClockHour | app/entity_extraction.py:134 | `(:\d{2})?\s*(am\|pm)?\b` after the hour digits: an answer is the longest match (minutes, when they are there, are always taken), and None means there is none |
| Patterns.NoClockBetweenDigits | app/entity_extraction.py:134 | between two digits no `(:\d{2})?\s*(am\|pm)?\b` matches, for lack of a word boundary |
| Patterns.ClockAt | app/entity_extraction.py:134 | `\b\d{1,2}(:\d{2})?\s*(am\|pm)?\b` at a position: an answer is a non-empty match and the longest, and None means there is none |
| Patterns.WholeWordAt | app/entity_extraction.py:134 | `\bnoon\b` and friends: an answer is the word, in any case, between word boundaries; None means the word is not there |
| Patterns.TimeAt | app/entity_extraction.py:134 | `TIME_RE` at a position: an answer is a non-empty match of one of its four alternatives and the longest match, so the one Python takes. None means none of them matches there |
| Patterns.SpacesWordSplit | app/entity_extraction.py:136-140 | whitespace followed by word characters can only split where the whitespace run ends |
| Patterns.SpacesThenWord | app/entity_extraction.py:136-140 | `\s+\w+`: an answer is the longest match, ending where the word characters stop, and None means there is none |
| Patterns.KeywordThenWordAt | app/entity_extraction.py:136-137 | `this\s+\w+` / `next\s+\w+`: an answer is a non-empty match and the longest, ending where the word characters stop, and None means there is none |
| Patterns.LiteralAt | app/entity_extraction.py:138 | `today` / `tomorrow` match at a position iff the literal occurs there, and the match ends right after it |
| Patterns.FirstLiteralAt | app/entity_extraction.py:139 | the weekday alternation: an answer ends one of the alternatives that occurs at the position, and None means none occurs there |
| Patterns.LiteralAltTail | app/entity_extraction.py:139 | when the first alternative does not occur, the alternation matches exactly as its other alternatives do |
| Patterns.WeekdayOnlyMatch | app/entity_extraction.py:139 | no two weekday names occur at one position, so the alternative found first is the only match there |
| Patterns.AfterDayNumber | app/entity_extraction.py:140 | `(st\|nd\|rd\|th)?\s+\w+`: an answer is the longest match, ending where the word characters stop, and None means there is none |
| Patterns.DayThenWordAt | app/entity_extraction.py:140 | `\d{1,2}(st\|nd\|rd\|th)?\s+\w+`: an answer is a non-empty match and the longest, ending where the word characters stop, and None means there is none |
| Patterns.WordDaySplit | app/entity_extraction.py:141 | every way to split a match of `\w+\s+\d{1,2}` is the greedy one |
| Patterns.WordThenDayAt | app/entity_extraction.py:141 | `\w+\s+\d{1,2}(st\|nd\|rd\|th)?`: an answer is a non-empty match and the longest one, and None means there is none |
| Patterns.DayNumberLongest | app/entity_extraction.py:141 | `\d{1,2}(st\|nd\|rd\|th)?` at a digit: two digits when there are two, then the suffix when there is one, is a match and the longest |
| Patterns.CapturedWord | app/entity_extraction.py:130 | `(\w+)\b` succeeds iff a word character stands at the position; the group is the whole run of word characters |
| Patterns.TriggerRest | app/entity_extraction.py:130 | `\s+(a\s+)?(\w+)\b` after a trigger word: an answer is a match. The article is skipped whenever a word follows it, so no other match has a later group. None means there is none |
| Patterns.TriggerGroupStarts | app/entity_extraction.py:130 | a trigger group starts where the whitespace run ends, or after the article and its whitespace |
| Patterns.TriggerFrom | app/entity_extraction.py:130 | the trigger alternation at a position: an answer is a match with one of the alternatives, and None means there is none |
| Patterns.TriggerWordsDistinct | app/entity_extraction.py:130 | `book`, `for` and `to see` start with different letters |
| Patterns.TriggerNeedsWord | app/entity_extraction.py:130 | no trigger match where none of the alternatives occurs |
| Patterns.TriggerFromLatest | app/entity_extraction.py:130 | with alternatives that start differently, the group `TriggerFrom` captures starts at least as late as that of any match at the position: the article is skipped whenever a word follows it |
| Patterns.TriggerMatchGroup | app/entity_extraction.py:130 | whichever trigger alternative leads to it, the captured department group is a non-empty run of word characters ending at a word boundary |
| Patterns.MatchEnd | app/entity_extraction.py:134-141 | for `TIME_RE` and each date hint, an answer is a non-empty match of the whole pattern and the longest one, and None means the pattern does not match there |
| Patterns.MatchAt | app/entity_extraction.py:129-141 | the group read from the match at a position: the whole match, and the longest, for `TIME_RE` and the hints; for the trigger a `raw_dep` group that starts at least as late as any match's group. None means the pattern does not match there |
| Patterns.Search | app/entity_extraction.py:153-171 | `re.search`: the hit is a match at its start, no earlier start matches, and None iff no position matches |
| EntityExtraction.FirstKeyword | app/entity_extraction.py:148-150 | the first table keyword, in insertion order, that is a substring of the text; none before it is |
| EntityExtraction.TriggeredDepartment | app/entity_extraction.py:153-158 | a department exactly when the leftmost trigger match captures a word that is not a stop word, and then that word: non-empty, of word characters, in the text, and lower case |
| EntityExtraction.TriggerSpanChars | app/entity_extraction.py:130-155 | the `raw_dep` group of a trigger match is a non-empty run of word characters |
| EntityExtraction.CapturedWordFacts | app/entity_extraction.py:155-158 | the captured word is unchanged by `strip()` and occurs in the lower-cased text |
| EntityExtraction.ExtractDepartment | app/entity_extraction.py:144-160 | a department found is non-empty, lower case, not a stop word, and a substring of the lower-cased text |
| EntityExtraction.KeywordIsWord | app/entity_extraction.py:118-157 | every keyword is a non-empty lower-case word outside the stop list |
| EntityExtraction.KeywordPriority | app/entity_extraction.py:148-150 | the keyword found is the first in table order that occurs, wherever it sits in the text |
| EntityExtraction.TriggerOnlyWithoutKeyword | app/entity_extraction.py:147-158 | the trigger fallback decides exactly when no keyword occurs; otherwise a table keyword is reported |
| EntityExtraction.CardiologistShadowed | app/entity_extraction.py:118-150 | "cardiologist" is never reported, because "cardio" comes first and is a substring of it |
| EntityExtraction.DepartmentIgnoresCase | app/entity_extraction.py:145 | the department found does not depend on letter case |
| EntityExtraction.ExtractTime | app/entity_extraction.py:162-166 | a time phrase is found iff `TIME_RE` matches somewhere; it is the text of the leftmost match (the longest at its start, by `Patterns.MatchAt`), a non-empty piece of the text |
| EntityExtraction.FirstFound | app/entity_extraction.py:170-173 | the first hint, in list order, that matches anywhere; none before it does |
| EntityExtraction.ExtractDatePhrase | app/entity_extraction.py:168-174 | a date phrase is found iff some hint matches the lower-cased text, and is a non-empty piece of it |
| EntityExtraction.HintPriority | app/entity_extraction.py:135-174 | the first hint in list order that matches supplies the phrase (its leftmost match), even if a later hint matches earlier in the text |
| EntityExtraction.RelativeDayFound | app/entity_extraction.py:138-174 | a text containing "today" or "tomorrow", in any case, always yields a date phrase |
| EntityExtraction.NextWeekday | app/entity_extraction.py:191-194 | the first weekday `d` with phrase == "next " + d; no earlier weekday fits |
| EntityExtraction.CleanDatePhrase | app/entity_extraction.py:177-196 | falsy gives None and truthy never gives None. "next day" becomes "tomorrow" and "next <weekday>" the weekday, compared after lower-casing and collapsing whitespace. Any other phrase comes back unchanged |
| EntityExtraction.CleanKeepsWord | app/entity_extraction.py:182-196 | a short lower-case word is left as it is by the clean-up |
| EntityExtraction.WeekdayIsWord | app/entity_extraction.py:189 | each weekday is a lower-case word with no whitespace, shorter than eleven characters |
| EntityExtraction.CleanIdempotent | app/entity_extraction.py:177-196 | cleaning a cleaned phrase changes nothing |
| EntityExtraction.NextWeekdayCleaned | app/entity_extraction.py:180-194 | "next" and a weekday, in any letter case, with any whitespace around them and some between, is cleaned to the bare weekday |
| EntityExtraction.NextWordCollapsed | app/entity_extraction.py:180-181 | such a phrase, lower-cased and collapsed, is "next " followed by the word |
| EntityExtraction.NextDayCleaned | app/entity_extraction.py:180-185 | "next" and "day", in any letter case and spacing, is cleaned to "tomorrow" |
| EntityExtraction.Offer | app/entity_extraction.py:210-216 | one span offered to a slot: a truthy slot is kept; a falsy one takes the text of a span of its tag; otherwise nothing changes |
| EntityExtraction.NerSlot | app/entity_extraction.py:210-216 | a filled slot holds the text of one of the spans carrying its tag |
| EntityExtraction.NerSlotFalsy | app/entity_extraction.py:210-216 | without a span of the tag with non-empty text, the slot stays falsy |
| EntityExtraction.NerKeepsFirst | app/entity_extraction.py:210-216 | the first span of the tag with non-empty text fills the slot; later ones are ignored |
| EntityExtraction.ScanSpans | app/entity_extraction.py:208-216 | the loop over the spans leaves in each slot what offering every span in order gives |
| EntityExtraction.Fallback | app/entity_extraction.py:219-229 | the regex result replaces a slot only when the slot is falsy and the result truthy; a truthy slot is kept |
| EntityExtraction.EntityScore | app/entity_extraction.py:202-252 | the score is one of 50, 60, 70, 80, 90, 99; it reaches 70 iff a date or a time was found, and 99 iff all three were |
| EntityExtraction.ScoreMonotone | app/entity_extraction.py:243-252 | finding more fields never lowers the score |
| EntityExtraction.ScoreFields | app/entity_extraction.py:202-252 | the `+=` bookkeeping and the cap at 0.99 compute the score of the fields present |
| EntityExtraction.ExtractEntities | app/entity_extraction.py:198-252 | empty text gives all None and 0. Otherwise: the first NER spans with the regex fallback only for empty slots, the date phrase cleaned, the department always from the lookup, and the score taken after cleaning |
| Guardrails.FalsyNamesOfFields | app/guardrails.py:16-19 | the names of the falsy fields, in dict order, are the missing slots in the order date, time, department |
| Guardrails.MissingFields | app/guardrails.py:16-19 | a slot is listed iff it is falsy, at most once and under its own name; the list is empty iff all three slots are filled |
| Guardrails.CollectMissing | app/guardrails.py:16-19 | the `append` loop collects exactly the missing slots, in the order date_phrase, time_phrase, department |
| Guardrails.MissingMessage | app/guardrails.py:20-22 | the generic text iff nothing is missing; otherwise "Missing entities: " and the names joined by ", " |
| Guardrails.GenericMessageOnlyWhenComplete | app/guardrails.py:16-22 | "Entities missing or ambiguous." is given exactly when all three slots are filled |
| Guardrails.NothingFoundMessage | app/guardrails.py:16-22 | with every slot empty the message lists date_phrase, time_phrase, department |
| Guardrails.Verdict | app/guardrails.py:4-30 | the first missed threshold decides: OCR below 50, then entities below 70, then normalization below 70. Status is ok iff all three are met (equality passes), with "All checks passed.". Suggestions are never set |
| Guardrails.EvaluateGuardrails | app/guardrails.py:9-30 | the short-circuiting checks answer the verdict above |
| Text.StripLeft | app/normalization.py:147 | `lstrip()` removes only a whitespace prefix: the result is a suffix of the input, the part removed is all whitespace, and the result does not start with whitespace |
| Text.StripLeftConcat | app/normalization.py:147 | `lstrip()` of a concatenation: past an all-whitespace first part it is that of the second; otherwise that of the first, followed by the second |
| Text.StripRight | app/normalization.py:147 | `rstrip()` removes only a whitespace suffix: the result is a prefix of the input, the part removed is all whitespace, and the result does not end with whitespace |
| Text.Strip | app/main.py:57 | `strip()` is no longer than its input and neither starts nor ends with whitespace |
| Text.StripShape | app/main.py:57 | `strip()` removes whitespace and nothing else: the input is whitespace, then the result, then whitespace |
| Text.StripContained | app/main.py:57 | the stripped text occurs in the input |
| Text.Lower | app/normalization.py:147 | `lower()` keeps the length and leaves no upper-case letter |
| Text.LowerMeaning | app/normalization.py:147 | each character stays the same letter up to case, every character that is not an upper-case letter is kept, and lowering twice is lowering once |
| Text.LowerUpper | app/normalization.py:147 | lower-casing forgets any earlier upper-casing |
| Text.LowerConcat | app/entity_extraction.py:182 | `lower()` distributes over concatenation and keeps whitespace |
| Text.LowerPadded | app/entity_extraction.py:182 | lower-casing words with whitespace around them lower-cases the words alone |
| Text.RemoveSpaces | app/normalization.py:147 | `replace(" ", "")` leaves no plain space and keeps a lower-case string lower-case |
| Text.RemoveSpacesKeepsOthers | app/normalization.py:147 | every character other than the plain space is kept as often as it occurs |
| Text.RemoveSpacesStrip | app/normalization.py:147 | removing spaces and stripping whitespace commute |
| Text.CollapseWord | app/entity_extraction.py:182 | a single lower-case word survives `" ".join(w.lower().split())` unchanged |
| Text.Contains | app/entity_extraction.py:149 | `k in s` holds iff `k` occurs in `s` at some position |
| Text.NonSpaceRun | app/entity_extraction.py:182 | the first item of `split()` is the leading run of non-whitespace: none in it, and it stops at whitespace or at the end |
| Text.NonSpaceRunConcat | app/entity_extraction.py:182 | the leading non-whitespace run of `a + b` is that of `a` when `b` starts with whitespace |
| Text.Words | app/entity_extraction.py:182 | every item `split()` yields is non-empty and free of whitespace |
| Text.WordsEmpty | app/entity_extraction.py:182 | `split()` gives no item exactly when the text is all whitespace |
| Text.WordsOfWord | app/entity_extraction.py:182 | a non-empty string without whitespace splits into itself alone |
| Text.WordsAfterSpaces | app/entity_extraction.py:182 | leading whitespace does not change `split()` |
| Text.WordsFirstWord | app/entity_extraction.py:182 | before whitespace, the first word of a text that is not all whitespace splits off as it does alone |
| Text.WordsSplit | app/entity_extraction.py:182 | `split()` of two texts with whitespace between them is the items of the first followed by the items of the second |
| Text.WordThenSpaces | app/entity_extraction.py:182 | a word followed by whitespace splits into the word alone |
| Text.WordsWordSpacesWord | app/entity_extraction.py:182 | a word, whitespace, a word and whitespace split into the two words |
| Text.WordsTwoWords | app/entity_extraction.py:182 | two words with whitespace around and between them split into the two words |
| Text.Join | app/entity_extraction.py:182 | `sep.join(xs)` starts with the first character of the first item and ends with the last character of the last |
| Text.JoinAppend | app/entity_extraction.py:182 | joining two non-empty lists puts exactly one separator between their joins |
| Text.Collapse | app/entity_extraction.py:182 | `" ".join(s.split())` is empty iff the input is all whitespace, and otherwise has no whitespace at either end |
| Text.CollapseSplit | app/entity_extraction.py:182 | `" ".join(s.split())` of two texts that are not all whitespace, with whitespace between, is the two collapsed texts with one space between |
| Text.CollapseTwoWords | app/entity_extraction.py:182 | two words with whitespace around and between them collapse to the words with one space between |
| Text.CollapseLowerPadded | app/entity_extraction.py:182 | the same for `" ".join(s.lower().split())`: the two lower-cased words with one space between |
| Pipeline.Canonicalize | app/main.py:116-122 | a lower-cased known key gives its display name, anything else is passed through, and None gives "" |
| Pipeline.KeywordHasCanonicalName | app/main.py:28-38 | every keyword of the extractor's table is a key here, with the same display name |
| Pipeline.CanonicalNameIsKeyword | app/main.py:28-38 | every key here is a keyword of the extractor's table |
| Pipeline.KeywordDepartmentCanonical | app/main.py:116-122 | a department found by the keyword path canonicalises to a display name |
| Pipeline.DisplayNameNotKey | app/main.py:28-38 | no display name, lower-cased, is a key |
| Pipeline.CanonicalizeIdempotent | app/main.py:119-122 | canonicalising a canonical name changes nothing |
| Pipeline.AcquireText | app/main.py:54-62 | 400 iff the text is falsy on the text path or the file is absent otherwise, with the source's messages. Typed text is stripped, with confidence 99. An image's reading is used as is |
| Pipeline.Decide | app/main.py:88-130 | normalization failure answers the fixed message before the guardrail runs. A guardrail clarification is returned as is. Otherwise the appointment has the canonical department, the normalized date, time and tz, and status ok |
| Pipeline.Process | app/main.py:69-130 | never a 400. Booked exactly when the reading reaches confidence 50 and the date parser places one of the texts it was given. Empty text gives the normalization message without a parse. Only the normalization message, or the unreadable one when confidence < 50, can come out. A booking (`BookedFrom`) has the canonical department, the parser's last date, the time the helper reads from the extracted time phrase (00:00 without one), status ok and tz = locale |
| Pipeline.Parse | app/main.py:54-130 | 400 exactly when acquisition fails. Booked exactly when acquisition succeeds, the reading reaches confidence 50 and the date parser places one of the texts it was given. Typed text is never called unreadable. Blank typed text, or an image that reads as nothing, gets the normalization message. A booking is the one `BookedFrom` describes for the acquired text: canonical department, the parser's last date, the helper's reading of the extracted time phrase, status ok, tz = locale |

## Left out

- `app/ocr.py` is not part of this model. It decodes and filters an image,
  then calls Tesseract and averages token confidences in floating point.
  `Pipeline.Parse` takes what it returns as the input `image`, an
  `OcrResult` or nothing (no file).
- Async file upload, the FastAPI routing, CORS, `HTTPException` (modelled as
  the `BadRequest` answer), the JSON response wrapping and `/health`. These
  are HTTP plumbing.
- All `print` debug output.
- `dateparser.parse` is a function parameter. Its natural-language semantics
  are foreign.
- Timezone objects: `pytz.timezone(locale)` and the final `astimezone(tz)`
  are taken as the identity on calendar fields. The parser is assumed to
  answer in the target zone, as its `TIMEZONE` setting asks. An unknown zone
  name (which raises in the source) is not modelled.
- `datetime.now(tz)` is the input `now`.
- The settings' timezone-aware flag and the midnight base are built and
  handed to the parser, but have no effect beyond it.
- spaCy's model loading and recognition are represented by an optional list
  of `(tag, text)` spans in document order. `None` stands for no model
  loaded.
- Floating point: confidences are integer hundredths. With the literals
  used, `round(min(confidence, 0.99), 2)` and the threshold comparisons give
  the same outcomes as the integers.
- Unicode: `lower()`, `\w`, `\d` and `re.I` are modelled on ASCII. Other
  letters and digits are treated as ordinary non-word characters.
- Unicode whitespace: `Text.IsSpace` covers only the whitespace among the
  first 256 code points. Python's `strip()`, `split()` and `\s` also treat
  U+1680, U+2000 to U+200A, U+2028, U+2029, U+202F, U+205F and U+3000 as
  whitespace. So the model differs from the source on text containing them.
  For example, `_parse_simple_time("\u30003pm")` is (15, 0) in the source
  but None in the model, and `split()`-based collapsing differs the same way.
- Seconds and microseconds are zeroed in the source but never appear in the
  normalized fields, so the model does not carry the combined `datetime`
  beyond its date and clock strings.
- The commented-out earlier versions at the top of `app/normalization.py` and
  `app/entity_extraction.py` are dead code.
- `app/model.py` contributes only the shapes of the records in `Model`.
- `Normalization.NormalizeDateTime`, `Pipeline.Process` and `Pipeline.Parse`
  also return `tried`, the texts handed to the date parser, so that the
  attempt order can be stated. The source returns no such list.
- Normalization.FormatDate: its contract gives only the length. The partner
  property is `Normalization.FormatDateInjective`.
