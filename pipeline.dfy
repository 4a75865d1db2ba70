/**
  The decision logic of the `/parse` endpoint: where the text comes from, the
  order in which the stages may stop the request, and the department name put in
  the final appointment.
*/
module Pipeline {

  import opened Wrappers
  import opened Text
  import opened Model
  import opened Normalization
  import opened EntityExtraction
  import opened Guardrails

  /** The display name of each department keyword. */
  const CanonicalDepartments: map<string, string> := map[
    "dentist" := "Dentistry",
    "dental" := "Dentistry",
    "cardio" := "Cardiology",
    "cardiologist" := "Cardiology",
    "eye" := "Ophthalmology",
    "optometrist" := "Ophthalmology",
    "general" := "General Medicine",
    "gynac" := "Gynaecology",
    "gynaecologist" := "Gynaecology"
  ]

  /** The confidence given to typed text, which is not read by OCR (`0.99`). */
  const TextConfidence := 99

  const TextRequired := "text is required when input_type=text"
  const FileRequired := "file is required when input_type=image"

  /** The answer returned early when the date parser could not place the request. */
  const NormalizationFailure := GuardrailResponse(NeedsClarification, NormalizationMessage, None)

  /** What `/parse` answers: a 400 error, a clarification request, or the booked appointment. */
  datatype ParseResponse =
    | BadRequest(detail: string)
    | Clarification(response: GuardrailResponse)
    | Booked(final: FinalAppointment)

  /**
    The department name of the appointment: the display name of a known keyword
    (looked up after lower-casing), any other value unchanged, and a missing one
    as the empty string.
  */
  function Canonicalize(department: Option<string>): (r: string)
    ensures department.None? ==> r == ""
    ensures department.Some? && Lower(department.value) in CanonicalDepartments ==>
      r == CanonicalDepartments[Lower(department.value)]
    ensures department.Some? && Lower(department.value) !in CanonicalDepartments ==> r == department.value
    ensures r in CanonicalDepartments.Values || (department.Some? && r == department.value) || r == ""
  {
    var key := if department.Some? then department.value else "";
    if Lower(key) in CanonicalDepartments then CanonicalDepartments[Lower(key)] else key
  }

  /** Each keyword of the extractor's table has an entry here, with the same display name. */
  lemma KeywordHasCanonicalName(k: nat)
    requires k < |KeywordTable|
    ensures KeywordTable[k].0 in CanonicalDepartments
    ensures CanonicalDepartments[KeywordTable[k].0] == KeywordTable[k].1
  {
  }

  /** Every entry here is a keyword of the extractor's table. */
  lemma CanonicalNameIsKeyword(key: string)
    requires key in CanonicalDepartments
    ensures exists k :: 0 <= k < |KeywordTable| && KeywordTable[k].0 == key
  {
    var k :=
      if key == "dentist" then 0 else if key == "dental" then 1 else if key == "cardio" then 2
      else if key == "cardiologist" then 3 else if key == "eye" then 4 else if key == "general" then 5
      else if key == "gynac" then 6 else if key == "gynaecologist" then 7 else 8;
    assert KeywordTable[k].0 == key;
  }

  /** A department found by the keyword lookup always gets a display name. */
  lemma KeywordDepartmentCanonical(text: string)
    requires FirstKeyword(Lower(text), 0) < |KeywordTable|
    ensures Canonicalize(ExtractDepartment(text)) == KeywordTable[FirstKeyword(Lower(text), 0)].1
    ensures Canonicalize(ExtractDepartment(text)) in CanonicalDepartments.Values
  {
    var k := FirstKeyword(Lower(text), 0);
    var w := KeywordTable[k].0;
    KeywordIsWord(k);
    assert Lower(w) == w;
    KeywordHasCanonicalName(k);
  }

  /** No display name is itself a key, so canonicalising twice changes nothing. */
  lemma CanonicalizeIdempotent(department: Option<string>)
    ensures Canonicalize(Some(Canonicalize(department))) == Canonicalize(department)
  {
    var r := Canonicalize(department);
    if r in CanonicalDepartments.Values {
      DisplayNameNotKey(r);
    }
  }

  lemma DisplayNameNotKey(name: string)
    requires name in CanonicalDepartments.Values
    ensures Lower(name) !in CanonicalDepartments
  {
    assert name in {"Dentistry", "Cardiology", "Ophthalmology", "General Medicine", "Gynaecology"};
    var low := Lower(name);
    assert |low| == |name| && low[0] == LowerChar(name[0]);
  }

  /**
    Step 1 of `/parse`: typed text is trimmed and trusted at 0.99; otherwise the
    result of reading the uploaded image is used. A missing or empty text, or a
    missing file, is a bad request.
  */
  function AcquireText(inputType: string, text: Option<string>, image: Option<OcrResult>): (r: Result<OcrResult, string>)
    ensures r.Failure? <==> (if inputType == "text" then !Truthy(text) else image.None?)
    ensures r.Failure? ==> r.error == (if inputType == "text" then TextRequired else FileRequired)
    ensures inputType == "text" && r.Success? ==> r.value.confidence == TextConfidence
    // the trimmed text is the typed text less the blanks at either end
    ensures inputType == "text" && r.Success? ==>
      r.value.rawText == Strip(text.value) && PaddedAt(text.value, r.value.rawText, |text.value| - |StripLeft(text.value)|)
    ensures inputType == "text" && r.Success? && r.value.rawText != [] ==>
      !IsSpace(r.value.rawText[0]) && !IsSpace(r.value.rawText[|r.value.rawText| - 1])
    ensures inputType != "text" && r.Success? ==> r.value == image.value
  {
    if inputType == "text" then
      if !Truthy(text) then Failure(TextRequired)
      else
        StripShape(text.value);
        Success(OcrResult(Strip(text.value), TextConfidence))
    else
      if image.None? then Failure(FileRequired)
      else Success(image.value)
  }

  /**
    Steps 3 to 5 of `/parse`, given the stage results: a failed normalization is
    answered before the guardrail is consulted, a guardrail clarification is
    passed on as it is, and otherwise the appointment is built.
  */
  method Decide(ocr: OcrResult, entities: EntitiesResult, norm: NormOutcome) returns (resp: ParseResponse)
    ensures norm.normalized.None? ==> resp == Clarification(NormalizationFailure)
    ensures norm.normalized.Some? ==>
      var g := Verdict(ocr, entities, NormalizedResult(norm.normalized.value, norm.confidence));
      var n := norm.normalized.value;
      (g.status == NeedsClarification ==> resp == Clarification(g)) &&
      (g.status == Ok ==> resp == Booked(FinalAppointment(Appointment(Canonicalize(entities.entities.department),
                                                                      n.date, n.time, n.tz), Ok)))
  {
    if norm.normalized.None? {
      return Clarification(NormalizationFailure);
    }
    var normalizedRes := NormalizedResult(norm.normalized.value, norm.confidence);
    var guardrail := EvaluateGuardrails(ocr, entities, normalizedRes);
    if guardrail.status == NeedsClarification {
      return Clarification(guardrail);
    }
    var canonical := Canonicalize(entities.entities.department);
    var appointment := Appointment(canonical, normalizedRes.normalized.date, normalizedRes.normalized.time,
                                   normalizedRes.normalized.tz);
    return Booked(FinalAppointment(appointment, Ok));
  }

  /**
    What a booking for `raw` holds: status ok, the canonical name of the department
    the lookup finds, the date parser's last (and only successful) answer, the
    helper's reading of the time phrase the extraction settled on (00:00 when
    there is none), and the requested zone.
  */
  predicate BookedFrom(final: FinalAppointment, raw: string, tried: seq<string>, locale: string, now: DateTime,
                       dateParser: (string, ParserSettings) -> Option<DateTime>, ner: Option<seq<NerSpan>>)
  {
    var timePhrase := Fallback(NerSlot(SpansOf(ner), "TIME"), ExtractTime(raw));
    tried != [] && dateParser(tried[|tried| - 1], Settings(locale, now)).Some? &&
    final.status == Ok &&
    final.appointment.department == Canonicalize(ExtractDepartment(raw)) &&
    final.appointment.date == FormatDate(dateParser(tried[|tried| - 1], Settings(locale, now)).value) &&
    final.appointment.time == FormatTime(TargetTime(timePhrase).0, TargetTime(timePhrase).1) &&
    final.appointment.tz == locale
  }

  /**
    Steps 2 to 5 of `/parse` on the acquired text: extract the entities, normalize
    the date and time, then decide. `ner` holds the spans the language model finds
    in the text, and `tried` the texts handed to the date parser.
  */
  method Process(ocr: OcrResult, locale: string, now: DateTime,
                 dateParser: (string, ParserSettings) -> Option<DateTime>, ner: Option<seq<NerSpan>>)
    returns (resp: ParseResponse, tried: seq<string>)
    ensures !resp.BadRequest?
    // nothing to read: the normalization message, even when the reader was unsure
    ensures ocr.rawText == "" ==> resp == Clarification(NormalizationFailure) && tried == []
    // only two clarifications can come out; the entity and normalization thresholds never decide
    ensures resp.Clarification? ==>
      resp.response == NormalizationFailure ||
      (resp.response == GuardrailResponse(NeedsClarification, UnreadableMessage, None) && ocr.confidence < OcrThreshold)
    // booked exactly when the input is readable and the date parser places one of the texts it was given
    ensures resp.Booked? <==>
      ocr.confidence >= OcrThreshold && exists k :: 0 <= k < |tried| && dateParser(tried[k], Settings(locale, now)).Some?
    // a booking: readable input, and the appointment the stages read from the text
    ensures resp.Booked? ==>
      ocr.confidence >= OcrThreshold && BookedFrom(resp.final, ocr.rawText, tried, locale, now, dateParser, ner)
  {
    var entitiesRes := ExtractEntities(ocr.rawText, ner);
    var datePhrase := entitiesRes.entities.datePhrase;
    var timePhrase := entitiesRes.entities.timePhrase;
    var norm;
    norm, tried := NormalizeDateTime(datePhrase, timePhrase, locale, now, dateParser);
    // a normalized date needs a date or time phrase, and either lifts the entity score to the threshold
    assert norm.normalized.Some? ==> entitiesRes.confidence >= EntitiesThreshold by {
      if norm.normalized.Some? {
        assert Truthy(datePhrase) || Truthy(timePhrase);
        assert ocr.rawText != "";
      }
    }
    resp := Decide(ocr, entitiesRes, norm);
  }

  /**
    `/parse`: acquire the text, then run the stages on it. `image` is what reading
    the uploaded file gives.
  */
  method Parse(inputType: string, text: Option<string>, image: Option<OcrResult>, locale: string, now: DateTime,
               dateParser: (string, ParserSettings) -> Option<DateTime>, ner: Option<seq<NerSpan>>)
    returns (resp: ParseResponse, tried: seq<string>)
    // a request without its input is refused before any stage runs
    ensures resp.BadRequest? <==> AcquireText(inputType, text, image).Failure?
    ensures resp.BadRequest? ==> resp.detail == AcquireText(inputType, text, image).error && tried == []
    // typed text is never reported unreadable
    ensures inputType == "text" && resp.Clarification? ==> resp.response == NormalizationFailure
    ensures inputType == "text" && Truthy(text) && Strip(text.value) == "" ==>
      resp == Clarification(NormalizationFailure) && tried == []
    // an image that reads as nothing gets the normalization message, not the unreadable one
    ensures inputType != "text" && image.Some? && image.value.rawText == "" ==>
      resp == Clarification(NormalizationFailure) && tried == []
    ensures resp.Booked? <==>
      AcquireText(inputType, text, image).Success? && AcquireText(inputType, text, image).value.confidence >= OcrThreshold &&
      exists k :: 0 <= k < |tried| && dateParser(tried[k], Settings(locale, now)).Some?
    // the appointment booked is the one the stages read from the acquired text
    ensures resp.Booked? ==>
      AcquireText(inputType, text, image).Success? &&
      BookedFrom(resp.final, AcquireText(inputType, text, image).value.rawText, tried, locale, now, dateParser, ner)
  {
    var acquired := AcquireText(inputType, text, image);
    if acquired.Failure? {
      return BadRequest(acquired.error), [];
    }
    resp, tried := Process(acquired.value, locale, now, dateParser, ner);
  }
}
