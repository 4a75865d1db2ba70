/**
  `evaluate_guardrails`: the three confidence thresholds, checked in order, and
  the clarification each one asks for.
*/
module Guardrails {

  import opened Wrappers
  import opened Text
  import opened Model

  /** The thresholds, in hundredths (`0.5`, `0.7`, `0.7`). A confidence equal to its threshold passes. */
  const OcrThreshold := 50
  const EntitiesThreshold := 70
  const NormalizationThreshold := 70

  const UnreadableMessage := "Image/text unreadable - please re-upload or type the text."
  const AmbiguousMessage := "Entities missing or ambiguous."
  const MissingPrefix := "Missing entities: "
  const NormalizationMessage := "Could not normalize date/time confidently. Please specify a clearer date or exact time."
  const PassedMessage := "All checks passed."

  /** `entities.items()`: the three slots under their dict keys, in insertion order. */
  function EntityFields(e: Entities): seq<(string, Option<string>)> {
    [("date_phrase", e.datePhrase), ("time_phrase", e.timePhrase), ("department", e.department)]
  }

  /** The keys, in order, of the slots among `fields` whose value is falsy. */
  function FalsyNames(fields: seq<(string, Option<string>)>): seq<string> {
    if fields == [] then []
    else FalsyNames(fields[..|fields| - 1]) + (if Truthy(fields[|fields| - 1].1) then [] else [fields[|fields| - 1].0])
  }

  /**
    The empty slots of `e`, listed in the order date, time, department: a slot
    is listed exactly when it is falsy, each at most once, and nothing is listed
    exactly when all three are filled.
  */
  function MissingFields(e: Entities): (r: seq<string>)
    ensures "date_phrase" in r <==> !Truthy(e.datePhrase)
    ensures "time_phrase" in r <==> !Truthy(e.timePhrase)
    ensures "department" in r <==> !Truthy(e.department)
    ensures forall k :: 0 <= k < |r| ==> r[k] in {"date_phrase", "time_phrase", "department"}
    ensures forall i, j :: 0 <= i < j < |r| ==> r[i] != r[j]
    ensures r == [] <==> Truthy(e.datePhrase) && Truthy(e.timePhrase) && Truthy(e.department)
  {
    var names := ["date_phrase", "time_phrase", "department"];
    assert names[0][0] == 'd' && names[1][0] == 't' && names[2][0] == 'd' && names[0][1] == 'a' && names[2][1] == 'e';
    (if Truthy(e.datePhrase) then [] else [names[0]]) +
    (if Truthy(e.timePhrase) then [] else [names[1]]) +
    (if Truthy(e.department) then [] else [names[2]])
  }

  lemma FalsyNamesOfFields(e: Entities)
    ensures FalsyNames(EntityFields(e)) == MissingFields(e)
  {
    var fields := EntityFields(e);
    assert fields[..2][..1] == fields[..1] && fields[..1][..0] == [];
    assert FalsyNames(fields[..1]) == (if Truthy(e.datePhrase) then [] else ["date_phrase"]);
  }

  /** The `for k, v in entities.items()` loop that gathers the names of the empty slots. */
  method CollectMissing(e: Entities) returns (missing: seq<string>)
    ensures missing == MissingFields(e)
  {
    var fields := EntityFields(e);
    missing := [];
    for i := 0 to |fields|
      invariant missing == FalsyNames(fields[..i])
    {
      assert fields[..i + 1][..i] == fields[..i];
      var (k, v) := fields[i];
      if !Truthy(v) {
        missing := missing + [k];
      }
    }
    assert fields[..|fields|] == fields;
    FalsyNamesOfFields(e);
  }

  /** The message for low entity confidence: the generic wording only when no slot is empty. */
  function MissingMessage(missing: seq<string>): (m: string)
    ensures m == AmbiguousMessage <==> missing == []
    ensures missing != [] ==> m == MissingPrefix + Join(", ", missing)
  {
    if missing == [] then AmbiguousMessage
    else
      var m := MissingPrefix + Join(", ", missing);
      assert m[0] == 'M' != AmbiguousMessage[0];
      m
  }

  /** The generic message is given exactly when all three slots are filled. */
  lemma GenericMessageOnlyWhenComplete(e: Entities)
    ensures MissingMessage(MissingFields(e)) == AmbiguousMessage <==>
      Truthy(e.datePhrase) && Truthy(e.timePhrase) && Truthy(e.department)
  {
  }

  /** With every slot empty, all three keys are listed, comma-separated, in slot order. */
  lemma NothingFoundMessage()
    ensures MissingMessage(MissingFields(Entities(None, None, None))) ==
      MissingPrefix + "date_phrase" + ", " + "time_phrase" + ", " + "department"
  {
    var missing := MissingFields(Entities(None, None, None));
    assert missing == ["date_phrase", "time_phrase", "department"];
    assert missing[1..][1..] == ["department"];
    assert Join(", ", missing) == "date_phrase" + ", " + ("time_phrase" + ", " + "department");
    PrefixRegroup(MissingPrefix, "date_phrase", ", ", "time_phrase", "department");
  }

  /** A prefix before a joined list of three, regrouped. */
  lemma PrefixRegroup(p: string, a: string, sep: string, b: string, c: string)
    ensures p + (a + sep + (b + sep + c)) == p + a + sep + b + sep + c
  {
  }

  /**
    The verdict `evaluate_guardrails` reaches: the first threshold that is missed
    decides the clarification, and only a request clearing all three is accepted.
  */
  function Verdict(ocr: OcrResult, entities: EntitiesResult, normalized: NormalizedResult): (g: GuardrailResponse)
    // unreadable input overrides everything else
    ensures ocr.confidence < OcrThreshold ==> g == GuardrailResponse(NeedsClarification, UnreadableMessage, None)
    ensures ocr.confidence >= OcrThreshold && entities.confidence < EntitiesThreshold ==>
      g == GuardrailResponse(NeedsClarification, MissingMessage(MissingFields(entities.entities)), None)
    ensures (ocr.confidence >= OcrThreshold && entities.confidence >= EntitiesThreshold &&
             normalized.confidence < NormalizationThreshold) ==>
      g == GuardrailResponse(NeedsClarification, NormalizationMessage, None)
    // accepted exactly when every confidence reaches its threshold
    ensures g.status == Ok <==>
      ocr.confidence >= OcrThreshold && entities.confidence >= EntitiesThreshold &&
      normalized.confidence >= NormalizationThreshold
    ensures g.status == Ok ==> g.message == PassedMessage
    ensures g.suggestions == None
  {
    if ocr.confidence < OcrThreshold then
      GuardrailResponse(NeedsClarification, UnreadableMessage, None)
    else if entities.confidence < EntitiesThreshold then
      GuardrailResponse(NeedsClarification, MissingMessage(MissingFields(entities.entities)), None)
    else if normalized.confidence < NormalizationThreshold then
      GuardrailResponse(NeedsClarification, NormalizationMessage, None)
    else
      GuardrailResponse(Ok, PassedMessage, None)
  }

  /** `evaluate_guardrails` */
  method EvaluateGuardrails(ocr: OcrResult, entities: EntitiesResult, normalized: NormalizedResult)
    returns (g: GuardrailResponse)
    ensures g == Verdict(ocr, entities, normalized)
  {
    if ocr.confidence < OcrThreshold {
      return GuardrailResponse(NeedsClarification, UnreadableMessage, None);
    }
    if entities.confidence < EntitiesThreshold {
      var missing := CollectMissing(entities.entities);
      var msg := AmbiguousMessage;
      if missing != [] {
        msg := MissingPrefix + Join(", ", missing);
      }
      return GuardrailResponse(NeedsClarification, msg, None);
    }
    if normalized.confidence < NormalizationThreshold {
      return GuardrailResponse(NeedsClarification, NormalizationMessage, None);
    }
    return GuardrailResponse(Ok, PassedMessage, None);
  }
}
