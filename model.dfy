/**
  The records the pipeline stages hand to each other. Confidences are integer
  hundredths (`0.99` is `99`), which is exact for every value the stages produce.
*/
module Model {

  import opened Wrappers

  /** `OCRResult`: the text read from the input and how sure the reader is of it. */
  datatype OcrResult = OcrResult(rawText: string, confidence: int)

  /** The `entities` dict, whose keys are `date_phrase`, `time_phrase` and `department`, in that order. */
  datatype Entities = Entities(datePhrase: Option<string>, timePhrase: Option<string>, department: Option<string>)

  /** `EntitiesResult` */
  datatype EntitiesResult = EntitiesResult(entities: Entities, confidence: int)

  /** The `normalized` dict: `date` as `YYYY-MM-DD`, `time` as `HH:MM`, and the zone name `tz`. */
  datatype Normalized = Normalized(date: string, time: string, tz: string)

  /** `NormalizedResult` */
  datatype NormalizedResult = NormalizedResult(normalized: Normalized, confidence: int)

  /** The two values of `GuardrailResponse.status`: `"ok"` and `"needs_clarification"`. */
  datatype Status = Ok | NeedsClarification

  /** `GuardrailResponse` */
  datatype GuardrailResponse = GuardrailResponse(status: Status, message: string, suggestions: Option<seq<string>>)

  /** The `appointment` dict of the final answer. */
  datatype Appointment = Appointment(department: string, date: string, time: string, tz: string)

  /** `FinalAppointment`; its `status` is always `"ok"`. */
  datatype FinalAppointment = FinalAppointment(appointment: Appointment, status: Status)
}
