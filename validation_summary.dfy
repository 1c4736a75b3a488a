/** The outcome of one `Validate` call. */
module Summaries {
  import opened Annotations

  datatype Summary = Summary(Results: seq<ValidationResult>, Success: bool)

  /** A summary whose `Success` flag agrees with its results. `Success` is a
      getter-only property and `Results` has a private setter, so once built a
      summary never changes: as a value type the agreement holds for good. */
  type ValidationSummary = s: Summary | s.Success <==> s.Results == [] witness Summary([], true)

  /** `new ValidationSummary(results)`: keeps the results it is given, in their
      order, and succeeds exactly when there are none. */
  function NewValidationSummary(results: seq<ValidationResult>): (s: ValidationSummary)
    ensures s.Results == results
    ensures s.Success <==> |results| == 0
  {
    Summary(results, |results| == 0)
  }
}
