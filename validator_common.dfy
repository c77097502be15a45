/**
 * The parts of the validators package that every assertion shares: the
 * rendered documents, the validation context, the diagnostic lines and the
 * pass/fail verdict.
 */
module ValidatorCommon {
  import opened Wrappers

  /**
   * A rendered document. Only its `RAW` field is read here; it is either a
   * string or missing (Go's nil).
   */
  datatype Manifest = Manifest(raw: Option<string>)

  /**
   * The state an assertion is evaluated in. `manifests` is what
   * `getManifests` yields; `renderError` holds the message of the render
   * error, when there is one.
   */
  datatype ValidateContext = ValidateContext(
    manifests: seq<Manifest>,
    negative: bool,
    failFast: bool,
    renderError: Option<string>)

  /** The verb a failure line uses: " to equal" or " to match". */
  datatype Verb = ToEqual | ToMatch

  /** The actual value of a failure line, or nothing when the line leaves it out. */
  datatype Printed = NotPrinted | Printed(value: Option<string>)

  /**
   * One diagnostic, identified by what it reports rather than by its text.
   * `ErrorInfo` is a line written with the error format; `FailInfo` is the
   * expected/actual report of a failed check.
   */
  datatype Diagnostic =
    | ErrorInfo(manifestIndex: int, actualIndex: int, message: string)
    | FailInfo(manifestIndex: int, actualIndex: int, negated: bool, verb: Verb,
               expected: string, actual: Printed)

  /** What `Validate` returns: whether the assertion passed, and its diagnostics. */
  datatype Verdict = Verdict(passed: bool, lines: seq<Diagnostic>)

  const Pass := Verdict(true, [])

  /** A verdict passes exactly when it carries no diagnostic. */
  predicate Consistent(v: Verdict) {
    v.passed <==> v.lines == []
  }

  /** `determineSuccess`: the running success flag combined with the current one. */
  function DetermineSuccess(idx: int, success: bool, current: bool): (r: bool) {
    success && current
  }
}
