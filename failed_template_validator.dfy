/**
 * The "failedTemplate" assertion: it passes when rendering failed with the
 * expected error, or, without a render error, according to the `RAW` field of
 * every rendered document.
 */
module FailedTemplate {
  import opened Wrappers
  import opened Regexp
  import opened ValidatorCommon

  const ConfigErrorMessage := "single attribute 'errorMessage' or 'errorPattern' supported at the same time"
  const NoFailedDocument := "No failed document"

  /** The assertion's two parameters; the empty string means "not set". */
  datatype Validator = Validator(errorMessage: string, errorPattern: string) {

    /** Go's `a == (FailedTemplateValidator{})`. */
    predicate IsEmpty() {
      errorMessage == "" && errorPattern == ""
    }

    /** Both parameters set: a configuration error. */
    predicate Conflicting() {
      errorMessage != "" && errorPattern != ""
    }
  }

  /** `cmp.Or` on two strings: the first one that is not empty. */
  function Or(x: string, y: string): (r: string) {
    if x != "" then x else y
  }

  /**
   * `failInfo`: the report of one failed check. The expected text is the
   * parameter that is set, the verb says whether it is a pattern, and a
   * negated report leaves the actual value out.
   */
  function FailInfo(a: Validator, actual: Option<string>, manifestIndex: int, actualIndex: int, not: bool): (d: seq<Diagnostic>)
    ensures |d| == 1 && d[0].FailInfo?
    ensures d[0].manifestIndex == manifestIndex && d[0].actualIndex == actualIndex && d[0].negated == not
    ensures d[0].verb == ToMatch <==> a.errorPattern != ""
    ensures a.errorMessage != "" ==> d[0].expected == a.errorMessage
    ensures a.errorMessage == "" ==> d[0].expected == a.errorPattern
    ensures d[0].actual == if not then NotPrinted else Printed(actual)
  {
    var verb := if a.errorPattern != "" then ToMatch else ToEqual;
    var message := Or(a.errorMessage, a.errorPattern);
    if not then
      [Diagnostic.FailInfo(manifestIndex, actualIndex, not, verb, message, NotPrinted)]
    else
      [Diagnostic.FailInfo(manifestIndex, actualIndex, not, verb, message, Printed(actual))]
  }

  /**
   * `validateErrorPattern`: a pattern that does not compile fails with the
   * compiler's message whatever the actual value and the negation; otherwise
   * the check passes when "the actual value is there and the pattern is found
   * in it" differs from `negative`.
   */
  function ValidateErrorPattern(re: Engine, a: Validator, actual: Option<string>,
                                manifestIndex: int, actualIndex: int, negative: bool): (r: Verdict)
    ensures !re.compiles(a.errorPattern) ==>
              r == Verdict(false, [ErrorInfo(-1, -1, re.compileError(a.errorPattern))])
    ensures re.compiles(a.errorPattern) ==>
              (r.passed <==> (actual.Some? && re.matchString(a.errorPattern, actual.value)) != negative)
    ensures re.compiles(a.errorPattern) && !r.passed ==>
              r.lines == FailInfo(a, actual, manifestIndex, actualIndex, negative)
    ensures Consistent(r)
  {
    if !re.compiles(a.errorPattern) then
      Verdict(false, [ErrorInfo(-1, -1, re.compileError(a.errorPattern))])
    else if (actual.Some? && re.matchString(a.errorPattern, actual.value)) == negative then
      Verdict(false, FailInfo(a, actual, manifestIndex, actualIndex, negative))
    else
      Pass
  }

  /**
   * `validateErrorMessage`: the check passes when "the actual value is there
   * and equals the expected message" differs from `negative`.
   */
  function ValidateErrorMessage(a: Validator, actual: Option<string>,
                                manifestIndex: int, actualIndex: int, negative: bool): (r: Verdict)
    ensures r.passed <==> (actual == Some(a.errorMessage)) != negative
    ensures !r.passed ==> r.lines == FailInfo(a, actual, manifestIndex, actualIndex, negative)
    ensures Consistent(r)
  {
    if (actual.Some? && a.errorMessage == actual.value) == negative then
      Verdict(false, FailInfo(a, actual, manifestIndex, actualIndex, negative))
    else
      Pass
  }

  /**
   * The check one manifest gets in `validateManifests` once it is not
   * skipped: the pattern check, else the message check, else success.
   * Every failure report it makes names the manifest's position.
   */
  function CheckManifest(re: Engine, a: Validator, m: Manifest, idx: int, negative: bool): (r: Verdict)
    ensures Consistent(r)
    ensures a.IsEmpty() ==> r.passed
    ensures forall d :: d in r.lines && d.FailInfo? ==> d.manifestIndex == idx
    ensures forall d :: d in r.lines && d.ErrorInfo? ==> !re.compiles(a.errorPattern)
  {
    if a.errorPattern != "" then
      ValidateErrorPattern(re, a, m.raw, idx, -1, negative)
    else if a.errorMessage != "" then
      ValidateErrorMessage(a, m.raw, idx, -1, negative)
    else
      Pass
  }

  /**
   * The loop of `validateManifests` from position `idx` on, with `acc` the
   * success flag and diagnostics gathered so far. The empty validator in a
   * non-negated context skips every manifest; otherwise each manifest's
   * check is folded into `acc`, and fail-fast stops at the first failure.
   * A failure is never undone, and diagnostics are only ever appended.
   */
  function Fold(re: Engine, a: Validator, ms: seq<Manifest>, idx: nat,
                negative: bool, failFast: bool, acc: Verdict): (r: Verdict)
    requires idx <= |ms|
    ensures !acc.passed ==> !r.passed
    ensures acc.lines <= r.lines
    ensures Consistent(acc) ==> Consistent(r)
    decreases |ms| - idx
  {
    if idx == |ms| then
      acc
    else if a.IsEmpty() && !negative then
      Fold(re, a, ms, idx + 1, negative, failFast, acc)
    else
      var current := CheckManifest(re, a, ms[idx], idx, negative);
      var next := Verdict(DetermineSuccess(idx, acc.passed, current.passed), acc.lines + current.lines);
      if !next.passed && failFast then next
      else Fold(re, a, ms, idx + 1, negative, failFast, next)
  }

  /**
   * What `validateManifests` returns: the fold over all manifests, except
   * that an empty list in a non-negated context fails with the
   * "No failed document" report.
   */
  function ManifestsVerdict(re: Engine, a: Validator, ms: seq<Manifest>, negative: bool, failFast: bool): (r: Verdict)
    ensures Consistent(r)
    ensures ms == [] ==> r == if negative then Pass
                              else Verdict(false, FailInfo(a, Some(NoFailedDocument), -1, -1, false))
  {
    var folded := Fold(re, a, ms, 0, negative, failFast, Pass);
    if |ms| == 0 && !negative then
      Verdict(false, folded.lines + FailInfo(a, Some(NoFailedDocument), -1, -1, negative))
    else
      folded
  }

  /**
   * `validateManifests` as the Go code runs it: a loop over the manifests
   * that skips, appends each check's diagnostics, folds the success flag and
   * breaks on the first failure under fail-fast.
   */
  method ValidateManifests(re: Engine, a: Validator, manifests: seq<Manifest>, ctx: ValidateContext)
    returns (success: bool, errors: seq<Diagnostic>)
    ensures Verdict(success, errors) == ManifestsVerdict(re, a, manifests, ctx.negative, ctx.failFast)
  {
    success := true;
    errors := [];
    for idx := 0 to |manifests|
      invariant Fold(re, a, manifests, idx, ctx.negative, ctx.failFast, Verdict(success, errors))
                == Fold(re, a, manifests, 0, ctx.negative, ctx.failFast, Pass)
    {
      var current := false;
      var singleErrors: seq<Diagnostic> := [];
      var actual := manifests[idx].raw;

      if a.IsEmpty() && !ctx.negative {
        continue;
      }

      if a.errorPattern != "" {
        var check := ValidateErrorPattern(re, a, actual, idx, -1, ctx.negative);
        current, singleErrors := check.passed, check.lines;
      } else if a.errorMessage != "" {
        var check := ValidateErrorMessage(a, actual, idx, -1, ctx.negative);
        current, singleErrors := check.passed, check.lines;
      } else {
        current := true;
      }

      errors := errors + singleErrors;
      success := DetermineSuccess(idx, success, current);

      if !success && ctx.failFast {
        break;
      }
    }

    if |manifests| == 0 && !ctx.negative {
      success := false;
      errors := errors + FailInfo(a, Some(NoFailedDocument), -1, -1, ctx.negative);
    }
  }

  /**
   * `Validate`: a configuration error when both parameters are set, whatever
   * the context; with a render error, the pattern or message check of its
   * message (success when neither parameter is set); otherwise the verdict
   * over the manifests.
   */
  function Validate(re: Engine, a: Validator, ctx: ValidateContext): (r: Verdict)
    ensures a.Conflicting() ==> r == Verdict(false, [ErrorInfo(-1, -1, ConfigErrorMessage)])
    ensures !a.Conflicting() && ctx.renderError.Some? ==>
              r == if a.errorPattern != "" then ValidateErrorPattern(re, a, ctx.renderError, -1, -1, ctx.negative)
                   else if a.errorMessage != "" then ValidateErrorMessage(a, ctx.renderError, -1, -1, ctx.negative)
                   else Pass
    ensures !a.Conflicting() && ctx.renderError.None? ==>
              r == ManifestsVerdict(re, a, ctx.manifests, ctx.negative, ctx.failFast)
    ensures Consistent(r)
  {
    var manifests := ctx.manifests;
    if a.errorMessage != "" && a.errorPattern != "" then
      Verdict(false, [ErrorInfo(-1, -1, ConfigErrorMessage)])
    else if ctx.renderError.Some? then
      if a.errorPattern != "" then
        ValidateErrorPattern(re, a, Some(ctx.renderError.value), -1, -1, ctx.negative)
      else if a.errorMessage != "" then
        ValidateErrorMessage(a, Some(ctx.renderError.value), -1, -1, ctx.negative)
      else
        Pass
    else
      ManifestsVerdict(re, a, manifests, ctx.negative, ctx.failFast)
  }
}
