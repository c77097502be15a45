/**
 * What the "failedTemplate" assertion promises over a whole manifest list,
 * stated against reference definitions that look at each manifest on its
 * own: which check it gets, whether that check passes, and which
 * diagnostics it adds.
 */
module FailedTemplateProperties {
  import opened Wrappers
  import opened Regexp
  import opened ValidatorCommon
  import opened FailedTemplate

  /** The loop skips every manifest: empty validator, context not negated. */
  predicate Skips(a: Validator, negative: bool) {
    a.IsEmpty() && !negative
  }

  /** What the manifest at position `i` contributes, looked at on its own. */
  function Contribution(re: Engine, a: Validator, ms: seq<Manifest>, negative: bool, i: nat): (r: Verdict)
    requires i < |ms|
  {
    if Skips(a, negative) then Pass else CheckManifest(re, a, ms[i], i, negative)
  }

  /** Every manifest at a position in [from, to) passes its check. */
  predicate AllPass(re: Engine, a: Validator, ms: seq<Manifest>, negative: bool, from: nat, to: nat)
    requires from <= to <= |ms|
  {
    forall i :: from <= i < to ==> Contribution(re, a, ms, negative, i).passed
  }

  /** The diagnostics of the manifests at positions [from, to), in order. */
  function Lines(re: Engine, a: Validator, ms: seq<Manifest>, negative: bool, from: nat, to: nat): (r: seq<Diagnostic>)
    requires from <= to <= |ms|
    decreases |ms| - from
  {
    if from == to then [] else Contribution(re, a, ms, negative, from).lines + Lines(re, a, ms, negative, from + 1, to)
  }

  /** The context of a validation without a render error. */
  function Rendered(ms: seq<Manifest>, negative: bool, failFast: bool): (r: ValidateContext) {
    ValidateContext(ms, negative, failFast, None)
  }

  // ---------------------------------------------------------------------------
  // The fold, against the reference definitions
  // ---------------------------------------------------------------------------

  /** Whatever fail-fast says, the fold passes iff it started passing and every remaining manifest passes. */
  lemma {:induction false} FoldPassed(re: Engine, a: Validator, ms: seq<Manifest>, idx: nat,
                                      negative: bool, failFast: bool, acc: Verdict)
    requires idx <= |ms|
    ensures Fold(re, a, ms, idx, negative, failFast, acc).passed
            <==> acc.passed && AllPass(re, a, ms, negative, idx, |ms|)
    decreases |ms| - idx
  {
    if idx < |ms| {
      var current := Contribution(re, a, ms, negative, idx);
      var next := Verdict(acc.passed && current.passed, acc.lines + current.lines);
      if Skips(a, negative) {
        FoldPassed(re, a, ms, idx + 1, negative, failFast, acc);
      } else if !next.passed && failFast {
        assert !acc.passed || !Contribution(re, a, ms, negative, idx).passed;
      } else {
        FoldPassed(re, a, ms, idx + 1, negative, failFast, next);
      }
    }
  }

  /**
   * When nothing makes the fold stop early (no fail-fast, or every check from
   * here on passes), every remaining manifest is examined and adds its
   * diagnostics in order.
   */
  lemma {:induction false} FoldExaminesAll(re: Engine, a: Validator, ms: seq<Manifest>, idx: nat,
                                           negative: bool, failFast: bool, acc: Verdict)
    requires idx <= |ms|
    requires failFast ==> acc.passed && AllPass(re, a, ms, negative, idx, |ms|)
    ensures Fold(re, a, ms, idx, negative, failFast, acc)
            == Verdict(acc.passed && AllPass(re, a, ms, negative, idx, |ms|),
                       acc.lines + Lines(re, a, ms, negative, idx, |ms|))
    decreases |ms| - idx
  {
    if idx < |ms| {
      var current := Contribution(re, a, ms, negative, idx);
      var next := Verdict(acc.passed && current.passed, acc.lines + current.lines);
      var rest := Lines(re, a, ms, negative, idx + 1, |ms|);
      assert acc.lines + current.lines + rest == acc.lines + (current.lines + rest);
      if Skips(a, negative) {
        FoldExaminesAll(re, a, ms, idx + 1, negative, failFast, acc);
      } else {
        FoldExaminesAll(re, a, ms, idx + 1, negative, failFast, next);
      }
    }
  }

  /**
   * Under fail-fast the fold stops at the first failing manifest `k`: the
   * result fails, and its diagnostics come from positions up to and
   * including `k` only.
   */
  lemma {:induction false} FoldStopsAtFirstFailure(re: Engine, a: Validator, ms: seq<Manifest>, idx: nat,
                                                   negative: bool, acc: Verdict, k: nat)
    requires idx <= k < |ms|
    requires acc.passed
    requires AllPass(re, a, ms, negative, idx, k)
    requires !Contribution(re, a, ms, negative, k).passed
    ensures Fold(re, a, ms, idx, negative, true, acc)
            == Verdict(false, acc.lines + Lines(re, a, ms, negative, idx, k + 1))
    decreases |ms| - idx
  {
    var current := Contribution(re, a, ms, negative, idx);
    var next := Verdict(acc.passed && current.passed, acc.lines + current.lines);
    var rest := Lines(re, a, ms, negative, idx + 1, k + 1);
    assert acc.lines + current.lines + rest == acc.lines + (current.lines + rest);
    if idx == k {
      assert rest == [];
    } else {
      FoldStopsAtFirstFailure(re, a, ms, idx + 1, negative, next, k);
    }
  }

  /** Every failure report the fold adds names a manifest from `idx` on whose own check failed. */
  lemma {:induction false} FoldIndexed(re: Engine, a: Validator, ms: seq<Manifest>, idx: nat,
                                       negative: bool, failFast: bool, acc: Verdict)
    requires idx <= |ms|
    ensures forall d :: d in Fold(re, a, ms, idx, negative, failFast, acc).lines && d !in acc.lines && d.FailInfo?
                        ==> idx <= d.manifestIndex < |ms| && !Contribution(re, a, ms, negative, d.manifestIndex).passed
    decreases |ms| - idx
  {
    if idx < |ms| {
      var current := CheckManifest(re, a, ms[idx], idx, negative);
      var next := Verdict(acc.passed && current.passed, acc.lines + current.lines);
      if Skips(a, negative) {
        FoldIndexed(re, a, ms, idx + 1, negative, failFast, acc);
      } else if !(!next.passed && failFast) {
        FoldIndexed(re, a, ms, idx + 1, negative, failFast, next);
      }
    }
  }

  /** The diagnostics of positions [from, to) depend on the manifests before `to` only. */
  lemma {:induction false} LinesOfPrefix(re: Engine, a: Validator, ms: seq<Manifest>, rest: seq<Manifest>,
                                         negative: bool, from: nat, to: nat)
    requires from <= to <= |ms|
    ensures Lines(re, a, ms[..to] + rest, negative, from, to) == Lines(re, a, ms, negative, from, to)
    decreases |ms| - from
  {
    if from < to {
      assert (ms[..to] + rest)[from] == ms[from];
      LinesOfPrefix(re, a, ms, rest, negative, from + 1, to);
    }
  }

  // ---------------------------------------------------------------------------
  // Validate over a manifest list (no render error)
  // ---------------------------------------------------------------------------

  /**
   * Failure is monotone: if any manifest's own check fails, the assertion
   * fails, whatever the negation and fail-fast.
   */
  lemma AnyManifestFailureFails(re: Engine, a: Validator, ms: seq<Manifest>, negative: bool, failFast: bool, i: nat)
    requires !a.Conflicting()
    requires i < |ms|
    requires !Contribution(re, a, ms, negative, i).passed
    ensures !Validate(re, a, Rendered(ms, negative, failFast)).passed
  {
    FoldPassed(re, a, ms, 0, negative, failFast, Pass);
  }

  /**
   * Over a non-empty manifest list the assertion passes exactly when every
   * manifest passes its own check.
   */
  lemma ValidatePassesIffAllPass(re: Engine, a: Validator, ms: seq<Manifest>, negative: bool, failFast: bool)
    requires !a.Conflicting()
    requires |ms| > 0
    ensures Validate(re, a, Rendered(ms, negative, failFast)).passed <==> AllPass(re, a, ms, negative, 0, |ms|)
  {
    FoldPassed(re, a, ms, 0, negative, failFast, Pass);
  }

  /**
   * The empty validator passes over any non-empty manifest list with no
   * diagnostic: it skips every manifest when not negated, and counts each as
   * a success when negated.
   */
  lemma EmptyValidatorPassesPopulated(re: Engine, a: Validator, ms: seq<Manifest>, negative: bool, failFast: bool)
    requires a.IsEmpty()
    requires |ms| > 0
    ensures Validate(re, a, Rendered(ms, negative, failFast)) == Pass
  {
    assert AllPass(re, a, ms, negative, 0, |ms|);
    FoldPassed(re, a, ms, 0, negative, failFast, Pass);
  }

  /**
   * Without fail-fast every manifest is examined: the assertion passes iff
   * all of them pass, and its diagnostics are theirs, in manifest order.
   */
  lemma ValidateWithoutFailFast(re: Engine, a: Validator, ms: seq<Manifest>, negative: bool)
    requires !a.Conflicting()
    requires |ms| > 0
    ensures Validate(re, a, Rendered(ms, negative, false))
            == Verdict(AllPass(re, a, ms, negative, 0, |ms|), Lines(re, a, ms, negative, 0, |ms|))
  {
    FoldExaminesAll(re, a, ms, 0, negative, false, Pass);
  }

  /**
   * With fail-fast, the assertion fails at the first failing manifest `k`
   * and reports the diagnostics of manifests 0..k only.
   */
  lemma ValidateStopsAtFirstFailure(re: Engine, a: Validator, ms: seq<Manifest>, negative: bool, k: nat)
    requires !a.Conflicting()
    requires k < |ms|
    requires AllPass(re, a, ms, negative, 0, k)
    requires !Contribution(re, a, ms, negative, k).passed
    ensures Validate(re, a, Rendered(ms, negative, true)) == Verdict(false, Lines(re, a, ms, negative, 0, k + 1))
  {
    FoldStopsAtFirstFailure(re, a, ms, 0, negative, Pass, k);
  }

  /**
   * With fail-fast, no manifest after the first failing one is examined:
   * replacing everything after it changes nothing.
   */
  lemma FailFastIgnoresLaterManifests(re: Engine, a: Validator, ms: seq<Manifest>, rest: seq<Manifest>,
                                      negative: bool, k: nat)
    requires !a.Conflicting()
    requires k < |ms|
    requires AllPass(re, a, ms, negative, 0, k)
    requires !Contribution(re, a, ms, negative, k).passed
    ensures Validate(re, a, Rendered(ms[..k + 1] + rest, negative, true)) == Validate(re, a, Rendered(ms, negative, true))
  {
    var ms' := ms[..k + 1] + rest;
    forall i | 0 <= i <= k
      ensures Contribution(re, a, ms', negative, i) == Contribution(re, a, ms, negative, i)
    {
      assert ms'[i] == ms[i];
    }
    ValidateStopsAtFirstFailure(re, a, ms, negative, k);
    ValidateStopsAtFirstFailure(re, a, ms', negative, k);
    LinesOfPrefix(re, a, ms, rest, negative, 0, k + 1);
  }

  /**
   * Over a non-empty manifest list, every failure report names the 0-based
   * position of a manifest in the list whose own check failed.
   */
  lemma DiagnosticsNameTheirManifest(re: Engine, a: Validator, ms: seq<Manifest>, negative: bool, failFast: bool)
    requires !a.Conflicting()
    requires |ms| > 0
    ensures forall d :: d in Validate(re, a, Rendered(ms, negative, failFast)).lines && d.FailInfo?
                        ==> 0 <= d.manifestIndex < |ms| && !Contribution(re, a, ms, negative, d.manifestIndex).passed
  {
    FoldIndexed(re, a, ms, 0, negative, failFast, Pass);
  }

  /**
   * With only a pattern that compiles, the assertion passes exactly when, for
   * every manifest, "RAW is there and the pattern is found in it" differs
   * from the negation.
   */
  lemma PatternOnlyVerdict(re: Engine, a: Validator, ms: seq<Manifest>, negative: bool, failFast: bool)
    requires a.errorMessage == "" && a.errorPattern != "" && re.compiles(a.errorPattern)
    requires |ms| > 0
    ensures Validate(re, a, Rendered(ms, negative, failFast)).passed
            <==> forall i :: 0 <= i < |ms| ==>
                   (ms[i].raw.Some? && re.matchString(a.errorPattern, ms[i].raw.value)) != negative
  {
    ValidatePassesIffAllPass(re, a, ms, negative, failFast);
    assert forall i :: 0 <= i < |ms| ==>
      Contribution(re, a, ms, negative, i) == ValidateErrorPattern(re, a, ms[i].raw, i, -1, negative);
  }

  /**
   * With only a message, the assertion passes exactly when, for every
   * manifest, "RAW equals the message" differs from the negation.
   */
  lemma MessageOnlyVerdict(re: Engine, a: Validator, ms: seq<Manifest>, negative: bool, failFast: bool)
    requires a.errorMessage != "" && a.errorPattern == ""
    requires |ms| > 0
    ensures Validate(re, a, Rendered(ms, negative, failFast)).passed
            <==> forall i :: 0 <= i < |ms| ==> (ms[i].raw == Some(a.errorMessage)) != negative
  {
    ValidatePassesIffAllPass(re, a, ms, negative, failFast);
    assert forall i :: 0 <= i < |ms| ==>
      Contribution(re, a, ms, negative, i) == ValidateErrorMessage(a, ms[i].raw, i, -1, negative);
  }

  /** With a pattern that does not compile, every manifest reports the compiler's message and nothing else. */
  lemma {:induction false} LinesAreCompileErrors(re: Engine, a: Validator, ms: seq<Manifest>, negative: bool,
                                                 from: nat, to: nat)
    requires a.errorPattern != "" && !re.compiles(a.errorPattern)
    requires from <= to <= |ms|
    ensures Lines(re, a, ms, negative, from, to) == seq(to - from, _ => ErrorInfo(-1, -1, re.compileError(a.errorPattern)))
    decreases |ms| - from
  {
    if from < to {
      LinesAreCompileErrors(re, a, ms, negative, from + 1, to);
    }
  }

  /**
   * A pattern that does not compile makes the assertion fail in every
   * context but one: no render error, no manifest, negated, where the
   * pattern is never compiled. Whenever it is compiled, the only
   * diagnostics are the compiler's message: once for a render error, once
   * per manifest without fail-fast, and once in all under fail-fast.
   */
  lemma InvalidPatternFails(re: Engine, a: Validator, ctx: ValidateContext)
    requires a.errorMessage == "" && a.errorPattern != "" && !re.compiles(a.errorPattern)
    ensures Validate(re, a, ctx).passed <==> ctx.renderError.None? && ctx.manifests == [] && ctx.negative
    ensures ctx.renderError.Some? || |ctx.manifests| > 0 ==>
              Validate(re, a, ctx).lines
              == seq(if ctx.renderError.Some? || ctx.failFast then 1 else |ctx.manifests|,
                     _ => ErrorInfo(-1, -1, re.compileError(a.errorPattern)))
  {
    var ms := ctx.manifests;
    if ctx.renderError.None? && |ms| > 0 {
      AnyManifestFailureFails(re, a, ms, ctx.negative, ctx.failFast, 0);
      if ctx.failFast {
        ValidateStopsAtFirstFailure(re, a, ms, ctx.negative, 0);
        LinesAreCompileErrors(re, a, ms, ctx.negative, 0, 1);
      } else {
        ValidateWithoutFailFast(re, a, ms, ctx.negative);
        LinesAreCompileErrors(re, a, ms, ctx.negative, 0, |ms|);
      }
    }
  }
}
