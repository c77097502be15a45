# helm-unittest: the `failedTemplate` assertion

This project models the "failing-template" assertion of helm-unittest
(`FailedTemplateValidator` in `pkg/unittest/validators/failed_template_validator.go`)
and proves what it decides. The assertion has two optional parameters. `errorMessage`
is an exact message and `errorPattern` is a regular expression; the empty string
means "not set". It is evaluated in a validation context, which holds:

- the rendered manifests;
- the negation flag;
- the fail-fast flag;
- the render error, if rendering failed.

The assertion returns a pass/fail verdict and a list of diagnostics.

Files:

- `wrappers.dfy`: `Option`, standing in for Go's nil.
- `regexp.dfy`: the regular-expression engine, taken as a value (`Engine`).
  It is not implemented. Every result holds for any engine.
- `validator_common.dfy`: the manifest (only its `RAW` field), the context,
  the diagnostic kinds, the verdict, and `determineSuccess`.
- `failed_template_validator.dfy`: the validator's own functions. The loop of
  `validateManifests` appears twice. `Fold` is the specification, a recursive fold.
  `ValidateManifests` is the imperative loop with `continue` and `break`, proved
  equal to it.
- `failed_template_properties.dfy`: what the assertion promises over a whole
  manifest list, stated against reference definitions that look at one manifest
  at a time. `Contribution` is one manifest's verdict. `AllPass` says every
  manifest in a range passes. `Lines` gathers the diagnostics of a range in order.

Notes on the Go code that the model follows:

- Go's `MatchString` (line 99) is an unanchored search for the pattern anywhere in
  the text. `Engine.matchString` stands for that search and is otherwise left
  unconstrained.
- A pattern-only assertion requires every examined manifest's check to pass. So
  without negation every manifest must match, and with negation none may
  (`PatternOnlyVerdict`).
- `manifestIndex` is the 0-based `idx` of the `range` loop (line 54). How
  `splitInfof` prints it is not shown.

## Model

| member | source | states |
|---|---|---|
| `FailedTemplate.FailInfo` | pkg/unittest/validators/failed_template_validator.go:20-47 | one report for the given position; verb " to match" iff a pattern is set, else " to equal"; expected text is the message if set, else the pattern; the actual value is printed iff not negated |
| `FailedTemplate.ValidateErrorPattern` | pkg/unittest/validators/failed_template_validator.go:92-105 | an uncompilable pattern fails with the single compile-error line, whatever the actual value and negation; otherwise passes iff (actual present and pattern found in it) differs from negation; a failure carries the fail report; passing means no diagnostics |
| `FailedTemplate.ValidateErrorMessage` | pkg/unittest/validators/failed_template_validator.go:107-114 | passes iff (actual present and equal to the message) differs from negation; a failure carries the fail report; passing means no diagnostics |
| `FailedTemplate.CheckManifest` | pkg/unittest/validators/failed_template_validator.go:66-73 | a manifest's check passes exactly when it reports nothing; the empty validator always passes; every fail report names the manifest's position; a compile-error line only comes from a pattern that does not compile |
| `FailedTemplate.Fold` | pkg/unittest/validators/failed_template_validator.go:50-81 | a failure already folded in is never undone; earlier diagnostics stay a prefix of the result; "passes iff no diagnostics" is preserved |
| `FailedTemplate.ManifestsVerdict` | pkg/unittest/validators/failed_template_validator.go:83-89 | an empty manifest list fails with exactly the "No failed document" report when not negated, and passes with no diagnostics when negated; passes iff no diagnostics |
| `FailedTemplate.ValidateManifests` | pkg/unittest/validators/failed_template_validator.go:49-90 | the loop with skip, append, success fold and fail-fast break returns exactly the `ManifestsVerdict` of its inputs |
| `FailedTemplate.Validate` | pkg/unittest/validators/failed_template_validator.go:117-145 | both parameters set: false with only the configuration-error line, whatever the context; with a render error, the pattern or message check of its message at index -1, or a pass with no diagnostics when neither is set; otherwise the manifest verdict; passes iff no diagnostics |
| `FailedTemplateProperties.FoldPassed` | pkg/unittest/validators/failed_template_validator.go:50-81 | with or without fail-fast, the fold passes iff its starting flag is true and every remaining manifest passes its own check |
| `FailedTemplateProperties.FoldExaminesAll` | pkg/unittest/validators/failed_template_validator.go:54-76 | when nothing stops it early, the fold examines every remaining manifest and appends their diagnostics in order |
| `FailedTemplateProperties.FoldStopsAtFirstFailure` | pkg/unittest/validators/failed_template_validator.go:75-80 | under fail-fast the fold fails at the first failing manifest and holds only the diagnostics of manifests up to and including it |
| `FailedTemplateProperties.FoldIndexed` | pkg/unittest/validators/failed_template_validator.go:54-70 | every fail report the fold adds names the position of a manifest from `idx` on whose own check failed |
| `FailedTemplateProperties.AnyManifestFailureFails` | pkg/unittest/validators/failed_template_validator.go:75-76 | if any manifest's own check fails, the assertion fails (monotone failure) |
| `FailedTemplateProperties.ValidatePassesIffAllPass` | pkg/unittest/validators/failed_template_validator.go:50-81 | over a non-empty list the assertion passes iff every manifest passes its own check, with or without fail-fast |
| `FailedTemplateProperties.EmptyValidatorPassesPopulated` | pkg/unittest/validators/failed_template_validator.go:60-73 | the empty validator passes with no diagnostics over any non-empty list, negated or not |
| `FailedTemplateProperties.ValidateWithoutFailFast` | pkg/unittest/validators/failed_template_validator.go:54-81 | without fail-fast every manifest is examined; the verdict is "all pass" and the diagnostics are every manifest's, in order |
| `FailedTemplateProperties.ValidateStopsAtFirstFailure` | pkg/unittest/validators/failed_template_validator.go:78-80 | with fail-fast the assertion fails with the diagnostics of manifests 0..k only, k being the first failing one |
| `FailedTemplateProperties.FailFastIgnoresLaterManifests` | pkg/unittest/validators/failed_template_validator.go:78-80 | with fail-fast, replacing every manifest after the first failing one leaves the verdict and diagnostics unchanged |
| `FailedTemplateProperties.DiagnosticsNameTheirManifest` | pkg/unittest/validators/failed_template_validator.go:54-70 | over a non-empty list, every fail report names the 0-based position of a manifest in the list whose own check failed |
| `FailedTemplateProperties.PatternOnlyVerdict` | pkg/unittest/validators/failed_template_validator.go:99-104 | with only a compilable pattern, the assertion passes iff for every manifest (RAW present and pattern found) differs from negation |
| `FailedTemplateProperties.MessageOnlyVerdict` | pkg/unittest/validators/failed_template_validator.go:108-113 | with only a message, the assertion passes iff for every manifest (RAW equals the message) differs from negation |
| `FailedTemplateProperties.LinesAreCompileErrors` | pkg/unittest/validators/failed_template_validator.go:92-97 | with an uncompilable pattern, each manifest in a range contributes exactly one line, the compile-error line |
| `FailedTemplateProperties.InvalidPatternFails` | pkg/unittest/validators/failed_template_validator.go:92-97 | an uncompilable pattern fails in every context except one: no render error, no manifest and negation, where it is never compiled; whenever it is compiled, the diagnostics are only the compile-error line, once for a render error, once under fail-fast, once per manifest otherwise |

## Left out

- `cmd/helm-unittest/helm_unittest.go` is not part of this model. It covers flag binding, logging setup, printers and the process exit code.
- Regular expressions: `regexp.Compile` and `MatchString` belong to a foreign library. They are the parameter `Engine`, and every result holds for any engine.
- The debug output (`fmt.Println` and `log.Debugln`) is not modelled, because it does not affect the verdict.
- The text of the diagnostics is not modelled. `splitInfof`, `setFailFormat` and `errorFormat` are not part of this model. Each diagnostic is a value recording which report it is (compile or configuration error, fail report), with its indices, expected text, verb, negation and printed actual value. A single value stands for everything one `splitInfof` call produces, which may be several lines.
- `getManifests` is not part of this model. The `manifests` field of the context is taken to be its result.
- `DetermineSuccess` stands for the `determineSuccess` helper, whose body is not shown. It is taken to be conjunction with the running success flag.
- Go panics when `RAW` holds a value that is not a string. The model types `RAW` as an optional string, so that panic cannot occur in it.
- The context is passed by pointer in Go. Here it is a value, because the validator never writes to it.
- The strict flag is not modelled, and neither are other assertion kinds, snapshots, job and suite aggregation, or output formatters. They are outside this file.
