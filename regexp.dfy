/**
 * Go's regexp package is a foreign library. The model does not implement a
 * regular-expression engine; it takes one as a value, so that every property
 * below holds for whatever `regexp.Compile` and `MatchString` do.
 */
module Regexp {

  datatype Engine = Engine(
    /** `regexp.Compile(p)` returns no error. */
    compiles: string -> bool,
    /** `err.Error()` of the error `regexp.Compile(p)` returns otherwise. */
    compileError: string -> string,
    /**
     * `p.MatchString(s)` for a compiled `p`: an unanchored search for the
     * pattern anywhere in `s`, not a match of the whole of `s`.
     */
    matchString: (string, string) -> bool)
}
