/**
 * Regular expressions are not interpreted by the model. A pattern is kept as
 * its source text and flags, and whether it matches a given text is supplied
 * from outside as a `Matcher`: every operation that tests a pattern takes the
 * matcher as a parameter, so its properties hold for every regex semantics.
 * The application's patterns carry no `g` or `y` flag, so `RegExp.prototype.test`
 * on them keeps no state between calls and a matcher can be a pure function.
 */
module Patterns {

  /** A JavaScript regular-expression literal: `/source/` with or without the `i` flag. */
  datatype Pattern = Regex(source: string, ignoreCase: bool)

  /** `pattern.test(text)`. */
  type Matcher = (Pattern, string) -> bool
}
