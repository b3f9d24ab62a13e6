/** Character classes shared by the date grammar, the `Cache-Control`
    scanner and the case conversions. */
module Chars {

  /** An ASCII decimal digit (`\d`, and the digits `parseInt` accepts). */
  predicate IsDigit(c: char) {
    '0' <= c <= '9'
  }

  predicate AllDigits(s: string) {
    forall i | 0 <= i < |s| :: IsDigit(s[i])
  }
}
