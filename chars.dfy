/** Character classes shared by the pattern matcher and the integer parser. */
module Chars {
  /** RE2's `\d` and the digits `strconv` reads: ASCII digits only. */
  predicate IsDigit(c: char) {
    '0' <= c <= '9'
  }

  predicate AllDigits(t: string) {
    forall i :: 0 <= i < |t| ==> IsDigit(t[i])
  }

  predicate NoDigit(t: string) {
    forall i :: 0 <= i < |t| ==> !IsDigit(t[i])
  }
}
