/**
 * Go's `strconv.Atoi` on the inputs a decimal string can be: an optional
 * sign followed by ASCII digits. Integers are unbounded here; see README for
 * the 64-bit range check that is not modelled.
 */
module Strconv {
  import opened Chars

  /** The `(int, error)` pair `Atoi` returns; `syntaxError` stands for a `*NumError` of kind `ErrSyntax`. */
  datatype AtoiResult = AtoiResult(value: int, syntaxError: bool)

  function Pow10(k: nat): (r: nat)
    ensures r >= 1
  {
    if k == 0 then 1 else 10 * Pow10(k - 1)
  }

  /** Value of an ASCII digit. */
  function DigitValue(c: char): (d: nat)
    requires IsDigit(c)
    ensures d <= 9
  {
    (c as int) - ('0' as int)
  }

  /** Value of a string of digits read in base 10, most significant first. */
  function DecimalValue(t: string): nat
    requires AllDigits(t)
  {
    if t == [] then 0 else 10 * DecimalValue(t[..|t| - 1]) + DigitValue(t[|t| - 1])
  }

  /** A decimal of at most `k` digits is below 10^k. */
  lemma {:induction false} DecimalValueBound(t: string, k: nat)
    requires AllDigits(t) && |t| <= k
    ensures DecimalValue(t) < Pow10(k)
  {
    if t != [] {
      DecimalValueBound(t[..|t| - 1], k - 1);
    }
  }

  /**
   * `strconv.Atoi`: an optional '+' or '-' followed by at least one digit.
   * Anything else is a syntax error, and then the value returned is 0.
   */
  function Atoi(s: string): (r: AtoiResult)
    ensures r.syntaxError ==> r.value == 0
    ensures s == "" || s == "+" || s == "-" ==> r.syntaxError
    ensures s != "" && AllDigits(s) ==> !r.syntaxError && r.value == DecimalValue(s)
    ensures s != "" && s[0] != '+' && s[0] != '-' && !AllDigits(s) ==> r.syntaxError
    ensures |s| >= 2 && s[0] == '+' ==>
      (r.syntaxError <==> !AllDigits(s[1..])) && (AllDigits(s[1..]) ==> r.value == DecimalValue(s[1..]))
    ensures |s| >= 2 && s[0] == '-' ==>
      (r.syntaxError <==> !AllDigits(s[1..])) && (AllDigits(s[1..]) ==> r.value == -(DecimalValue(s[1..]) as int))
  {
    if s == "" then AtoiResult(0, true)
    else if s[0] == '+' || s[0] == '-' then
      var body := s[1..];
      if body == "" || !AllDigits(body) then AtoiResult(0, true)
      else if s[0] == '-' then AtoiResult(-(DecimalValue(body) as int), false)
      else AtoiResult(DecimalValue(body), false)
    else if !AllDigits(s) then AtoiResult(0, true)
    else AtoiResult(DecimalValue(s), false)
  }

  /** `Atoi` of one to `k` digits never fails and stays below 10^k. */
  lemma AtoiDigits(s: string, k: nat)
    requires 1 <= |s| <= k && AllDigits(s)
    ensures !Atoi(s).syntaxError
    ensures 0 <= Atoi(s).value < Pow10(k)
  {
    DecimalValueBound(s, k);
  }
}
