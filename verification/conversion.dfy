/**
 * `std::stoi`, simplified to a decimal-digits parse: a conversion that would
 * throw `std::invalid_argument` or `std::out_of_range` is `None`.
 */
module Conversion {
  import opened Wrappers

  /** The largest value of a 32-bit C++ `int`. */
  const IntMax: int := 0x7fff_ffff

  predicate IsDigit(c: char) {
    '0' <= c <= '9'
  }

  predicate AllDigits(s: string) {
    forall i :: 0 <= i < |s| ==> IsDigit(s[i])
  }

  /** The value of a string of decimal digits, most significant first. */
  function DecimalValue(s: string): nat
    requires AllDigits(s)
  {
    if |s| == 0 then 0
    else DecimalValue(s[..|s| - 1]) * 10 + ((s[|s| - 1] as int) - ('0' as int))
  }

  /**
   * A non-empty run of digits whose value fits in an `int` converts to that
   * value; anything else fails.
   */
  function Stoi(s: string): (r: Option<int>)
    ensures r.Some? ==> 0 <= r.value <= IntMax
    ensures r.Some? ==> |s| > 0 && AllDigits(s)
    ensures |s| == 0 ==> r.None?
  {
    if |s| > 0 && AllDigits(s) && DecimalValue(s) <= IntMax then Some(DecimalValue(s))
    else None
  }
}
