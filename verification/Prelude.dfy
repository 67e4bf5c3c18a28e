/** Small shared vocabulary: optional values, results, and number parsing. */
module Prelude {

  datatype Option<+T> = None | Some(value: T)

  datatype Result<+T, +E> = Ok(value: T) | Err(error: E)

  /** A line of text that is compared and passed on, but never looked into. */
  datatype TextLine = TextLine(chars: string)

  predicate IsDigit(c: char) {
    '0' <= c <= '9'
  }

  /** The decimal value of a string of ASCII digits; the empty string counts as 0. */
  function DigitsValue(s: string): Option<nat> {
    if s == [] then
      Some(0)
    else
      var init := DigitsValue(s[..|s| - 1]);
      var last := s[|s| - 1];
      if init.Some? && IsDigit(last)
      then Some(10 * init.value + (last as int - '0' as int))
      else None
  }

  const U64_MAX: nat := 0xFFFF_FFFF_FFFF_FFFF

  /** Rust's `str::parse` at an unsigned 64-bit type: one optional '+', then one
      or more ASCII digits whose value fits. */
  function ParseU64(s: string): Option<nat> {
    var digits := if s != [] && s[0] == '+' then s[1..] else s;
    if digits == [] then
      None
    else
      var n := DigitsValue(digits);
      if n.Some? && n.value <= U64_MAX then n else None
  }
}
