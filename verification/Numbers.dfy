/** Bytes, decimal digits and the lesser of two numbers, which several modules share. */
module Numbers {

  type Byte = b: int | 0 <= b < 256

  function Min(a: int, b: int): int {
    if a < b then a else b
  }

  function Digit(n: nat): char
    requires n < 10
  {
    ('0' as int + n) as char
  }

  /** The number that decimal digits denote. */
  function ValueOf(digits: string): int {
    if digits == [] then 0
    else ValueOf(digits[..|digits| - 1]) * 10 + (digits[|digits| - 1] as int - '0' as int)
  }
}
