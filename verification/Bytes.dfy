/** The bytes that requests and queries are made of, and the hexadecimal digits. */
module Bytes {

  type Byte = b: int | 0 <= b < 256

  const LOWER_DIGITS := "0123456789abcdef"
  const UPPER_DIGITS := "0123456789ABCDEF"

  // `c` is the hexadecimal digit for `v`, in either case.
  predicate IsDigitFor(c: char, v: nat) {
    v < 16 && (c == LOWER_DIGITS[v] || c == UPPER_DIGITS[v])
  }
}
