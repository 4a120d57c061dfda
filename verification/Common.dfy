/** The optional value and the machine integer limits that several modules share. */
module Common {

  datatype Option<+T> = None | Some(value: T)

  const U32_LIMIT := 0x1_0000_0000
  const U64_LIMIT := 0x1_0000_0000_0000_0000

  predicate FitsI64(n: int) {
    -0x8000_0000_0000_0000 <= n < 0x8000_0000_0000_0000
  }
}
