/** What several modules share. */
module Common {
  datatype Option<+T> = None | Some(value: T)

  /** 2^61 and 2^64. */
  const U61: nat := 0x2000_0000_0000_0000
  const U64: nat := 0x1_0000_0000_0000_0000
}
