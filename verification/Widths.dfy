/** The sizes of the unsigned integer types whose wrap-around is modelled. */
module Widths {
  const TWO32: nat := 0x1_0000_0000
  const TWO64: nat := 0x1_0000_0000_0000_0000
}
