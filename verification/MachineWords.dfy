/** Machine numbers as integers in a range. */
module MachineWords {

  type Byte = b: int | 0 <= b < 256

  /** What an unsigned 64-bit word holds of a result. */
  function Uint64(x: nat): nat {
    x % 0x1_0000_0000_0000_0000
  }
}
