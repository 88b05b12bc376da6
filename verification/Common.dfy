/** Small types shared by several components. */
module Common {
  datatype Option<+T> = None | Some(value: T)

  /** alt_u32: the 32-bit unsigned integers. */
  type U32 = x: int | 0 <= x < 0x1_0000_0000
}
