/** Types that several components share. */
module Common {

  datatype Option<+T> = None | Some(value: T)

  type byte = x: nat | x < 256

  type uint32 = x: int | 0 <= x < 0x1_0000_0000

  type uint64 = x: int | 0 <= x < 0x1_0000_0000_0000_0000
}
