/** Fixed-width integers and the optional value used throughout the model. */
module Types {

  newtype u8 = x: int | 0 <= x < 0x100
  newtype u16 = x: int | 0 <= x < 0x1_0000
  newtype u32 = x: int | 0 <= x < 0x1_0000_0000
  newtype i32 = x: int | -0x8000_0000 <= x < 0x8000_0000

  /** Rust's `Option<T>`. */
  datatype Option<+T> = None | Some(value: T)
}
