/** Machine integer widths and pointer targets shared by the C boundary of the hooks. */
module Ffi {

  /** A C `int32_t` / Rust `i32`. */
  newtype Int32 = x: int | -0x8000_0000 <= x < 0x8000_0000

  /** A C `int64_t` / Rust `i64` (also `time_t` on the target). */
  newtype Int64 = x: int | -0x8000_0000_0000_0000 <= x < 0x8000_0000_0000_0000

  /** A Rust `u64`, the width of the RTC's microsecond counter. */
  newtype Uint64 = x: int | 0 <= x < 0x1_0000_0000_0000_0000

  datatype Option<+T> = None | Some(value: T)

  /** The object a non-null C pointer points at; a nullable `Ref?<T>` is the raw pointer itself. */
  class Ref<T> {
    var val: T

    constructor (v: T)
      ensures val == v
    {
      val := v;
    }
  }
}
