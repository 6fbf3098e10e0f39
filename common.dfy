/** Fixed-width integer ranges and the small result types shared by the model. */
module Common {

  const UINT32_MAX: int := 0xFFFF_FFFF
  const UINT64_MAX: int := 0xFFFF_FFFF_FFFF_FFFF
  /** 2^64: the modulus of `size_t` and `uint64_t` arithmetic. */
  const TWO_64: int := 0x1_0000_0000_0000_0000

  type byte = x: int | 0 <= x < 256
  type u32 = x: int | 0 <= x <= 0xFFFF_FFFF
  type u64 = x: int | 0 <= x <= 0xFFFF_FFFF_FFFF_FFFF
  /** A C++ `int` as returned by `json_object_get_int`. */
  type int32 = x: int | -0x8000_0000 <= x < 0x8000_0000

  datatype Option<T> = None | Some(value: T)

  /** The outcome of a `void` C++ member that may throw. */
  datatype Outcome<E> = Pass | Fail(error: E)

  /** The outcome of a value-returning C++ member that may throw. */
  datatype Result<T, E> = Ok(value: T) | Err(error: E)

  function Min(a: int, b: int): int {
    if a <= b then a else b
  }
}
