/** Shared vocabulary: optional values, fallible results and the fixed-width
    integers the Rust source uses. */
module Common {

  /** Rust's `Option<T>`. */
  datatype Option<+T> = None | Some(value: T)

  /** Rust's `Result<T, E>`: a fallible step's value or its error. */
  datatype Result<+T, +E> = Ok(value: T) | Err(error: E)

  const U64_MAX: int := 0xFFFF_FFFF_FFFF_FFFF

  /** Rust's `u64`. */
  type U64 = x: int | 0 <= x <= U64_MAX

  /** Rust's `u8`, the element type of a websocket binary payload. */
  type U8 = x: int | 0 <= x < 256

  /** `s` begins with `prefix` (Rust's `str::starts_with`). */
  predicate StartsWith(s: string, prefix: string) {
    |prefix| <= |s| && s[..|prefix|] == prefix
  }
}
