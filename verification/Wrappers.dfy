/** Optional values, bytes and saturating subtraction. */
module Wrappers {
  datatype Option<+T> = None | Some(value: T)

  type byte = x: int | 0 <= x < 256
  type bytes = seq<byte>

  function SaturatingSub(a: nat, b: nat): nat {
    if a < b then 0 else a - b
  }
}

/** What an operation that can fail returns. */
module Results {
  datatype Result<+T, +E> = Ok(value: T) | Err(error: E)
}
