/** Optional values and outcomes, standing for the source's option and result types. */
module Wrappers {

  datatype Option<+T> = None | Some(value: T) {
    function OrElse(fallback: T): T {
      if Some? then value else fallback
    }
  }

  datatype Result<+T, +E> = Ok(value: T) | Err(error: E)

  /** 2^64, the number of values of an unsigned 64-bit integer. */
  const U64 := 0x1_0000_0000_0000_0000

  /** 2^32. */
  const U32 := 0x1_0000_0000
}
