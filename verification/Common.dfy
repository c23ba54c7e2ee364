/** Small vocabulary shared by every module: optional values, bytes and time. */
module Common {

  datatype Option<+T> = None | Some(value: T)

  /** An octet of a file, a digest or a response body. */
  type Byte = b: int | 0 <= b < 256

  /** Instants, durations and file times are counted in nanoseconds. */
  const SECOND: nat := 1_000_000_000

  function Min(a: nat, b: nat): nat {
    if a <= b then a else b
  }

}
