/** Types shared by every part of the firmware model. */
module Common {

  datatype Option<+T> = None | Some(value: T)

  /** An unsigned octet held as an integer. */
  type byte = x: int | 0 <= x < 256

  function Min(a: int, b: int): int {
    if a <= b then a else b
  }
}
