/** Types shared by every module of the door-alarm model. */
module Base {

  datatype Option<+T> = None | Some(value: T)

  /** One character of a C string, terminator excluded.  Plain `char` is signed on some of the
      supported boards and unsigned on others; both ranges are admitted. */
  type CChar = c: int | -128 <= c < 256 && c != 0 witness 1

  /** A node name, as `strcmp` sees it: the characters before the terminator. */
  type Name = seq<CChar>

  /** A UDP endpoint, opaque to the gateway logic. */
  type Remote = int

  function Min(a: int, b: int): int {
    if a < b then a else b
  }
}
