/** Types shared by the modules of the model. */
module Common {
  /** An unsigned byte (`unsigned char` / `uint8_t`). */
  type Byte = bv8

  /** The nullable result of a lookup or a pointer-returning call. */
  datatype Option<T> = None | Some(value: T)
}
