/** Values shared by every part of the model: bytes and optional values. */
module Bytes {
  /** An octet, as in Rust's `u8`. */
  type byte = b: int | 0 <= b < 0x100
}

module Options {
  /** `None` stands for an absent value; where the source calls `unwrap()` on it,
      `None` is the panic. */
  datatype Option<+T> = None | Some(value: T)
}
