/** Small shared definitions: an optional value and the byte type of Go's []byte. */
module Prelude {

  /** A value that may be absent; stands for Go's (value, err) pairs where the error carries no data we need. */
  datatype Option<+T> = None | Some(value: T)

  /** One element of a Go []byte. */
  type byte = b: int | 0 <= b < 0x100
}
