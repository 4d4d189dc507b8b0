/** Bytes as the C code sees them (u_char), and the ones the configuration grammar cares about. */
module Bytes {
  newtype byte = b: int | 0 <= b < 256

  type Bytes = seq<byte>

  const NUL: byte := 0
  const TAB: byte := 9
  const LF: byte := 10
  const CR: byte := 13
  const SPACE: byte := 32
  const DQUOTE: byte := 34
  const HASH: byte := 35
  const DOLLAR: byte := 36
  const SQUOTE: byte := 39
  const RPAREN: byte := 41
  const SEMI: byte := 59
  const BACKSLASH: byte := 92
  const LOWER_N: byte := 110
  const LOWER_R: byte := 114
  const LOWER_T: byte := 116
  const LBRACE: byte := 123
  const RBRACE: byte := 125

  predicate IsSpace(ch: byte) {
    ch == SPACE || ch == TAB || ch == CR || ch == LF
  }

  datatype Option<+T> = None | Some(value: T)
}
