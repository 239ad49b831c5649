/** Bytes, byte strings and the two result wrappers used by every other module. */
module Bytes {

  type Byte = b: int | 0 <= b < 256

  /** An ngx_str_t: the bytes `data[0..len]`, without the terminating NUL. */
  type Str = seq<Byte>

  const NUL: Byte := 0
  const HT: Byte := 9
  const LF: Byte := 10
  const CR: Byte := 13
  const SPACE: Byte := 32
  const DQUOTE: Byte := 34
  const SHARP: Byte := 35
  const DOLLAR: Byte := 36
  const SQUOTE: Byte := 39
  const RPAREN: Byte := 41
  const STAR: Byte := 42
  const SLASH: Byte := 47
  const COLON: Byte := 58
  const SEMICOLON: Byte := 59
  const EQUALS: Byte := 61
  const QUESTION: Byte := 63
  const AT: Byte := 64
  const BACKSLASH: Byte := 92
  const CARET: Byte := 94
  const LOWER_N: Byte := 110
  const LOWER_R: Byte := 114
  const LOWER_T: Byte := 116
  const LBRACE: Byte := 123
  const RBRACE: Byte := 125
  const TILDE: Byte := 126

  datatype Option<+T> = None | Some(value: T)

  /** Names come out of the configuration tokenizer NUL-terminated; the model asks that no NUL is inside. */
  predicate NulFree(s: Str) {
    NUL !in s
  }

  function Min(a: int, b: int): (m: int)
    ensures m <= a && m <= b && (m == a || m == b)
  {
    if a <= b then a else b
  }

  function Max(a: int, b: int): (m: int)
    ensures m >= a && m >= b && (m == a || m == b)
  {
    if a <= b then b else a
  }
}
