/** The bytes a buffer holds, and the constants of the editor's geometry. */
module Bytes {
  // A C++ char, read as an unsigned byte.
  newtype byte = x: int | 0 <= x < 256

  type Text = seq<byte>

  const NUL: byte := 0
  const TAB: byte := 9
  const NEWLINE: byte := 10
  const RETURN: byte := 13
  const SPACE: byte := 32

  /** The codes of the bytes that the editor knows by name. */
  lemma NamedBytes()
    ensures NUL as int as char == '\0' && TAB as int as char == '\t' && NEWLINE as int as char == '\n'
    ensures RETURN as int as char == '\r' && SPACE as int as char == ' '
  {
  }

  // The rows of the screen (ViewService::TER_END_Y). Its 60 columns (TER_END_X) stand
  // as a literal, because they are divided by and the verifier divides by literals.
  const ROWS := 20

  // Half of the rows: where the cursor is kept once the text scrolls.
  const HALF_ROWS := 10

  // The gap of a fresh buffer, and what a full one grows by.
  const GAP_SIZE := 1024

  function Min(a: nat, b: nat): nat {
    if a <= b then a else b
  }

  function Max(a: nat, b: nat): nat {
    if a <= b then b else a
  }
}
