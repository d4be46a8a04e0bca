/** The text representation shared by the cursor and the buffers. */
module Text {
  /** One byte of UTF-8 text. */
  newtype byte = b: int | 0 <= b < 256

  /** One line as a Rust `String` holds it: its length `|l|` is `String::len()`,
      a count of bytes, and every column is measured in the same unit. */
  type Line = seq<byte>

  /** The line feed `\n`. */
  const LF: byte := 10

  /** The carriage return `\r`. */
  const CR: byte := 13
}
