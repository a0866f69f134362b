/** Fixed-width integer ranges of the font format and the error-carrying result type. */
module Primitives {

  /** An unsigned 8-bit value: one byte of a font table. */
  type byte = x: int | 0 <= x < 0x100

  /** An unsigned 16-bit value (C# `ushort`). */
  type u16 = x: int | 0 <= x < 0x1_0000

  /** A signed 16-bit value (C# `short`). */
  type i16 = x: int | -0x8000 <= x < 0x8000

  /** The failures of the core: those of decoding a table and those of a lookup. */
  datatype Error =
    | EndOfStream                      // the reader ran out of bytes
    | NegativeArrayLength(length: int) // an array read was asked for a negative count
    | GlyphIndexOutOfRange(index: int) // an indirect lookup fell outside the glyph-id array

  /** A value or the error that stopped its computation; usable with `:-`. */
  datatype Result<+T> = Ok(value: T) | Err(error: Error) {
    predicate IsFailure() {
      Err?
    }

    function PropagateFailure<U>(): Result<U>
      requires Err?
    {
      Err(error)
    }

    function Extract(): T
      requires Ok?
    {
      value
    }
  }

  datatype Option<+T> = None | Some(value: T)
}
