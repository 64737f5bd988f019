/** Machine-width types and the Option wrapper shared by every component. */
module Base {

  /** A C# `byte` of the display, whose code computes on its bits with `>>`, `&` and
      `^`. */
  type byte = bv8

  /** A C# `byte` held as its value: memory cells, registers, operands and the stack
      pointer. Where the code's byte arithmetic wraps, the wrap is written out, and
      bitwise `|` is the Bits module's OrBits. */
  type ByteValue = n: int | 0 <= n < 256

  /** A C# `short` (instruction word, program counter, stack slot, address register)
      kept as its unsigned 16-bit pattern; wrap-around on `+=` is written out where it
      happens. */
  type Word = n: int | 0 <= n < 0x1_0000

  /** A value that may be absent. */
  datatype Option<+T> = None | Some(value: T)
}
