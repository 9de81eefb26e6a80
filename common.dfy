/** Small shared definitions: an optional value and the emulator's machine word. */
module Common {

  /** A value that may be absent; None also stands for a C NULL pointer. */
  datatype Option<+T> = None | Some(value: T)

  /** `word_t` of the riscv32 build: an unsigned 32-bit integer. */
  newtype Word = x: int | 0 <= x < 0x1_0000_0000
}
