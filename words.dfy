/** `word_t`, the 64-bit unsigned machine word of the emulated ISA. */
module Words {
  /** The number of distinct words. */
  const WordModulus: nat := 0x1_0000_0000_0000_0000

  /** A word as the number it holds. */
  type Word = x: int | 0 <= x < WordModulus

  /** Unsigned addition, wrapping around modulo 2^64. */
  function Add(a: Word, b: Word): Word {
    (a + b) % WordModulus
  }

  /** Unsigned subtraction, wrapping around modulo 2^64. */
  function Sub(a: Word, b: Word): Word {
    (a - b) % WordModulus
  }

  /** Unsigned multiplication, keeping the low 64 bits. */
  function Mul(a: Word, b: Word): Word {
    (a * b) % WordModulus
  }

  /** Unsigned division, rounding down. */
  function Div(a: Word, b: Word): Word
    requires b != 0
  {
    a / b
  }
}
