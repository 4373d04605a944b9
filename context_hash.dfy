/**
 * The context hash: a djb2-style hash of the two characters before a position,
 * reduced to one of the 65536 slots of the guess table.
 */
module ContextHash {
  import opened Text

  const Seed: bv32 := 5381

  /** A slot of the 65536-entry guess table. */
  type Slot = h: int | 0 <= h < 0x1_0000

  /** A context hash: the slot for the two characters before a position. */
  type Hasher = (Char, Char) -> Slot

  /**
   * One step `((h << 5) + h) ^ c`, computed in 32 bits. A code point fits in
   * 21 bits, and the contract of Hash shows that no intermediate value of the hash
   * reaches 2^27, so these are the values of Python's unbounded integers and
   * of C#'s `ulong`.
   */
  function Mix(h: bv32, c: Char): bv32 {
    ((h << 5) + h) ^ ((c as bv21) as bv32)
  }

  /**
   * Python's `__hash_function`: two steps, one reduction modulo 65536 at the
   * end. The two steps stay far below 2^32, so computing them in 32 bits
   * loses nothing.
   */
  function Hash(a: Char, b: Char): (h: Slot)
    ensures Mix(Seed, a) < 0x20_0000
    ensures Mix(Mix(Seed, a), b) < 0x800_0000
  {
    ((Mix(Mix(Seed, a), b) % 0x1_0000) as bv16) as int
  }

  /**
   * C#'s `HashFunction`: the reduction modulo 65536 follows each step. Only
   * the low 16 bits of the first step reach the low 16 bits of the second,
   * so it picks the same slot as Python's single reduction at the end.
   */
  function StepwiseHash(a: Char, b: Char): (h: Slot)
    ensures h == Hash(a, b)
  {
    ReduceEachStep(a, b);
    ((Mix(Mix(Seed, a) % 0x1_0000, b) % 0x1_0000) as bv16) as int
  }

  /** Reducing after each step or once at the end picks the same slot. */
  lemma ReduceEachStep(a: Char, b: Char)
    ensures ((Mix(Mix(Seed, a) % 0x1_0000, b) % 0x1_0000) as bv16) as int == Hash(a, b)
  {
  }

  /** The contexts of "aaaabbbb" ("aa", "ab", "bb") fall into three different slots. */
  lemma AaaabbbbContextsDiffer()
    ensures StepwiseHash(97, 97) != StepwiseHash(97, 98) && StepwiseHash(97, 98) != StepwiseHash(98, 98)
    ensures StepwiseHash(97, 97) != StepwiseHash(98, 98)
  {
  }
}
