/** Machine words and options, used throughout. */

module Wrappers {
  datatype Option<+T> = None | Some(value: T)
}

module Machine {
  /** Unsigned machine words are modelled as naturals below a power of two. */
  const TWO32: nat := 0x1_0000_0000
  const TWO64: nat := 0x1_0000_0000_0000_0000
  const U64_MAX: nat := TWO64 - 1

  type u32 = n: nat | n < TWO32
  type u64 = n: nat | n < TWO64
  type byte = n: nat | n < 256

  function Min(a: nat, b: nat): nat { if a <= b then a else b }

  function Max(a: nat, b: nat): nat { if a <= b then b else a }
}
