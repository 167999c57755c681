/** Counters of 32 bits. */
module Counters {
  const UINT32: nat := 0x1_0000_0000

  /** What a counter holds after an operation whose exact result is `n`. */
  function Wrap(n: int): nat { n % UINT32 }
}
