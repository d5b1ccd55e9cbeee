/** Word sizes and address widths of the machine. */
module Machine {
  const PAGE: nat := 4096
  const U64: nat := 0x1_0000_0000_0000_0000

  /** A sum or difference as the 64-bit word that holds it. */
  function Wrap(x: int): (w: nat)
    ensures w < U64
  {
    x % 0x1_0000_0000_0000_0000
  }

  /** Physical addresses are at most 52 bits wide. */
  const ADDRESS_LIMIT: nat := 0x10_0000_0000_0000

  function Max(a: nat, b: nat): nat { if a < b then b else a }
}
