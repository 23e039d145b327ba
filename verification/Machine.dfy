/** The machine's unsigned integers. */
module Machine {

  type uint32 = x: int | 0 <= x < 0x1_0000_0000

  type uint64 = x: int | 0 <= x < 0x1_0000_0000_0000_0000

  /** How many values a 64-bit size_t has. */
  const SIZE_VALUES: nat := 0x1_0000_0000_0000_0000

  /** The value a 64-bit size_t gets. */
  function Wrap(x: int): uint64 {
    x % SIZE_VALUES
  }

  function Min(x: nat, y: nat): nat {
    if x < y then x else y
  }
}
