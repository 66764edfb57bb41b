/** How many values the program's unsigned machine words have. */
module Words {
  const UINT32: nat := 0x1_0000_0000
  const UINT64: nat := 0x1_0000_0000_0000_0000
}
