/** The fixed dimensions of the cipher: a 2 x 2 grid of units and three key-XOR rounds. */
module Sizes {
  /** Side of the state grid and number of words in a round key (AES.NUMBER_BLOCKS). */
  const NumberBlocks: nat := 2

  /** Number of round keys, and of key-XOR steps, in one encryption (AES.NUMBER_ROUNDS). */
  const NumberRounds: nat := 3

  /** Width in bits of one unit of the grid. */
  const UnitWidth: nat := NumberBlocks * 2

  /** Number of cells in the grid; the source writes it as 2^NumberBlocks, equal to NumberBlocks^2 here. */
  const CellCount: nat := 4

  /** Width of a cipher block: every cell of the grid holds one unit. */
  const BlockWidth: nat := CellCount * UnitWidth
}
