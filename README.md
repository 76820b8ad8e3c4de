# Simplified AES (S-AES) in Dafny

A model of the classroom Simplified AES of the `com.dauphine.aes` package, with proofs about it.
S-AES has a 16-bit block, a 2 x 2 grid of 4-bit units, three round keys, and the S-box and mix
matrices fixed in `AES.java`. The model covers the five classes of the package:

- `Block`: a bit vector (`Blocks.Block = seq<bool>`, most significant bit first). It has the
  constructors, `toDecimal`, `getSegment`, `rowValue`/`columnValue`, `xOr`, `leftShift`, field
  doubling (`modularMultiplicationByX`), `modularMultiplication`, `g`, `toString`, and the text
  packing `stringToBlocks`/`blocksToString`.
- `SBox`: a private copy of a table of rows, read by a unit's two halves.
- `State`: the column-major 2 x 2 grid. Every transformation builds a new state.
- `Key`: the round-key words and the key expansion `genSubKeys`.
- `AES`: the constructor and the round orchestration of `cipher` and `decipher`.

Blocks never change once built, so a `Block` is a value. Its constructors and transforms are
methods whose loops fill a local `array<bool>`. Each method is proved equal to a specification
function, and the lemmas are stated about those functions.

`SBox`, `State`, `Key` and `AES` are classes whose `const` array fields mirror the Java `final`
fields. Each State transform allocates a fresh state and fills it in the source's nested loops.
`AES.Cipher` and `AES.Decipher` are proved equal to `Encrypt` and `Decrypt` on the round keys
built by the constructor.

The specification functions take the doubling generator as a parameter `gen`:

- the code's `GENERATOR_POLYNOMIAL` is `Blocks.GeneratorPolynomial`;
- the corrected 4-bit reduction polynomial x^4 + x + 1 is `Aes.FixedGenerator`.

Module layout:

| file | module | content |
|---|---|---|
| sizes.dfy | `Sizes` | `NUMBER_BLOCKS` = 2, `NUMBER_ROUNDS` = 3, derived widths |
| blocks.dfy | `Blocks` | `Block` |
| sbox.dfy | `SBoxes` | `SBox` and table lookups |
| key.dfy | `Keys` | `Block.g`, round constants, `Key` |
| state.dfy | `States` | grids and `State` |
| aes.dfy | `Aes` | tables, rounds, `AES`, round-trip theorems |
| text.dfy | `BlockText` | `stringToBlocks` and `blocksToString` |

## Model

| member | source | states |
|---|---|---|
| Blocks.Zeros | src/com/dauphine/aes/Block.java:32-34 | Block(size) has `size` bits, all clear |
| Blocks.FromArray | src/com/dauphine/aes/Block.java:70-72 | Block(boolean[]) holds exactly the array's bits, in order |
| Blocks.FromValue | src/com/dauphine/aes/Block.java:42-50 | Block(size, value) is `size` bits wide |
| Blocks.FromValueBit | src/com/dauphine/aes/Block.java:42-50 | bit size-1-k of Block(size, value) is the low bit of value after k Java halvings |
| Blocks.NewFromValue | src/com/dauphine/aes/Block.java:42-50 | the constructor's loop, from the last bit down, builds exactly FromValue(size, value) |
| Blocks.Decimal | src/com/dauphine/aes/Block.java:102-110 | toDecimal of an n-bit block is below 2^n |
| Blocks.ToDecimal | src/com/dauphine/aes/Block.java:102-110 | the shift-and-or loop computes the unsigned binary value, most significant bit first |
| Blocks.DecimalAppend | src/com/dauphine/aes/Block.java:102-110 | the value of a + c is value(a) * 2^len(c) + value(c) |
| Blocks.ValueSplit | src/com/dauphine/aes/Block.java:42-50 | Block(n, v) keeps the n low bits of v and the n halvings drop exactly those |
| Blocks.DecimalFromValue | src/com/dauphine/aes/Block.java:42-50 | for v >= 0, toDecimal(Block(n, v)) is v mod 2^n |
| Blocks.ValueRoundTrip | src/com/dauphine/aes/Block.java:42-50 | toDecimal(Block(n, v)) == v if and only if 0 <= v < 2^n |
| Blocks.FromValueDecimal | src/com/dauphine/aes/Block.java:102-110 | every block is Block(len, toDecimal(block)), so the encoding is a bijection on n-bit blocks |
| Blocks.Parse | src/com/dauphine/aes/Block.java:57-63 | Block(String) has one bit per character |
| Blocks.Binary | src/com/dauphine/aes/Block.java:288-296 | toString has one character per bit, and Block(toString(b)) == b |
| Blocks.BinaryParse | src/com/dauphine/aes/Block.java:288-296 | Block(s).toString() == s if and only if s holds only '0' and '1' |
| Blocks.NewFromString | src/com/dauphine/aes/Block.java:57-63 | the constructor's loop sets bit i exactly when character i is '1' |
| Blocks.ToString | src/com/dauphine/aes/Block.java:288-296 | the StringBuilder loop builds Binary(b) |
| Blocks.Concat | src/com/dauphine/aes/Block.java:79-95 | Block(Block[]) is as long as the sum of the part lengths |
| Blocks.TotalLengthUniform | src/com/dauphine/aes/Block.java:82-84 | k parts of width w make k * w bits |
| Blocks.NewConcat | src/com/dauphine/aes/Block.java:79-95 | the two loops lay the parts end to end, first part first |
| Blocks.CopyBits | src/com/dauphine/aes/Block.java:90-94 | the inner loop writes a part at `index` and keeps every bit written before it |
| Blocks.ConcatPair | src/com/dauphine/aes/Block.java:79-95 | two parts concatenate to x + y |
| Blocks.ConcatAt | src/com/dauphine/aes/Block.java:79-95 | in a concatenation of width-w parts, bit i*w+t is bit t of part i |
| Blocks.ConcatWidth | src/com/dauphine/aes/Block.java:79-95 | n parts of width w give n*w bits, so each of n segments is w wide |
| Blocks.Segment | src/com/dauphine/aes/Block.java:145-152 | getSegment(n, i) is len/n bits wide, and is defined only when (i+1)*(len/n) <= len |
| Blocks.SegmentFits | src/com/dauphine/aes/Block.java:145-152 | segment i of n is in range for every i < n |
| Blocks.Split | src/com/dauphine/aes/Block.java:145-152 | the n segments of a block, each len/n bits wide |
| Blocks.SplitPrefix | src/com/dauphine/aes/Block.java:145-152 | the first m segments joined are the first m*(len/n) bits |
| Blocks.SplitStep | src/com/dauphine/aes/Block.java:145-152 | segment m-1 is the slice from (m-1)*(len/n) to m*(len/n) |
| Blocks.SegmentsJoin | src/com/dauphine/aes/Block.java:145-152 | when n divides the length, joining the n segments gives the block back |
| Blocks.SegmentOfConcat | src/com/dauphine/aes/Block.java:145-152 | segment i of a concatenation of equal-width parts is part i |
| Blocks.Halves | src/com/dauphine/aes/Block.java:160-172 | rowValue and columnValue read the first and the second half |
| Blocks.RowColumn | src/com/dauphine/aes/Block.java:160-172 | row and column are the two base-2^(len/2) digits of the block's value |
| Blocks.Xor | src/com/dauphine/aes/Block.java:180-188 | xOr is as wide as the receiver and needs other at least as long |
| Blocks.XOr | src/com/dauphine/aes/Block.java:180-188 | the loop computes bit i as this[i] XOR other[i] |
| Blocks.XorCancel | src/com/dauphine/aes/Block.java:180-188 | a.xOr(b).xOr(b) == a |
| Blocks.XorCommutes | src/com/dauphine/aes/Block.java:180-188 | xOr of equal-length blocks commutes |
| Blocks.XorAssociates | src/com/dauphine/aes/Block.java:180-188 | xOr of equal-length blocks associates |
| Blocks.XorZeros | src/com/dauphine/aes/Block.java:180-188 | an all-clear block is a neutral element on either side |
| Blocks.LeftShift | src/com/dauphine/aes/Block.java:195-202 | leftShift keeps the length and needs at least one bit |
| Blocks.TopBit | src/com/dauphine/aes/Block.java:195-202 | the first bit is set if and only if the value reaches 2^(n-1) |
| Blocks.LeftShiftDoubles | src/com/dauphine/aes/Block.java:195-202 | leftShift doubles the value, minus 2^n when the top bit falls off |
| Blocks.MulX | src/com/dauphine/aes/Block.java:209-215 | modularMultiplicationByX keeps the width, and needs the generator as wide as the block when the top bit is set |
| Blocks.MulXRotates | src/com/dauphine/aes/Block.java:209-215 | with GENERATOR_POLYNOMIAL, doubling a 4-bit unit is a left rotation |
| Blocks.MulXDoubles | src/com/dauphine/aes/Block.java:209-215 | doubling is 2v, XOR-ed with the generator exactly when the top bit overflowed |
| Blocks.MulXIsXtime | src/com/dauphine/aes/Block.java:209-215 | on 8-bit blocks, doubling is xtime of FIPS 197 section 4.2.1 (reduction by 0x1b) |
| Blocks.GeneratorValue | src/com/dauphine/aes/Block.java:20 | GENERATOR_POLYNOMIAL is 0x1b |
| Blocks.MulLoop | src/com/dauphine/aes/Block.java:231-237 | the scan over other's bits keeps the receiver's width |
| Blocks.Mul | src/com/dauphine/aes/Block.java:223-240 | modularMultiplication is as wide as the receiver |
| Blocks.ModularMultiplication | src/com/dauphine/aes/Block.java:223-240 | the loop from other's last bit to its first computes Mul |
| Blocks.MulLoopZeros | src/com/dauphine/aes/Block.java:231-237 | scanning only clear bits leaves the running result unchanged |
| Blocks.MulByOne | src/com/dauphine/aes/Block.java:223-240 | multiplying by the block 0...01 returns the receiver |
| Blocks.MulByZero | src/com/dauphine/aes/Block.java:223-240 | multiplying by an all-clear block gives an all-clear block of the receiver's width |
| Blocks.Scaled | src/com/dauphine/aes/Block.java:232-234 | the term XOR-ed into the result keeps the multiplier's width |
| Blocks.MulLoopStep | src/com/dauphine/aes/Block.java:231-237 | one pass XORs in the multiplier when the last bit is set, then doubles the multiplier |
| Blocks.MulUnits | src/com/dauphine/aes/Block.java:223-240 | a 4-bit product is the XOR of the receiver's first three doublings selected by other's bits |
| Blocks.OneTimes | src/com/dauphine/aes/Block.java:223-240 | the unit 0001 is a left identity whatever the generator |
| Blocks.ZeroTimes | src/com/dauphine/aes/Block.java:223-240 | the unit 0000 times any unit is 0000 |
| SBoxes.Lookup | src/com/dauphine/aes/SBox.java:40-44 | cipher returns a block as wide as its input |
| SBoxes.UnitLookup | src/com/dauphine/aes/SBox.java:40-44 | on a 4 x 4 table, every 4-bit unit selects entry [v / 4][v % 4] of its value v |
| SBoxes.UndoesAt | src/com/dauphine/aes/SBox.java:40-44 | a table that undoes another on all values below n undoes it at each such value |
| SBoxes.LookupUndone | src/com/dauphine/aes/SBox.java:40-44 | when inv undoes s on 0..15, cipher with s then with inv returns every 4-bit unit |
| SBoxes.SBox.constructor | src/com/dauphine/aes/SBox.java:25-31 | the S-box holds the caller's rows in fresh arrays, so it shares none of them |
| SBoxes.SBox.Cipher | src/com/dauphine/aes/SBox.java:40-44 | cipher is the table entry at [rowValue][columnValue], written in the input's width |
| SBoxes.CloneRow | src/com/dauphine/aes/SBox.java:29 | int[].clone() is a fresh array with the same entries |
| Keys.WordsOf | src/com/dauphine/aes/Key.java:54-60 | Key(Block) has NUMBER_BLOCKS words, each len/NUMBER_BLOCKS bits wide |
| Keys.WordsJoin | src/com/dauphine/aes/Key.java:54-60 | the words of an even-width key, joined, are the key |
| Keys.WordElement | src/com/dauphine/aes/Key.java:97-99 | element(i, j) is half as wide as word i |
| Keys.ElementsOfWord | src/com/dauphine/aes/Key.java:97-99 | element(i, 0) and element(i, 1) are the high and low unit of word i, and together make the word |
| Keys.Padded | src/com/dauphine/aes/Block.java:260 | the round constant is followed by twelve clear bits |
| Keys.G | src/com/dauphine/aes/Block.java:252-263 | g yields as many bits as the word, rounded down to even |
| Keys.GHalves | src/com/dauphine/aes/Block.java:252-263 | on an 8-bit word, g is (sbox(low half) XOR rc) followed by sbox(high half) |
| Keys.ApplyG | src/com/dauphine/aes/Block.java:252-263 | the loop, concatenation and XOR of g compute G |
| Keys.SubstituteHalves | src/com/dauphine/aes/Block.java:255-257 | entry i of the loop is the S-box image of segment (i + 1) % 2 |
| Keys.PadConstant | src/com/dauphine/aes/Block.java:260 | the string padding builds Padded(rc) |
| Keys.RoundConstant | src/com/dauphine/aes/Key.java:112 | the round constant is a 4-bit unit in every round |
| Keys.RoundConstants | src/com/dauphine/aes/Key.java:112-128 | with GENERATOR_POLYNOMIAL, round 1 uses 1000 and round 2 uses 0001 |
| Keys.NextWord | src/com/dauphine/aes/Key.java:117-124 | every word of the next round key is 8 bits wide |
| Keys.NextWords | src/com/dauphine/aes/Key.java:116-126 | one pass of genSubKeys yields NUMBER_BLOCKS 8-bit words |
| Keys.PreviousWords | src/com/dauphine/aes/Key.java:116-126 | undoing the XOR chain yields NUMBER_BLOCKS 8-bit words |
| Keys.PreviousOfNext | src/com/dauphine/aes/Key.java:116-126 | the expansion step loses nothing: the previous round key is recovered from the next |
| Keys.SubKey | src/com/dauphine/aes/Key.java:111-131 | every round key has NUMBER_BLOCKS 8-bit words |
| Keys.Schedule | src/com/dauphine/aes/Key.java:111-131 | genSubKeys returns exactly NUMBER_ROUNDS keys, the first being the original key's words |
| Keys.Key.FromBlock | src/com/dauphine/aes/Key.java:54-60 | Key(Block) stores the NUMBER_BLOCKS segments of the block in a fresh array |
| Keys.Key.FromWords | src/com/dauphine/aes/Key.java:70-76 | Key(Block[]) stores the first NUMBER_BLOCKS blocks in a fresh array |
| Keys.Key.Copy | src/com/dauphine/aes/Key.java:84-86 | Key(Key) has the same words in an array it does not share |
| Keys.Key.Element | src/com/dauphine/aes/Key.java:97-99 | element(i, j) is segment j of word i |
| Keys.Key.GenSubKeys | src/com/dauphine/aes/Key.java:111-131 | the loop builds NUMBER_ROUNDS keys whose words are Schedule of this key, each holding its words in a fresh array that no other key shares |
| Keys.Key.Expand | src/com/dauphine/aes/Key.java:117-126 | one pass of the loop builds a fresh key holding NextWords |
| States.ZeroGrid | src/com/dauphine/aes/State.java:35-43 | State() holds a 4-bit unit in every cell |
| States.GridOf | src/com/dauphine/aes/State.java:52-60 | State(Block) is a 2 x 2 grid whose cells are len/4 bits wide |
| States.Columnwise | src/com/dauphine/aes/State.java:209-219 | toBlock puts cell [i][j] at position NUMBER_BLOCKS*j + i |
| States.BlockOfGridOf | src/com/dauphine/aes/State.java:209-219 | toBlock(State(b)) == b whenever 4 divides len(b) |
| States.GridOfBlockOf | src/com/dauphine/aes/State.java:52-60 | State(toBlock(s)) == s for a grid of equal-width cells |
| States.ShiftRows | src/com/dauphine/aes/State.java:145-155 | shift gives a 2 x 2 grid |
| States.InvShiftRows | src/com/dauphine/aes/State.java:164-174 | shiftInvert gives a 2 x 2 grid |
| States.ShiftRowsMoves | src/com/dauphine/aes/State.java:145-155 | shift moves cell (i, j) to (i, (j + i) % 2) |
| States.InvShiftRowsMoves | src/com/dauphine/aes/State.java:164-174 | shiftInvert moves cell (i, j) to (i, (j - i + 2) % 2) |
| States.ShiftRowsUndone | src/com/dauphine/aes/State.java:164-174 | shiftInvert(shift(s)) == s |
| States.InvShiftRowsUndone | src/com/dauphine/aes/State.java:145-155 | shift(shiftInvert(s)) == s |
| States.ShiftRowsUnits | src/com/dauphine/aes/State.java:145-174 | shift and shiftInvert keep a grid of 4-bit units a grid of units |
| States.ShiftRowsSelfInverse | src/com/dauphine/aes/State.java:145-174 | with two columns, shift equals shiftInvert and undoes itself |
| States.SubBytes | src/com/dauphine/aes/State.java:126-136 | substitute gives a 2 x 2 grid |
| States.SubBytesUnits | src/com/dauphine/aes/State.java:126-136 | a 4 x 4 table substitutes any grid of units into a grid of units |
| States.SubBytesUndone | src/com/dauphine/aes/State.java:126-136 | when inv undoes s on 0..15, substituting with s then inv gives the grid back |
| States.AddRoundKey | src/com/dauphine/aes/State.java:105-115 | XOR keeps the grid shape and every cell's width |
| States.UnitKeyFits | src/com/dauphine/aes/State.java:105-115 | a key of two 8-bit words can be XOR-ed into any grid of units |
| States.AddRoundKeyTwice | src/com/dauphine/aes/State.java:105-115 | XOR-ing the same key twice restores the state |
| States.AddRoundKeyIsBlockXor | src/com/dauphine/aes/State.java:105-115 | on a state made from a 16-bit block, XOR(key) with the transposed element(j, i) is the plain bitwise XOR of the block with the key |
| States.XorCell | src/com/dauphine/aes/State.java:105-115 | cell (i, j) of the XOR-ed state is unit i + 2j of the XOR-ed block |
| States.MixSum | src/com/dauphine/aes/State.java:187-196 | the running sum of multiply stays a 4-bit unit |
| States.Mix | src/com/dauphine/aes/State.java:184-200 | multiply gives a grid of units |
| States.MixCell | src/com/dauphine/aes/State.java:184-200 | cell (i, j) is 0000 xOr other[i][0]*this[0][j] xOr other[i][1]*this[1][j], so the argument is the left factor |
| States.UnitMixable | src/com/dauphine/aes/State.java:184-200 | any two grids of units can be multiplied with a generator of at least 4 bits |
| States.MixIdentity | src/com/dauphine/aes/State.java:184-200 | multiplying by {{1, 0}, {0, 1}} leaves a grid of units unchanged, whatever the generator |
| States.GridOfArray | src/com/dauphine/aes/State.java:27 | the value of the bytes array has cell [i][j] equal to bytes[i][j] |
| States.ValuesGrid | src/com/dauphine/aes/State.java:69-77 | State(int[][]) is a grid of 4-bit units |
| States.State.Empty | src/com/dauphine/aes/State.java:35-43 | State() is a fresh array of zero units |
| States.State.FromBlock | src/com/dauphine/aes/State.java:52-60 | the loops put segment i + 2j of 4 in cell [i][j], column by column |
| States.State.FromValues | src/com/dauphine/aes/State.java:69-77 | the loops put Block(4, values[i][j]) in cell [i][j] |
| States.State.Copy | src/com/dauphine/aes/State.java:86-94 | the copy has the same cells in a fresh array |
| States.State.XorKey | src/com/dauphine/aes/State.java:105-115 | XOR returns a fresh state holding AddRoundKey, and the receiver is unchanged |
| States.State.XorKeyRow | src/com/dauphine/aes/State.java:108-113 | one row of XOR writes only that row of the new state |
| States.State.Substitute | src/com/dauphine/aes/State.java:126-136 | substitute returns a fresh state holding SubBytes, and the receiver is unchanged |
| States.State.SubstituteRow | src/com/dauphine/aes/State.java:129-134 | one row of substitute writes only that row of the new state |
| States.State.Shift | src/com/dauphine/aes/State.java:145-155 | shift returns a fresh state holding ShiftRows, and the receiver is unchanged |
| States.State.ShiftRow | src/com/dauphine/aes/State.java:148-153 | one row of shift writes only that row of the new state |
| States.State.ShiftInvert | src/com/dauphine/aes/State.java:164-174 | shiftInvert returns a fresh state holding InvShiftRows, and the receiver is unchanged |
| States.State.ShiftInvertRow | src/com/dauphine/aes/State.java:167-172 | one row of shiftInvert writes only that row of the new state |
| States.State.Multiply | src/com/dauphine/aes/State.java:184-200 | multiply returns a fresh state holding other . this, and both operands are unchanged |
| States.State.MultiplyRow | src/com/dauphine/aes/State.java:187-197 | one row of multiply writes only that row of the new state |
| States.State.Dot | src/com/dauphine/aes/State.java:189-195 | the inner loop computes MixSum, the running xOr of the products |
| States.State.ToBlock | src/com/dauphine/aes/State.java:209-219 | toBlock lays the cells out column by column, as BlockOf |
| Aes.TablesInverse | src/com/dauphine/aes/AES.java:34-49 | sBoxInvertValues undoes sBoxValues on 0..15, and the reverse |
| Aes.TablesCover | src/com/dauphine/aes/AES.java:34-49 | both S-box tables are 4 x 4 |
| Aes.Undoes | src/com/dauphine/aes/AES.java:34-49 | either S-box table undoes the other on every 4-bit value |
| Aes.MixMatrix | src/com/dauphine/aes/AES.java:54-57 | the state of stateValues is a grid of units |
| Aes.InvMixMatrix | src/com/dauphine/aes/AES.java:62-65 | the state of stateInvertValues is a grid of units |
| Aes.MatrixUnits | src/com/dauphine/aes/AES.java:54-65 | the two mix states are {{1, 4}, {4, 1}} and {{9, 2}, {2, 9}} |
| Aes.UnitValues | src/com/dauphine/aes/AES.java:54-65 | Block(4, v) for v = 1, 2, 4, 9 |
| Aes.ShiftSub | src/com/dauphine/aes/AES.java:145-146 | substitute then shift keeps a grid of units |
| Aes.UnshiftSub | src/com/dauphine/aes/AES.java:174-175 | shiftInvert then substitute keeps a grid of units |
| Aes.AddKey | src/com/dauphine/aes/AES.java:136 | XOR with a round key keeps a grid of units |
| Aes.MixUnits | src/com/dauphine/aes/AES.java:141 | multiply keeps a grid of units |
| Aes.Round | src/com/dauphine/aes/AES.java:139-142 | one pass of cipher's loop keeps a grid of units |
| Aes.InvRound | src/com/dauphine/aes/AES.java:168-171 | one pass of decipher's loop keeps a grid of units |
| Aes.ForwardRounds | src/com/dauphine/aes/AES.java:138-143 | cipher's loop keeps a grid of units |
| Aes.BackwardRounds | src/com/dauphine/aes/AES.java:167-172 | decipher's loop keeps a grid of units |
| Aes.EncryptGrid | src/com/dauphine/aes/AES.java:133-149 | cipher on the state keeps a grid of units |
| Aes.DecryptGrid | src/com/dauphine/aes/AES.java:162-178 | decipher on the state keeps a grid of units |
| Aes.Encrypt | src/com/dauphine/aes/AES.java:132-150 | cipher maps a 16-bit block to a 16-bit block |
| Aes.Decrypt | src/com/dauphine/aes/AES.java:161-179 | decipher maps a 16-bit block to a 16-bit block |
| Aes.BlockWidthOf | src/com/dauphine/aes/AES.java:149 | toBlock of a grid of units is 16 bits, and State(toBlock(g)) == g |
| Aes.UnshiftSubUndone | src/com/dauphine/aes/AES.java:174-175 | shiftInvert and the inverse S-box undo substitute and shift |
| Aes.ShiftSubUndone | src/com/dauphine/aes/AES.java:145-146 | substitute and shift undo shiftInvert and the inverse S-box |
| Aes.RoundMixes | src/com/dauphine/aes/AES.java:167-172 | a decipher pass after a cipher pass leaves multiply by the matrix, then by the inverse matrix |
| Aes.RoundUndone | src/com/dauphine/aes/AES.java:167-172 | when the inverse matrix undoes the matrix, a decipher pass undoes a cipher pass |
| Aes.BackwardUndoesForward | src/com/dauphine/aes/AES.java:167-172 | decipher's loop undoes cipher's loop, round by round |
| Aes.RoundTrip | src/com/dauphine/aes/AES.java:161-179 | for any round keys, decipher(cipher(P)) == P when the inverse tables undo the forward ones |
| Aes.TimesTwo | src/com/dauphine/aes/Block.java:223-240 | with the corrected generator, 2 * x is x doubled in GF(16) |
| Aes.TimesFour | src/com/dauphine/aes/Block.java:223-240 | with the corrected generator, 4 * x bit by bit |
| Aes.TimesNine | src/com/dauphine/aes/Block.java:223-240 | with the corrected generator, 9 * x bit by bit: 9 inverts 2 |
| Aes.Pair | src/com/dauphine/aes/State.java:189-195 | one cell of a 2 x 2 product of units is a unit |
| Aes.FixedMixInverts | src/com/dauphine/aes/AES.java:54-65 | with the corrected generator, {{9, 2}, {2, 9}} undoes {{1, 4}, {4, 1}} on every grid of units |
| Aes.FixedColumn | src/com/dauphine/aes/AES.java:54-65 | with the corrected generator, one column comes back from the two matrices |
| Aes.FixedColumnBack | src/com/dauphine/aes/AES.java:62-65 | the inverse matrix brings a mixed column back |
| Aes.OneFour | src/com/dauphine/aes/AES.java:54-57 | row {1, 4} of the cipher matrix on a column, bit by bit |
| Aes.FourOne | src/com/dauphine/aes/AES.java:54-57 | row {4, 1} of the cipher matrix on a column, bit by bit |
| Aes.NineTwo | src/com/dauphine/aes/AES.java:62-65 | row {9, 2} of the decipher matrix on a column, bit by bit |
| Aes.TwoNine | src/com/dauphine/aes/AES.java:62-65 | row {2, 9} of the decipher matrix on a column, bit by bit |
| Aes.MixNotInverted | src/com/dauphine/aes/AES.java:54-65 | with GENERATOR_POLYNOMIAL, {{9, 2}, {2, 9}} does not undo {{1, 4}, {4, 1}} |
| Aes.MixedColumn | src/com/dauphine/aes/AES.java:54-57 | the cipher matrix sends the column (1, 0) to (1, 4) |
| Aes.UnmixedColumn | src/com/dauphine/aes/AES.java:62-65 | as written, the decipher matrix sends (1, 4) to a column whose second unit is 9*4 xOr 2*1 = 4, not 0 |
| Aes.KeySchedule | src/com/dauphine/aes/AES.java:119-120 | the constructor's round keys are NUMBER_ROUNDS keys of two 8-bit words |
| Aes.AesEncrypt | src/com/dauphine/aes/AES.java:132-150 | AES(key).cipher maps 16 bits to 16 bits |
| Aes.AesDecrypt | src/com/dauphine/aes/AES.java:161-179 | AES(key).decipher maps 16 bits to 16 bits |
| Aes.CorrectedRoundTrip | src/com/dauphine/aes/AES.java:161-179 | with the corrected generator, decipher(cipher(P)) == P for every block and key |
| Aes.SampleRoundTrip | src/com/dauphine/aes/AES.java:188-213 | with the corrected generator, the sample of main deciphers back to its plain text |
| Aes.RoundTripFails | src/com/dauphine/aes/AES.java:161-179 | as written, for every 16-bit key some block does not survive decipher(cipher(P)) |
| Aes.FailsWith | src/com/dauphine/aes/AES.java:161-179 | one grid on which the matrices fail yields a block that does not round-trip |
| Aes.NoRoundTrip | src/com/dauphine/aes/AES.java:161-179 | for any round keys, if the inverse matrix fails on one grid, some block does not round-trip |
| Aes.AddKeyInjective | src/com/dauphine/aes/State.java:105-115 | XOR with a round key is injective |
| Aes.AES.constructor | src/com/dauphine/aes/AES.java:112-121 | the object holds the two S-boxes, the two mix states and genSubKeys of the key |
| Aes.AES.Cipher | src/com/dauphine/aes/AES.java:132-150 | cipher returns Encrypt under the object's round keys, tables and GENERATOR_POLYNOMIAL |
| Aes.AES.CipherRound | src/com/dauphine/aes/AES.java:139-142 | one pass of cipher's loop computes Round |
| Aes.AES.SubstituteShift | src/com/dauphine/aes/AES.java:145-146 | substitute then shift computes ShiftSub |
| Aes.AES.AddKeyStep | src/com/dauphine/aes/AES.java:136 | XOR with keys[round] computes AddKey |
| Aes.AES.Decipher | src/com/dauphine/aes/AES.java:161-179 | decipher returns Decrypt under the object's round keys, inverse tables and GENERATOR_POLYNOMIAL |
| Aes.AES.DecipherRound | src/com/dauphine/aes/AES.java:168-171 | one pass of decipher's loop computes InvRound |
| Aes.AES.ShiftSubstitute | src/com/dauphine/aes/AES.java:174-175 | shiftInvert then substitute computes UnshiftSub |
| Aes.NewRoundKeys | src/com/dauphine/aes/AES.java:119-120 | new Key(key).genSubKeys(sBox) gives NUMBER_ROUNDS keys holding KeySchedule, each with its own fresh word array |
| Aes.NewSBox | src/com/dauphine/aes/AES.java:113-114 | new SBox(values) holds the table |
| Aes.NewState | src/com/dauphine/aes/AES.java:116-117 | new State(values) holds the units of the table |
| Aes.NewTable | src/com/dauphine/aes/AES.java:34-65 | a Java int[][] literal is a fresh array of rows holding the table |
| BlockText.Nibble | src/com/dauphine/aes/Block.java:323-328 | each character becomes a 4-bit block |
| BlockText.TextBlocks | src/com/dauphine/aes/Block.java:315-337 | stringToBlocks yields len / blockSize blocks and drops a trailing partial group |
| BlockText.CharOf | src/com/dauphine/aes/Block.java:352-358 | four bits make a character below 16 |
| BlockText.Decode | src/com/dauphine/aes/Block.java:351-361 | a block makes len / 4 characters |
| BlockText.LowNibbles | src/com/dauphine/aes/Block.java:326-328 | reducing to low nibbles keeps the length |
| BlockText.StringToBlocks | src/com/dauphine/aes/Block.java:315-337 | the nested loops compute TextBlocks |
| BlockText.GroupOf | src/com/dauphine/aes/Block.java:320-333 | one pass of the outer loop builds the concatenated nibbles of one group |
| BlockText.CharBlock | src/com/dauphine/aes/Block.java:323-328 | the inner loop puts bit k of the character at position 3 - k |
| BlockText.BlocksToString | src/com/dauphine/aes/Block.java:345-365 | corrected blocksToString computes TextOf, every four bits read as one character |
| BlockText.CharValue | src/com/dauphine/aes/Block.java:352-358 | corrected, the innermost loop computes the value of the four bits |
| BlockText.NibbleBack | src/com/dauphine/aes/Block.java:323-328 | a character comes back from its block reduced to its low nibble |
| BlockText.CharBack | src/com/dauphine/aes/Block.java:352-358 | four bits come back from the character they make |
| BlockText.GroupBack | src/com/dauphine/aes/Block.java:315-365 | a group comes back from its block as its low nibbles |
| BlockText.BlockBack | src/com/dauphine/aes/Block.java:315-365 | a block whose width 4 divides comes back from its characters |
| BlockText.TextOfPrefix | src/com/dauphine/aes/Block.java:315-365 | the first m blocks read back as the low nibbles of the first m groups |
| BlockText.LowNibblesAppend | src/com/dauphine/aes/Block.java:351-362 | the reduction to low nibbles distributes over concatenation |
| BlockText.TextRoundTrip | src/com/dauphine/aes/Block.java:315-365 | blocksToString(stringToBlocks(s, n)) is s cut to whole groups, each character reduced to its low nibble |
| BlockText.NibbleTextRoundTrip | src/com/dauphine/aes/Block.java:315-365 | a text of characters below 16 whose length n divides comes back unchanged |
| BlockText.LowNibblesOfNibbles | src/com/dauphine/aes/Block.java:326-328 | characters below 16 are their own low nibbles |
| BlockText.TextLength | src/com/dauphine/aes/Block.java:345-365 | blocks of 4n bits read as n characters each |
| BlockText.TextBlocksAppend | src/com/dauphine/aes/Block.java:315-337 | one more whole group makes exactly one more block |
| BlockText.BlocksRoundTrip | src/com/dauphine/aes/Block.java:315-365 | stringToBlocks(blocksToString(bs), n) == bs for blocks of 4n bits |
| BlockText.ValueAsWritten | src/com/dauphine/aes/Block.java:352-358 | as written, the innermost loop either reads outside the block or yields a value below 16 |
| BlockText.DecodeAsWrittenFails | src/com/dauphine/aes/Block.java:354-355 | as written, character 0 of any block of 4 bits or more reads index -1 |
| BlockText.TextAsWrittenFails | src/com/dauphine/aes/Block.java:345-365 | as written, blocksToString throws if and only if some block holds 4 bits or more, and otherwise returns "" |
| BlockText.TextAsWrittenCounterexample | src/com/dauphine/aes/Block.java:345-365 | for "A" in groups of one, the way back throws as written and gives the nibble 1 corrected |

## Left out

- Console output is left out: the printing in `modularMultiplication`, both `main` methods, and `toString` of `State`, `SBox` and `Key`. Only the sample constants of `AES.main` are kept, as `SamplePlain` and `SampleKey`.
- `toHexadecimalString` of `Block` and `Key` is display only.
- `Block.blockToDecimal` is an alias of `toDecimal`, which is modelled.
- `Cloneable` and `CloneNotSupportedException` are left out. A block clone is a value copy; `int[].clone()` is `CloneRow`.
- `Math.pow` in `State` and `Key` is only a constant power of two. The model uses the integers 4 and 8 (`CellCount`, `RoundConstant`) instead of floating point.
- Java `int` overflow in `toDecimal` and `Block(size, value)` is not modelled, because the widths used are 4, 8 and 16 bits. Integers are unbounded.
- Other values of `NUMBER_BLOCKS` and `NUMBER_ROUNDS` are not modelled. The code is only consistent for 2 and 3: `2^NB` cells stand where `NB^2` is meant, and `BIT` is hard-coded to 2.
- `State()` and `Key()` are left out as public operations. `State()` is modelled as `State.Empty`, the fresh container every transform fills. `Key()` builds 16-bit words that contradict `Key(Block)` and is never called.
- Aes.AES.constructor, Aes.AES.Cipher and Aes.AES.Decipher require 16-bit keys and blocks. The source accepts other lengths and then fails or misbehaves at run time.
- Java runtime exceptions are preconditions: index out of range, a shorter `other` in `xOr`, and an empty block in `leftShift`.
- Blocks.Mul and Blocks.ModularMultiplication require, through `MulDefined`, a multiplier no wider than the generator whenever `other` has a bit. The source throws only when a doubling meets a set top bit on a wider multiplier (a 9-bit `000000001` times `1` runs in Java). Every call in the source uses 4-bit units, so no caller is cut off.
- BlockText.StringToBlocks requires `blockSize > 0`. The source divides by zero for 0 and allocates a negative-size array for a negative size.
- BlockText.StringToBlocks and BlockText.TextBlocks take a Dafny `string`, whose characters are Unicode scalar values. Java's `stringToBlocks` reads UTF-16 code units. A Java string is modelled only when it holds no surrogate code units: "\uD83D\uDE00" is two code units (nibbles 0xD and 0x0) in Java, but one Dafny character 0x1F600 (nibble 0x0), so it cannot be given to the model.
- BlockText.TextAsWritten and BlockText.TextOf work on Dafny `char`, which has no surrogate code units (0xD800 to 0xDFFF). Java `char` does. Every character either function builds is below 16, so no such value arises.
- Timing, side channels and key management have no code in the source.
- Aes.AES.Cipher and Aes.AES.Decipher use the generator as written, like the source. The corrected behaviour is stated on the functions Aes.AesEncrypt and Aes.AesDecrypt with `FixedGenerator`.

## Findings

| source | as written | input that shows it | evidently intended | confidence | as-written member | corrected member |
|---|---|---|---|---|---|---|
| src/com/dauphine/aes/Block.java:213 | doubling XORs with the first four bits of `00011011`, i.e. `0001`, so on 4-bit units it reduces by x^4 + 1 (a rotation) and `{{9, 2}, {2, 9}}` is not the inverse of `{{1, 4}, {4, 1}}` | the column (1, 0): the matrix gives (1, 4), and the inverse gives 9*4 xOr 2*1 = 6 xOr 2 = 4 in place of 0 | reduction by x^4 + x + 1 (`0011` on four bits), under which decipher undoes cipher | not executed | Aes.RoundTripFails | Aes.CorrectedRoundTrip |
| src/com/dauphine/aes/Block.java:355 | bit j of character i is read at index i * 7 - j, which is -1 for i = 0, j = 1 | `blocksToString(stringToBlocks("A", 1))` throws an index-out-of-bounds exception | index i * 4 + 3 - j, the inverse of `stringToBlocks`' layout | not executed | BlockText.TextAsWrittenCounterexample | BlockText.TextRoundTrip |

The code builds `NUMBER_ROUNDS` round keys and uses keys 0 to `NUMBER_ROUNDS - 1`. A schedule
of `NUMBER_ROUNDS + 1` keys, as in FIPS 197 section 5.2, is not what the code does. The model
follows the code (`Keys.Schedule`).
