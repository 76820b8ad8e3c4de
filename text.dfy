/**
 * Text and blocks (Block.stringToBlocks, Block.blocksToString): every character becomes the
 * four bits of its low nibble, most significant first, and groups of characters become one
 * block each; the way back reads each four bits of a block as one character.
 */
module BlockText {
  import opened Blocks

  datatype Option<T> = None | Some(value: T)

  /** Block.BIT * 2: the bits kept of each character. */
  const CharWidth: nat := 4

  /** Java's `(ch & (1 << k)) != 0`: bit k of the character's code. */
  function CharBit(ch: char, k: nat): bool
  {
    LowBit(Halve(ch as int, k))
  }

  /** The block stringToBlocks makes of one character: bit CharWidth - 1 - k is bit k of its code. */
  function Nibble(ch: char): (b: Block)
    ensures |b| == CharWidth
  {
    FromValue(CharWidth, ch as int)
  }

  /** The nibbles of a group of characters, laid end to end. */
  function GroupBlock(g: string): (b: Block)
  {
    Concat(seq(|g|, j requires 0 <= j < |g| => Nibble(g[j])))
  }

  /** Group i of `size` characters lies inside a text of n characters when i < n / size. */
  lemma GroupFits(n: nat, size: int, i: int)
    requires size > 0 && 0 <= i < n / size
    ensures 0 <= i * size && i * size + size <= n
  {
    MulMono(0, i, size);
    MulMono(i + 1, n / size, size);
    assert (n / size) * size + n % size == n;
  }

  /** A length the group size divides is a whole number of groups. */
  lemma DivExact(n: nat, size: int)
    requires size > 0 && n % size == 0
    ensures (n / size) * size == n
  {
  }

  /** stringToBlocks: one block per whole group of `size` characters; a trailing partial group is dropped. */
  function TextBlocks(s: string, size: int): (blocks: seq<Block>)
    requires size > 0
    ensures |blocks| == |s| / size
  {
    seq(|s| / size, i requires 0 <= i < |s| / size =>
      GroupFits(|s|, size, i);
      GroupBlock(s[i * size .. i * size + size]))
  }

  /** The character blocksToString makes of four bits: bit j of its code is bit CharWidth - 1 - j. */
  function CharOf(nibble: Block): (ch: char)
    requires |nibble| == CharWidth
    ensures (ch as int) < 16
  {
    Decimal(nibble) as char
  }

  /** The characters blocksToString reads from one block: one per whole group of four bits. */
  function Decode(b: Block): (s: string)
    ensures |s| == |b| / CharWidth
  {
    seq(|b| / CharWidth, i requires 0 <= i < |b| / CharWidth =>
      GroupFits(|b|, CharWidth, i);
      CharOf(b[i * CharWidth .. i * CharWidth + CharWidth]))
  }

  /** blocksToString: the characters of every block, block after block. */
  function TextOf(blocks: seq<Block>): (s: string)
  {
    if |blocks| == 0 then "" else TextOf(blocks[..|blocks| - 1]) + Decode(blocks[|blocks| - 1])
  }

  /** What survives of a text: each character reduced to its low nibble. */
  function LowNibbles(s: string): (r: string)
    ensures |r| == |s|
  {
    seq(|s|, k requires 0 <= k < |s| => ((s[k] as int) % 16) as char)
  }

  // ---------------------------------------------------------------------------
  // The methods

  /** Block.stringToBlocks(string, blockSize) */
  method StringToBlocks(s: string, blockSize: int) returns (blocks: seq<Block>)
    requires blockSize > 0
    ensures blocks == TextBlocks(s, blockSize)
  {
    var numberBlocks := |s| / blockSize;
    var result := new Block[numberBlocks](_ => []);
    for i := 0 to numberBlocks
      invariant forall k :: 0 <= k < i ==> result[k] == TextBlocks(s, blockSize)[k]
    {
      GroupFits(|s|, blockSize, i);
      result[i] := GroupOf(s, i * blockSize, blockSize);
    }
    blocks := result[..];
  }

  /** One pass of stringToBlocks' outer loop: the block of the `size` characters from `start` on. */
  method GroupOf(s: string, start: nat, size: nat) returns (b: Block)
    requires start + size <= |s|
    ensures b == GroupBlock(s[start .. start + size])
  {
    ghost var g := s[start .. start + size];
    var temp := new Block[size](_ => []);
    for j := 0 to size
      invariant forall k :: 0 <= k < j ==> temp[k] == Nibble(g[k])
    {
      var ch := s[start + j];
      temp[j] := CharBlock(ch);
    }
    assert temp[..] == seq(|g|, j requires 0 <= j < |g| => Nibble(g[j]));
    b := NewConcat(temp[..]);
  }

  /** The inner loop of stringToBlocks: a new four-bit block whose bit CharWidth - 1 - k is bit k of `ch`. */
  method CharBlock(ch: char) returns (b: Block)
    ensures b == Nibble(ch)
  {
    var bits := new bool[CharWidth];
    for k := 0 to CharWidth
      invariant forall t :: CharWidth - k <= t < CharWidth ==> bits[t] == Nibble(ch)[t]
    {
      FromValueBit(CharWidth, ch as int, k);
      bits[(CharWidth - 1) - k] := CharBit(ch, k);
    }
    b := FromArray(bits);
  }

  /**
   * Block.blocksToString, with the bit of a character read at i * CharWidth + (CharWidth - 1) - j.
   * The source reads i * (CharWidth + (CharWidth - 1)) - j instead (see TextAsWritten).
   */
  method BlocksToString(blocks: seq<Block>) returns (s: string)
    ensures s == TextOf(blocks)
  {
    s := "";
    for b := 0 to |blocks|
      invariant s == TextOf(blocks[..b])
    {
      var block := blocks[b];
      var numberBytes := |block| / CharWidth;
      ghost var before := s;
      for i := 0 to numberBytes
        invariant s == before + Decode(block)[..i]
      {
        GroupFits(|block|, CharWidth, i);
        var value := CharValue(block, i * CharWidth);
        s := s + [value as char];
        assert Decode(block)[..i + 1] == Decode(block)[..i] + [Decode(block)[i]];
      }
      assert Decode(block)[..numberBytes] == Decode(block);
      assert blocks[..b + 1][..b] == blocks[..b];
    }
    assert blocks[..|blocks|] == blocks;
  }

  /** The innermost loop of blocksToString: the code whose bit j is bit base + CharWidth - 1 - j of the block. */
  method CharValue(block: Block, base: nat) returns (value: nat)
    requires base + CharWidth <= |block|
    ensures value == Decimal(block[base .. base + CharWidth])
  {
    ghost var nibble := block[base .. base + CharWidth];
    value := 0;
    for j := 0 to CharWidth
      invariant value == Decimal(nibble[CharWidth - j ..])
    {
      DecimalStep(nibble, j);
      var bit := block[base + (CharWidth - 1) - j];
      assert bit == nibble[CharWidth - 1 - j];
      if bit {
        value := value + Pow2(j);
      }
    }
    assert nibble[0..] == nibble;
  }

  /** Taking in bit CharWidth - 1 - j of four bits adds 2^j when it is set. */
  lemma DecimalStep(nibble: Block, j: nat)
    requires |nibble| == CharWidth && j < CharWidth
    ensures Decimal(nibble[CharWidth - 1 - j ..]) == Bit(nibble[CharWidth - 1 - j]) * Pow2(j) + Decimal(nibble[CharWidth - j ..])
  {
    var x := nibble[CharWidth - 1 - j];
    assert nibble[CharWidth - 1 - j ..] == [x] + nibble[CharWidth - j ..];
    DecimalAppend([x], nibble[CharWidth - j ..]);
    assert Decimal([x]) == Bit(x) by {
      assert [x][..0] == [];
    }
  }

  // ---------------------------------------------------------------------------
  // Round trips

  /** A character comes back from its nibble reduced to its low four bits. */
  lemma NibbleBack(ch: char)
    ensures CharOf(Nibble(ch)) == ((ch as int) % 16) as char
  {
    DecimalFromValue(CharWidth, ch as int);
    assert Pow2(CharWidth) == 16;
  }

  /** Four bits come back from the character they encode. */
  lemma CharBack(nibble: Block)
    requires |nibble| == CharWidth
    ensures Nibble(CharOf(nibble)) == nibble
  {
    FromValueDecimal(nibble);
  }

  /** Reading the block of a group gives back the group's low nibbles. */
  lemma GroupBack(g: string)
    ensures Decode(GroupBlock(g)) == LowNibbles(g)
  {
    var parts := seq(|g|, j requires 0 <= j < |g| => Nibble(g[j]));
    var c := Concat(parts);
    TotalLengthUniform(parts, CharWidth);
    assert |c| == |g| * CharWidth;
    ModUnique(|c|, CharWidth, |g|, 0);
    forall k | 0 <= k < |g|
      ensures Decode(c)[k] == LowNibbles(g)[k]
    {
      SegmentOfConcat(parts, CharWidth, k);
      ConcatWidth(parts, CharWidth, k);
      assert c[k * CharWidth .. k * CharWidth + CharWidth] == Nibble(g[k]);
      NibbleBack(g[k]);
    }
  }

  /** A block of whole four-bit groups comes back from the characters it is read as. */
  lemma BlockBack(b: Block)
    requires |b| % CharWidth == 0
    ensures GroupBlock(Decode(b)) == b
  {
    var d := Decode(b);
    var n := |d|;
    ModUnique(|b|, CharWidth, n, 0);
    if n == 0 {
      assert b == [];
    } else {
      var parts := seq(|d|, j requires 0 <= j < |d| => Nibble(d[j]));
      assert |b| / n == CharWidth by {
        ModUnique(|b|, n, CharWidth, 0);
      }
      forall k | 0 <= k < n
        ensures parts[k] == Split(b, n)[k]
      {
        GroupFits(|b|, CharWidth, k);
        CharBack(b[k * CharWidth .. k * CharWidth + CharWidth]);
      }
      assert parts == Split(b, n);
      assert |b| % n == 0 by {
        ModUnique(|b|, n, CharWidth, 0);
      }
      SegmentsJoin(b, n);
    }
  }

  /** The first m blocks of stringToBlocks read back as the low nibbles of the first m groups. */
  lemma {:induction false} TextOfPrefix(s: string, size: int, m: nat)
    requires size > 0 && m <= |s| / size
    ensures m * size <= |s|
    ensures TextOf(TextBlocks(s, size)[..m]) == LowNibbles(s[..m * size])
  {
    var blocks := TextBlocks(s, size);
    if m == 0 {
      assert blocks[..0] == [];
      assert s[..0 * size] == [];
    } else {
      TextOfPrefix(s, size, m - 1);
      GroupFits(|s|, size, m - 1);
      var lo := (m - 1) * size;
      MulStep(m, size);
      var g := s[lo .. lo + size];
      calc {
        TextOf(blocks[..m]);
      == { assert blocks[..m][..m - 1] == blocks[..m - 1]; }
        TextOf(blocks[..m - 1]) + Decode(GroupBlock(g));
      == { GroupBack(g); }
        LowNibbles(s[..lo]) + LowNibbles(g);
      == { LowNibblesAppend(s[..lo], g); }
        LowNibbles(s[..lo] + g);
      == { assert s[..m * size] == s[..lo] + g; }
        LowNibbles(s[..m * size]);
      }
    }
  }

  /** One more group of `size` ends at (m - 1) * size + size = m * size. */
  lemma MulStep(m: int, size: int)
    ensures (m - 1) * size + size == m * size
  {
  }

  /** Reducing characters to their low nibbles distributes over concatenation. */
  lemma LowNibblesAppend(a: string, b: string)
    ensures LowNibbles(a + b) == LowNibbles(a) + LowNibbles(b)
  {
  }

  /**
   * blocksToString(stringToBlocks(s, size)) is s cut to whole groups, each character reduced
   * to its low nibble.
   */
  lemma TextRoundTrip(s: string, size: int)
    requires size > 0
    ensures (|s| / size) * size <= |s|
    ensures TextOf(TextBlocks(s, size)) == LowNibbles(s[..(|s| / size) * size])
  {
    var blocks := TextBlocks(s, size);
    TextOfPrefix(s, size, |s| / size);
    assert blocks[..|blocks|] == blocks;
  }

  /** A text of nibble characters whose length the group size divides comes back unchanged. */
  lemma NibbleTextRoundTrip(s: string, size: int)
    requires size > 0 && |s| % size == 0
    requires forall k :: 0 <= k < |s| ==> (s[k] as int) < 16
    ensures TextOf(TextBlocks(s, size)) == s
  {
    TextRoundTrip(s, size);
    var n := (|s| / size) * size;
    DivExact(|s|, size);
    assert s[..n] == s;
    LowNibblesOfNibbles(s);
  }

  /** Characters below 16 are their own low nibbles. */
  lemma LowNibblesOfNibbles(s: string)
    requires forall k :: 0 <= k < |s| ==> (s[k] as int) < 16
    ensures LowNibbles(s) == s
  {
    forall k | 0 <= k < |s|
      ensures LowNibbles(s)[k] == s[k]
    {
      var c := s[k] as int;
      assert c % 16 == c;
    }
  }

  /** Blocks of size * CharWidth bits read as `size` characters each. */
  lemma {:induction false} TextLength(blocks: seq<Block>, size: nat)
    requires forall k :: 0 <= k < |blocks| ==> |blocks[k]| == size * CharWidth
    ensures |TextOf(blocks)| == |blocks| * size
  {
    if |blocks| > 0 {
      var last := blocks[|blocks| - 1];
      TextLength(blocks[..|blocks| - 1], size);
      ModUnique(|last|, CharWidth, size, 0);
    }
  }

  /** A text of n whole groups followed by one more group makes one more block. */
  lemma TextBlocksAppend(t: string, d: string, size: int, n: nat)
    requires size > 0 && |t| == n * size && |d| == size
    ensures TextBlocks(t + d, size) == TextBlocks(t, size) + [GroupBlock(d)]
  {
    ModUnique(|t|, size, n, 0);
    ModUnique(|t + d|, size, n + 1, 0);
    var r, q := TextBlocks(t + d, size), TextBlocks(t, size) + [GroupBlock(d)];
    forall i | 0 <= i < n + 1
      ensures r[i] == q[i]
    {
      GroupFits(|t + d|, size, i);
      if i < n {
        GroupFits(|t|, size, i);
        assert (t + d)[i * size .. i * size + size] == t[i * size .. i * size + size];
      } else {
        assert (t + d)[i * size .. i * size + size] == d;
      }
    }
  }

  /** stringToBlocks(blocksToString(blocks), size) gives back blocks of size * CharWidth bits each. */
  lemma {:induction false} BlocksRoundTrip(blocks: seq<Block>, size: int)
    requires size > 0
    requires forall k :: 0 <= k < |blocks| ==> |blocks[k]| == size * CharWidth
    ensures TextBlocks(TextOf(blocks), size) == blocks
  {
    if |blocks| == 0 {
      assert TextOf(blocks) == "";
    } else {
      var p, last := blocks[..|blocks| - 1], blocks[|blocks| - 1];
      BlocksRoundTrip(p, size);
      TextLength(p, size);
      ModUnique(|last|, CharWidth, size, 0);
      TextBlocksAppend(TextOf(p), Decode(last), size, |p|);
      BlockBack(last);
      assert blocks == p + [last];
    }
  }

  // ---------------------------------------------------------------------------
  // blocksToString as written

  /** The index the source reads for bit j of character i: i * (CharWidth + (CharWidth - 1)) - j. */
  function IndexAsWritten(i: int, j: int): int
  {
    i * (CharWidth + (CharWidth - 1)) - j
  }

  /** The innermost loop as written, from bit j on; None when it reads outside the block (an exception). */
  function ValueAsWritten(block: Block, i: nat, j: nat, value: nat): (r: Option<nat>)
    requires j <= CharWidth && value < Pow2(j)
    ensures r.Some? ==> r.value < Pow2(CharWidth)
    decreases CharWidth - j
  {
    if j >= CharWidth then Some(value)
    else
      var index := IndexAsWritten(i, j);
      if index < 0 || index >= |block| then None
      else ValueAsWritten(block, i, j + 1, if block[index] then value + Pow2(j) else value)
  }

  /** The characters of one block as written, from character i on; None on an exception. */
  function DecodeAsWritten(block: Block, i: nat): (r: Option<string>)
    decreases |block| / CharWidth - i
  {
    if i >= |block| / CharWidth then Some("")
    else match ValueAsWritten(block, i, 0, 0)
      case None => None
      case Some(v) =>
        assert Pow2(CharWidth) == 16;
        match DecodeAsWritten(block, i + 1)
          case None => None
          case Some(rest) => Some([v as char] + rest)
  }

  /** Block.blocksToString as written; None when it throws. */
  function TextAsWritten(blocks: seq<Block>): (r: Option<string>)
  {
    if |blocks| == 0 then Some("")
    else match TextAsWritten(blocks[..|blocks| - 1])
      case None => None
      case Some(t) =>
        match DecodeAsWritten(blocks[|blocks| - 1], 0)
          case None => None
          case Some(d) => Some(t + d)
  }

  /** As written, character 0 of any block of four bits or more reads index -1 at bit 1. */
  lemma DecodeAsWrittenFails(block: Block)
    ensures DecodeAsWritten(block, 0) == if |block| >= CharWidth then None else Some("")
  {
    if |block| >= CharWidth {
      assert IndexAsWritten(0, 1) == -1;
      assert ValueAsWritten(block, 0, 1, if block[0] then 1 else 0) == None;
      assert ValueAsWritten(block, 0, 0, 0) == None;
    }
  }

  /** As written, blocksToString throws exactly when some block holds a whole character, and otherwise returns "". */
  lemma {:induction false} TextAsWrittenFails(blocks: seq<Block>)
    ensures TextAsWritten(blocks).None? <==> exists k :: 0 <= k < |blocks| && |blocks[k]| >= CharWidth
    ensures TextAsWritten(blocks).Some? ==> TextAsWritten(blocks).value == ""
  {
    if |blocks| > 0 {
      var p := blocks[..|blocks| - 1];
      TextAsWrittenFails(p);
      DecodeAsWrittenFails(blocks[|blocks| - 1]);
      if exists k :: 0 <= k < |p| && |p[k]| >= CharWidth {
        var k :| 0 <= k < |p| && |p[k]| >= CharWidth;
        assert blocks[k] == p[k];
      }
      if exists k :: 0 <= k < |blocks| && |blocks[k]| >= CharWidth {
        var k :| 0 <= k < |blocks| && |blocks[k]| >= CharWidth;
        if k < |blocks| - 1 {
          assert p[k] == blocks[k];
        }
      }
    }
  }

  /** The text "A" in groups of one: as written the way back throws, corrected it gives "A" reduced to its nibble. */
  lemma TextAsWrittenCounterexample()
    ensures TextAsWritten(TextBlocks("A", 1)) == None
    ensures TextOf(TextBlocks("A", 1)) == [1 as char]
  {
    var blocks := TextBlocks("A", 1);
    assert |blocks[0]| == CharWidth by {
      var parts := seq(1, j requires 0 <= j < 1 => Nibble("A"[j]));
      TotalLengthUniform(parts, CharWidth);
    }
    TextAsWrittenFails(blocks);
    TextRoundTrip("A", 1);
    assert "A"[..1] == "A";
    assert ('A' as int) % 16 == 1;
  }
}
