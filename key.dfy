/**
 * Round keys (Key.java) and the key-schedule function g (Block.g).
 *
 * A key is NumberBlocks words; for the 16-bit cipher key each word is 8 bits and each
 * element (a word's segment) is one 4-bit unit.
 */
module Keys {
  import opened Sizes
  import opened Blocks
  import opened SBoxes

  /** Width of a key word. */
  const WordWidth: nat := 2 * UnitWidth

  // ---------------------------------------------------------------------------
  // Words and elements

  /** Key(Block): word i is segment i of NumberBlocks. */
  function WordsOf(key: Block): (ws: seq<Block>)
    ensures |ws| == NumberBlocks
    ensures forall i :: 0 <= i < NumberBlocks ==> |ws[i]| == |key| / NumberBlocks
  {
    Split(key, NumberBlocks)
  }

  /** The words of a key of even width, laid end to end, are the key. */
  lemma WordsJoin(key: Block)
    requires |key| % NumberBlocks == 0
    ensures Concat(WordsOf(key)) == key
  {
    SegmentsJoin(key, NumberBlocks);
  }

  /** A key of NumberBlocks words of WordWidth bits. */
  predicate KeyWords(ws: seq<Block>)
  {
    |ws| == NumberBlocks && forall i :: 0 <= i < NumberBlocks ==> |ws[i]| == WordWidth
  }

  /** Key.element(i, j): segment j of NumberBlocks of word i. */
  function WordElement(ws: seq<Block>, i: int, j: int): (r: Block)
    requires 0 <= i < |ws| && 0 <= j < NumberBlocks
    ensures |r| == |ws[i]| / NumberBlocks
  {
    SegmentFits(|ws[i]|, NumberBlocks, j);
    Segment(ws[i], NumberBlocks, j)
  }

  /** The two elements of a key word are its high and its low unit. */
  lemma ElementsOfWord(ws: seq<Block>, i: int)
    requires KeyWords(ws) && 0 <= i < NumberBlocks
    ensures WordElement(ws, i, 0) == ws[i][..UnitWidth]
    ensures WordElement(ws, i, 1) == ws[i][UnitWidth..]
    ensures ws[i] == WordElement(ws, i, 0) + WordElement(ws, i, 1)
  {
    Halves(ws[i]);
    assert ws[i] == ws[i][..UnitWidth] + ws[i][UnitWidth..];
  }

  // ---------------------------------------------------------------------------
  // g

  /** The round constant as Block.g widens it: its text followed by twelve '0' characters. */
  function Padded(rc: Block): (r: Block)
    ensures r == rc + Zeros(12)
  {
    Parse(Binary(rc) + seq(12, _ => '0'))
  }

  /** g is defined: both halves of the word select an S-box entry and the round constant is wide enough. */
  predicate GDefined(w: Block, t: Table, rc: Block)
  {
    InTable(t, Segment(w, 2, 1)) && InTable(t, Segment(w, 2, 0)) && 2 * (|w| / 2) <= |rc| + 12
  }

  /** Block.g: substitute the low half then the high half, concatenate, and XOR with the padded round constant. */
  function G(w: Block, t: Table, rc: Block): (r: Block)
    requires GDefined(w, t, rc)
    ensures |r| == 2 * (|w| / 2)
  {
    ConcatPair(Lookup(t, Segment(w, 2, 1)), Lookup(t, Segment(w, 2, 0)));
    Xor(Concat([Lookup(t, Segment(w, 2, 1)), Lookup(t, Segment(w, 2, 0))]), Padded(rc))
  }

  /**
   * On a key word, g swaps the halves through the S-box and adds the round constant to the
   * leading unit only: the twelve padding zeros leave the low unit as it came from the S-box.
   */
  lemma GHalves(w: Block, t: Table, rc: Block)
    requires |w| == WordWidth && CoversUnits(t) && |rc| == UnitWidth
    ensures GDefined(w, t, rc)
    ensures G(w, t, rc) == Xor(Lookup(t, w[UnitWidth..]), rc) + Lookup(t, w[..UnitWidth])
  {
    Halves(w);
    UnitLookup(t, w[..UnitWidth]);
    UnitLookup(t, w[UnitWidth..]);
    var hi, lo := Lookup(t, w[UnitWidth..]), Lookup(t, w[..UnitWidth]);
    ConcatPair(hi, lo);
    var r := G(w, t, rc);
    var want := Xor(hi, rc) + lo;
    assert |r| == |want|;
    forall k | 0 <= k < |r|
      ensures r[k] == want[k]
    {
      if k >= UnitWidth {
        assert Padded(rc)[k] == false;
      }
    }
  }

  /** Block.g: the loop over the two halves, then the concatenation and the XOR with the padded constant. */
  method ApplyG(w: Block, sBox: SBox, rc: Block) returns (r: Block)
    requires sBox.Valid() && GDefined(w, sBox.table, rc)
    ensures r == G(w, sBox.table, rc)
  {
    var subBlocks := SubstituteHalves(w, sBox);
    var newBlock := NewConcat(subBlocks);
    var padded := PadConstant(rc);
    r := XOr(newBlock, padded);
  }

  /** The loop of Block.g: entry i is the S-box image of segment (i + 1) % 2 of the word. */
  method SubstituteHalves(w: Block, sBox: SBox) returns (subBlocks: seq<Block>)
    requires sBox.Valid() && InTable(sBox.table, Segment(w, 2, 1)) && InTable(sBox.table, Segment(w, 2, 0))
    ensures subBlocks == [Lookup(sBox.table, Segment(w, 2, 1)), Lookup(sBox.table, Segment(w, 2, 0))]
  {
    ghost var images := [Lookup(sBox.table, Segment(w, 2, 1)), Lookup(sBox.table, Segment(w, 2, 0))];
    subBlocks := [];
    for i := 0 to 2
      invariant subBlocks == images[..i]
    {
      var half := (i + 1) % 2;
      assert half == 1 - i;
      subBlocks := subBlocks + [sBox.Cipher(Segment(w, 2, half))];
    }
  }

  /** new Block(roundConstant.toString() + "0".repeat(12)) in Block.g. */
  method PadConstant(rc: Block) returns (padded: Block)
    ensures padded == Padded(rc)
  {
    var text := ToString(rc);
    padded := NewFromString(text + seq(12, _ => '0'));
  }

  // ---------------------------------------------------------------------------
  // Round constants and the schedule

  /** The round constant after `i` rounds: Block(4, 8) = 1000, doubled once per round. */
  function RoundConstant(i: nat, gen: Block): (r: Block)
    requires UnitWidth <= |gen|
    ensures |r| == UnitWidth
  {
    if i == 0 then FromValue(UnitWidth, 8) else MulX(RoundConstant(i - 1, gen), gen)
  }

  /** With the source's generator the constant is 1000 for round 1 and 0001 for round 2. */
  lemma RoundConstants()
    ensures RoundConstant(0, GeneratorPolynomial) == [true, false, false, false]
    ensures RoundConstant(1, GeneratorPolynomial) == [false, false, false, true]
  {
    assert FromValue(1, 1) == [true];
    assert FromValue(2, 2) == [true, false];
    assert FromValue(3, 4) == [true, false, false];
    assert FromValue(4, 8) == [true, false, false, false];
  }

  /** Word j of the next round key: word 0 takes g of the last word, each later word the new word before it. */
  function NextWord(ws: seq<Block>, t: Table, rc: Block, j: nat): (r: Block)
    requires KeyWords(ws) && CoversUnits(t) && |rc| == UnitWidth && j < NumberBlocks
    ensures |r| == WordWidth
  {
    GHalves(ws[NumberBlocks - 1], t, rc);
    if j == 0 then Xor(ws[0], G(ws[NumberBlocks - 1], t, rc))
    else Xor(ws[j], NextWord(ws, t, rc, j - 1))
  }

  /** The words of the next round key (one pass of genSubKeys' loop). */
  function NextWords(ws: seq<Block>, t: Table, rc: Block): (r: seq<Block>)
    requires KeyWords(ws) && CoversUnits(t) && |rc| == UnitWidth
    ensures KeyWords(r)
  {
    seq(NumberBlocks, j requires 0 <= j < NumberBlocks => NextWord(ws, t, rc, j))
  }

  /** The previous round key from the next: undo the chain from the last word back to word 0. */
  function PreviousWords(next: seq<Block>, t: Table, rc: Block): (r: seq<Block>)
    requires KeyWords(next) && CoversUnits(t) && |rc| == UnitWidth
    ensures KeyWords(r)
  {
    var last := Xor(next[1], next[0]);
    GHalves(last, t, rc);
    [Xor(next[0], G(last, t, rc)), last]
  }

  /** The key expansion step loses nothing: the previous key is recovered from the next. */
  lemma PreviousOfNext(ws: seq<Block>, t: Table, rc: Block)
    requires KeyWords(ws) && CoversUnits(t) && |rc| == UnitWidth
    ensures PreviousWords(NextWords(ws, t, rc), t, rc) == ws
  {
    var n := NextWords(ws, t, rc);
    XorCancel(ws[1], n[0]);
    GHalves(ws[1], t, rc);
    XorCancel(ws[0], G(ws[1], t, rc));
  }

  /** Round key i of the schedule that starts from `ws`. */
  function SubKey(ws: seq<Block>, t: Table, gen: Block, i: nat): (r: seq<Block>)
    requires KeyWords(ws) && CoversUnits(t) && UnitWidth <= |gen|
    ensures KeyWords(r)
  {
    if i == 0 then ws else NextWords(SubKey(ws, t, gen, i - 1), t, RoundConstant(i - 1, gen))
  }

  /** genSubKeys: NumberRounds round keys, the first being the cipher key itself. */
  function Schedule(ws: seq<Block>, t: Table, gen: Block): (r: seq<seq<Block>>)
    requires KeyWords(ws) && CoversUnits(t) && UnitWidth <= |gen|
    ensures |r| == NumberRounds && r[0] == ws
    ensures forall i :: 0 <= i < NumberRounds ==> KeyWords(r[i])
  {
    seq(NumberRounds, i requires 0 <= i < NumberRounds => SubKey(ws, t, gen, i))
  }

  // ---------------------------------------------------------------------------
  // The Key class

  /** Key: NumberBlocks words, never changed after construction. */
  class Key {
    /** Key.bytes */
    const bytes: array<Block>

    function Words(): seq<Block>
      reads bytes
    {
      bytes[..]
    }

    /** Key(Block): the words are the segments of the block. */
    constructor FromBlock(block: Block)
      ensures fresh(bytes) && Words() == WordsOf(block)
    {
      var words := new Block[NumberBlocks](_ => []);
      for i := 0 to NumberBlocks
        invariant forall k :: 0 <= k < i ==> words[k] == WordsOf(block)[k]
      {
        SegmentFits(|block|, NumberBlocks, i);
        words[i] := Segment(block, NumberBlocks, i);
      }
      bytes := words;
    }

    /** Key(Block[]): a private array holding copies of the first NumberBlocks blocks. */
    constructor FromWords(blocks: array<Block>)
      requires blocks.Length >= NumberBlocks
      ensures fresh(bytes) && Words() == blocks[..NumberBlocks]
    {
      var words := new Block[NumberBlocks](_ => []);
      for i := 0 to NumberBlocks
        invariant forall k :: 0 <= k < i ==> words[k] == blocks[k]
      {
        words[i] := blocks[i];
      }
      bytes := words;
    }

    /** Key(Key): a copy that shares no array with the original. */
    constructor Copy(key: Key)
      requires key.bytes.Length >= NumberBlocks
      ensures fresh(bytes) && Words() == key.Words()[..NumberBlocks]
    {
      var words := new Block[NumberBlocks](_ => []);
      for i := 0 to NumberBlocks
        invariant forall k :: 0 <= k < i ==> words[k] == key.bytes[k]
      {
        words[i] := key.bytes[i];
      }
      bytes := words;
    }

    /** Key.element(i, j): segment j of word i. */
    function Element(i: int, j: int): (r: Block)
      reads bytes
      requires 0 <= i < bytes.Length && 0 <= j < NumberBlocks
      ensures r == WordElement(Words(), i, j)
    {
      SegmentFits(|bytes[i]|, NumberBlocks, j);
      Segment(bytes[i], NumberBlocks, j)
    }

    /**
     * genSubKeys: NumberRounds round keys. Key 0 is a copy of this key; each later key is the
     * expansion of the one before with the current round constant, which is doubled after
     * every round.
     */
    method GenSubKeys(sBox: SBox) returns (subKeys: array<Key>)
      requires sBox.Valid() && KeyWords(Words()) && CoversUnits(sBox.table)
      ensures fresh(subKeys) && subKeys.Length == NumberRounds
      ensures forall i :: 0 <= i < NumberRounds ==>
        subKeys[i].Words() == Schedule(Words(), sBox.table, GeneratorPolynomial)[i]
      ensures forall i :: 0 <= i < NumberRounds ==> fresh(subKeys[i].bytes)
      ensures forall i, j :: 0 <= i < j < NumberRounds ==> subKeys[i].bytes != subKeys[j].bytes
    {
      ghost var ws, t := Words(), sBox.table;
      var roundConstant := NewFromValue(NumberBlocks * 2, 8);
      var first := new Key.Copy(this);
      subKeys := new Key[NumberRounds](_ => first);
      for i := 1 to NumberRounds
        invariant roundConstant == RoundConstant(i - 1, GeneratorPolynomial)
        invariant forall k :: 0 <= k < i ==> subKeys[k].Words() == SubKey(ws, t, GeneratorPolynomial, k)
        invariant forall k :: 0 <= k < i ==> fresh(subKeys[k].bytes)
        invariant forall k, l :: 0 <= k < l < i ==> subKeys[k].bytes != subKeys[l].bytes
      {
        subKeys[i] := subKeys[i - 1].Expand(sBox, roundConstant);
        roundConstant := MulX(roundConstant, GeneratorPolynomial);
      }
    }

    /** One pass of genSubKeys' loop: the next round key after this one. */
    method Expand(sBox: SBox, roundConstant: Block) returns (key: Key)
      requires sBox.Valid() && KeyWords(Words()) && CoversUnits(sBox.table) && |roundConstant| == UnitWidth
      ensures fresh(key.bytes) && key.Words() == NextWords(Words(), sBox.table, roundConstant)
    {
      ghost var ws, t := Words(), sBox.table;
      var gApplied := ApplyG(bytes[bytes.Length - 1], sBox, roundConstant);
      var next := new Block[NumberBlocks](_ => []);
      next[0] := XOr(bytes[0], gApplied);
      for j := 1 to NumberBlocks
        invariant forall k :: 0 <= k < j ==> next[k] == NextWord(ws, t, roundConstant, k)
      {
        next[j] := XOr(bytes[j], next[j - 1]);
      }
      key := new Key.FromWords(next);
    }
  }
}
