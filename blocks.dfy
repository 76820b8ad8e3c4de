/**
 * Bit blocks (Block.java): fixed-length bit strings, most significant bit first, with
 * XOR, shifting, field doubling and multiplication, segmentation, concatenation,
 * decimal and binary-text encodings.
 *
 * A Java Block is never changed after its constructor returns, so a block is modelled
 * as a value. The constructors and transforms that fill a `boolean[]` in a loop are
 * methods that fill an `array<bool>` the same way and are proved equal to a function
 * on values; the lemmas state what those functions mean.
 */
module Blocks {

  /** The bits of a block, most significant first (Block.bits). */
  type Block = seq<bool>

  /** Block.GENERATOR_POLYNOMIAL, the bit pattern "00011011". */
  const GeneratorPolynomial: Block := [false, false, false, true, true, false, true, true]

  function Pow2(n: nat): (r: nat)
    ensures r >= 1
  {
    if n == 0 then 1 else 2 * Pow2(n - 1)
  }

  function Bit(b: bool): nat
  {
    if b then 1 else 0
  }

  // ---------------------------------------------------------------------------
  // Arithmetic helpers

  lemma {:induction false} MulAtLeast(m: int, k: int)
    requires m > 0 && k >= 1
    ensures m * k >= m
    decreases k
  {
    if k > 1 {
      MulAtLeast(m, k - 1);
      assert m * k == m * (k - 1) + m;
    }
  }

  lemma {:induction false} MulMono(a: int, b: int, c: int)
    requires a <= b && c >= 0
    ensures a * c <= b * c
    decreases b - a
  {
    if a < b {
      MulMono(a, b - 1, c);
      assert b * c == (b - 1) * c + c;
    }
  }

  /** Quotient and remainder are the only ones: v == m*q + t with 0 <= t < m fixes both. */
  lemma ModUnique(v: int, m: int, q: int, t: int)
    requires 0 < m && 0 <= t < m && v == m * q + t
    ensures v % m == t && v / m == q
  {
    var q', t' := v / m, v % m;
    assert v == m * q' + t';
    assert m * q - m * q' == m * (q - q');
    assert m * q' - m * q == m * (q' - q);
    if q > q' {
      MulAtLeast(m, q - q');
    } else if q < q' {
      MulAtLeast(m, q' - q);
    }
  }

  lemma Twice(x: int, y: int)
    ensures 2 * (x * y) == x * (2 * y) == (2 * x) * y
  {
  }

  lemma Pow2Add(a: nat, b: nat)
    ensures Pow2(a + b) == Pow2(a) * Pow2(b)
  {
    if a > 0 {
      Pow2Add(a - 1, b);
    }
  }

  // ---------------------------------------------------------------------------
  // Block(size), Block(boolean[])

  /** Block(size): a block of `n` bits, all clear (Java's default for boolean arrays). */
  function Zeros(n: nat): (r: Block)
    ensures |r| == n && forall i :: 0 <= i < n ==> !r[i]
  {
    seq(n, _ => false)
  }

  /** Block(boolean[]): the block takes a copy of the array's current bits. */
  method FromArray(bits: array<bool>) returns (b: Block)
    ensures |b| == bits.Length && forall i :: 0 <= i < bits.Length ==> b[i] == bits[i]
  {
    b := bits[..];
  }

  // ---------------------------------------------------------------------------
  // Block(size, value) and toDecimal

  /** Java's `value % 2 == 1`: only an odd non-negative value has remainder 1. */
  function LowBit(v: int): bool
  {
    v >= 0 && v % 2 == 1
  }

  /** Java's `value / 2`, which truncates toward zero. */
  function Half(v: int): int
  {
    if v >= 0 then v / 2 else -((-v) / 2)
  }

  /** `v` after `k` Java halvings. */
  function Halve(v: int, k: nat): int
  {
    if k == 0 then v else Half(Halve(v, k - 1))
  }

  /** Block(size, value): the last bit is the low bit of `value`, each earlier bit the low bit of the halved value. */
  function FromValue(n: nat, v: int): (r: Block)
    ensures |r| == n
  {
    if n == 0 then [] else FromValue(n - 1, Half(v)) + [LowBit(v)]
  }

  /** toDecimal: the bits read as an unsigned binary number, most significant first. */
  function Decimal(b: Block): (r: nat)
    ensures r < Pow2(|b|)
  {
    if |b| == 0 then 0 else 2 * Decimal(b[..|b| - 1]) + Bit(b[|b| - 1])
  }

  lemma {:induction false} HalveOfHalf(v: int, k: nat)
    ensures Halve(Half(v), k) == Half(Halve(v, k))
  {
    if k > 0 {
      HalveOfHalf(v, k - 1);
    }
  }

  /** Bit `n - 1 - k` of Block(n, v), counted from the most significant end, is the low bit of `v` halved `k` times. */
  lemma {:induction false} FromValueBit(n: nat, v: int, k: nat)
    requires k < n
    ensures FromValue(n, v)[n - 1 - k] == LowBit(Halve(v, k))
  {
    if k > 0 {
      FromValueBit(n - 1, Half(v), k - 1);
      HalveOfHalf(v, k - 1);
    }
  }

  method NewFromValue(size: nat, value: int) returns (b: Block)
    ensures b == FromValue(size, value)
  {
    var bits := new bool[size];
    var v := value;
    var i: int := size - 1;
    while i > -1
      invariant -1 <= i < size
      invariant v == Halve(value, size - 1 - i)
      invariant forall k :: i < k < size ==> bits[k] == FromValue(size, value)[k]
    {
      FromValueBit(size, value, size - 1 - i);
      bits[i] := LowBit(v);
      v := Half(v);
      i := i - 1;
    }
    b := FromArray(bits);
  }

  method ToDecimal(b: Block) returns (d: nat)
    ensures d == Decimal(b)
  {
    d := 0;
    for i := 0 to |b|
      invariant d == Decimal(b[..i])
    {
      assert b[..i + 1][..i] == b[..i];
      d := 2 * d + Bit(b[i]);
    }
    assert b[..|b|] == b;
  }

  /** Decimal of a concatenation: the prefix is scaled by the width of the suffix. */
  lemma {:induction false} DecimalAppend(a: Block, c: Block)
    ensures Decimal(a + c) == Decimal(a) * Pow2(|c|) + Decimal(c)
  {
    if |c| > 0 {
      var c' := c[..|c| - 1];
      var x := c[|c| - 1];
      assert (a + c)[..|a + c| - 1] == a + c';
      assert (a + c)[|a + c| - 1] == x;
      DecimalAppend(a, c');
      var da, p := Decimal(a), Pow2(|c'|);
      assert Decimal(a + c) == 2 * (da * p + Decimal(c')) + Bit(x);
      Twice(da, p);
    } else {
      assert a + c == a;
    }
  }

  lemma StepArith(v: int, h: int, bit: int, p: int, q: int, d: int)
    requires v == 2 * h + bit && h == p * q + d
    ensures v == (2 * p) * q + (2 * d + bit)
  {
    Twice(p, q);
  }

  /** Block(n, v) keeps the n low bits of v; halving n times drops exactly those. */
  lemma {:induction false} ValueSplit(n: nat, v: int)
    requires v >= 0
    ensures v == Pow2(n) * Halve(v, n) + Decimal(FromValue(n, v))
  {
    if n > 0 {
      var f := FromValue(n - 1, Half(v));
      assert FromValue(n, v) == f + [LowBit(v)];
      assert (f + [LowBit(v)])[..n - 1] == f;
      assert Decimal(FromValue(n, v)) == 2 * Decimal(f) + Bit(LowBit(v));
      ValueSplit(n - 1, Half(v));
      HalveOfHalf(v, n - 1);
      assert v == 2 * Half(v) + Bit(LowBit(v));
      StepArith(v, Half(v), Bit(LowBit(v)), Pow2(n - 1), Halve(v, n), Decimal(f));
    }
  }

  /** For a non-negative value, Block(n, v) encodes v modulo 2^n. */
  lemma DecimalFromValue(n: nat, v: int)
    requires v >= 0
    ensures Decimal(FromValue(n, v)) == v % Pow2(n)
  {
    ValueSplit(n, v);
    ModUnique(v, Pow2(n), Halve(v, n), Decimal(FromValue(n, v)));
  }

  /** toDecimal(Block(n, v)) == v exactly for 0 <= v < 2^n. */
  lemma ValueRoundTrip(n: nat, v: int)
    ensures Decimal(FromValue(n, v)) == v <==> 0 <= v < Pow2(n)
  {
    if 0 <= v < Pow2(n) {
      DecimalFromValue(n, v);
      ModUnique(v, Pow2(n), 0, v);
    }
  }

  /** Every block is Block(|b|, toDecimal(b)): the encoding is a bijection on n-bit blocks. */
  lemma {:induction false} FromValueDecimal(b: Block)
    ensures FromValue(|b|, Decimal(b)) == b
  {
    if |b| > 0 {
      var b' := b[..|b| - 1];
      FromValueDecimal(b');
      var d := Decimal(b);
      assert d / 2 == Decimal(b') && LowBit(d) == b[|b| - 1];
      assert b == b' + [b[|b| - 1]];
    }
  }

  // ---------------------------------------------------------------------------
  // Block(String) and toString

  /** Block(String): bit i is set exactly when character i is '1'; any other character gives a clear bit. */
  function Parse(s: string): (b: Block)
    ensures |b| == |s|
  {
    seq(|s|, i requires 0 <= i < |s| => s[i] == '1')
  }

  /** toString: one character per bit, '1' for a set bit and '0' for a clear one. */
  function Binary(b: Block): (s: string)
    ensures |s| == |b|
    ensures Parse(s) == b
  {
    seq(|b|, i requires 0 <= i < |b| => if b[i] then '1' else '0')
  }

  predicate IsBinary(s: string)
  {
    forall i :: 0 <= i < |s| ==> s[i] == '0' || s[i] == '1'
  }

  /** Block(s).toString() == s exactly when s holds only '0' and '1'. */
  lemma BinaryParse(s: string)
    ensures Binary(Parse(s)) == s <==> IsBinary(s)
  {
    if !IsBinary(s) {
      var i :| 0 <= i < |s| && s[i] != '0' && s[i] != '1';
      assert Binary(Parse(s))[i] != s[i];
    }
  }

  method NewFromString(s: string) returns (b: Block)
    ensures b == Parse(s)
  {
    var bits := new bool[|s|];
    for i := 0 to |s|
      invariant forall k :: 0 <= k < i ==> bits[k] == (s[k] == '1')
    {
      bits[i] := s[i] == '1';
    }
    b := FromArray(bits);
  }

  method ToString(b: Block) returns (s: string)
    ensures s == Binary(b)
  {
    s := "";
    for i := 0 to |b|
      invariant s == Binary(b[..i])
    {
      s := s + [if b[i] then '1' else '0'];
    }
    assert b[..|b|] == b;
  }

  // ---------------------------------------------------------------------------
  // Block(Block[]): concatenation

  function TotalLength(parts: seq<Block>): nat
  {
    if |parts| == 0 then 0 else TotalLength(parts[..|parts| - 1]) + |parts[|parts| - 1]|
  }

  /** Block(Block[]): the parts laid end to end, first part first. */
  function Concat(parts: seq<Block>): (r: Block)
    ensures |r| == TotalLength(parts)
  {
    if |parts| == 0 then [] else Concat(parts[..|parts| - 1]) + parts[|parts| - 1]
  }

  lemma {:induction false} TotalLengthPrefix(parts: seq<Block>, k: nat)
    requires k <= |parts|
    ensures TotalLength(parts[..k]) <= TotalLength(parts)
    decreases |parts| - k
  {
    if k < |parts| {
      var p := parts[..|parts| - 1];
      assert parts[..k] == p[..k];
      TotalLengthPrefix(p, k);
    } else {
      assert parts[..k] == parts;
    }
  }

  lemma {:induction false} TotalLengthUniform(parts: seq<Block>, w: nat)
    requires forall k :: 0 <= k < |parts| ==> |parts[k]| == w
    ensures TotalLength(parts) == |parts| * w
  {
    if |parts| > 0 {
      TotalLengthUniform(parts[..|parts| - 1], w);
    }
  }

  method NewConcat(blocks: seq<Block>) returns (b: Block)
    ensures b == Concat(blocks)
  {
    var size := 0;
    for k := 0 to |blocks|
      invariant size == TotalLength(blocks[..k])
    {
      assert blocks[..k + 1][..k] == blocks[..k];
      size := size + |blocks[k]|;
    }
    assert blocks[..|blocks|] == blocks;
    var bits := new bool[size];
    var index := 0;
    for k := 0 to |blocks|
      invariant index == TotalLength(blocks[..k]) <= bits.Length
      invariant bits[..index] == Concat(blocks[..k])
    {
      assert blocks[..k + 1][..k] == blocks[..k];
      TotalLengthPrefix(blocks, k + 1);
      CopyBits(bits, index, blocks[k]);
      index := index + |blocks[k]|;
    }
    assert bits[..] == bits[..index];
    b := FromArray(bits);
  }

  /** The inner loop of Block(Block[]): writes `part` at `index` and keeps what came before. */
  method CopyBits(bits: array<bool>, index: nat, part: Block)
    requires index + |part| <= bits.Length
    modifies bits
    ensures bits[..index + |part|] == old(bits[..index]) + part
  {
    ghost var before := bits[..index];
    for t := 0 to |part|
      invariant bits[..index + t] == before + part[..t]
    {
      bits[index + t] := part[t];
      assert part[..t + 1] == part[..t] + [part[t]];
    }
    assert part[..|part|] == part;
  }

  // ---------------------------------------------------------------------------
  // getSegment, rowValue, columnValue

  /** getSegment: the copy of range [i*(len/n), (i+1)*(len/n)); the source throws when that range leaves the block. */
  function Segment(b: Block, n: int, i: int): (r: Block)
    requires 0 < n && 0 <= i && (i + 1) * (|b| / n) <= |b|
    ensures |r| == |b| / n
  {
    var len := |b| / n;
    b[i * len .. i * len + len]
  }

  /** Segment i of n is in range for every i < n. */
  lemma SegmentFits(w: nat, n: int, i: int)
    requires 0 <= i < n
    ensures (i + 1) * (w / n) <= w
  {
    var len := w / n;
    MulMono(i + 1, n, len);
    assert n * len + w % n == w;
  }

  /** All n segments of a block, in order. */
  function Split(b: Block, n: int): (parts: seq<Block>)
    requires 0 < n
    ensures |parts| == n && forall i :: 0 <= i < n ==> |parts[i]| == |b| / n
  {
    seq(n, i requires 0 <= i < n => SegmentFits(|b|, n, i); Segment(b, n, i))
  }

  /** The first m segments laid end to end are the first m*(len/n) bits. */
  lemma {:induction false} SplitPrefix(b: Block, n: int, m: nat)
    requires 0 < n && m <= n
    ensures m * (|b| / n) <= |b|
    ensures Concat(Split(b, n)[..m]) == b[..m * (|b| / n)]
  {
    var parts := Split(b, n);
    if m > 0 {
      SplitPrefix(b, n, m - 1);
      SplitStep(b, n, m);
      var lo, hi := (m - 1) * (|b| / n), m * (|b| / n);
      assert parts[..m][..m - 1] == parts[..m - 1];
      assert Concat(parts[..m]) == b[..lo] + b[lo .. hi];
      assert b[..hi] == b[..lo] + b[lo .. hi];
    } else {
      assert parts[..0] == [] && 0 * (|b| / n) == 0;
    }
  }

  /** Segment m-1 starts where segment m-2 ends. */
  lemma SplitStep(b: Block, n: int, m: nat)
    requires 0 < n && 0 < m <= n
    ensures 0 <= (m - 1) * (|b| / n) <= m * (|b| / n) <= |b|
    ensures Split(b, n)[m - 1] == b[(m - 1) * (|b| / n) .. m * (|b| / n)]
  {
    var len := |b| / n;
    SegmentFits(|b|, n, m - 1);
    assert (m - 1) * len + len == m * len;
  }

  /** Joining the n segments of a block whose length n divides gives the block back. */
  lemma SegmentsJoin(b: Block, n: int)
    requires 0 < n && |b| % n == 0
    ensures Concat(Split(b, n)) == b
  {
    SplitPrefix(b, n, n);
    assert Split(b, n)[..n] == Split(b, n);
    ModUnique(|b|, n, |b| / n, 0);
  }

  /** Two parts laid end to end. */
  lemma ConcatPair(x: Block, y: Block)
    ensures Concat([x, y]) == x + y
  {
    assert [x, y][..1] == [x];
    assert [x][..0] == [];
  }

  /** Concatenating parts of equal width w, then reading bit i*w+t, gives bit t of part i. */
  lemma {:induction false} ConcatAt(parts: seq<Block>, w: nat, i: nat, t: nat)
    requires forall k :: 0 <= k < |parts| ==> |parts[k]| == w
    requires i < |parts| && t < w
    ensures TotalLength(parts) == |parts| * w
    ensures i * w + t < |Concat(parts)| && Concat(parts)[i * w + t] == parts[i][t]
  {
    TotalLengthUniform(parts, w);
    var last := |parts| - 1;
    var p := parts[..last];
    TotalLengthUniform(p, w);
    assert |parts| * w == last * w + w;
    if i < last {
      ConcatAt(p, w, i, t);
    } else {
      assert Concat(parts) == Concat(p) + parts[last];
    }
  }

  /** Segment i of the concatenation of n parts of equal width is part i. */
  lemma SegmentOfConcat(parts: seq<Block>, w: nat, i: nat)
    requires forall k :: 0 <= k < |parts| ==> |parts[k]| == w
    requires i < |parts|
    ensures (i + 1) * (|Concat(parts)| / |parts|) <= |Concat(parts)|
    ensures Segment(Concat(parts), |parts|, i) == parts[i]
  {
    var c := Concat(parts);
    ConcatWidth(parts, w, i);
    var base := i * w;
    var piece := c[base .. base + w];
    assert Segment(c, |parts|, i) == piece;
    forall t | 0 <= t < w
      ensures piece[t] == parts[i][t]
    {
      assert piece[t] == c[base + t];
      ConcatAt(parts, w, i, t);
    }
    assert piece == parts[i];
  }

  /** Concatenating n parts of width w gives n*w bits, so each of the n segments is w wide. */
  lemma ConcatWidth(parts: seq<Block>, w: nat, i: nat)
    requires forall k :: 0 <= k < |parts| ==> |parts[k]| == w
    requires i < |parts|
    ensures |Concat(parts)| / |parts| == w
    ensures 0 <= i * w && i * w + w == (i + 1) * w <= |Concat(parts)|
  {
    var n := |parts|;
    TotalLengthUniform(parts, w);
    ModUnique(n * w, n, w, 0);
    SegmentFits(n * w, n, i);
    MulMono(0, i, w);
  }

  /** rowValue: the decimal value of the first half. */
  function RowValue(b: Block): nat
  {
    Decimal(Segment(b, 2, 0))
  }

  /** columnValue: the decimal value of the second half. */
  function ColumnValue(b: Block): nat
  {
    Decimal(Segment(b, 2, 1))
  }

  /** The two segments of an even-width block are its halves. */
  lemma Halves(b: Block)
    requires |b| % 2 == 0
    ensures Segment(b, 2, 0) == b[..|b| / 2] && Segment(b, 2, 1) == b[|b| / 2..]
  {
    assert |b| == 2 * (|b| / 2);
  }

  /** For an even-width block, row and column are the two base-2^(len/2) digits of its value. */
  lemma RowColumn(b: Block)
    requires |b| % 2 == 0
    ensures RowValue(b) < Pow2(|b| / 2) && ColumnValue(b) < Pow2(|b| / 2)
    ensures Decimal(b) == RowValue(b) * Pow2(|b| / 2) + ColumnValue(b)
  {
    var h := |b| / 2;
    var hi, lo := b[..h], b[h..];
    assert RowValue(b) == Decimal(hi) && ColumnValue(b) == Decimal(lo) by {
      Halves(b);
    }
    assert Decimal(b) == Decimal(hi) * Pow2(h) + Decimal(lo) by {
      assert b == hi + lo;
      DecimalAppend(hi, lo);
      assert |lo| == h;
    }
  }

  // ---------------------------------------------------------------------------
  // xOr, leftShift, modularMultiplicationByX

  /** xOr: as wide as the receiver; bit i is this[i] XOR other[i]; the source reads past `other` when it is shorter. */
  function Xor(a: Block, o: Block): (r: Block)
    requires |a| <= |o|
    ensures |r| == |a|
  {
    seq(|a|, i requires 0 <= i < |a| => a[i] != o[i])
  }

  method XOr(a: Block, o: Block) returns (r: Block)
    requires |a| <= |o|
    ensures r == Xor(a, o)
  {
    var resultBits := new bool[|a|];
    for i := 0 to |a|
      invariant forall k :: 0 <= k < i ==> resultBits[k] == (a[k] != o[k])
    {
      resultBits[i] := a[i] != o[i];
    }
    r := FromArray(resultBits);
  }

  /** XOR-ing the same block twice restores the receiver. */
  lemma XorCancel(a: Block, o: Block)
    requires |a| <= |o|
    ensures Xor(Xor(a, o), o) == a
  {
  }

  lemma XorCommutes(a: Block, o: Block)
    requires |a| == |o|
    ensures Xor(a, o) == Xor(o, a)
  {
  }

  lemma XorAssociates(a: Block, b: Block, c: Block)
    requires |a| == |b| == |c|
    ensures Xor(Xor(a, b), c) == Xor(a, Xor(b, c))
  {
  }

  lemma XorZeros(a: Block, n: nat)
    requires |a| <= n
    ensures Xor(a, Zeros(n)) == a
    ensures |a| == n ==> Xor(Zeros(n), a) == a
  {
  }

  /** leftShift: drop the first bit, move the rest up, clear the last bit; the source fails on an empty block. */
  function LeftShift(a: Block): (r: Block)
    requires |a| >= 1
    ensures |r| == |a|
  {
    a[1..] + [false]
  }

  /** The top bit is set exactly when the value reaches 2^(n-1). */
  lemma TopBit(a: Block)
    requires |a| >= 1
    ensures a[0] <==> Decimal(a) >= Pow2(|a| - 1)
    ensures Decimal(a) == Bit(a[0]) * Pow2(|a| - 1) + Decimal(a[1..])
  {
    assert a == [a[0]] + a[1..];
    DecimalAppend([a[0]], a[1..]);
    assert Decimal([a[0]]) == Bit(a[0]) by {
      assert [a[0]][..0] == [];
    }
  }

  /** leftShift doubles the value, dropping 2^n when the top bit falls off. */
  lemma LeftShiftDoubles(a: Block)
    requires |a| >= 1
    ensures Decimal(LeftShift(a)) == if a[0] then 2 * Decimal(a) - Pow2(|a|) else 2 * Decimal(a)
  {
    var rest := a[1..];
    TopBit(a);
    DecimalAppend(rest, [false]);
    assert Decimal([false]) == 0 by {
      assert [false][..0] == [];
    }
    assert Pow2(|a|) == 2 * Pow2(|a| - 1);
  }

  /** modularMultiplicationByX: shift left and, when the top bit was set, XOR with `gen`. */
  function MulX(a: Block, gen: Block): (r: Block)
    requires |a| >= 1 && (a[0] ==> |a| <= |gen|)
    ensures |r| == |a|
  {
    if !a[0] then LeftShift(a) else Xor(LeftShift(a), gen)
  }

  /** On 4-bit units only the leading "0001" of the generator is used, so doubling is a left rotation. */
  lemma MulXRotates(a: Block)
    requires |a| == 4
    ensures MulX(a, GeneratorPolynomial) == a[1..] + [a[0]]
  {
  }

  /** Doubling is the shifted value, XOR-ed with the generator exactly when the top bit overflowed. */
  lemma MulXDoubles(a: Block, gen: Block)
    requires 1 <= |a| <= |gen|
    ensures !a[0] ==> MulX(a, gen) == FromValue(|a|, 2 * Decimal(a))
    ensures a[0] ==> MulX(a, gen) == Xor(FromValue(|a|, 2 * Decimal(a) - Pow2(|a|)), gen)
  {
    var s := LeftShift(a);
    LeftShiftDoubles(a);
    FromValueDecimal(s);
  }

  /**
   * On 8-bit blocks doubling is FIPS 197 xtime: double, and when the value overflowed, XOR with
   * the generator, whose value is 0x1b.
   */
  lemma MulXIsXtime(a: Block)
    requires |a| == 8
    ensures Decimal(a) < 128 ==> MulX(a, GeneratorPolynomial) == FromValue(8, 2 * Decimal(a))
    ensures Decimal(a) >= 128 ==>
      MulX(a, GeneratorPolynomial) == Xor(FromValue(8, 2 * Decimal(a) - 256), GeneratorPolynomial)
    ensures Decimal(GeneratorPolynomial) == 0x1b
  {
    assert a[0] <==> Decimal(a) >= 128 by {
      TopBit(a);
      assert Pow2(7) == 128;
    }
    assert Pow2(8) == 256;
    MulXDoubles(a, GeneratorPolynomial);
    GeneratorValue();
  }

  lemma GeneratorValue()
    ensures Decimal(GeneratorPolynomial) == 0x1b
  {
    assert FromValue(8, 0x1b) == GeneratorPolynomial;
    DecimalFromValue(8, 0x1b);
    assert Pow2(8) == 256;
  }

  // ---------------------------------------------------------------------------
  // modularMultiplication

  /** The source's loop needs `gen` to cover the receiver whenever `other` has a bit to scan. */
  predicate MulDefined(a: Block, o: Block, gen: Block)
  {
    |o| == 0 || 1 <= |a| <= |gen|
  }

  /**
   * What is left of modularMultiplication's loop once `acc` is the running result,
   * `m` the current multiplier and `o` the bits of `other` not yet scanned
   * (the loop scans from the last bit to the first).
   */
  function MulLoop(acc: Block, m: Block, o: Block, gen: Block): (r: Block)
    requires |acc| == |m| && MulDefined(m, o, gen)
    ensures |r| == |acc|
    decreases |o|
  {
    if |o| == 0 then acc
    else MulLoop(if o[|o| - 1] then Xor(acc, m) else acc, MulX(m, gen), o[..|o| - 1], gen)
  }

  /** modularMultiplication: the receiver times `other`, as wide as the receiver. */
  function Mul(a: Block, o: Block, gen: Block): (r: Block)
    requires MulDefined(a, o, gen)
    ensures |r| == |a|
  {
    MulLoop(Zeros(|a|), a, o, gen)
  }

  method ModularMultiplication(a: Block, o: Block) returns (r: Block)
    requires MulDefined(a, o, GeneratorPolynomial)
    ensures r == Mul(a, o, GeneratorPolynomial)
  {
    r := Zeros(|a|);
    var multiplier := a;
    var i := |o| - 1;
    assert o[..i + 1] == o;
    while i >= 0
      invariant -1 <= i < |o|
      invariant |r| == |multiplier| == |a|
      invariant MulLoop(r, multiplier, o[..i + 1], GeneratorPolynomial) == Mul(a, o, GeneratorPolynomial)
    {
      assert o[..i + 1][..i] == o[..i];
      if o[i] {
        r := XOr(r, multiplier);
      }
      multiplier := MulX(multiplier, GeneratorPolynomial);
      i := i - 1;
    }
  }

  /** Scanning only clear bits leaves the running result as it is. */
  lemma {:induction false} MulLoopZeros(acc: Block, m: Block, k: nat, gen: Block)
    requires |acc| == |m| && MulDefined(m, Zeros(k), gen)
    ensures MulLoop(acc, m, Zeros(k), gen) == acc
    decreases k
  {
    if k > 0 {
      assert Zeros(k)[..k - 1] == Zeros(k - 1);
      MulLoopZeros(acc, MulX(m, gen), k - 1, gen);
    }
  }

  /** Multiplying by the block 0...01 returns the receiver. */
  lemma MulByOne(a: Block, n: nat, gen: Block)
    requires 1 <= n && 1 <= |a| <= |gen|
    ensures Mul(a, Zeros(n - 1) + [true], gen) == a
  {
    var o := Zeros(n - 1) + [true];
    assert o[..n - 1] == Zeros(n - 1);
    MulLoopZeros(Xor(Zeros(|a|), a), MulX(a, gen), n - 1, gen);
    XorZeros(a, |a|);
  }

  /** Multiplying by an all-clear block gives an all-clear block of the receiver's width. */
  lemma MulByZero(a: Block, n: nat, gen: Block)
    requires MulDefined(a, Zeros(n), gen)
    ensures Mul(a, Zeros(n), gen) == Zeros(|a|)
  {
    MulLoopZeros(Zeros(|a|), a, n, gen);
  }

  /** The block when the bit is set, a clear block of its width otherwise. */
  function Scaled(b: Block, bit: bool): (r: Block)
    ensures |r| == |b|
  {
    if bit then b else Zeros(|b|)
  }

  /** One pass of modularMultiplication's loop: XOR in the multiplier when the last bit is set, then double it. */
  lemma MulLoopStep(acc: Block, m: Block, o: Block, gen: Block)
    requires |acc| == |m| && |o| > 0 && MulDefined(m, o, gen)
    ensures MulLoop(acc, m, o, gen) == MulLoop(Xor(acc, Scaled(m, o[|o| - 1])), MulX(m, gen), o[..|o| - 1], gen)
  {
    if !o[|o| - 1] {
      XorZeros(acc, |m|);
    }
  }

  /**
   * A product of 4-bit blocks is the XOR of the receiver doubled k times for every set bit k of
   * the argument, counting k from the last bit.
   */
  lemma MulUnits(a: Block, o: Block, gen: Block)
    requires |a| == 4 && |o| == 4 && 4 <= |gen|
    ensures var a1 := MulX(a, gen); var a2 := MulX(a1, gen); var a3 := MulX(a2, gen);
      Mul(a, o, gen) == Xor(Xor(Xor(Scaled(a, o[3]), Scaled(a1, o[2])), Scaled(a2, o[1])), Scaled(a3, o[0]))
  {
    var a1 := MulX(a, gen);
    var a2 := MulX(a1, gen);
    var a3 := MulX(a2, gen);
    var s0 := Scaled(a, o[3]);
    var s1 := Xor(s0, Scaled(a1, o[2]));
    var s2 := Xor(s1, Scaled(a2, o[1]));
    var s3 := Xor(s2, Scaled(a3, o[0]));
    assert Xor(Zeros(4), Scaled(a, o[3])) == s0 by {
      XorZeros(s0, 4);
    }
    MulLoopStep(Zeros(4), a, o, gen);
    assert o[..3][2] == o[2] && o[..3][..2] == o[..2];
    MulLoopStep(s0, a1, o[..3], gen);
    assert o[..2][1] == o[1] && o[..2][..1] == o[..1];
    MulLoopStep(s1, a2, o[..2], gen);
    assert o[..1][0] == o[0] && o[..1][..0] == [];
    MulLoopStep(s2, a3, o[..1], gen);
  }

  /** The unit 0001 is a left identity for 4-bit products, whatever the generator. */
  lemma OneTimes(x: Block, gen: Block)
    requires |x| == 4 && 4 <= |gen|
    ensures Mul([false, false, false, true], x, gen) == x
  {
    var one := [false, false, false, true];
    assert MulX(one, gen) == [false, false, true, false];
    assert MulX([false, false, true, false], gen) == [false, true, false, false];
    assert MulX([false, true, false, false], gen) == [true, false, false, false];
    MulUnits(one, x, gen);
  }

  /** The unit 0000 times any 4-bit block is 0000. */
  lemma ZeroTimes(x: Block, gen: Block)
    requires |x| == 4 && 4 <= |gen|
    ensures Mul(Zeros(4), x, gen) == Zeros(4)
  {
    assert MulX(Zeros(4), gen) == Zeros(4);
    MulUnits(Zeros(4), x, gen);
  }
}
