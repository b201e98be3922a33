/**
 The 64x64 bit transpose as six butterfly stages of in-place xor swaps, and slicing of a column
 into bit-planes.
 */
module Transpose {
  import opened Words

  /** Strides of the six stages. */
  predicate IsStride(s: nat) {
    s == 1 || s == 2 || s == 4 || s == 8 || s == 16 || s == 32
  }

  /** The bit of weight s is clear in the index i. */
  predicate Low(i: nat, s: nat)
    requires s > 0
  {
    i / s % 2 == 0
  }

  /** The index with its bit of weight s flipped. */
  function Flip(i: nat, s: nat): (p: nat)
    requires IsStride(s) && i < 64
    ensures p < 64
  {
    IndexFacts(i, s);
    if Low(i, s) then i + s else i - s
  }

  /** Quotient and remainder are unique. */
  lemma DivOf(q: nat, r: nat, s: nat)
    requires r < s
    ensures (q * s + r) / s == q && (q * s + r) % s == r
  {
    var x := q * s + r;
    ModOf(r, q, s);
    Cancel(x / s, q, s);
  }

  lemma Cancel(p: nat, q: nat, s: nat)
    requires s > 0 && p * s == q * s
    ensures p == q
  {
  }

  lemma NextQuotient(i: nat, s: nat)
    requires s > 0
    ensures (i + s) / s == i / s + 1 && (i + s) % s == i % s
  {
    assert i + s == (i / s + 1) * s + i % s;
    DivOf(i / s + 1, i % s, s);
  }

  /** The number of rows is an even multiple of every stride. */
  function Strides(s: nat): (n: nat)
    requires IsStride(s)
    ensures n * s == 64 && n % 2 == 0
  {
    if s == 1 then 64 else if s == 2 then 32 else if s == 4 then 16 else if s == 8 then 8 else if s == 16 then 4 else 2
  }

  /** An even quotient leaves room for one more stride below an even number of them. */
  lemma EvenRoom(q: nat, r: nat, s: nat, n: nat)
    requires q * s + r < n * s && r < s && q % 2 == 0 && n % 2 == 0
    ensures q * s + r + s < n * s
  {
    MulLess(q, n, s);
    MulMonotone(q + 2, n, s);
    assert (q + 2) * s == q * s + 2 * s;
  }

  lemma MulLess(p: nat, n: nat, s: nat)
    requires p * s < n * s
    ensures p < n
  {
  }

  lemma MulMonotone(p: nat, n: nat, s: nat)
    requires p <= n
    ensures p * s <= n * s
  {
  }

  lemma IndexFacts(i: nat, s: nat)
    requires IsStride(s) && i < 64
    ensures Low(i, s) ==> i + s < 64 && !Low(i + s, s)
    ensures !Low(i, s) ==> i >= s && Low(i - s, s)
    ensures Low(i, s) && i >= s ==> !Low(i - s, s)
  {
    hide Strides;
    if Low(i, s) {
      RoomAbove(i, s, Strides(s));
    } else {
      LowBelow(i, s);
    }
    NextQuotient(i, s);
    if i >= s {
      NextQuotient(i - s, s);
    }
  }

  lemma RoomAbove(i: nat, s: nat, n: nat)
    requires s > 0 && i < n * s && n % 2 == 0 && i / s % 2 == 0
    ensures i + s < n * s
  {
    EvenRoom(i / s, i % s, s, n);
  }

  lemma LowBelow(i: nat, s: nat)
    requires s > 0 && i / s % 2 != 0
    ensures i >= s
  {
    if i < s {
      DivOf(0, i, s);
    }
  }

  lemma FlipFacts(i: nat, s: nat)
    requires IsStride(s) && i < 64
    ensures Flip(i, s) / s / 2 == i / s / 2
    ensures Flip(i, s) / s % 2 == 1 - i / s % 2
    ensures Flip(i, s) % s == i % s
  {
    IndexFacts(i, s);
    if Low(i, s) {
      NextQuotient(i, s);
    } else {
      NextQuotient(i - s, s);
    }
  }

  /** One stage on values: the bit of weight s of the row index trades places with that of the column index. */
  function Exchange(m: Block, s: nat): Block
    requires IsStride(s)
  {
    seq(64, i requires 0 <= i < 64 => ExchangeRow(m, s, i))
  }

  function ExchangeRow(m: Block, s: nat, i: nat): Word
    requires IsStride(s) && i < 64
  {
    seq(64, j requires 0 <= j < 64 => if Low(i, s) == Low(j, s) then m[i][j] else m[Flip(i, s)][Flip(j, s)])
  }

  /** The transpose: row i of the result is column i of the matrix. */
  function Transposed(m: Block): Block {
    seq(64, i requires 0 <= i < 64 => Column(m, i))
  }

  function Column(m: Block, i: nat): Word
    requires i < 64
  {
    seq(64, j requires 0 <= j < 64 => m[j][i])
  }

  /** The swap mask of a stage selects the columns whose bit of weight s is clear. */
  predicate SelectsLow(mask: Word, s: nat)
    requires s > 0
  {
    forall j | 0 <= j < 64 :: mask[j] == Low(j, s)
  }

  /** The xor swap of rows k and k + s is the exchange of those rows. */
  lemma PairExchanged(m: Block, s: nat, k: nat, mask: Word)
    requires IsStride(s) && k + s < 64 && Low(k, s) && SelectsLow(mask, s)
    ensures var t := BitAnd(BitXor(ShiftRight(m[k], s), m[k + s]), mask);
            && BitXor(m[k + s], t) == ExchangeRow(m, s, k + s)
            && BitXor(m[k], ShiftLeft(t, s)) == ExchangeRow(m, s, k)
  {
    hide BitAnd, BitXor, ShiftLeft, ShiftRight, ExchangeRow, SelectsLow, Low;
    var t := BitAnd(BitXor(ShiftRight(m[k], s), m[k + s]), mask);
    var high, low := BitXor(m[k + s], t), BitXor(m[k], ShiftLeft(t, s));
    forall j | 0 <= j < 64 ensures high[j] == ExchangeRow(m, s, k + s)[j] && low[j] == ExchangeRow(m, s, k)[j] {
      PairBit(m, s, k, mask, j);
    }
    SameWord(high, ExchangeRow(m, s, k + s));
    SameWord(low, ExchangeRow(m, s, k));
  }

  lemma SameWord(x: Word, y: Word)
    requires forall j | 0 <= j < 64 :: x[j] == y[j]
    ensures x == y
  {
  }

  lemma PairBit(m: Block, s: nat, k: nat, mask: Word, j: nat)
    requires IsStride(s) && k + s < 64 && Low(k, s) && SelectsLow(mask, s) && j < 64
    ensures var t := BitAnd(BitXor(ShiftRight(m[k], s), m[k + s]), mask);
            && BitXor(m[k + s], t)[j] == ExchangeRow(m, s, k + s)[j]
            && BitXor(m[k], ShiftLeft(t, s))[j] == ExchangeRow(m, s, k)[j]
  {
    hide Low, Flip;
    FlipValue(k + s, s);
    FlipValue(k, s);
    FlipValue(j, s);
    IndexFacts(k, s);
    IndexFacts(j, s);
  }

  lemma FlipValue(i: nat, s: nat)
    requires IsStride(s) && i < 64
    ensures Flip(i, s) == if Low(i, s) then i + s else i - s
  {
  }

  lemma BlockIndex(block: nat, s: nat, i: nat)
    requires IsStride(s) && block % (2 * s) == 0 && block < 64
    requires block <= i < block + 2 * s
    ensures block + 2 * s <= 64 && i < 64
    ensures Low(i, s) == (i < block + s)
  {
    hide Strides, Low;
    var b := block / (2 * s);
    assert block == (2 * b) * s;
    BlockEnd(b, s, Strides(s));
    if i < block + s {
      BlockLow(b, i, s);
    } else {
      BlockHigh(b, i, s);
    }
  }

  lemma BlockLow(b: nat, i: nat, s: nat)
    requires (2 * b) * s <= i < (2 * b) * s + s
    ensures Low(i, s)
  {
    DivOf(2 * b, i - (2 * b) * s, s);
  }

  lemma BlockHigh(b: nat, i: nat, s: nat)
    requires (2 * b) * s + s <= i < (2 * b) * s + 2 * s
    ensures !Low(i, s)
  {
    assert (2 * b + 1) * s == (2 * b) * s + s;
    DivOf(2 * b + 1, i - (2 * b + 1) * s, s);
  }

  lemma BlockEnd(b: nat, s: nat, n: nat)
    requires (2 * b) * s < n * s && n % 2 == 0
    ensures (2 * b) * s + 2 * s <= n * s
  {
    MulLess(2 * b, n, s);
    MulMonotone(2 * b + 2, n, s);
  }

  lemma NextBlock(block: nat, s: nat)
    requires IsStride(s) && block % (2 * s) == 0
    ensures (block + 2 * s) % (2 * s) == 0
  {
    ModAbsorb(block, 1, 2 * s);
  }

  /** One butterfly stage: pairs of rows s apart, block by block. */
  method Stage(a: array<Word>, s: nat, mask: Word)
    requires a.Length == 64 && IsStride(s) && SelectsLow(mask, s)
    modifies a
    ensures a[..] == Exchange(old(a[..]), s)
  {
    ghost var m := a[..];
    var block := 0;
    while block < 64
      invariant 0 <= block <= 64 && block % (2 * s) == 0
      invariant forall i | 0 <= i < 64 :: a[i] == if i < block then ExchangeRow(m, s, i) else m[i]
      decreases 64 - block
    {
      SwapBlock(a, s, mask, block, m);
      NextBlock(block, s);
      BlockIndex(block, s, block);
      block := block + 2 * s;
    }
  }

  method SwapBlock(a: array<Word>, s: nat, mask: Word, block: nat, ghost m: Block)
    requires a.Length == 64 && IsStride(s) && SelectsLow(mask, s) && block < 64 && block % (2 * s) == 0
    requires forall i | 0 <= i < 64 :: a[i] == if i < block then ExchangeRow(m, s, i) else m[i]
    modifies a
    ensures forall i | 0 <= i < 64 :: a[i] == if i < block + 2 * s then ExchangeRow(m, s, i) else m[i]
  {
    hide ExchangeRow, SelectsLow, Low, BitAnd, BitXor, ShiftLeft, ShiftRight;
    BlockIndex(block, s, block);
    var k := block;
    while k < block + s
      invariant block <= k <= block + s
      invariant forall i | 0 <= i < 64 ::
                  a[i] == if i < k || block + s <= i < k + s then ExchangeRow(m, s, i) else m[i]
    {
      BlockIndex(block, s, k);
      PairExchanged(m, s, k, mask);
      var t := BitAnd(BitXor(ShiftRight(a[k], s), a[k + s]), mask);
      a[k + s] := BitXor(a[k + s], t);
      a[k] := BitXor(a[k], ShiftLeft(t, s));
      k := k + 1;
    }
  }

  /** The high part of x and the low part of y, split at weight s. */
  function Mix(x: nat, y: nat, s: nat): nat
    requires s > 0
  {
    x / s * s + y % s
  }

  /** Quotient and remainder by 2s from those by s. */
  lemma Halves(i: nat, s: nat)
    requires s > 0
    ensures i / (2 * s) == i / s / 2
    ensures i % (2 * s) == i / s % 2 * s + i % s
  {
    var q, r := i / s, i % s;
    var h, b := q / 2, q % 2;
    assert b * s + r < 2 * s;
    assert h * (2 * s) + (b * s + r) == i by {
      assert h * (2 * s) == (2 * h) * s;
      assert (2 * h + b) * s == (2 * h) * s + b * s;
    }
    DivOf(h, b * s + r, 2 * s);
  }

  lemma MixBounds(x: nat, y: nat, s: nat)
    requires IsStride(s) && x < 64 && y < 64
    ensures Mix(x, y, s) < 64
  {
    var q, n := x / s, Strides(s);
    assert x == q * s + x % s;
    MulLess(q, n, s);
    MulMonotone(q + 1, n, s);
    assert (q + 1) * s == q * s + s;
  }

  /** A stage moves the split point one bit down. */
  lemma MixStep(i: nat, j: nat, s: nat)
    requires IsStride(s) && i < 64 && j < 64
    ensures Low(i, s) == Low(j, s) ==> Mix(j, i, 2 * s) == Mix(j, i, s)
    ensures Low(i, s) != Low(j, s) ==> Mix(Flip(j, s), Flip(i, s), 2 * s) == Mix(j, i, s)
  {
    hide Low, Flip;
    MixTwice(i, j, s);
    LowParity(i, s);
    LowParity(j, s);
    if Low(i, s) != Low(j, s) {
      FlipFacts(i, s);
      FlipFacts(j, s);
      MixTwice(Flip(i, s), Flip(j, s), s);
    }
    MixOnce(j / s, j / s / 2, j / s % 2, i % s, s);
  }

  lemma LowParity(i: nat, s: nat)
    requires s > 0
    ensures Low(i, s) <==> i / s % 2 == 0
  {
  }

  lemma MixTwice(i: nat, j: nat, s: nat)
    requires s > 0
    ensures Mix(j, i, 2 * s) == j / s / 2 * (2 * s) + (i / s % 2 * s + i % s)
  {
    Halves(i, s);
    Halves(j, s);
  }

  lemma MixOnce(q: nat, h: nat, b: nat, r: nat, s: nat)
    requires q == 2 * h + b
    ensures h * (2 * s) + (b * s + r) == q * s + r
  {
  }

  /** Row and column indices have traded their bits of weight s and above. */
  ghost predicate Mixed(m: Block, m': Block, s: nat)
    requires IsStride(s) || s == 64
  {
    forall i, j | 0 <= i < 64 && 0 <= j < 64 ::
      Mix(j, i, s) < 64 && Mix(i, j, s) < 64 && m'[i][j] == m[Mix(j, i, s)][Mix(i, j, s)]
  }

  lemma MixedStep(m: Block, m': Block, s: nat)
    requires IsStride(s) && Mixed(m, m', 2 * s)
    ensures Mixed(m, Exchange(m', s), s)
  {
    forall i, j | 0 <= i < 64 && 0 <= j < 64
      ensures Mix(j, i, s) < 64 && Mix(i, j, s) < 64
      ensures Exchange(m', s)[i][j] == m[Mix(j, i, s)][Mix(i, j, s)]
    {
      MixBounds(i, j, s);
      MixBounds(j, i, s);
      MixStep(i, j, s);
      MixStep(j, i, s);
    }
  }

  // --- Swap masks -----------------------------------------------------------------------------

  function LowMask(s: nat): Word
    requires s > 0
  {
    seq(64, j requires 0 <= j < 64 => Low(j, s))
  }

  function Zeros(n: nat): (z: seq<bool>)
    ensures |z| == n
  {
    seq(n, i => false)
  }

  lemma {:induction false} ValZerosBelow(x: seq<bool>, n: nat)
    ensures Val(Zeros(n) + x) == Pow2(n) * Val(x)
  {
    if n == 0 {
      assert Zeros(0) + x == x;
    } else {
      assert (Zeros(n) + x)[1..] == Zeros(n - 1) + x;
      ValZerosBelow(x, n - 1);
    }
  }

  lemma {:induction false} ValZerosAbove(x: seq<bool>, n: nat)
    ensures Val(x + Zeros(n)) == Val(x)
  {
    if x == [] {
      assert x + Zeros(n) == Zeros(n);
      ValAllClear(Zeros(n));
    } else {
      assert (x + Zeros(n))[1..] == x[1..] + Zeros(n);
      ValZerosAbove(x[1..], n);
    }
  }

  lemma {:induction false} ValDisjoint(x: seq<bool>, y: seq<bool>, z: seq<bool>)
    requires |x| == |y| == |z|
    requires forall i | 0 <= i < |x| :: z[i] == (x[i] || y[i]) && !(x[i] && y[i])
    ensures Val(z) == Val(x) + Val(y)
  {
    if x != [] {
      ValDisjoint(x[1..], y[1..], z[1..]);
    }
  }

  /** The mask and the mask shifted by one stride tile the word. */
  lemma MaskTiles(s: nat)
    requires IsStride(s)
    ensures Val(LowMask(s)) + Pow2(s) * Val(LowMask(s)) == Pow2(64) - 1
  {
    hide Val, Pow2, Low;
    var m := LowMask(s);
    var low := m[..64 - s];
    forall j | 0 <= j < 64 ensures m[j] == (j < 64 - s && low[j]) && Ones()[j] == (m[j] || (Zeros(s) + low)[j])
                                   && !(m[j] && (Zeros(s) + low)[j]) {
      IndexFacts(j, s);
    }
    assert m == low + Zeros(s);
    ValZerosAbove(low, s);
    ValZerosBelow(low, s);
    ValDisjoint(m, Zeros(s) + low, Ones());
    ValAllSet(Ones());
  }

  /** A constant that tiles the word with its shift by s is the swap mask of stride s. */
  lemma MaskConstant(s: nat, n: nat)
    requires IsStride(s) && n + Pow2(s) * n == Pow2(64) - 1
    ensures SelectsLow(ToWord(n), s)
  {
    hide Val, Pow2, Low, Bits;
    MaskTiles(s);
    var m := LowMask(s);
    TileUnique(n, Val(m), Pow2(s));
    BitsOfVal(m);
  }

  lemma TileUnique(x: nat, y: nat, p: nat)
    requires x + p * x == y + p * y
    ensures x == y
  {
    assert (1 + p) * (x - y) == 0;
  }

  lemma {:induction false} Pow2Adds(a: nat, b: nat)
    ensures Pow2(a + b) == Pow2(a) * Pow2(b)
  {
    if a > 0 {
      Pow2Adds(a - 1, b);
    }
  }

  lemma {:induction false} Pow2Values()
    ensures Pow2(1) == 2 && Pow2(2) == 4 && Pow2(4) == 16 && Pow2(8) == 0x100 && Pow2(16) == 0x1_0000
    ensures Pow2(32) == 0x1_0000_0000 && Pow2(64) == 0x1_0000_0000_0000_0000
  {
    Pow2Adds(1, 1);
    Pow2Adds(2, 2);
    Pow2Adds(4, 4);
    Pow2Adds(8, 8);
    Pow2Adds(16, 16);
    Pow2Adds(32, 32);
  }

  lemma {:induction false} SwapMasks()
    ensures SelectsLow(ToWord(0x0000_0000_FFFF_FFFF), 32)
    ensures SelectsLow(ToWord(0x0000_FFFF_0000_FFFF), 16)
    ensures SelectsLow(ToWord(0x00FF_00FF_00FF_00FF), 8)
    ensures SelectsLow(ToWord(0x0F0F_0F0F_0F0F_0F0F), 4)
    ensures SelectsLow(ToWord(0x3333_3333_3333_3333), 2)
    ensures SelectsLow(ToWord(0x5555_5555_5555_5555), 1)
  {
    hide Pow2, SelectsLow, ToWord;
    Pow2Values();
    MaskConstant(32, 0x0000_0000_FFFF_FFFF);
    MaskConstant(16, 0x0000_FFFF_0000_FFFF);
    MaskConstant(8, 0x00FF_00FF_00FF_00FF);
    MaskConstant(4, 0x0F0F_0F0F_0F0F_0F0F);
    MaskConstant(2, 0x3333_3333_3333_3333);
    MaskConstant(1, 0x5555_5555_5555_5555);
  }

  // --- The transpose --------------------------------------------------------------------------

  /** Six stages, widest first, are the transpose. */
  method Transpose64x64(a: array<Word>)
    requires a.Length == 64
    modifies a
    ensures a[..] == Transposed(old(a[..]))
  {
    hide Exchange, SelectsLow, ToWord, Mixed;
    SwapMasks();
    ghost var m := a[..];
    MixedNone(m);
    MixedStep(m, a[..], 32);
    Stage(a, 32, ToWord(0x0000_0000_FFFF_FFFF));
    MixedStep(m, a[..], 16);
    Stage(a, 16, ToWord(0x0000_FFFF_0000_FFFF));
    MixedStep(m, a[..], 8);
    Stage(a, 8, ToWord(0x00FF_00FF_00FF_00FF));
    MixedStep(m, a[..], 4);
    Stage(a, 4, ToWord(0x0F0F_0F0F_0F0F_0F0F));
    MixedStep(m, a[..], 2);
    Stage(a, 2, ToWord(0x3333_3333_3333_3333));
    MixedStep(m, a[..], 1);
    Stage(a, 1, ToWord(0x5555_5555_5555_5555));
    MixedAll(m, a[..]);
  }

  lemma MixedNone(m: Block)
    ensures Mixed(m, m, 64)
  {
  }

  lemma MixedAll(m: Block, m': Block)
    requires Mixed(m, m', 1)
    ensures m' == Transposed(m)
  {
    forall i | 0 <= i < 64 ensures m'[i] == Transposed(m)[i] {
      forall j | 0 <= j < 64 ensures m'[i][j] == Transposed(m)[i][j] {
        assert Mix(j, i, 1) == j && Mix(i, j, 1) == i;
      }
    }
  }

  /** Transposing twice gives the matrix back. */
  lemma TransposeInvolution(m: Block)
    ensures Transposed(Transposed(m)) == m
  {
    forall i | 0 <= i < 64 ensures Transposed(Transposed(m))[i] == m[i] {
      assert forall j | 0 <= j < 64 :: Transposed(m)[j][i] == m[i][j];
    }
  }

  // --- Slicing --------------------------------------------------------------------------------

  /** The planes of a column of values cut to their n low bits. */
  function Sliced(col: Block, n: nat): Block {
    seq(64, i requires 0 <= i < 64 => if i < n then Column(col, i) else Zero())
  }

  /** Slices a column, in place when the buffers coincide, and clears the planes from n up. */
  method SliceN(data: array<Word>, out: array<Word>, n: nat)
    requires data.Length == out.Length == 64
    modifies out
    ensures out[..] == Sliced(old(data[..]), n)
  {
    if data != out {
      forall i | 0 <= i < 64 {
        out[i] := data[i];
      }
    }
    ghost var col := old(data[..]);
    assert out[..] == col;
    Transpose64x64(out);
    var b := n;
    while b < 64
      invariant n <= b && (n <= 64 ==> b <= 64)
      invariant forall i | 0 <= i < 64 :: out[i] == if n <= i < b then Zero() else Column(col, i)
    {
      out[b] := Zero();
      b := b + 1;
    }
  }

  /** Lane r of the planes is the value of row r modulo 2^n. */
  lemma SlicedLane(col: Block, n: nat, r: nat)
    requires n <= 64 && r < 64
    ensures Val(Lane(Sliced(col, n), r)) == Val(col[r]) % Pow2(n)
    ensures Lane(Sliced(col, n)[..n], r) == col[r][..n]
  {
    hide Val, Pow2;
    assert Lane(Sliced(col, n), r) == col[r][..n] + Zeros(64 - n);
    ValZerosAbove(col[r][..n], 64 - n);
    ValPrefix(col[r], n);
  }
}
