/**
 The bit-sliced circuits the compiler unrolls: the LSB-first ripple adder, the MSB-first
 comparator and the per-plane multiplexer, as functions on stacks of planes, with the
 number each row sees.
 */
module Circuits {
  import opened Words

  /** Carry word leaving one full adder. */
  function CarryOut(a: Word, b: Word, c: Word): Word {
    BitOr(BitAnd(a, b), BitAnd(BitXor(a, b), c))
  }

  /** Sum planes of a ripple adder entered with carry word `c`. */
  function Ripple(a: seq<Word>, b: seq<Word>, c: Word): (s: seq<Word>)
    requires |a| == |b|
    ensures |s| == |a|
  {
    if a == [] then [] else
      [BitXor(BitXor(a[0], b[0]), c)] + Ripple(a[1..], b[1..], CarryOut(a[0], b[0], c))
  }

  /** The planes with every bit complemented. */
  function Inverted(a: seq<Word>): (b: seq<Word>)
    ensures |b| == |a|
  {
    seq(|a|, i requires 0 <= i < |a| => BitNot(a[i]))
  }

  /** Greater-than and equal masks after scanning the planes from the top one down. */
  function Scan(a: seq<Word>, b: seq<Word>, gt: Word, eq: Word): (m: (Word, Word))
    requires |a| == |b|
  {
    if a == [] then (gt, eq) else
      var k := |a| - 1;
      Scan(a[..k], b[..k],
           BitOr(gt, BitAnd(BitClear(a[k], b[k]), eq)),
           BitClear(eq, BitXor(a[k], b[k])))
  }

  /** One plane of a multiplexer. */
  function Mux(mask: Word, a: Word, b: Word): Word {
    BitOr(BitAnd(mask, a), BitClear(b, mask))
  }

  /** All planes of a multiplexer. */
  function MuxPlanes(mask: Word, a: seq<Word>, b: seq<Word>): (m: seq<Word>)
    requires |a| == |b|
    ensures |m| == |a|
  {
    seq(|a|, i requires 0 <= i < |a| => Mux(mask, a[i], b[i]))
  }

  /** Planes of a constant: every row holds the same number. */
  function ConstPlanes(c: seq<bool>): (p: seq<Word>)
    ensures |p| == |c|
  {
    seq(|c|, i requires 0 <= i < |c| => if c[i] then Ones() else Zero())
  }

  /** Carry word leaving the top of the ripple adder. */
  function RippleCarry(a: seq<Word>, b: seq<Word>, c: Word): Word
    requires |a| == |b|
  {
    if a == [] then c else RippleCarry(a[1..], b[1..], CarryOut(a[0], b[0], c))
  }

  lemma FullAdder(a: Word, b: Word, c: Word, r: nat)
    requires r < 64
    ensures Bit(a[r]) + Bit(b[r]) + Bit(c[r])
         == Bit(BitXor(BitXor(a, b), c)[r]) + 2 * Bit(CarryOut(a, b, c)[r])
  {
  }

  /** Nothing is lost: in every row, sum planes and final carry together are the exact sum. */
  lemma {:induction false} RippleExact(a: seq<Word>, b: seq<Word>, c: Word, r: nat)
    requires |a| == |b| && r < 64
    ensures Val(Lane(Ripple(a, b, c), r)) + (if RippleCarry(a, b, c)[r] then Pow2(|a|) else 0)
         == Val(Lane(a, r)) + Val(Lane(b, r)) + Bit(c[r])
  {
    if a == [] {
      assert Val(Lane(a, r)) == 0;
    } else {
      var c' := CarryOut(a[0], b[0], c);
      RippleExact(a[1..], b[1..], c', r);
      LaneTail(a, r);
      LaneTail(b, r);
      LaneTail(Ripple(a, b, c), r);
      assert Ripple(a, b, c)[1..] == Ripple(a[1..], b[1..], c');
      FullAdder(a[0], b[0], c, r);
    }
  }

  /** Every row of the ripple adder gets its own sum, entered with its own carry bit. */
  lemma {:induction false} RippleAdds(a: seq<Word>, b: seq<Word>, c: Word, r: nat)
    requires |a| == |b| && r < 64
    ensures Val(Lane(Ripple(a, b, c), r))
         == (Val(Lane(a, r)) + Val(Lane(b, r)) + Bit(c[r])) % Pow2(|a|)
  {
    RippleExact(a, b, c, r);
    ValBound(Lane(Ripple(a, b, c), r));
    ModOf(Val(Lane(Ripple(a, b, c), r)), Bit(RippleCarry(a, b, c)[r]), Pow2(|a|));
  }

  lemma LaneTail(a: seq<Word>, r: nat)
    requires a != [] && r < 64
    ensures Lane(a, r) == [a[0][r]] + Lane(a[1..], r)
    ensures Val(Lane(a, r)) == Bit(a[0][r]) + 2 * Val(Lane(a[1..], r))
  {
    assert Lane(a, r) == [a[0][r]] + Lane(a[1..], r);
    assert Lane(a, r)[1..] == Lane(a[1..], r);
  }

  lemma LanePrefix(a: seq<Word>, k: nat, r: nat)
    requires k <= |a| && r < 64
    ensures Lane(a[..k], r) == Lane(a, r)[..k]
  {
  }

  lemma {:induction false} InvertedValue(b: seq<Word>, r: nat)
    requires r < 64
    ensures Val(Lane(Inverted(b), r)) == Pow2(|b|) - 1 - Val(Lane(b, r))
  {
    if b == [] {
      assert Val(Lane(b, r)) == 0 && Val(Lane(Inverted(b), r)) == 0;
    } else {
      LaneTail(b, r);
      LaneTail(Inverted(b), r);
      assert Inverted(b)[1..] == Inverted(b[1..]);
      InvertedValue(b[1..], r);
    }
  }

  /**
   Adding the complement subtracts, short by one in every row whose carry-in is clear:
   with the seed word the compiler loads, row 0 gets a - b and every other row a - b - 1.
   */
  lemma {:induction false} RippleSubtracts(a: seq<Word>, b: seq<Word>, c: Word, r: nat)
    requires |a| == |b| && r < 64
    ensures Val(Lane(Ripple(a, Inverted(b), c), r))
         == (Val(Lane(a, r)) - Val(Lane(b, r)) - (1 - Bit(c[r]))) % Pow2(|a|)
  {
    RippleAdds(a, Inverted(b), c, r);
    InvertedValue(b, r);
    BorrowForm(Val(Lane(a, r)), Val(Lane(b, r)), Val(Lane(Inverted(b), r)), Bit(c[r]), Pow2(|a|));
  }

  /** A subtraction is exact in precisely the rows whose carry-in is set: with the seed word 1, in row 0. */
  lemma {:induction false} SubtractionExact(a: seq<Word>, b: seq<Word>, c: Word, r: nat)
    requires |a| == |b| > 0 && r < 64
    ensures Val(Lane(Ripple(a, Inverted(b), c), r)) == (Val(Lane(a, r)) - Val(Lane(b, r))) % Pow2(|a|) <==> c[r]
  {
    hide Val, Ripple, Inverted;
    RippleSubtracts(a, b, c, r);
    OneLess(Val(Lane(a, r)) - Val(Lane(b, r)), Pow2(|a|));
  }

  lemma OneLess(x: int, m: nat)
    requires m > 1
    ensures (x - 1) % m != x % m
  {
    var d := x / m - (x - 1) / m;
    assert m * d == 1 + (x - 1) % m - x % m by {
      assert m * d == m * (x / m) - m * ((x - 1) / m);
    }
    MulMagnitude(m, d);
  }

  lemma BorrowForm(x: nat, y: nat, z: nat, c: nat, m: nat)
    requires m > 0 && z == m - 1 - y
    ensures (x + z + c) % m == (x - y - (1 - c)) % m
  {
    ModAbsorb(x - y - (1 - c), 1, m);
  }

  /** The scan decides the unsigned order of every row still marked equal. */
  lemma {:induction false} ScanCompares(a: seq<Word>, b: seq<Word>, gt: Word, eq: Word, r: nat)
    requires |a| == |b| && r < 64
    ensures Scan(a, b, gt, eq).0[r] == (gt[r] || (eq[r] && Val(Lane(a, r)) > Val(Lane(b, r))))
    ensures Scan(a, b, gt, eq).1[r] == (eq[r] && Val(Lane(a, r)) == Val(Lane(b, r)))
  {
    if a == [] {
      assert Lane(a, r) == Lane(b, r);
    } else {
      var k := |a| - 1;
      ScanCompares(a[..k], b[..k],
                   BitOr(gt, BitAnd(BitClear(a[k], b[k]), eq)),
                   BitClear(eq, BitXor(a[k], b[k])), r);
      LanePrefix(a, k, r);
      LanePrefix(b, k, r);
      TopBitDecides(Lane(a, r), Lane(b, r));
    }
  }

  /** Of two numbers of equal width, the top bit decides unless it agrees. */
  lemma TopBitDecides(x: seq<bool>, y: seq<bool>)
    requires |x| == |y| > 0
    ensures var k := |x| - 1;
            && (x[k] && !y[k] ==> Val(x) > Val(y))
            && (!x[k] && y[k] ==> Val(x) < Val(y))
            && (x[k] == y[k] ==> Val(x) - Val(y) == Val(x[..k]) - Val(y[..k]))
  {
    var k := |x| - 1;
    ValTop(x, k);
    ValTop(y, k);
    assert x[..k + 1] == x && y[..k + 1] == y;
    ValBound(x[..k]);
    ValBound(y[..k]);
  }

  lemma MuxSelects(mask: Word, a: seq<Word>, b: seq<Word>, r: nat)
    requires |a| == |b| && r < 64
    ensures Val(Lane(MuxPlanes(mask, a, b), r)) == if mask[r] then Val(Lane(a, r)) else Val(Lane(b, r))
  {
    assert Lane(MuxPlanes(mask, a, b), r) == if mask[r] then Lane(a, r) else Lane(b, r);
  }

  lemma ConstPlanesValue(c: seq<bool>, r: nat)
    requires r < 64
    ensures Val(Lane(ConstPlanes(c), r)) == Val(c)
  {
    assert Lane(ConstPlanes(c), r) == c;
  }
}
