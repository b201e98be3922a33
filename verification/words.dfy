/**
 Sixty-four bit words as vectors of lanes, and the unsigned number a vector of bits denotes.

 A plane or a mask is a `Word`: lane r belongs to row r. A column is 64 raw values, one per row;
 after bit-slicing it is 64 planes, one per bit.
 */
module Words {

  type Word = w: seq<bool> | |w| == 64 witness seq(64, i => false)

  /** Sixty-four words: a column of raw values or the planes of a sliced column. */
  type Block = b: seq<Word> | |b| == 64 witness seq(64, i => seq(64, j => false))

  function Zero(): Word { seq(64, i => false) }
  function Ones(): Word { seq(64, i => true) }
  function One(): Word { seq(64, i => i == 0) }

  function BitAnd(x: Word, y: Word): Word {
    seq(64, i requires 0 <= i < 64 => x[i] && y[i])
  }

  function BitOr(x: Word, y: Word): Word {
    seq(64, i requires 0 <= i < 64 => x[i] || y[i])
  }

  function BitXor(x: Word, y: Word): Word {
    seq(64, i requires 0 <= i < 64 => x[i] != y[i])
  }

  function BitClear(x: Word, y: Word): Word {
    seq(64, i requires 0 <= i < 64 => x[i] && !y[i])
  }

  function BitNot(x: Word): Word {
    seq(64, i requires 0 <= i < 64 => !x[i])
  }

  function ShiftRight(x: Word, n: nat): Word {
    seq(64, i requires 0 <= i < 64 => i + n < 64 && x[i + n])
  }

  function ShiftLeft(x: Word, n: nat): Word {
    seq(64, i requires 0 <= i < 64 => n <= i && x[i - n])
  }

  function Least(a: nat, b: nat): nat {
    if a < b then a else b
  }

  function Pow2(n: nat): (p: nat)
    ensures p >= 1
  {
    if n == 0 then 1 else 2 * Pow2(n - 1)
  }

  function Bit(b: bool): nat {
    if b then 1 else 0
  }

  /** The unsigned number with bit i equal to `b[i]`. */
  function Val(b: seq<bool>): nat {
    if b == [] then 0 else Bit(b[0]) + 2 * Val(b[1..])
  }

  /** The k low bits of n. */
  function Bits(n: nat, k: nat): (b: seq<bool>)
    ensures |b| == k
  {
    if k == 0 then [] else [n % 2 == 1] + Bits(n / 2, k - 1)
  }

  /** The number truncated to a 64-bit word. */
  function ToWord(n: nat): Word {
    Bits(n, 64)
  }

  /** Residue modulo 2^64: what a 64-bit register keeps of a sum. */
  function Wrap(x: int): nat {
    x % Pow2(64)
  }

  /** Two's complement negation of a register. */
  function Negate(x: Word): Word {
    ToWord(Wrap(0 - Val(x)))
  }

  /** Bits of row r across a stack of planes. */
  function Lane(planes: seq<Word>, r: nat): (b: seq<bool>)
    requires r < 64
    ensures |b| == |planes|
    ensures forall i | 0 <= i < |planes| :: b[i] == planes[i][r]
  {
    seq(|planes|, i requires 0 <= i < |planes| => planes[i][r])
  }

  lemma {:induction false} ValBound(b: seq<bool>)
    ensures Val(b) < Pow2(|b|)
  {
    if b != [] {
      ValBound(b[1..]);
    }
  }

  lemma {:induction false} ValAppend(b: seq<bool>, c: bool)
    ensures Val(b + [c]) == Val(b) + Bit(c) * Pow2(|b|)
  {
    if b == [] {
      assert b + [c] == [c];
      assert Val([c]) == Bit(c) + 2 * Val([]);
    } else {
      ValAppend(b[1..], c);
      assert (b + [c])[1..] == b[1..] + [c];
    }
  }

  /** Splitting off the top bit. */
  lemma ValTop(b: seq<bool>, k: nat)
    requires k < |b|
    ensures Val(b[..k + 1]) == Val(b[..k]) + Bit(b[k]) * Pow2(k)
  {
    assert b[..k + 1] == b[..k] + [b[k]];
    ValAppend(b[..k], b[k]);
  }

  lemma {:induction false} ValOfBits(n: nat, k: nat)
    ensures Val(Bits(n, k)) == n % Pow2(k)
  {
    if k == 0 {
      assert n % 1 == 0;
    } else {
      ValOfBits(n / 2, k - 1);
      ModDouble(n % 2, n / 2, Pow2(k - 1));
      assert Bits(n, k)[1..] == Bits(n / 2, k - 1);
    }
  }

  lemma {:induction false} BitsOfVal(b: seq<bool>)
    ensures Bits(Val(b), |b|) == b
  {
    if b != [] {
      BitsOfVal(b[1..]);
      assert Val(b) % 2 == Bit(b[0]) && Val(b) / 2 == Val(b[1..]);
    }
  }

  lemma ValInjective(a: seq<bool>, b: seq<bool>)
    requires |a| == |b| && Val(a) == Val(b)
    ensures a == b
  {
    BitsOfVal(a);
    BitsOfVal(b);
  }

  /** A number taken modulo 2m keeps its low bit and halves modulo m. */
  lemma ModDouble(s: nat, x: int, m: nat)
    requires s < 2 && m > 0
    ensures (s + 2 * x) % (2 * m) == s + 2 * (x % m)
  {
    var q, t := x / m, x % m;
    assert s + 2 * x == (s + 2 * t) + (2 * m) * q by {
      assert x == m * q + t;
    }
    ModOf(s + 2 * t, q, 2 * m);
  }

  lemma ModOf(t: nat, q: int, m: nat)
    requires t < m
    ensures (t + m * q) % m == t
  {
    var x := t + m * q;
    var d := x / m - q;
    assert x == m * (x / m) + x % m;
    assert m * d == t - x % m by {
      assert m * d == m * (x / m) - m * q;
    }
    MulMagnitude(m, d);
  }

  lemma MulMagnitude(m: nat, d: int)
    ensures d >= 1 ==> m * d >= m
    ensures d <= -1 ==> m * d <= 0 - m
  {
  }

  /** Adding multiples of the modulus changes nothing. */
  lemma ModAbsorb(x: int, q: int, m: nat)
    requires m > 0
    ensures (x + m * q) % m == x % m
  {
    assert x == x % m + m * (x / m);
    assert x + m * q == x % m + m * (x / m + q);
    ModOf(x % m, x / m + q, m);
  }

  /** The low k bits are the residue modulo 2^k. */
  lemma {:induction false} ValPrefix(b: seq<bool>, k: nat)
    requires k <= |b|
    ensures Val(b[..k]) == Val(b) % Pow2(k)
  {
    if k == 0 {
      assert Val(b) % 1 == 0;
    } else {
      ValPrefix(b[1..], k - 1);
      assert b[..k][1..] == b[1..][..k - 1];
      ModDouble(Bit(b[0]), Val(b[1..]), Pow2(k - 1));
    }
  }

  lemma {:induction false} ValAllClear(b: seq<bool>)
    requires forall i | 0 <= i < |b| :: !b[i]
    ensures Val(b) == 0
  {
    if b != [] {
      ValAllClear(b[1..]);
    }
  }

  lemma {:induction false} ValAllSet(b: seq<bool>)
    requires forall i | 0 <= i < |b| :: b[i]
    ensures Val(b) == Pow2(|b|) - 1
  {
    if b != [] {
      ValAllSet(b[1..]);
    }
  }

  lemma {:induction false} ValOfOne()
    ensures Val(One()) == 1
  {
    ValAllClear(One()[1..]);
  }

  /** Negating a single bit smears it over the whole word. */
  lemma {:induction false} NegateBit(c: Word, k: nat)
    requires k < 64
    ensures Negate(BitAnd(ShiftRight(c, k), One())) == if c[k] then Ones() else Zero()
  {
    hide Val, Bits, Pow2;
    var x := BitAnd(ShiftRight(c, k), One());
    ValAllClear(Zero());
    BitsOfVal(Zero());
    if c[k] {
      assert x == One();
      ValOfOne();
      ValAllSet(Ones());
      BitsOfVal(Ones());
      ModOf(Pow2(64) - 1, -1, Pow2(64));
    } else {
      assert x == Zero();
      ModOf(0, 0, Pow2(64));
    }
  }

  /** A word's number is its own residue. */
  lemma {:induction false} WordRange(w: Word)
    ensures Val(w) % Pow2(64) == Val(w)
  {
    hide Val, Pow2;
    ValBound(w);
    ModOf(Val(w), 0, Pow2(64));
  }
}
