/**
 Finite sums, residues modulo 2^64 and population counts.
 */
module Sums {
  import opened Words

  /** f(0) + ... + f(n-1) */
  ghost function Total(n: nat, f: nat -> int): int {
    if n == 0 then 0 else Total(n - 1, f) + f(n - 1)
  }

  lemma {:induction false} SumEqual(n: nat, f: nat -> int, h: nat -> int)
    requires forall i: nat | i < n :: f(i) == h(i)
    ensures Total(n, f) == Total(n, h)
  {
    if n > 0 {
      SumEqual(n - 1, f, h);
    }
  }

  lemma {:induction false} SumPlus(n: nat, f: nat -> int, h: nat -> int, s: nat -> int)
    requires forall i: nat | i < n :: s(i) == f(i) + h(i)
    ensures Total(n, s) == Total(n, f) + Total(n, h)
  {
    if n > 0 {
      SumPlus(n - 1, f, h, s);
    }
  }

  lemma {:induction false} SumTimes(n: nat, c: int, f: nat -> int, s: nat -> int)
    requires forall i: nat | i < n :: s(i) == c * f(i)
    ensures Total(n, s) == c * Total(n, f)
  {
    if n > 0 {
      SumTimes(n - 1, c, f, s);
    }
  }

  lemma {:induction false} SumConstant(n: nat, c: int, f: nat -> int)
    requires forall i: nat | i < n :: f(i) == c
    ensures Total(n, f) == n * c
  {
    if n > 0 {
      SumConstant(n - 1, c, f);
    }
  }

  /** Summing a table by rows or by columns. */
  lemma {:induction false} SumExchange(n: nat, m: nat, t: (nat, nat) -> int, byRow: nat -> int, byCol: nat -> int)
    requires forall i: nat | i < n :: byRow(i) == Total(m, (j: nat) => t(i, j))
    requires forall j: nat | j < m :: byCol(j) == Total(n, (i: nat) => t(i, j))
    ensures Total(n, byRow) == Total(m, byCol)
  {
    if n == 0 {
      SumConstant(m, 0, byCol);
    } else {
      var byCol' := (j: nat) => Total(n - 1, (i: nat) => t(i, j));
      SumExchange(n - 1, m, t, byRow, byCol');
      forall j: nat | j < m ensures byCol(j) == byCol'(j) + t(n - 1, j) {
        SumLast(n, (i: nat) => t(i, j));
        SumEqual(n - 1, (i: nat) => t(i, j), (i: nat) => t(i, j));
      }
      SumPlus(m, byCol', (j: nat) => t(n - 1, j), byCol);
    }
  }

  lemma SumLast(n: nat, f: nat -> int)
    requires n > 0
    ensures Total(n, f) == Total(n - 1, f) + f(n - 1)
  {
  }

  /** Splitting a sum in two. */
  lemma {:induction false} SumSplit(n: nat, k: nat, f: nat -> int, h: nat -> int)
    requires k <= n && forall i: nat | i < n - k :: h(i) == f(k + i)
    ensures Total(n, f) == Total(k, f) + Total(n - k, h)
  {
    if n > k {
      SumSplit(n - 1, k, f, h);
    }
  }

  // --- Residues -------------------------------------------------------------------------------

  /** Equal modulo 2^64. */
  ghost predicate Same(x: int, y: int) {
    Wrap(x) == Wrap(y)
  }

  lemma {:induction false} WrapSame(x: int)
    ensures Same(Wrap(x), x)
  {
    hide Pow2;
    ModOf(x % Pow2(64), 0, Pow2(64));
  }

  lemma {:induction false} SameBy(x: int, y: int, q: int)
    requires x == y + Pow2(64) * q
    ensures Same(x, y)
  {
    hide Pow2;
    ModAbsorb(y, q, Pow2(64));
  }

  lemma {:induction false} SameQuotient(x: int, y: int) returns (q: int)
    requires Same(x, y)
    ensures x == y + Pow2(64) * q
  {
    hide Pow2;
    var m := Pow2(64);
    q := x / m - y / m;
    assert m * q == m * (x / m) - m * (y / m);
  }

  lemma {:induction false} SamePlus(x: int, y: int, x': int, y': int)
    requires Same(x, x') && Same(y, y')
    ensures Same(x + y, x' + y')
  {
    hide Pow2, Same;
    var p := SameQuotient(x, x');
    var q := SameQuotient(y, y');
    assert Pow2(64) * (p + q) == Pow2(64) * p + Pow2(64) * q;
    SameBy(x + y, x' + y', p + q);
  }

  lemma {:induction false} SameSum(n: nat, f: nat -> int, h: nat -> int)
    requires forall i: nat | i < n :: Same(f(i), h(i))
    ensures Same(Total(n, f), Total(n, h))
  {
    hide Same;
    if n == 0 {
      SameBy(0, 0, 0);
    } else {
      SameSum(n - 1, f, h);
      SamePlus(Total(n - 1, f), f(n - 1), Total(n - 1, h), h(n - 1));
    }
  }

  // --- Population counts ----------------------------------------------------------------------

  /** Number of set bits. */
  function Pop(b: seq<bool>): nat {
    if b == [] then 0 else Bit(b[0]) + Pop(b[1..])
  }

  lemma {:induction false} PopIsSum(b: seq<bool>, f: nat -> int)
    requires forall r: nat | r < |b| :: f(r) == Bit(b[r])
    ensures Pop(b) == Total(|b|, f)
  {
    hide Pop, Total;
    PopFirst(b);
    SumFirst(f);
    if b != [] {
      var h := (r: nat) => f(r + 1);
      forall r: nat | r < |b| - 1 ensures h(r) == Bit(b[1..][r]) {
        assert f(r + 1) == Bit(b[r + 1]);
      }
      PopIsSum(b[1..], h);
      SumSplit(|b|, 1, f, h);
    }
  }

  lemma PopFirst(b: seq<bool>)
    ensures Pop(b) == if b == [] then 0 else Bit(b[0]) + Pop(b[1..])
  {
  }

  lemma SumFirst(f: nat -> int)
    ensures Total(0, f) == 0 && Total(1, f) == f(0)
  {
    assert Total(1, f) == Total(0, f) + f(0);
  }

  /** The mask of the first n rows. */
  function RowsMask(n: nat): Word {
    seq(64, r requires 0 <= r < 64 => r < n)
  }

  /** It is the number 2^n - 1, or all ones for a full block. */
  lemma {:induction false} RowsMaskValue(n: nat)
    requires n <= 64
    ensures Val(RowsMask(n)) == Pow2(n) - 1
  {
    hide Val, Pow2;
    var m := RowsMask(n);
    ValPrefix(m, n);
    ValAllSet(m[..n]);
    ValAbove(m, n);
  }

  lemma {:induction false} ValAbove(b: seq<bool>, n: nat)
    requires n <= |b| && forall i | n <= i < |b| :: !b[i]
    ensures Val(b) == Val(b[..n])
    decreases |b|
  {
    if |b| == n {
      assert b[..n] == b;
    } else {
      var k := |b| - 1;
      ValTop(b, k);
      assert b[..k + 1] == b;
      ValAbove(b[..k], n);
      assert b[..k][..n] == b[..n];
    }
  }

  /** A masked count only sees the first n rows. */
  lemma {:induction false} MaskedPop(w: Word, n: nat, f: nat -> int)
    requires n <= 64 && forall r: nat | r < n :: f(r) == Bit(w[r])
    ensures Pop(BitAnd(w, RowsMask(n))) == Total(n, f)
  {
    hide Pop, Total;
    var v := BitAnd(w, RowsMask(n));
    var h := (r: nat) => if r < 64 then Bit(v[r]) else 0;
    PopIsSum(v, h);
    var z := (r: nat) => 0;
    SumSplit(64, n, h, z);
    SumConstant(64 - n, 0, z);
    SumEqual(n, h, f);
  }

  /** A number is the sum of its bits' weights. */
  lemma {:induction false} ValIsSum(b: seq<bool>, f: nat -> int)
    requires forall i: nat | i < |b| :: f(i) == Bit(b[i]) * Pow2(i)
    ensures Val(b) == Total(|b|, f)
    decreases |b|
  {
    if b != [] {
      var k := |b| - 1;
      ValIsSum(b[..k], f);
      ValTop(b, k);
      assert b[..k + 1] == b;
    }
  }

  /**
   Double counting: weighing the masked population of every plane adds up the values of the
   first n rows.
   */
  lemma {:induction false} PlanesAddUp(planes: seq<Word>, n: nat, byPlane: nat -> int, byRow: nat -> int)
    requires n <= 64
    requires forall i: nat | i < |planes| :: byPlane(i) == Pop(BitAnd(planes[i], RowsMask(n))) * Pow2(i)
    requires forall r: nat | r < n :: byRow(r) == Val(Lane(planes, r))
    ensures Total(|planes|, byPlane) == Total(n, byRow)
  {
    hide Pow2, Val, Pop, RowsMask, BitAnd, Lane, Total;
    var t := (i: nat, r: nat) => if i < |planes| && r < 64 then Bit(planes[i][r]) * Pow2(i) else 0;
    forall i: nat | i < |planes| ensures byPlane(i) == Total(n, (r: nat) => t(i, r)) {
      PlaneWeight(planes[i], n, Pow2(i), (r: nat) => t(i, r));
    }
    forall r: nat | r < n ensures byRow(r) == Total(|planes|, (i: nat) => t(i, r)) {
      LaneWeights(planes, r, (i: nat) => t(i, r));
    }
    SumExchange(|planes|, n, t, byPlane, byRow);
  }

  lemma {:induction false} PlaneWeight(w: Word, n: nat, weight: nat, f: nat -> int)
    requires n <= 64 && forall r: nat | r < n :: f(r) == Bit(w[r]) * weight
    ensures Pop(BitAnd(w, RowsMask(n))) * weight == Total(n, f)
  {
    hide Pop, RowsMask, BitAnd, Total;
    var bits := (r: nat) => if r < 64 then Bit(w[r]) else 0;
    MaskedPop(w, n, bits);
    SumTimes(n, weight, bits, f);
  }

  lemma {:induction false} LaneWeights(planes: seq<Word>, r: nat, f: nat -> int)
    requires r < 64 && forall i: nat | i < |planes| :: f(i) == Bit(planes[i][r]) * Pow2(i)
    ensures Val(Lane(planes, r)) == Total(|planes|, f)
  {
    hide Pow2, Val;
    ValIsSum(Lane(planes, r), f);
  }
}
