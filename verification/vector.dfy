/**
 Row-by-row evaluation of installed logic, with exact numbers in place of floating point.
 */
module Vector {
  import opened Words
  import opened Ir
  import opened Machine
  import opened Correctness
  import opened Compiler
  import opened Sums
  import opened Engine
  import opened Gather
  import opened Drivers

  /** One row's value, read off the kernel's result word and scratchpad. */
  method RowResult(lg: Logic, result: Word, mem: seq<Word>, r: nat) returns (v: nat)
    requires r < 64 && MasksInside(lg, mem)
    ensures Same(v, RowTerm(lg, result, mem, r))
  {
    hide Same, Total, Pow2, Val;
    match lg.kind
    case MaskCount =>
      v := if result[r] then 1 else 0;
      SameRefl(v);
    case WeightedCount =>
      v := ChosenSum(lg, result, mem, r);
    case PlaneSum =>
      var row := Zero();
      for b := 0 to 64
        invariant forall j | 0 <= j < 64 :: row[j] == (j < b && mem[j][r])
      {
        if mem[b][r] {
          row := row[b := true];
        }
      }
      assert row == Lane(mem[..64], r);
      v := Val(row);
      SameRefl(v);
  }

  /** The base plus the weights of the masks set in lane r. */
  method ChosenSum(lg: Logic, result: Word, mem: seq<Word>, r: nat) returns (v: nat)
    requires r < 64 && MasksInside(lg, mem) && lg.kind.WeightedCount?
    ensures Same(v, RowTerm(lg, result, mem, r))
  {
    hide Same, Total, Pow2, Val, Wrap;
    ghost var f := (k: nat) => if MasksInside(lg, mem) then Chosen(lg, mem, r, k) else 0;
    v := Wrap(lg.base);
    WrapSame(lg.base);
    TotalNone(f);
    for k := 0 to |lg.weights|
      invariant Same(v, lg.base + Total(k, f))
    {
      SumLast(k + 1, f);
      if mem[lg.masks[k]][r] {
        WrapPlus(v, lg.base + Total(k, f), lg.weights[k]);
        v := Wrap(v + lg.weights[k]);
      }
    }
    SumEqual(|lg.weights|, f, (k: nat) => Chosen(lg, mem, r, k));
  }

  lemma PowAboveOne()
    ensures Pow2(64) > 1
  {
    assert Pow2(64) == 2 * Pow2(63);
  }

  lemma {:induction false} ValueFits(g: Graph, root: nat, schema: Schema, rows: seq<Cells>, i: nat)
    requires Valid(g) && root < |g| && i < |rows|
    ensures 0 <= RowValue(g, root, schema, rows, i) < Pow2(64)
  {
    hide Pow2, Eval;
    PowAboveOne();
    EvalRange(g, root, RowEnv(schema, rows[i]), Pow2(64), Borrow(i % 64));
  }

  /** A value congruent to a row's value, reduced, is that row's value. */
  lemma {:induction false} ReducedValue(g: Graph, root: nat, schema: Schema, rows: seq<Cells>, i: nat, v: nat)
    requires Valid(g) && root < |g| && i < |rows| && Same(v, RowValue(g, root, schema, rows, i))
    ensures Wrap(v) == RowValue(g, root, schema, rows, i)
  {
    hide Pow2, RowValue;
    ValueFits(g, root, schema, rows, i);
    ModOf(RowValue(g, root, schema, rows, i), 0, Pow2(64));
  }

  /** A 64-bit pattern read as a signed number. */
  function Signed(v: nat): int {
    if 2 * v < Pow2(64) then v else v - Pow2(64)
  }

  /** A row's result: masks as 0 or 1, numbers signed and divided by the precision. */
  function Scaled(kind: Kind, v: nat, precision: real): real
    requires kind.MaskCount? || precision != 0.0
  {
    if kind.MaskCount? then v as real else Signed(v) as real / precision
  }

  /** The signed reading is the one number of a 64-bit pattern's residue that fits 64 bits with sign. */
  lemma {:induction false} SignedFixed(v: nat, y: int)
    requires v < Pow2(64)
    ensures y == Signed(v) <==> 0 - Pow2(63) <= y < Pow2(63) && Same(y, v)
  {
    hide Pow2, Same;
    HalfRange();
    SignedSame(v);
    if 0 - Pow2(63) <= y < Pow2(63) && Same(y, v) {
      OneResidue(y, Signed(v), v);
    }
  }

  lemma HalfRange()
    ensures Pow2(64) == 2 * Pow2(63)
  {
  }

  /** Two numbers of the same residue less than 2^64 apart are equal. */
  lemma OneResidue(x: int, y: int, v: int)
    requires Same(x, v) && Same(y, v) && 0 - Pow2(63) <= x < Pow2(63) && 0 - Pow2(63) <= y < Pow2(63)
    ensures x == y
  {
    hide Pow2;
    HalfRange();
    var k := x / Pow2(64) - y / Pow2(64);
    assert x - y == Pow2(64) * k;
    MulMagnitude(Pow2(64), k);
  }

  /** Multiplying the precision back in recovers the row's value modulo 2^64. */
  lemma {:induction false} ScaledBack(kind: Kind, v: nat, precision: real)
    requires precision != 0.0 && !kind.MaskCount?
    ensures Scaled(kind, v, precision) * precision == Signed(v) as real && Same(Signed(v), v)
  {
    hide Pow2;
    PowPositive();
    SameBy(v, Signed(v), if Signed(v) == v then 0 else 1);
  }

  /** Every row's own value, scaled. */
  method ExecuteVector(lg: Logic, rows: seq<Cells>, precision: real, buffers: seq<array<Word>>, ghost g: Graph,
                       ghost root: nat, ghost schema: Schema) returns (results: seq<real>)
    requires Installed(lg, g, root, schema) && Fits(lg.offsets, rows) && Columns(buffers) && |buffers| == 128
    requires lg.kind.MaskCount? || precision != 0.0
    modifies buffers
    ensures Acyclic(g) && root < |g| && |results| == |rows|
    ensures forall i | 0 <= i < |rows| :: 0 <= RowValue(g, root, schema, rows, i) < Pow2(64)
    ensures IsMask(g[root]) ==> forall i | 0 <= i < |rows| ::
              results[i] == if RowValue(g, root, schema, rows, i) != 0 then 1.0 else 0.0
    ensures !IsMask(g[root]) ==> forall i | 0 <= i < |rows| ::
              precision != 0.0 && results[i] * precision == Signed(RowValue(g, root, schema, rows, i)) as real
  {
    hide Installed, Same, Ran, RowValue, Part, Gathered, Fits, Pow2, Wrap, Acyclic, Valid, RowTerm, MasksInside, Scaled;
    InstalledShape(lg, g, root, schema);
    InstalledFacts(lg, g, root, schema);
    results := [];
    var chunk := 0;
    while chunk * 64 < |rows|
      invariant chunk * 64 < |rows| + 64 && |results| == Least(chunk * 64, |rows|)
      invariant forall i | 0 <= i < |results| ::
                  && 0 <= RowValue(g, root, schema, rows, i)
                  && results[i] == Scaled(lg.kind, RowValue(g, root, schema, rows, i), precision)
      decreases |rows| - chunk * 64
    {
      var start := chunk * 64;
      var n := Least(64, |rows| - start);
      var _, s, cols := RunBlock(lg, rows, start, n, buffers, false, Cleared(SLOTS), 1, g, root, schema);
      for r := 0 to n
        invariant |results| == start + r
        invariant forall i | 0 <= i < |results| ::
                    && 0 <= RowValue(g, root, schema, rows, i)
                    && results[i] == Scaled(lg.kind, RowValue(g, root, schema, rows, i), precision)
      {
        var v := RowResult(lg, s.regs[Result0].w, s.mem, r);
        RowTermIsValue(lg, g, root, schema, rows, start, n, cols, s, r);
        SameTrans(v, RowTerm(lg, s.regs[Result0].w, s.mem, r), RowValue(g, root, schema, rows, start + r));
        ReducedValue(g, root, schema, rows, start + r, v);
        results := results + [Scaled(lg.kind, Wrap(v), precision)];
      }
      chunk := chunk + 1;
    }
    forall i | 0 <= i < |rows|
      ensures 0 <= RowValue(g, root, schema, rows, i) < Pow2(64)
      ensures if IsMask(g[root]) then results[i] == if RowValue(g, root, schema, rows, i) != 0 then 1.0 else 0.0
              else precision != 0.0 && results[i] * precision == Signed(RowValue(g, root, schema, rows, i)) as real
    {
      ScaledRow(lg, g, root, schema, rows, i, precision);
    }
  }

  /** What the scaling of a row's value means, by kind of root. */
  lemma {:induction false} ScaledRow(lg: Logic, g: Graph, root: nat, schema: Schema, rows: seq<Cells>, i: nat, precision: real)
    requires Installed(lg, g, root, schema) && (lg.kind.MaskCount? || precision != 0.0)
    requires Acyclic(g) && root < |g| && i < |rows|
    ensures 0 <= RowValue(g, root, schema, rows, i) < Pow2(64)
    ensures IsMask(g[root]) ==> Scaled(lg.kind, RowValue(g, root, schema, rows, i), precision)
                                == if RowValue(g, root, schema, rows, i) != 0 then 1.0 else 0.0
    ensures !IsMask(g[root]) ==>
              && precision != 0.0
              && Scaled(lg.kind, RowValue(g, root, schema, rows, i), precision) * precision
                 == Signed(RowValue(g, root, schema, rows, i)) as real
  {
    hide Pow2, Eval, Signed, Same, KernelFor, SkipClosed, ForestData;
    InstalledFacts(lg, g, root, schema);
    PowAboveOne();
    ValueFits(g, root, schema, rows, i);
    EvalRange(g, root, RowEnv(schema, rows[i]), Pow2(64), Borrow(i % 64));
    KindOfRoot(lg, g, root, schema);
    if !lg.kind.MaskCount? {
      ScaledBack(lg.kind, RowValue(g, root, schema, rows, i), precision);
    }
  }

  lemma KindOfRoot(lg: Logic, g: Graph, root: nat, schema: Schema)
    requires Installed(lg, g, root, schema)
    ensures lg.kind.MaskCount? <==> IsMask(g[root])
  {
    hide KernelFor, SkipClosed, ForestData;
    LeafNotSkipped(g, root);
  }

  /** The signed rows' values add up, modulo 2^64, to the reference of the summing runs. */
  lemma {:induction false} VectorTotal(g: Graph, root: nat, schema: Schema, rows: seq<Cells>, signed: nat -> int)
    requires Valid(g) && root < |g|
    requires forall i: nat | i < |rows| ::
               0 <= RowValue(g, root, schema, rows, i) && signed(i) == Signed(RowValue(g, root, schema, rows, i))
    ensures Same(Total(|rows|, signed), Reference(g, root, schema, rows))
  {
    hide RowValue, Valid, Same, Signed, Total;
    ValidIsAcyclic(g);
    var f := ValueAt(g, root, schema, rows, 0);
    forall i: nat | i < |rows| ensures Same(signed(i), f(i)) {
      SignedSame(RowValue(g, root, schema, rows, i));
    }
    SameSum(|rows|, signed, f);
  }

  lemma SignedSame(v: nat)
    ensures Same(Signed(v), v)
  {
    ScaledBack(PlaneSum, v, 1.0);
  }

  lemma ValidIsAcyclic(g: Graph)
    requires Valid(g)
    ensures Acyclic(g)
  {
  }
}
