/**
 Running a scalar kernel over row-major data: columns are gathered as they are, the row loop sets one
 bit per row, and the bits of the rows present are counted.
 */
module ScalarDriver {
  import opened Words
  import opened Ir
  import opened Correctness
  import opened Semantics
  import opened Sums
  import opened Engine
  import opened Gather
  import opened Drivers
  import opened Backends
  import opened RunGraph

  /** The kernel was compiled for `root`, a mask, over this schema. */
  ghost predicate ScalarInstalled(k: ScalarKernel, offsets: seq<nat>, g: Graph, root: nat, schema: Schema) {
    && MaskKernel(k, g, root)
    && Numbered(g, k.order, k.lay, k.names, offsets, schema) && |offsets| <= 128
  }

  /** The arithmetic value of the root on row start + r, subtractions exact. */
  ghost function PlainAt(g: Graph, root: nat, schema: Schema, rows: seq<Cells>, start: nat): nat -> int
    requires Acyclic(g) && root < |g|
  {
    (r: nat) => if start + r < |rows| then Eval(g, root, RowEnv(schema, rows[start + r]), Pow2(64), 0) else 0
  }

  lemma {:induction false} LanesAreColumns(names: seq<string>, cols: seq<Block>)
    requires |names| <= |cols| && forall v, w | 0 <= v < w < |names| :: names[v] != names[w]
    ensures ColumnsMatch(names, cols, LaneEnvs(names, cols))
  {
    hide Val, LaneEnv;
    forall v, r | 0 <= v < |names| && 0 <= r < 64 ensures LaneEnvs(names, cols)[r](names[v]) == Val(cols[v][r]) {
      LaneEnvAt(names, cols, r, v);
    }
  }

  lemma ScalarShape(k: ScalarKernel, offsets: seq<nat>, g: Graph, root: nat, schema: Schema)
    requires ScalarInstalled(k, offsets, g, root, schema)
    ensures MaskKernel(k, g, root) && |k.lay| == |g| && root < |g|
    ensures k.order != [] && k.order[|k.order| - 1] == root && forall i | 0 <= i < |k.order| :: k.order[i] < |g|
    ensures Numbered(g, k.order, k.lay, k.names, offsets, schema) && |k.names| == |offsets| <= 128
    ensures forall v, w | 0 <= v < w < |k.names| :: k.names[v] != k.names[w]
  {
    hide ScalarFor, InKind;
    RowFacts(k, g, root);
  }

  /** The graph as run loads the same fields, and its root is a mask. */
  lemma {:induction false} RunNumbered(k: ScalarKernel, offsets: seq<nat>, g: Graph, root: nat, schema: Schema)
    requires MaskKernel(k, g, root) && |k.lay| == |g| && forall i | 0 <= i < |k.order| :: k.order[i] < |g|
    requires Numbered(g, k.order, k.lay, k.names, offsets, schema)
    ensures Numbered(RunOf(k, g, root), k.order, k.lay, k.names, offsets, schema) && IsMask(RunOf(k, g, root)[root])
  {
    hide ScalarFor, InKind, AsRun, OperandsListed;
    RowFacts(k, g, root);
    RanKind(g, k.order, root);
    forall i | 0 <= i < |k.order|
      ensures RunOf(k, g, root)[k.order[i]].Load? ==> RunOf(k, g, root)[k.order[i]] == g[k.order[i]]
    {
      RanKind(g, k.order, k.order[i]);
    }
  }

  /** The row loop's bits of the rows present count the rows on which the root, as run, holds. */
  lemma {:induction false} ScalarBlock(k: ScalarKernel, offsets: seq<nat>, g: Graph, root: nat, schema: Schema,
                                       rows: seq<Cells>, start: nat, n: nat, cols: seq<Block>, s: S.State)
    requires ScalarInstalled(k, offsets, g, root, schema) && Gathered(offsets, rows, start, n, cols)
    requires s.Running? && |s.mem| >= SLOTS
    ensures MaskKernel(k, g, root)
    ensures var (s', mask) := RowLoop(k.code, cols, 0, Zero(), s);
            && s'.Running? && |s'.mem| >= SLOTS
            && Pop(BitAnd(mask, RowsMask(n))) == Total(n, PlainAt(RunOf(k, g, root), root, schema, rows, start))
  {
    hide ScalarInstalled, MaskKernel, RunOf, RowLoop, Pop, RowsMask, BitAnd, Total, Eval, Pow2, LaneEnv, RowEnv,
         ColumnsMatch, Numbered, Topological, Valid, SameFields, S.Direct;
    ScalarShape(k, offsets, g, root, schema);
    RunNumbered(k, offsets, g, root, schema);
    var h, j, envs := RunOf(k, g, root), |k.order| - 1, LaneEnvs(k.names, cols);
    LanesAreColumns(k.names, cols);
    ScalarLoopCorrect(k, g, root, cols, envs, s);
    var mask := RowLoop(k.code, cols, 0, Zero(), s).1;
    var f := (r: nat) => if r < 64 then Bit(mask[r]) else 0;
    MaskedPop(mask, n, f);
    forall r: nat | r < n ensures f(r) == PlainAt(h, root, schema, rows, start)(r) {
      LaneReadsRow(h, k.order, k.lay, k.names, offsets, schema, rows, start, n, cols, r);
      EvalAgrees(h, k.order, j, envs[r], RowEnv(schema, rows[start + r]), Pow2(64), 0, 0);
      EvalRange(h, root, RowEnv(schema, rows[start + r]), Pow2(64), 0);
    }
    SumEqual(n, f, PlainAt(h, root, schema, rows, start));
  }

  lemma OrderInside(g: Graph, order: seq<nat>)
    requires Topological(g, order)
    ensures forall i | 0 <= i < |order| :: order[i] < |g|
  {
  }

  /** Counts the rows on which the root, as run, holds, modulo 2^64. */
  method ExecuteScalar(k: ScalarKernel, offsets: seq<nat>, rows: seq<Cells>, buffers: seq<array<Word>>,
                       registers: S.State, ghost g: Graph, ghost root: nat, ghost schema: Schema) returns (total: nat)
    requires ScalarInstalled(k, offsets, g, root, schema) && Fits(offsets, rows) && Columns(buffers) && |buffers| == 128
    requires registers.Running?
    modifies buffers
    ensures MaskKernel(k, g, root)
    ensures total == Wrap(Total(|rows|, PlainAt(RunOf(k, g, root), root, schema, rows, 0)))
  {
    hide ScalarInstalled, RowLoop, Pop, RowsMask, BitAnd, Total, PlainAt, Pow2, Fits, Holding, Wrap, Same, Gathered,
         Acyclic, MaskKernel, RunOf, Numbered, Topological, Valid;
    ScalarShape(k, offsets, g, root, schema);
    ghost var h := RunOf(k, g, root);
    total := 0;
    TotalNone(PlainAt(h, root, schema, rows, 0));
    SameRefl(0);
    PowPositive();
    var chunk := 0;
    while chunk * 64 < |rows|
      invariant chunk * 64 < |rows| + 64 && total < Pow2(64)
      invariant Same(total, Total(Least(chunk * 64, |rows|), PlainAt(h, root, schema, rows, 0)))
      decreases |rows| - chunk * 64
    {
      var start := chunk * 64;
      var n := Least(64, |rows| - start);
      var columns, cols := GatherBlock(rows, start, n, offsets, buffers, false, false);
      HoldingGathered(offsets, rows, start, n, cols);
      var s := S.Running(registers.regs, Cleared(SLOTS), registers.cmp);
      ScalarBlock(k, offsets, g, root, schema, rows, start, n, cols, s);
      var (_, mask) := RowLoop(k.code, columns, 0, Zero(), s);
      var count := Pop(BitAnd(mask, RowsMask(n)));
      PlainSplit(h, root, schema, rows, start, n);
      WrapPlus(total, Total(start, PlainAt(h, root, schema, rows, 0)), count);
      WrapRange(total + count);
      total := Wrap(total + count);
      chunk := chunk + 1;
    }
    SameIsWrap(total, Total(|rows|, PlainAt(h, root, schema, rows, 0)));
  }

  lemma {:induction false} PlainSplit(g: Graph, root: nat, schema: Schema, rows: seq<Cells>, start: nat, n: nat)
    requires Acyclic(g) && root < |g|
    ensures Total(start + n, PlainAt(g, root, schema, rows, 0))
            == Total(start, PlainAt(g, root, schema, rows, 0)) + Total(n, PlainAt(g, root, schema, rows, start))
  {
    hide Eval, Pow2, RowEnv, Acyclic;
    SumSplit(start + n, start, PlainAt(g, root, schema, rows, 0), PlainAt(g, root, schema, rows, start));
  }

  /** Without subtractions the count of a graph is its reference in a bit-sliced run. */
  lemma {:induction false} SameReference(g: Graph, root: nat, schema: Schema, order: seq<nat>, rows: seq<Cells>)
    requires Acyclic(g) && root < |g|
    requires Topological(g, order) && order != [] && order[|order| - 1] == root && NoSub(g, order)
    ensures Total(|rows|, PlainAt(g, root, schema, rows, 0)) == Reference(g, root, schema, rows)
  {
    hide Eval, Pow2, RowEnv, Acyclic, Topological, NoSub;
    OrderInside(g, order);
    forall i: nat | i < |rows| ensures PlainAt(g, root, schema, rows, 0)(i) == ValueAt(g, root, schema, rows, 0)(i) {
      RowValuePlain(g, root, schema, order, rows, i);
    }
    SumEqual(|rows|, PlainAt(g, root, schema, rows, 0), ValueAt(g, root, schema, rows, 0));
  }
}
