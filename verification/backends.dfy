/**
 The scalar kernel as a whole (64 rows, one result bit each), its compilation, and its agreement
 with the bit-sliced kernel on the same columns.
 */
module Backends {
  import opened Words
  import opened Ir
  import opened Emission
  import opened Correctness
  import opened Analysis
  import opened Allocation
  import opened Compiler
  import opened Transpose
  import opened Semantics
  import opened RunGraph
  import S = Scalar
  import M = Machine

  /** Rows `row` to 63: each result is shifted to its row's position and or-ed into the mask. */
  function RowLoop(code: S.Code, cols: seq<Block>, row: nat, mask: Word, s: S.State): (S.State, Word)
    requires row <= 64
    decreases 64 - row
  {
    if row == 64 then (s, mask) else
      var s1 := S.Exec(code, cols, row, s);
      if s1.Fault? then (S.Fault, mask) else
        RowLoop(code, cols, row + 1, BitOr(mask, ShiftLeft(s1.regs[S.ValRes], row)), s1)
  }

  datatype ScalarKernel = ScalarKernel(code: S.Code, lay: Layout, order: seq<nat>, names: seq<string>)

  /**
   The kernel is the row code of exactly what the root depends on, the root last, in distinct slots;
   only the root may do without a slot.
   */
  ghost predicate ScalarFor(k: ScalarKernel, g: Graph, root: nat) {
    && Valid(g) && root < |g| && |k.lay| == |g| && !IsLeaf(g[root])
    && Topological(g, k.order) && Elements(k.order) == Reach(g, root)
    && k.order != [] && k.order[|k.order| - 1] == root
    && S.AllRead(g, k.lay, k.order)
    && (forall i | 0 <= i < |k.order| && g[k.order[i]].Load? ::
          0 <= k.lay[k.order[i]].field < |k.names| && k.names[k.lay[k.order[i]].field] == g[k.order[i]].name)
    && (forall i | 0 <= i < |k.order| && !IsLeaf(g[k.order[i]]) :: k.lay[k.order[i]].slot < SLOTS)
    && (forall i | 0 <= i < |k.order| - 1 && !IsLeaf(g[k.order[i]]) :: 0 <= k.lay[k.order[i]].slot)
    && (forall i, j | 0 <= i < j < |k.order| && !IsLeaf(g[k.order[i]]) && !IsLeaf(g[k.order[j]]) ::
          k.lay[k.order[i]].slot != k.lay[k.order[j]].slot)
    && k.code == S.RowCode(g, k.lay, k.order, |k.order|)
  }

  /** Column v holds field names[v] of every row. */
  ghost predicate ColumnsMatch(names: seq<string>, cols: seq<Block>, rows: seq<Env>)
    requires |rows| == 64
  {
    |names| <= |cols| && forall v, r | 0 <= v < |names| && 0 <= r < 64 :: rows[r](names[v]) == Val(cols[v][r])
  }

  ghost function RowOf(k: ScalarKernel, g: Graph, cols: seq<Block>, r: nat): S.Row {
    S.Row(g, k.lay, k.order, cols, r)
  }

  lemma RowOfOk(k: ScalarKernel, g: Graph, root: nat, cols: seq<Block>, r: nat)
    requires ScalarFor(k, g, root) && |k.names| <= |cols| && r < 64
    ensures S.RowOk(RowOf(k, g, cols, r))
  {
    hide Valid, S.AllRead, Reach, S.RowCode;
  }

  lemma RowOfCells(k: ScalarKernel, g: Graph, root: nat, cols: seq<Block>, rows: seq<Env>, r: nat)
    requires ScalarFor(k, g, root) && |rows| == 64 && ColumnsMatch(k.names, cols, rows) && r < 64
    ensures S.RowOk(RowOf(k, g, cols, r)) && S.CellsMatch(RowOf(k, g, cols, r), rows[r])
  {
    hide Valid, S.AllRead, Reach, S.RowCode, Val;
  }

  // --- The loop -------------------------------------------------------------------------------

  /**
   The word row r ends with, when the loop is entered with `res` in the result register: the fold over
   the row's nodes, entered with what the row before left there.
   */
  ghost function RowWord(k: ScalarKernel, g: Graph, root: nat, cols: seq<Block>, r: nat, res: Word): Word
    requires ScalarFor(k, g, root) && |k.names| <= |cols| && r < 64
    decreases r, 1
  {
    RowOfOk(k, g, root, cols, r);
    S.Folded(RowOf(k, g, cols, r), |k.order|, Entering(k, g, root, cols, r, res)).1
  }

  /** The result register at the start of row r. */
  ghost function Entering(k: ScalarKernel, g: Graph, root: nat, cols: seq<Block>, r: nat, res: Word): Word
    requires ScalarFor(k, g, root) && |k.names| <= |cols| && r <= 64
    decreases r, 0
  {
    if r == 0 then res else RowWord(k, g, root, cols, r - 1, res)
  }

  /** Bit b of the mask is set by bit b - r of the word of some row r, row <= r <= b. */
  ghost predicate SetFrom(k: ScalarKernel, g: Graph, root: nat, cols: seq<Block>, res: Word, row: nat, b: nat)
    requires ScalarFor(k, g, root) && |k.names| <= |cols| && b < 64
  {
    exists r :: row <= r <= b && RowWord(k, g, root, cols, r, res)[b - r]
  }

  lemma SetFromStep(k: ScalarKernel, g: Graph, root: nat, cols: seq<Block>, res: Word, row: nat, b: nat)
    requires ScalarFor(k, g, root) && |k.names| <= |cols| && b < 64 && row < 64
    ensures SetFrom(k, g, root, cols, res, row, b)
            <==> SetFrom(k, g, root, cols, res, row + 1, b) || (row <= b && RowWord(k, g, root, cols, row, res)[b - row])
  {
    hide ScalarFor, RowWord;
    if row <= b && RowWord(k, g, root, cols, row, res)[b - row] {
      assert row <= row <= b;
    }
  }

  lemma {:induction false} RowEnds(k: ScalarKernel, g: Graph, root: nat, cols: seq<Block>, r: nat, res: Word, s: S.State)
    requires ScalarFor(k, g, root) && |k.names| <= |cols| && r < 64
    requires s.Running? && |s.mem| >= SLOTS && s.regs[S.ValRes] == Entering(k, g, root, cols, r, res)
    ensures var s' := S.Exec(k.code, cols, r, s);
            s'.Running? && |s'.mem| >= SLOTS && s'.regs[S.ValRes] == RowWord(k, g, root, cols, r, res)
  {
    hide S.Exec, S.Folded, S.RowOk, ScalarFor, Entering;
    RowOfOk(k, g, root, cols, r);
    RowFacts(k, g, root);
    S.RowRuns(RowOf(k, g, cols, r), |k.order|, s.regs[S.ValRes], s);
  }

  lemma RowFacts(k: ScalarKernel, g: Graph, root: nat)
    requires ScalarFor(k, g, root)
    ensures Valid(g) && Acyclic(g) && |k.lay| == |g| && (forall i | 0 <= i < |k.order| :: k.order[i] < |g|)
    ensures S.AllRead(g, k.lay, k.order) && k.code == S.RowCode(g, k.lay, k.order, |k.order|)
    ensures k.order != [] && k.order[|k.order| - 1] == root && root < |g| && !IsLeaf(g[root]) && Topological(g, k.order)
  {
    hide S.AllRead, S.RowCode, Reach;
  }

  /**
   What the row loop returns, for every expression: it ends well, and bit b of the mask is set exactly if
   it was or some row r sets it with bit b - r of the word it ends with.
   */
  lemma {:induction false} ScalarLoopExact(k: ScalarKernel, g: Graph, root: nat, cols: seq<Block>, row: nat, mask: Word,
                                           res: Word, s: S.State)
    requires ScalarFor(k, g, root) && |k.names| <= |cols| && row <= 64
    requires s.Running? && |s.mem| >= SLOTS && s.regs[S.ValRes] == Entering(k, g, root, cols, row, res)
    ensures var (s', mask') := RowLoop(k.code, cols, row, mask, s);
            && s'.Running? && |s'.mem| >= SLOTS
            && forall b | 0 <= b < 64 :: mask'[b] == (mask[b] || SetFrom(k, g, root, cols, res, row, b))
    decreases 64 - row
  {
    hide S.Exec, ScalarFor, RowWord, SetFrom;
    if row == 64 {
      forall b | 0 <= b < 64 ensures !SetFrom(k, g, root, cols, res, 64, b) {
        NoneFrom(k, g, root, cols, res, b);
      }
    } else {
      RowEnds(k, g, root, cols, row, res, s);
      var s1 := S.Exec(k.code, cols, row, s);
      var w := s1.regs[S.ValRes];
      var mask1 := BitOr(mask, ShiftLeft(w, row));
      ScalarLoopExact(k, g, root, cols, row + 1, mask1, res, s1);
      forall b | 0 <= b < 64
        ensures (mask1[b] || SetFrom(k, g, root, cols, res, row + 1, b))
             == (mask[b] || SetFrom(k, g, root, cols, res, row, b))
      {
        assert mask1[b] == (mask[b] || (row <= b && w[b - row]));
        SetFromStep(k, g, root, cols, res, row, b);
      }
    }
  }

  lemma NoneFrom(k: ScalarKernel, g: Graph, root: nat, cols: seq<Block>, res: Word, b: nat)
    requires ScalarFor(k, g, root) && |k.names| <= |cols| && b < 64
    ensures !SetFrom(k, g, root, cols, res, 64, b)
  {
    hide ScalarFor, RowWord;
  }

  // --- Masks ----------------------------------------------------------------------------------

  /** A mask whose negations and sums follow a computation of their own kind. */
  ghost predicate MaskKernel(k: ScalarKernel, g: Graph, root: nat) {
    ScalarFor(k, g, root) && IsMask(g[root]) && InKind(g, k.order)
  }

  /** The graph the kernel runs in place of the expression. */
  ghost function RunOf(k: ScalarKernel, g: Graph, root: nat): (h: Graph)
    requires MaskKernel(k, g, root)
    ensures |h| == |g| && root < |g| && Valid(h) && Acyclic(h) && Topological(h, k.order)
  {
    RowFacts(k, g, root);
    RanValid(g, k.order);
    AsRun(g, k.order)
  }

  lemma {:induction false} MaskResult(g: Graph, id: nat, env: Env, w: Word)
    requires Valid(g) && id < |g| && IsMask(g[id]) && Val(w) == Eval(g, id, env, Pow2(64), 0)
    ensures w == if Eval(g, id, env, Pow2(64), 0) != 0 then One() else Zero()
  {
    hide Pow2, Val, Eval;
    EvalRange(g, id, env, Pow2(64), 0);
    S.TruthWord(w);
  }

  /** A row of a mask ends with one bit: the value of the root in the graph as run. */
  lemma {:induction false} RowBit(k: ScalarKernel, g: Graph, root: nat, cols: seq<Block>, rows: seq<Env>, r: nat, res: Word)
    requires MaskKernel(k, g, root) && |rows| == 64 && ColumnsMatch(k.names, cols, rows) && r < 64
    ensures RowWord(k, g, root, cols, r, res)
         == if Eval(RunOf(k, g, root), root, rows[r], Pow2(64), 0) != 0 then One() else Zero()
  {
    hide ScalarFor, ColumnsMatch, S.Folded, S.RowOk, S.CellsMatch, Pow2, Val, Eval, Entering, AsRun, InKind;
    RowFacts(k, g, root);
    NamesFit(k.names, cols, rows);
    RowOfCells(k, g, root, cols, rows, r);
    var x, res' := RowOf(k, g, cols, r), Entering(k, g, root, cols, r, res);
    RowResult(x, res', rows[r]);
    RanKind(g, k.order, root);
    MaskResult(RunOf(k, g, root), root, rows[r], S.Folded(x, |k.order|, res').1);
  }

  lemma OneBitEach(k: ScalarKernel, g: Graph, root: nat, cols: seq<Block>, res: Word, b: nat)
    requires ScalarFor(k, g, root) && |k.names| <= |cols| && b < 64
    requires forall r | 0 <= r < 64 :: RowWord(k, g, root, cols, r, res) in {One(), Zero()}
    ensures SetFrom(k, g, root, cols, res, 0, b) <==> RowWord(k, g, root, cols, b, res) == One()
  {
    hide ScalarFor, RowWord;
    assert One()[0] && !Zero()[0] && forall i | 0 < i < 64 :: !One()[i] && !Zero()[i];
    if RowWord(k, g, root, cols, b, res) == One() {
      assert RowWord(k, g, root, cols, b, res)[b - b];
    }
  }

  /**
   The row loop of a mask, from any state: bit r is the value that the root has on row r in the graph as
   run. With no negation and no sum that graph is the expression itself.
   */
  lemma {:induction false} ScalarLoopCorrect(k: ScalarKernel, g: Graph, root: nat, cols: seq<Block>, rows: seq<Env>,
                                             s: S.State)
    requires MaskKernel(k, g, root) && |rows| == 64 && ColumnsMatch(k.names, cols, rows) && s.Running? && |s.mem| >= SLOTS
    ensures var (s', mask) := RowLoop(k.code, cols, 0, Zero(), s);
            && s'.Running? && |s'.mem| >= SLOTS
            && forall r | 0 <= r < 64 :: mask[r] == (Eval(RunOf(k, g, root), root, rows[r], Pow2(64), 0) != 0)
    ensures S.Direct(g, k.order, |k.order|) ==> RunOf(k, g, root) == g
  {
    hide ScalarFor, ColumnsMatch, RowLoop, Pow2, Eval, RowWord, InKind, AsRun, SetFrom, S.Direct;
    var res := s.regs[S.ValRes];
    NamesFit(k.names, cols, rows);
    RowFacts(k, g, root);
    ScalarLoopExact(k, g, root, cols, 0, Zero(), res, s);
    OneIsNotZero();
    forall r | 0 <= r < 64
      ensures RowWord(k, g, root, cols, r, res)
           == if Eval(RunOf(k, g, root), root, rows[r], Pow2(64), 0) != 0 then One() else Zero()
    {
      RowBit(k, g, root, cols, rows, r, res);
    }
    forall r | 0 <= r < 64 ensures SetFrom(k, g, root, cols, res, 0, r) == (RowWord(k, g, root, cols, r, res) == One()) {
      OneBitEach(k, g, root, cols, res, r);
    }
    if S.Direct(g, k.order, |k.order|) {
      DirectRan(g, k.order);
    }
  }

  lemma OneIsNotZero()
    ensures One() != Zero()
  {
    assert One()[0] != Zero()[0];
  }

  lemma NamesFit(names: seq<string>, cols: seq<Block>, rows: seq<Env>)
    requires |rows| == 64 && ColumnsMatch(names, cols, rows)
    ensures |names| <= |cols|
  {
  }

  lemma DirectMask(k: ScalarKernel, g: Graph, root: nat)
    requires ScalarFor(k, g, root) && IsMask(g[root]) && S.Direct(g, k.order, |k.order|)
    ensures MaskKernel(k, g, root) && RunOf(k, g, root) == g
  {
    hide ScalarFor, InKind, AsRun, S.Direct;
    RowFacts(k, g, root);
    DirectRan(g, k.order);
  }

  // --- Negations ------------------------------------------------------------------------------

  /**
   A negated root, negations anywhere below it: bit r of the returned mask is right exactly when what was
   computed last before the root, as run, and the negated operand, as written, disagree on row r.
   */
  lemma {:induction false} NegatedRoot(k: ScalarKernel, g: Graph, root: nat, cols: seq<Block>, rows: seq<Env>,
                                       s: S.State, r: nat)
    requires MaskKernel(k, g, root) && |rows| == 64 && ColumnsMatch(k.names, cols, rows) && r < 64
    requires g[root].Not? && s.Running? && |s.mem| >= SLOTS
    ensures (forall i | 0 <= i < |k.order| :: k.order[i] < |g|) && k.order != [] && Acyclic(g)
    ensures var p, mask := Last(g, k.order, |k.order| - 1), RowLoop(k.code, cols, 0, Zero(), s).1;
            && p >= 0
            && (mask[r] == (Eval(g, root, rows[r], Pow2(64), 0) != 0)
                <==> (Eval(RunOf(k, g, root), p, rows[r], Pow2(64), 0) != 0)
                     != (Eval(g, g[root].left, rows[r], Pow2(64), 0) != 0))
  {
    hide ScalarFor, ColumnsMatch, RowLoop, Pow2, InKind, Last, AsRun, Eval, Valid;
    RowFacts(k, g, root);
    ScalarLoopCorrect(k, g, root, cols, rows, s);
    SilentHasLast(g, k.order, |k.order| - 1);
    RanAt(g, k.order, |k.order| - 1);
    NotAndOr(g, RunOf(k, g, root), root, Last(g, k.order, |k.order| - 1), rows[r]);
  }

  lemma NotAndOr(g: Graph, h: Graph, id: nat, p: nat, env: Env)
    requires Acyclic(g) && Acyclic(h) && id < |g| == |h| && p < |h| && g[id].Not? && h[id] == Or(p, p)
    ensures g[id].left < |g| && (Eval(g, id, env, Pow2(64), 0) != 0) != (Eval(g, g[id].left, env, Pow2(64), 0) != 0)
    ensures (Eval(h, id, env, Pow2(64), 0) != 0) == (Eval(h, p, env, Pow2(64), 0) != 0)
  {
    hide Pow2;
  }

  /** A node with nothing silent listed up to it has the same value in both graphs. */
  lemma {:induction false} SameUpTo(k: ScalarKernel, g: Graph, root: nat, cols: seq<Block>, rows: seq<Env>, r: nat, j: nat)
    requires MaskKernel(k, g, root) && |rows| == 64 && ColumnsMatch(k.names, cols, rows) && r < 64
    requires j < |k.order| && S.Direct(g, k.order, j + 1)
    ensures k.order[j] < |g| && Acyclic(g)
    ensures !IsLeaf(g[k.order[j]]) ==>
              Eval(RunOf(k, g, root), k.order[j], rows[r], Pow2(64), 0) == Eval(g, k.order[j], rows[r], Pow2(64), 0)
  {
    hide ScalarFor, ColumnsMatch, S.Folded, S.RowOk, S.CellsMatch, Pow2, Val, Eval, S.Direct, AsRun, InKind;
    RowFacts(k, g, root);
    RowOfCells(k, g, root, cols, rows, r);
    var x := RowOf(k, g, cols, r);
    RowAsRunOk(x);
    RanCells(x, rows[r]);
    RanValued(x, j + 1, Zero(), rows[r]);
    SameFold(x, j + 1, Zero());
    S.DirectIsExact(x, j + 1, Zero(), rows[r]);
    SameLeaf(x, j);
  }

  /** When the operand is listed right before the negated root, every bit of the mask is wrong. */
  lemma {:induction false} NegationInverts(k: ScalarKernel, g: Graph, root: nat, cols: seq<Block>, rows: seq<Env>,
                                           s: S.State)
    requires ScalarFor(k, g, root) && |rows| == 64 && ColumnsMatch(k.names, cols, rows) && s.Running? && |s.mem| >= SLOTS
    requires g[root].Not? && |k.order| >= 2 && k.order[|k.order| - 2] == g[root].left
    requires S.Direct(g, k.order, |k.order| - 1)
    ensures var (s', mask) := RowLoop(k.code, cols, 0, Zero(), s);
            s'.Running? && forall r | 0 <= r < 64 :: mask[r] != (Eval(g, root, rows[r], Pow2(64), 0) != 0)
  {
    hide ScalarFor, ColumnsMatch, RowLoop, Pow2, Eval, AsRun;
    RowFacts(k, g, root);
    OnlyRootSilent(g, k.order);
    ScalarLoopCorrect(k, g, root, cols, rows, s);
    forall r | 0 <= r < 64 ensures RowLoop(k.code, cols, 0, Zero(), s).1[r] != (Eval(g, root, rows[r], Pow2(64), 0) != 0) {
      NegatedRoot(k, g, root, cols, rows, s, r);
      SameUpTo(k, g, root, cols, rows, r, |k.order| - 2);
    }
  }

  lemma OnlyRootSilent(g: Graph, order: seq<nat>)
    requires Valid(g) && Topological(g, order) && |order| >= 2 && g[order[|order| - 1]].Not?
    requires g[order[|order| - 1]].left == order[|order| - 2] && S.Direct(g, order, |order| - 1)
    ensures InKind(g, order) && Last(g, order, |order| - 1) == order[|order| - 2] && !IsLeaf(g[order[|order| - 2]])
  {
    assert TypedAt(g, order[|order| - 1]);
  }

  // --- Agreement ------------------------------------------------------------------------------

  /** Rows read from raw columns. */
  ghost function RowsOf(colOf: string -> Block): (rows: seq<Env>)
    ensures |rows| == 64
  {
    seq(64, r requires 0 <= r < 64 => (name: string) => Val(colOf(name)[r]))
  }

  function PlanesFor(names: seq<string>, colOf: string -> Block): (fields: seq<Block>) {
    seq<Block>(|names|, v requires 0 <= v < |names| => Sliced(colOf(names[v]), 64))
  }

  function ColumnsFor(names: seq<string>, colOf: string -> Block): (cols: seq<Block>) {
    seq<Block>(|names|, v requires 0 <= v < |names| => colOf(names[v]))
  }

  lemma PlanesMatch(names: seq<string>, colOf: string -> Block)
    ensures FieldsMatch(names, PlanesFor(names, colOf), RowsOf(colOf), 64)
  {
    hide Val, Pow2;
    var fields, rows := PlanesFor(names, colOf), RowsOf(colOf);
    forall v, r | 0 <= v < |names| && 0 <= r < 64
      ensures rows[r](names[v]) % Pow2(64) == Val(Lane(fields[v][..64], r))
    {
      SlicedLane(colOf(names[v]), 64, r);
      assert colOf(names[v])[r][..64] == colOf(names[v])[r];
      WordRange(colOf(names[v])[r]);
    }
  }

  lemma ColumnsForMatch(names: seq<string>, colOf: string -> Block)
    ensures ColumnsMatch(names, ColumnsFor(names, colOf), RowsOf(colOf))
  {
    hide Val;
  }

  lemma AllEmitted(g: Graph, order: seq<nat>)
    requires Closed(g) && (forall i | 0 <= i < |order| :: order[i] < |g|) && S.Direct(g, order, |order|)
    ensures SkipClosed(g, order, {})
  {
  }

  /** The same list of dependencies, possibly in another order. */
  lemma DirectByReach(g: Graph, order: seq<nat>, order': seq<nat>)
    requires (forall i | 0 <= i < |order| :: order[i] < |g|) && (forall i | 0 <= i < |order'| :: order'[i] < |g|)
    requires Elements(order') == Elements(order) && S.Direct(g, order, |order|)
    ensures S.Direct(g, order', |order'|) && (NoSub(g, order) ==> NoSub(g, order'))
  {
    forall i | 0 <= i < |order'|
      ensures !g[order'[i]].Not? && !g[order'[i]].Sum? && (NoSub(g, order) ==> !g[order'[i]].Sub?)
    {
      assert order'[i] in Elements(order);
    }
  }

  /** The bit-sliced kernel of a mask answers row 0, and without subtractions every row, with the arithmetic meaning. */
  lemma {:induction false} SlicedAnswers(k: Kernel, g: Graph, root: nat, colOf: string -> Block, regs: M.Regs,
                                         mem: seq<Word>, r: nat)
    requires KernelFor(k, g, root, 64, {}) && IsMask(g[root]) && |mem| >= SLOTS && r < 64
    requires S.Direct(g, k.order, |k.order|)
    ensures var s := M.Exec(k.code, PlanesFor(k.names, colOf), M.Running(regs, mem));
            && s.Running? && s.regs[M.Result0].Data?
            && (r == 0 || NoSub(g, k.order) ==>
                  s.regs[M.Result0].w[r] == (Eval(g, root, RowsOf(colOf)[r], Pow2(64), 0) != 0))
  {
    hide M.Exec, Reach, Pow2, Disjoint, AllEmittable, SetupOk, SkipClosed, FieldsMatch, Eval;
    var fields, rows := PlanesFor(k.names, colOf), RowsOf(colOf);
    PlanesMatch(k.names, colOf);
    AllEmitted(g, k.order);
    CompiledKernelRuns(k, g, root, 64, {}, fields, rows, regs, mem);
    if r == 0 || NoSub(g, k.order) {
      EvalAgrees(g, k.order, |k.order| - 1, rows[r], rows[r], Pow2(64), Borrow(r), 0);
    }
  }

  lemma BothFacts(k: Kernel, ks: ScalarKernel, g: Graph, root: nat)
    requires KernelFor(k, g, root, 64, {}) && ScalarFor(ks, g, root)
    ensures Acyclic(g) && root < |g| && Elements(k.order) == Elements(ks.order) && |ks.order| > 0
    ensures ks.order[|ks.order| - 1] == root
    ensures (forall i | 0 <= i < |k.order| :: k.order[i] < |g|) && forall i | 0 <= i < |ks.order| :: ks.order[i] < |g|
  {
    hide Reach, Disjoint, AllEmittable, S.AllRead, S.RowCode;
  }

  /**
   On a comparison- or logic-rooted expression without negation the scalar loop over raw columns and the
   bit-sliced kernel over the transposed columns both end well. They agree on row 0, and without
   subtractions they return the same mask.
   */
  lemma {:induction false} BackendsAgree(k: Kernel, ks: ScalarKernel, g: Graph, root: nat, colOf: string -> Block,
                                         regs: M.Regs, mem: seq<Word>, s: S.State)
    requires KernelFor(k, g, root, 64, {}) && ScalarFor(ks, g, root) && IsMask(g[root])
    requires S.Direct(g, ks.order, |ks.order|)
    requires |mem| >= SLOTS && s.Running? && |s.mem| >= SLOTS
    ensures var t := M.Exec(k.code, PlanesFor(k.names, colOf), M.Running(regs, mem));
            var (s', mask) := RowLoop(ks.code, ColumnsFor(ks.names, colOf), 0, Zero(), s);
            && t.Running? && t.regs[M.Result0].Data? && s'.Running?
            && t.regs[M.Result0].w[0] == mask[0]
            && (NoSub(g, ks.order) ==> t.regs[M.Result0].w == mask)
  {
    hide M.Exec, KernelFor, ScalarFor, Pow2, RowLoop, Eval, ColumnsMatch, MaskKernel, RunOf, S.Direct, NoSub;
    BothFacts(k, ks, g, root);
    DirectByReach(g, ks.order, k.order);
    ColumnsForMatch(ks.names, colOf);
    DirectMask(ks, g, root);
    ScalarLoopCorrect(ks, g, root, ColumnsFor(ks.names, colOf), RowsOf(colOf), s);
    var mask := RowLoop(ks.code, ColumnsFor(ks.names, colOf), 0, Zero(), s).1;
    var t := M.Exec(k.code, PlanesFor(k.names, colOf), M.Running(regs, mem));
    SlicedAnswers(k, g, root, colOf, regs, mem, 0);
    if NoSub(g, ks.order) {
      forall r | 0 <= r < 64 ensures t.regs[M.Result0].w[r] == mask[r] {
        SlicedAnswers(k, g, root, colOf, regs, mem, r);
      }
      assert t.regs[M.Result0].w == mask;
    }
  }

  // --- Compilation ----------------------------------------------------------------------------

  datatype ScalarOutcome = ScalarUndefined | ScalarCompiled(kernel: ScalarKernel)

  /** Nodes among the first k that need a slot. */
  ghost function Inner(g: Graph, order: seq<nat>, k: nat): nat
    requires k <= |order| && forall i | 0 <= i < |order| :: order[i] < |g|
  {
    if k == 0 then 0 else Inner(g, order, k - 1) + Bit(!IsLeaf(g[order[k - 1]]))
  }

  ghost predicate ScalarPlaced(g: Graph, idx: map<string, nat>, order: seq<nat>, k: nat, lay: Layout)
    requires k <= |order| && |lay| == |g| && forall i | 0 <= i < |order| :: order[i] < |g|
  {
    forall i | 0 <= i < k :: ScalarNode(g, idx, order, i, lay[order[i]])
  }

  ghost predicate ScalarNode(g: Graph, idx: map<string, nat>, order: seq<nat>, i: nat, m: Meta)
    requires i < |order| && forall i | 0 <= i < |order| :: order[i] < |g|
  {
    && (g[order[i]].Load? && g[order[i]].name in idx ==> m.field == idx[g[order[i]].name])
    && (!IsLeaf(g[order[i]]) ==> m.slot == SlotFor(Inner(g, order, i)))
  }

  /** The slot of a node with so many inner nodes before it; none is left after the last. */
  function SlotFor(inner: nat): int {
    if inner < SLOTS then inner else -1
  }

  /** Slots in order of appearance, and none once they have run out. */
  method PlaceScalar(g: Graph, idx: map<string, nat>, order: seq<nat>) returns (lay: Layout)
    requires forall i | 0 <= i < |order| :: order[i] < |g|
    requires forall i, j | 0 <= i < j < |order| :: order[i] != order[j]
    ensures |lay| == |g| && ScalarPlaced(g, idx, order, |order|, lay)
  {
    hide ScalarPlaced, ScratchpadManager.Valid, ScratchpadManager.Taken;
    lay := seq(|g|, i => Meta(-1, -1, -1, -1));
    var mgr := new ScratchpadManager();
    mgr.NothingTaken();
    PlacedNothing(g, idx, order, lay);
    for k := 0 to |order|
      invariant |lay| == |g| && mgr.Valid() && fresh(mgr) && fresh(mgr.used) && mgr.blocks == 0
      invariant mgr.singles == Least(Inner(g, order, k), SLOTS)
      invariant forall w: nat :: mgr.Taken(w) <==> w < Least(Inner(g, order, k), SLOTS)
      invariant ScalarPlaced(g, idx, order, k, lay)
    {
      var n := g[order[k]];
      var m := Meta(-1, -1, if n.Load? && n.name in idx then idx[n.name] else -1, -1);
      if !IsLeaf(n) {
        ghost var taken := Inner(g, order, k);
        assert taken < SLOTS ==> !mgr.Taken(taken);
        RoomForSlot(mgr.singles);
        label Before:
        var id := mgr.AllocSlot();
        m := m.(slot := id);
        assert id >= 0 ==> !old@Before(mgr.Taken(id));
        assert taken < SLOTS ==> id <= taken;
      }
      PlacedOne(g, idx, order, k, lay, m);
      lay := lay[order[k] := m];
    }
  }

  lemma RoomForSlot(singles: nat)
    ensures Needed(0, singles + 1) <= CHUNKS <==> singles < SLOTS
  {
  }

  lemma PlacedNothing(g: Graph, idx: map<string, nat>, order: seq<nat>, lay: Layout)
    requires |lay| == |g| && forall i | 0 <= i < |order| :: order[i] < |g|
    ensures ScalarPlaced(g, idx, order, 0, lay)
  {
  }

  lemma PlacedOne(g: Graph, idx: map<string, nat>, order: seq<nat>, k: nat, lay: Layout, m: Meta)
    requires k < |order| && |lay| == |g| && forall i | 0 <= i < |order| :: order[i] < |g|
    requires forall i | 0 <= i < k :: order[i] != order[k]
    requires ScalarPlaced(g, idx, order, k, lay)
    requires ScalarNode(g, idx, order, k, m)
    ensures ScalarPlaced(g, idx, order, k + 1, lay[order[k] := m])
  {
    hide ScalarNode;
    var lay' := lay[order[k] := m];
    assert forall i | 0 <= i < k :: lay'[order[i]] == lay[order[i]];
  }

  lemma {:induction false} InnerGrows(g: Graph, order: seq<nat>, i: nat, j: nat)
    requires i < j <= |order| && (forall i | 0 <= i < |order| :: order[i] < |g|) && !IsLeaf(g[order[i]])
    ensures Inner(g, order, i) < Inner(g, order, j)
    decreases j
  {
    if i < j - 1 {
      InnerGrows(g, order, i, j - 1);
    }
  }

  /** Fields and slots of a placement, node by node. */
  lemma ScalarNodeFacts(g: Graph, idx: map<string, nat>, order: seq<nat>, lay: Layout, names: seq<string>, i: nat)
    requires |lay| == |g| && i < |order| && forall i | 0 <= i < |order| :: order[i] < |g|
    requires ScalarPlaced(g, idx, order, |order|, lay) && Numbers(names, idx)
    requires g[order[i]].Load? ==> g[order[i]].name in idx
    ensures g[order[i]].Load? ==> 0 <= lay[order[i]].field < |names| && names[lay[order[i]].field] == g[order[i]].name
    ensures !IsLeaf(g[order[i]]) ==> lay[order[i]].slot == SlotFor(Inner(g, order, i))
  {
    hide Inner;
    assert ScalarNode(g, idx, order, i, lay[order[i]]);
  }

  lemma ScalarReads(g: Graph, lay: Layout, order: seq<nat>, i: nat)
    requires Valid(g) && Topological(g, order) && |lay| == |g| && i < |order|
    requires forall i | 0 <= i < |order| - 1 :: S.Located(g[order[i]], lay[order[i]])
    ensures S.Reads(g, lay, order[i])
  {
    var id := order[i];
    assert OperandsListed(g[id], order, i) && TypedAt(g, id);
    forall c: nat | Listed(order, i, c) ensures c < |g| && S.Located(g[c], lay[c]) {
      var j :| 0 <= j < i && order[j] == c;
    }
  }

  /**
   Compiles `root` for the row loop. What is emitted is undefined exactly when some node before the
   root is left without a slot, or the root is a leaf; the root itself needs no slot.
   */
  method CompileScalar(g: Graph, root: nat) returns (out: ScalarOutcome, order: seq<nat>)
    requires Valid(g) && root < |g|
    ensures Topological(g, order) && Elements(order) == Reach(g, root) && order == Visit(g, root, [])
    ensures out.ScalarUndefined? == (IsLeaf(g[root]) || Inner(g, order, |order|) > SLOTS + 1)
    ensures out.ScalarCompiled? ==> out.kernel.order == order && ScalarFor(out.kernel, g, root)
  {
    hide Reach, Visit, Acyclic, Elements, Inner, ScalarPlaced, S.NodeCode, Names;
    var analyzer := new ExpressionAnalyzer();
    TopologicalNone(g);
    analyzer.Analyze(g, root);
    order := analyzer.allNodes;
    var names, idx := NumberAll(g, order);
    var lay := PlaceScalar(g, idx, order);
    var inner := CountInner(g, order);
    if IsLeaf(g[root]) || inner > SLOTS + 1 {
      return ScalarUndefined, order;
    }
    ScalarKernelFacts(g, idx, order, lay, names);
    var code := S.EmitRow(g, lay, order);
    out := ScalarCompiled(ScalarKernel(code, lay, order, names));
  }

  method CountInner(g: Graph, order: seq<nat>) returns (inner: nat)
    requires forall i | 0 <= i < |order| :: order[i] < |g|
    ensures inner == Inner(g, order, |order|)
  {
    inner := 0;
    for k := 0 to |order|
      invariant inner == Inner(g, order, k)
    {
      inner := inner + Bit(!IsLeaf(g[order[k]]));
    }
  }

  lemma {:induction false} InnerBounded(g: Graph, order: seq<nat>, k: nat)
    requires k <= |order| && forall i | 0 <= i < |order| :: order[i] < |g|
    ensures Inner(g, order, k) <= k
  {
    if k > 0 {
      InnerBounded(g, order, k - 1);
    }
  }

  lemma ScalarKernelFacts(g: Graph, idx: map<string, nat>, order: seq<nat>, lay: Layout, names: seq<string>)
    requires Valid(g) && Topological(g, order) && |lay| == |g| && order != [] && !IsLeaf(g[order[|order| - 1]])
    requires ScalarPlaced(g, idx, order, |order|, lay) && Inner(g, order, |order|) <= SLOTS + 1 && Numbers(names, idx)
    requires forall i | 0 <= i < |order| && g[order[i]].Load? :: g[order[i]].name in idx
    ensures forall i | 0 <= i < |order| && g[order[i]].Load? ::
              0 <= lay[order[i]].field < |names| && names[lay[order[i]].field] == g[order[i]].name
    ensures forall i | 0 <= i < |order| && !IsLeaf(g[order[i]]) :: lay[order[i]].slot < SLOTS
    ensures forall i | 0 <= i < |order| - 1 && !IsLeaf(g[order[i]]) :: 0 <= lay[order[i]].slot
    ensures forall i, j | 0 <= i < j < |order| && !IsLeaf(g[order[i]]) && !IsLeaf(g[order[j]]) ::
              lay[order[i]].slot != lay[order[j]].slot
    ensures S.AllRead(g, lay, order)
  {
    hide Inner, ScalarPlaced, Numbers, Valid, S.Reads, OperandsListed;
    forall i | 0 <= i < |order|
      ensures g[order[i]].Load? ==> 0 <= lay[order[i]].field < |names| && names[lay[order[i]].field] == g[order[i]].name
      ensures !IsLeaf(g[order[i]]) ==> lay[order[i]].slot == SlotFor(Inner(g, order, i))
      ensures i < |order| - 1 && !IsLeaf(g[order[i]]) ==> Inner(g, order, i) < SLOTS
    {
      ScalarNodeFacts(g, idx, order, lay, names, i);
      if i < |order| - 1 && !IsLeaf(g[order[i]]) {
        InnerGrows(g, order, i, |order| - 1);
        InnerGrows(g, order, |order| - 1, |order|);
      }
    }
    forall i, j | 0 <= i < j < |order| && !IsLeaf(g[order[i]]) && !IsLeaf(g[order[j]])
      ensures lay[order[i]].slot != lay[order[j]].slot
    {
      InnerGrows(g, order, i, j);
    }
    forall i | 0 <= i < |order| ensures S.Reads(g, lay, order[i]) {
      ScalarReads(g, lay, order, i);
    }
  }

  /** Field numbers without a limit. */
  method NumberAll(g: Graph, order: seq<nat>) returns (names: seq<string>, idx: map<string, nat>)
    requires forall i | 0 <= i < |order| :: order[i] < |g|
    ensures Numbers(names, idx) && forall i | 0 <= i < |order| && g[order[i]].Load? :: g[order[i]].name in idx
  {
    hide Numbers;
    names, idx := [], map[];
    NumbersNone();
    for k := 0 to |order|
      invariant Numbers(names, idx)
      invariant forall i | 0 <= i < k && g[order[i]].Load? :: g[order[i]].name in idx
    {
      var n := g[order[k]];
      if n.Load? && n.name !in idx {
        NumbersAppend(names, idx, n.name);
        idx := idx[n.name := |names|];
        names := names + [n.name];
      }
    }
  }
}
