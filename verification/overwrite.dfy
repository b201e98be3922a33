/**
 What the final copy costs: the larger of two fields, compiled, loses its comparison. The comparison
 is placed in word 0, the selection in a block of its own, and copying that block to words 0 to 63
 leaves plane 0 of the result where the comparison was.
 */
module Overwrite {
  import opened Words
  import opened Ir
  import opened Machine
  import opened Emission
  import opened Correctness
  import opened Analysis
  import opened Allocation
  import opened Compiler
  import opened Bounds

  const COMPARISON: nat := 2
  const LARGER: nat := 3

  /** a > b ? a : b */
  function Larger(): Graph {
    [Load("a"), Load("b"), Compare(GT, 0, 1), Select(2, 0, 1)]
  }

  lemma LargerValid()
    ensures Valid(Larger()) && Acyclic(Larger()) && |Larger()| == 4
  {
    LargerRanked();
    forall i | 0 <= i < 4 ensures TypedAt(Larger(), i) {
    }
  }

  lemma LargerRanked()
    ensures |Larger()| == 4 && Acyclic(Larger())
  {
    assert Ranked(Larger(), [0, 0, 1, 2]);
  }

  /** A compiled kernel for it. */
  ghost predicate LargerKernel(k: Kernel) {
    KernelFor(k, Larger(), LARGER, 64, {}) && FirstMaskLow(Larger(), k.order, |k.order|, k.lay)
  }

  /** The larger of two fields always compiles. */
  method CompileLarger() returns (k: Kernel)
    ensures LargerKernel(k)
  {
    hide KernelFor, FirstMaskLow, CarriesSuffice, Names, Blocks, Singles, Needed, Reach, Elements, Topological;
    LargerValid();
    var out, order := CompileExpression(Larger(), LARGER, 64, {});
    SmallCompiles(Larger(), order, {});
    k := out.kernel;
  }

  /** In every such kernel the comparison is in word 0 and the result starts at word 64 or later. */
  lemma {:induction false} LargerPlaced(k: Kernel)
    requires LargerKernel(k)
    ensures |k.lay| == 4 && Topological(Larger(), k.order)
    ensures Listed(k.order, |k.order|, COMPARISON) && SkipClosed(Larger(), k.order, {})
    ensures PlacedAlone(Larger()[COMPARISON], k.lay[COMPARISON]) && PlacedAlone(Larger()[LARGER], k.lay[LARGER])
    ensures k.lay[COMPARISON].slot == 0 && k.lay[LARGER].slot >= 64
  {
    hide Valid, Reach, AllEmittable, KernelCode, PlacedAlone, OperandsListed, SkipClosed, OnlyLeaves;
    var g, n := Larger(), |k.order|;
    var j := ComparisonFirst(k.order);
    assert IsMask(g[k.order[j]]) && k.lay[k.order[j]].slot == 0;
    assert PlacedAlone(g[k.order[j]], k.lay[COMPARISON]) && PlacedAlone(g[k.order[n - 1]], k.lay[LARGER]);
    Apart(g, k.lay, k.order, j);
  }

  /** The comparison is listed, and only the two fields before it. */
  lemma ComparisonFirst(order: seq<nat>) returns (j: nat)
    requires Topological(Larger(), order) && order != [] && order[|order| - 1] == LARGER
    ensures j < |order| - 1 && order[j] == COMPARISON && OnlyLeaves(Larger(), order, j) && SkipClosed(Larger(), order, {})
  {
    var g := Larger();
    assert OperandsListed(g[LARGER], order, |order| - 1);
    j :| 0 <= j < |order| - 1 && order[j] == COMPARISON;
  }

  lemma Apart(g: Graph, lay: Layout, order: seq<nat>, j: nat)
    requires g == Larger() && |lay| == |g| && (forall i | 0 <= i < |order| :: order[i] < |g|) && Disjoint(g, lay, order)
    requires j < |order| - 1 && order[j] == COMPARISON && order[|order| - 1] == LARGER && lay[COMPARISON].slot == 0
    ensures lay[LARGER].slot >= 64
  {
    assert Owns(g[order[j]], lay[order[j]], 0);
    assert !Owns(g[order[|order| - 1]], lay[order[|order| - 1]], 0);
    assert PlacedAlone(g[order[|order| - 1]], lay[LARGER]);
  }

  /** Planes and rows agree on both fields. */
  ghost predicate Fed(k: Kernel, fields: seq<Block>, rows: seq<Env>) {
    && |rows| == 64 && FieldsMatch(k.names, fields, rows, 64)
    && forall r | 0 <= r < 64 :: rows[r]("a") < Pow2(64) && rows[r]("b") < Pow2(64)
  }

  /** The comparison's word reads, lane by lane, as the comparison. */
  ghost predicate ComparisonStands(k: Kernel, rows: seq<Env>, mem: seq<Word>) {
    && |k.lay| == 4 && |rows| == 64 && 0 <= k.lay[COMPARISON].slot < |mem|
    && forall r | 0 <= r < 64 :: mem[k.lay[COMPARISON].slot][r] == (rows[r]("a") > rows[r]("b"))
  }

  /**
   After the kernel ran, the comparison's word reads as the comparison exactly when in every row
   a exceeds b if and only if the larger of the two is odd.
   */
  lemma {:induction false} ComparisonLost(k: Kernel, fields: seq<Block>, rows: seq<Env>, regs: Regs, mem: seq<Word>)
    requires LargerKernel(k) && Fed(k, fields, rows) && |mem| >= SLOTS
    ensures var s := Exec(k.code, fields, Running(regs, mem));
            s.Running? && (ComparisonStands(k, rows, s.mem) <==> forall r | 0 <= r < 64 :: OddWins(rows[r]("a"), rows[r]("b")))
  {
    hide Exec, KernelFor, FirstMaskLow, SetupOk, FieldsMatch, Pow2, Delivers, SkipClosed, Holds, Bits, Larger, Eval, PlacedAlone,
         Topological, Listed;
    LargerPlaced(k);
    LargerValid();
    LargerShape();
    CompiledKernelRuns(k, Larger(), LARGER, 64, {}, fields, rows, regs, mem);
    var x := SetupOf(k, Larger(), 64, {}, fields, rows);
    var s := Exec(k.code, fields, Running(regs, mem));
    DeliveredRoom(x, LARGER, s);
    OverwrittenHolds(x, LARGER, s, COMPARISON);
    forall r | 0 <= r < 64
      ensures Meaning(x, COMPARISON, r) == Bit(rows[r]("a") > rows[r]("b"))
      ensures Bits(Meaning(x, LARGER, r), 64)[0] == (Greater(rows[r]("a"), rows[r]("b")) % 2 == 1)
    {
      LargerValue(rows[r], Borrow(r));
    }
    HeldComparison(x, s.mem);
  }

  /** a exceeds b exactly when the larger of the two is odd. */
  predicate OddWins(a: nat, b: nat) {
    (a > b) == (Greater(a, b) % 2 == 1)
  }

  function Greater(a: nat, b: nat): nat {
    if a > b then a else b
  }

  lemma LargerShape()
    ensures |Larger()| == 4 && IsMask(Larger()[COMPARISON]) && !IsMask(Larger()[LARGER])
    ensures !IsLeaf(Larger()[COMPARISON]) && !IsLeaf(Larger()[LARGER])
  {
  }

  lemma DeliveredRoom(x: Setup, root: nat, s: State)
    requires SetupOk(x) && root < |x.g| && Delivers(x, root, s)
    ensures s.Running? && |s.mem| >= SLOTS
  {
  }

  lemma HeldComparison(x: Setup, mem: seq<Word>)
    requires SetupOk(x) && x.g == Larger() && |mem| >= SLOTS && |x.lay| == 4
    requires PlacedAlone(x.g[COMPARISON], x.lay[COMPARISON])
    ensures Holds(x, COMPARISON, mem)
            <==> forall r | 0 <= r < 64 :: mem[x.lay[COMPARISON].slot][r] == (Meaning(x, COMPARISON, r) != 0)
  {
    hide Meaning, SetupOk;
  }

  lemma {:induction false} LargerValue(env: Env, borrow: nat)
    requires env("a") < Pow2(64) && env("b") < Pow2(64) && Acyclic(Larger())
    ensures Eval(Larger(), COMPARISON, env, Pow2(64), borrow) == Bit(env("a") > env("b"))
    ensures Eval(Larger(), LARGER, env, Pow2(64), borrow) == Greater(env("a"), env("b"))
    ensures Bits(Greater(env("a"), env("b")), 64)[0] == (Greater(env("a"), env("b")) % 2 == 1)
  {
    hide Pow2;
    ModOf(env("a"), 0, Pow2(64));
    ModOf(env("b"), 0, Pow2(64));
  }

  /** A row with a = 2 and b = 1 is enough to lose the comparison. */
  lemma {:induction false} TwoBeatsOne(k: Kernel, fields: seq<Block>, rows: seq<Env>, regs: Regs, mem: seq<Word>, r: nat)
    requires LargerKernel(k) && Fed(k, fields, rows) && |mem| >= SLOTS
    requires r < 64 && rows[r]("a") == 2 && rows[r]("b") == 1
    ensures var s := Exec(k.code, fields, Running(regs, mem)); s.Running? && !ComparisonStands(k, rows, s.mem)
  {
    hide Exec, LargerKernel, FieldsMatch, Pow2, ComparisonStands;
    ComparisonLost(k, fields, rows, regs, mem);
    assert !OddWins(rows[r]("a"), rows[r]("b"));
  }
}
