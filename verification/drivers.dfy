/**
 The ways of running installed logic over many rows: serially, by worker threads, over pre-sliced
 planes, and row by row. All of them compute one reference sum, modulo 2^64.
 */
module Drivers {
  import opened Words
  import opened Ir
  import opened Machine
  import opened Correctness
  import opened Analysis
  import opened Allocation
  import opened Compiler
  import opened Sums
  import opened Engine
  import opened Gather
  import opened Partition
  import ThreadPool

  /** Words in the scratchpad of a worker. */
  const SCRATCH: nat := 262144

  /** Reference: the sum of the root's value over all rows. */
  ghost function Reference(g: Graph, root: nat, schema: Schema, rows: seq<Cells>): int
    requires Acyclic(g) && root < |g|
  {
    Total(|rows|, ValueAt(g, root, schema, rows, 0))
  }

  /** The reference over rows start..start + n. */
  ghost function Part(g: Graph, root: nat, schema: Schema, rows: seq<Cells>, start: nat, n: nat): int
    requires Acyclic(g) && root < |g|
  {
    Total(n, ValueAt(g, root, schema, rows, start))
  }

  lemma {:induction false} PartSplit(g: Graph, root: nat, schema: Schema, rows: seq<Cells>, start: nat, k: nat, n: nat)
    requires Acyclic(g) && root < |g| && k <= n
    ensures Part(g, root, schema, rows, start, n)
            == Part(g, root, schema, rows, start, k) + Part(g, root, schema, rows, start + k, n - k)
  {
    hide RowValue;
    SumSplit(n, k, ValueAt(g, root, schema, rows, start), ValueAt(g, root, schema, rows, start + k));
  }

  lemma PartNone(g: Graph, root: nat, schema: Schema, rows: seq<Cells>, start: nat)
    requires Acyclic(g) && root < |g|
    ensures Part(g, root, schema, rows, start, 0) == 0
  {
  }

  // --- Aggregating a block --------------------------------------------------------------------

  /** One more mask of a weighted count. */
  lemma {:induction false} MaskAdded(lg: Logic, mem: seq<Word>, n: nat, k: nat, pop: nat, sum: int, f: nat -> int)
    requires MasksInside(lg, mem) && k < |lg.weights| && pop == Pop(BitAnd(mem[lg.masks[k]], RowsMask(n)))
    requires Same(sum, lg.base * n + Total(k, f)) && f(k) == Weighed(lg, mem, n, k)
    ensures Same(Wrap(sum + pop * lg.weights[k]), lg.base * n + Total(k + 1, f))
  {
    hide Same, Total, Pop, Pow2, RowsMask, BitAnd;
    WrapPlus(sum, lg.base * n + Total(k, f), pop * lg.weights[k]);
    SumLast(k + 1, f);
  }

  /** Base and weighted mask counts of n rows; the masks are taken `width` at a time. */
  method WeighMasks(lg: Logic, mem: seq<Word>, n: nat, width: nat) returns (sum: nat)
    requires MasksInside(lg, mem) && lg.kind.WeightedCount? && width > 0
    ensures forall result: Word :: Same(sum, Aggregate(lg, result, mem, n))
  {
    hide Same, Wrap, Total, Pop, Pow2, RowsMask, BitAnd;
    ghost var f := (k: nat) => if MasksInside(lg, mem) then Weighed(lg, mem, n, k) else 0;
    var mask := RowsMask(n);
    sum := Wrap(lg.base * n);
    TotalNone(f);
    WrapSame(lg.base * n);
    var i := 0;
    while i + width <= |lg.weights|
      invariant i <= |lg.weights| && Same(sum, lg.base * n + Total(i, f))
      decreases |lg.weights| - i
    {
      for j := 0 to width
        invariant Same(sum, lg.base * n + Total(i + j, f))
      {
        var pop := Pop(BitAnd(mem[lg.masks[i + j]], mask));
        MaskAdded(lg, mem, n, i + j, pop, sum, f);
        sum := Wrap(sum + pop * lg.weights[i + j]);
      }
      i := i + width;
    }
    while i < |lg.weights|
      invariant i <= |lg.weights| && Same(sum, lg.base * n + Total(i, f))
    {
      var pop := Pop(BitAnd(mem[lg.masks[i]], mask));
      MaskAdded(lg, mem, n, i, pop, sum, f);
      sum := Wrap(sum + pop * lg.weights[i]);
      i := i + 1;
    }
    SumEqual(|lg.weights|, f, (k: nat) => Weighed(lg, mem, n, k));
  }

  /** One more plane of a shifted count. */
  lemma {:induction false} PlaneAdded(mem: seq<Word>, n: nat, i: nat, pop: nat, sum: int, f: nat -> int)
    requires i < |mem| && pop == Pop(BitAnd(mem[i], RowsMask(n)))
    requires Same(sum, Total(i, f)) && f(i) == PlaneCount(mem, n, i)
    ensures Same(Wrap(sum + pop * Pow2(i)), Total(i + 1, f))
  {
    hide Same, Total, Pop, Pow2, RowsMask, BitAnd;
    WrapPlus(sum, Total(i, f), pop * Pow2(i));
    SumLast(i + 1, f);
  }

  /** Counts of the 64 planes, each shifted to its weight. */
  method WeighPlanes(lg: Logic, mem: seq<Word>, n: nat) returns (sum: nat)
    requires MasksInside(lg, mem) && lg.kind.PlaneSum?
    ensures forall result: Word :: Same(sum, Aggregate(lg, result, mem, n))
  {
    hide Same, Total, Pop, Pow2, RowsMask, BitAnd;
    ghost var f := (i: nat) => PlaneCount(mem, n, i);
    sum := 0;
    TotalNone(f);
    SameRefl(0);
    for i := 0 to 64
      invariant Same(sum, Total(i, f))
    {
      var pop := Pop(BitAnd(mem[i], RowsMask(n)));
      PlaneAdded(mem, n, i, pop, sum, f);
      sum := Wrap(sum + pop * Pow2(i));
    }
    SumEqual(64, f, (i: nat) => PlaneCount(mem, n, i));
  }

  /** What the engine adds for a block, by the kind of its result. */
  method AggregateBlock(lg: Logic, result: Word, mem: seq<Word>, n: nat, width: nat) returns (sum: nat)
    requires MasksInside(lg, mem) && width > 0
    ensures Same(sum, Aggregate(lg, result, mem, n))
  {
    hide Same, Total, Pop, Pow2, RowsMask, BitAnd, MasksInside;
    match lg.kind
    case MaskCount =>
      sum := Pop(BitAnd(result, RowsMask(n)));
      SameRefl(sum);
    case WeightedCount =>
      sum := WeighMasks(lg, mem, n, width);
    case PlaneSum =>
      sum := WeighPlanes(lg, mem, n);
  }

  // --- Row-major data -------------------------------------------------------------------------

  function Cleared(words: nat): (mem: seq<Word>)
    ensures |mem| == words
  {
    seq(words, i => Zero())
  }

  lemma HoldingGathered(offsets: seq<nat>, rows: seq<Cells>, start: nat, n: nat, cols: seq<Block>)
    requires n <= 64 && start + n <= |rows| && |cols| == |offsets|
    requires forall v | 0 <= v < |cols| :: Holding(rows, start, n, offsets[v], cols[v])
    ensures Gathered(offsets, rows, start, n, cols)
  {
  }

  /** Gathers, slices, runs the kernel and aggregates one block, whatever buffers and scratchpad held. */
  method RunBlock(lg: Logic, rows: seq<Cells>, start: nat, n: nat, buffers: seq<array<Word>>, worker: bool,
                  scratch: seq<Word>, width: nat, ghost g: Graph, ghost root: nat, ghost schema: Schema)
    returns (sum: nat, s: State, ghost cols: seq<Block>)
    requires Installed(lg, g, root, schema) && Fits(lg.offsets, rows)
    requires Columns(buffers) && |lg.offsets| <= |buffers| && |scratch| >= SLOTS && width > 0
    requires n <= 64 && start + n <= |rows| && start % 64 == 0
    modifies buffers
    ensures Acyclic(g) && root < |g| && Same(sum, Part(g, root, schema, rows, start, n))
    ensures Gathered(lg.offsets, rows, start, n, cols) && Ran(lg, g, root, cols, s) && |s.mem| >= SLOTS
  {
    hide Installed, Same, Ran, Total, ValueAt, Exec, RunKernel, Planes, Aggregate, Gathered, Holding, Fits, MasksInside;
    InstalledFacts(lg, g, root, schema);
    InstalledKernel(lg, g, root, schema);
    var planes;
    planes, cols := GatherBlock(rows, start, n, lg.offsets, buffers, worker, true);
    HoldingGathered(lg.offsets, rows, start, n, cols);
    KernelRan(lg, g, root, schema, cols, scratch);
    s := RunKernel(lg, planes, scratch);
    BlockCorrect(lg, g, root, schema, rows, start, n, cols, s);
    sum := AggregateBlock(lg, s.regs[Result0].w, s.mem, n, width);
    SameTrans(sum, Aggregate(lg, s.regs[Result0].w, s.mem, n), Part(g, root, schema, rows, start, n));
  }

  /** One more block of a running total. */
  lemma {:induction false} AddPart(g: Graph, root: nat, schema: Schema, rows: seq<Cells>, start: nat, k: nat,
                                   n: nat, total: int, sum: int)
    requires Acyclic(g) && root < |g|
    requires Same(total, Part(g, root, schema, rows, start, k)) && Same(sum, Part(g, root, schema, rows, start + k, n))
    ensures Same(Wrap(total + sum), Part(g, root, schema, rows, start, k + n))
  {
    hide Same, Wrap, Part;
    var x, y := Part(g, root, schema, rows, start, k), Part(g, root, schema, rows, start + k, n);
    PartSplit(g, root, schema, rows, start, k, k + n);
    SamePlus(total, sum, x, y);
    WrapSame(total + sum);
    SameTrans(Wrap(total + sum), total + sum, x + y);
  }

  /** A residue is determined by what it is congruent to. */
  lemma {:induction false} SameIsWrap(total: nat, x: int)
    requires Same(total, x) && total < Pow2(64)
    ensures total == Wrap(x)
  {
    hide Pow2;
    ModOf(total, 0, Pow2(64));
  }

  lemma WrapRange(x: int)
    ensures Wrap(x) < Pow2(64)
  {
    hide Pow2;
  }

  lemma PowPositive()
    ensures Pow2(64) > 0
  {
  }

  lemma InstalledShape(lg: Logic, g: Graph, root: nat, schema: Schema)
    requires Installed(lg, g, root, schema)
    ensures Acyclic(g) && root < |g| && |lg.offsets| <= 128
  {
  }

  /** Serial run: a cleared scratchpad for every block of 64 rows. */
  method Execute(lg: Logic, rows: seq<Cells>, buffers: seq<array<Word>>, ghost g: Graph, ghost root: nat,
                 ghost schema: Schema)
    returns (total: nat)
    requires Installed(lg, g, root, schema) && Fits(lg.offsets, rows) && Columns(buffers) && |buffers| == 128
    modifies buffers
    ensures Acyclic(g) && root < |g| && total == Wrap(Reference(g, root, schema, rows))
  {
    hide Installed, Same, Ran, Part, ValueAt, Gathered, Fits, Pow2, Wrap, Acyclic;
    InstalledShape(lg, g, root, schema);
    total := 0;
    var chunk := 0;
    PartNone(g, root, schema, rows, 0);
    SameRefl(0);
    PowPositive();
    while chunk * 64 < |rows|
      invariant chunk * 64 < |rows| + 64 && total < Pow2(64)
      invariant Same(total, Part(g, root, schema, rows, 0, Least(chunk * 64, |rows|)))
      decreases |rows| - chunk * 64
    {
      var start := chunk * 64;
      var n := Least(64, |rows| - start);
      var sum, _, _ := RunBlock(lg, rows, start, n, buffers, false, Cleared(SLOTS), 1, g, root, schema);
      AddPart(g, root, schema, rows, 0, start, n, total, sum);
      WrapRange(total + sum);
      total := Wrap(total + sum);
      chunk := chunk + 1;
    }
    WholePart(g, root, schema, rows);
    SameIsWrap(total, Reference(g, root, schema, rows));
  }

  lemma WholePart(g: Graph, root: nat, schema: Schema, rows: seq<Cells>)
    requires Acyclic(g) && root < |g|
    ensures Part(g, root, schema, rows, 0, |rows|) == Reference(g, root, schema, rows)
  {
    hide Total, ValueAt;
  }

  /** What a worker reports for rows begin..end: nothing at all when the expression loads no field. */
  ghost function Share(lg: Logic, g: Graph, root: nat, schema: Schema, rows: seq<Cells>, begin: nat, end: nat): nat
    requires Acyclic(g) && root < |g| && begin <= end
  {
    if lg.offsets == [] then 0 else Wrap(Part(g, root, schema, rows, begin, end - begin))
  }

  /** A worker: its own 32 buffers, and one scratchpad reused from block to block. */
  method Worker(lg: Logic, rows: seq<Cells>, begin: nat, end: nat, ghost g: Graph, ghost root: nat,
                ghost schema: Schema)
    returns (count: nat)
    requires Installed(lg, g, root, schema) && Fits(lg.offsets, rows) && |lg.offsets| <= 32
    requires begin <= end <= |rows| && begin % 64 == 0
    ensures Acyclic(g) && root < |g| && count == Share(lg, g, root, schema, rows, begin, end)
  {
    hide Installed, Same, Ran, Part, ValueAt, Gathered, Fits, Pow2, Wrap, Acyclic;
    InstalledShape(lg, g, root, schema);
    if |lg.offsets| == 0 {
      return 0;
    }
    var buffers := NewBuffers(32);
    var scratch := Cleared(SCRATCH);
    count := 0;
    PartNone(g, root, schema, rows, begin);
    SameRefl(0);
    PowPositive();
    var row := begin;
    while row < end
      invariant begin <= row < end + 64 && row % 64 == 0 && count < Pow2(64) && |scratch| >= SLOTS
      invariant Same(count, Part(g, root, schema, rows, begin, Least(row, end) - begin))
      decreases end - row
    {
      var n := Least(64, end - row);
      var sum, s, _ := RunBlock(lg, rows, row, n, buffers, true, scratch, 8, g, root, schema);
      scratch := s.mem;
      AddPart(g, root, schema, rows, begin, row - begin, n, count, sum);
      WrapRange(count + sum);
      count := Wrap(count + sum);
      row := row + 64;
    }
    SameIsWrap(count, Part(g, root, schema, rows, begin, end - begin));
  }

  method NewBuffers(k: nat) returns (buffers: seq<array<Word>>)
    ensures |buffers| == k && Columns(buffers) && fresh(buffers)
  {
    buffers := [];
    for i := 0 to k
      invariant |buffers| == i && Columns(buffers) && fresh(buffers)
    {
      var b := new Word[64];
      buffers := buffers + [b];
    }
  }

  /**
   Rows shared out to worker tasks, one result slot each, and the slots added up. The tasks run one at a
   time in any order; their total is the reference, unless the expression loads no field.
   */
  method ParallelRun(lg: Logic, rows: seq<Cells>, threads: int, ghost g: Graph, ghost root: nat, ghost schema: Schema)
    returns (total: nat)
    requires Installed(lg, g, root, schema) && Fits(lg.offsets, rows) && |lg.offsets| <= 32
    ensures Acyclic(g) && root < |g|
    ensures total == if lg.offsets == [] then 0 else Wrap(Reference(g, root, schema, rows))
  {
    hide Installed, Part, ValueAt, Fits, Acyclic, Share, Tiles;
    InstalledShape(lg, g, root, schema);
    var ranges := SplitRows(|rows|, threads);
    var results := seq(|ranges|, i => 0);
    var tasks := {};
    for t := 0 to |ranges|
      invariant forall i :: i in tasks <==> 0 <= i < t
    {
      tasks := tasks + {t};
    }
    while tasks != {}
      invariant |results| == |ranges| && forall t <- tasks :: 0 <= t < |ranges|
      invariant forall i | 0 <= i < |ranges| && i !in tasks ::
                  results[i] == Share(lg, g, root, schema, rows, ranges[i].begin, ranges[i].end)
    {
      var t :| t in tasks;
      var count := Worker(lg, rows, ranges[t].begin, ranges[t].end, g, root, schema);
      results := results[t := count];
      tasks := tasks - {t};
    }
    total := AddShares(lg, rows, ranges, results, g, root, schema);
  }

  /** Adds up the result slots of a tiling. */
  method AddShares(lg: Logic, rows: seq<Cells>, ghost ranges: seq<Range>, results: seq<nat>, ghost g: Graph,
                   ghost root: nat, ghost schema: Schema) returns (total: nat)
    requires Acyclic(g) && root < |g| && Tiles(ranges, |rows|) && |results| == |ranges|
    requires forall i | 0 <= i < |ranges| :: results[i] == Share(lg, g, root, schema, rows, ranges[i].begin, ranges[i].end)
    ensures total == if lg.offsets == [] then 0 else Wrap(Reference(g, root, schema, rows))
  {
    hide Part, ValueAt, Acyclic, Wrap, Pow2, Same;
    total := 0;
    PowPositive();
    PartNone(g, root, schema, rows, 0);
    SameRefl(0);
    WrapZero();
    for t := 0 to |results|
      invariant lg.offsets == [] ==> total == 0
      invariant total < Pow2(64)
      invariant lg.offsets != [] ==> Same(total, Part(g, root, schema, rows, 0, if t == 0 then 0 else ranges[t - 1].end))
    {
      if lg.offsets != [] {
        ghost var begin, n := ranges[t].begin, ranges[t].end - ranges[t].begin;
        WrapSame(Part(g, root, schema, rows, begin, n));
        AddPart(g, root, schema, rows, 0, begin, n, total, results[t]);
      }
      WrapRange(total + results[t]);
      total := Wrap(total + results[t]);
    }
    WholePart(g, root, schema, rows);
    if lg.offsets != [] {
      SameIsWrap(total, Reference(g, root, schema, rows));
    }
  }

  lemma WrapZero()
    ensures Wrap(0) == 0
  {
    hide Pow2;
    PowPositive();
    ModOf(0, 0, Pow2(64));
  }

  // --- The pool and the result slots ----------------------------------------------------------

  /** What task t writes to its slot. */
  ghost function TaskWork(lg: Logic, g: Graph, root: nat, schema: Schema, rows: seq<Cells>, ranges: seq<Range>): nat -> nat
    requires Acyclic(g) && root < |g|
  {
    (t: nat) => if t < |ranges| && ranges[t].begin <= ranges[t].end
                then Share(lg, g, root, schema, rows, ranges[t].begin, ranges[t].end) else 0
  }

  /**
   Whatever the interleaving of a pool of n workers and m clients, once a client that looked after the tasks
   of a tiling were enqueued is back, every task has run once and its slot holds its share; added up, the
   slots give the reference modulo 2^64, or 0 when the expression loads no field.
   */
  lemma {:induction false} PoolDelivers(lg: Logic, g: Graph, root: nat, schema: Schema, rows: seq<Cells>,
                                        ranges: seq<Range>, n: nat, m: nat, steps: seq<ThreadPool.Step>, j: nat, c: nat)
    requires Acyclic(g) && root < |g| && Tiles(ranges, |rows|) && n > 0
    requires j < |steps| && ThreadPool.LooksFor(steps[j], c)
    requires forall t: nat | t < |ranges| :: ThreadPool.Enqueue(t) in steps[..j]
    requires var work := TaskWork(lg, g, root, schema, rows, ranges);
             && ThreadPool.Runs(ThreadPool.Start(n, m), steps, work)
             && var s := ThreadPool.At(ThreadPool.Start(n, m), steps, work, j + 1);
                c < |s.clients| && s.clients[c].Returned?
    ensures var s := ThreadPool.End(ThreadPool.Start(n, m), steps, TaskWork(lg, g, root, schema, rows, ranges));
            && (forall t: nat | t < |ranges| ::
                  && s.finished[t] == 1 && t in s.results
                  && s.results[t] == Share(lg, g, root, schema, rows, ranges[t].begin, ranges[t].end))
            && Wrap(Total(|ranges|, (t: nat) => if t in s.results then s.results[t] else 0))
               == if lg.offsets == [] then 0 else Wrap(Reference(g, root, schema, rows))
  {
    hide Share, Acyclic, ThreadPool.Runs, ThreadPool.End, ThreadPool.At, Reference, Wrap, Total;
    var work := TaskWork(lg, g, root, schema, rows, ranges);
    var s := ThreadPool.End(ThreadPool.Start(n, m), steps, work);
    forall t: nat | t < |ranges| ensures s.finished[t] == 1 && t in s.results && s.results[t] == work(t) {
      ThreadPool.WaitReturnsDone(n, m, steps, work, j, c, t);
    }
    SlotsAddUp(lg, g, root, schema, rows, ranges, (t: nat) => if t in s.results then s.results[t] else 0);
  }

  /** The slots of a tiling add up to the reference. */
  lemma {:induction false} SlotsAddUp(lg: Logic, g: Graph, root: nat, schema: Schema, rows: seq<Cells>,
                                      ranges: seq<Range>, slot: nat -> int)
    requires Acyclic(g) && root < |g| && Tiles(ranges, |rows|)
    requires forall t: nat | t < |ranges| :: slot(t) == Share(lg, g, root, schema, rows, ranges[t].begin, ranges[t].end)
    ensures Wrap(Total(|ranges|, slot)) == if lg.offsets == [] then 0 else Wrap(Reference(g, root, schema, rows))
  {
    hide Part, ValueAt, Acyclic, Total, Pow2;
    SlotsSoFar(lg, g, root, schema, rows, ranges, slot, |ranges|);
    WholePart(g, root, schema, rows);
    WrapZero();
  }

  lemma {:induction false} SlotsSoFar(lg: Logic, g: Graph, root: nat, schema: Schema, rows: seq<Cells>,
                                      ranges: seq<Range>, slot: nat -> int, k: nat)
    requires Acyclic(g) && root < |g| && Tiles(ranges, |rows|) && k <= |ranges|
    requires forall t: nat | t < |ranges| :: slot(t) == Share(lg, g, root, schema, rows, ranges[t].begin, ranges[t].end)
    ensures lg.offsets == [] ==> Total(k, slot) == 0
    ensures lg.offsets != [] ==>
              Same(Total(k, slot), Part(g, root, schema, rows, 0, if k == 0 then 0 else ranges[k - 1].end))
  {
    hide Part, ValueAt, Acyclic, Pow2, Wrap, Same;
    PartNone(g, root, schema, rows, 0);
    SameRefl(0);
    if k > 0 {
      SlotsSoFar(lg, g, root, schema, rows, ranges, slot, k - 1);
      SumLast(k, slot);
      var begin, n := ranges[k - 1].begin, ranges[k - 1].end - ranges[k - 1].begin;
      if lg.offsets != [] {
        WrapSame(Part(g, root, schema, rows, begin, n));
        PartSplit(g, root, schema, rows, 0, begin, begin + n);
        SamePlus(Total(k - 1, slot), slot(k - 1), Part(g, root, schema, rows, 0, begin), Part(g, root, schema, rows, begin, n));
      }
    }
  }

  // --- Expressions without fields -------------------------------------------------------------

  /** 1 > 0: holds on every row and loads nothing. */
  function Fieldless(): Graph {
    [Const(One()), Const(Zero()), Compare(GT, 0, 1)]
  }

  /** The reference counts every row, and a worker's report of no rows is wrong for any table but the empty one. */
  lemma {:induction false} FieldlessCounts(lg: Logic, schema: Schema, rows: seq<Cells>)
    requires lg.offsets == [] && 0 < |rows| < Pow2(64)
    ensures Valid(Fieldless()) && forall n <- Fieldless() :: !n.Load?
    ensures Wrap(Reference(Fieldless(), 2, schema, rows)) == |rows|
    ensures Share(lg, Fieldless(), 2, schema, rows, 0, |rows|) == 0 != |rows|
  {
    hide Pow2, Val, Valid, Acyclic, RowValue, Fieldless;
    FieldlessValid();
    var g := Fieldless();
    var f := ValueAt(g, 2, schema, rows, 0);
    forall i: nat | i < |rows| ensures f(i) == 1 {
      FieldlessValue(schema, rows, i);
    }
    SumConstant(|rows|, 1, (i: nat) => 1);
    SumEqual(|rows|, f, (i: nat) => 1);
    ModOf(|rows|, 0, Pow2(64));
  }

  /** Serial and parallel runs differ on it: installed and run, one counts every row and the other none. */
  method FieldlessRuns(rows: seq<Cells>, threads: int, buffers: seq<array<Word>>) returns (serial: nat, parallel: nat)
    requires 0 < |rows| < Pow2(64) && Columns(buffers) && |buffers| == 128
    modifies buffers
    ensures serial == |rows| && parallel == 0
  {
    hide Installed, Valid, Acyclic, Reach, Topological, Names, Blocks, Singles, Needed, CarriesSuffice, SkipClosed, SkipOf,
         Elements, Fieldless, Pow2, Reference, Columns;
    FieldlessValid();
    var g, schema: Schema := Fieldless(), map[];
    LeafNotSkipped(g, 2);
    var out, order := SetExpression(g, 2, schema);
    LogicInstalls(g, 2, order);
    NoLoads(g, order, SkipOf(g, 2), schema);
    var lg := out.logic;
    FieldlessOffsets(lg, g);
    serial := Execute(lg, rows, buffers, g, 2, schema);
    FieldlessCounts(lg, schema, rows);
    parallel := ParallelRun(lg, rows, threads, g, 2, schema);
  }

  lemma NoLoads(g: Graph, order: seq<nat>, skip: set<nat>, schema: Schema)
    requires Closed(g) && Topological(g, order) && forall n <- g :: !n.Load?
    ensures Known(g, order, skip, schema)
  {
    assert forall c: nat | c < |g| :: g[c] in g;
  }

  lemma FieldlessOffsets(lg: Logic, g: Graph)
    requires Installed(lg, g, 2, map[])
    ensures lg.offsets == [] && forall rows :: Fits(lg.offsets, rows)
  {
    hide Installed;
    InstalledNumbered(lg, g, 2, map[]);
    NamesFit(lg.kernel.names, {});
  }

  /** Distinct names are at most as many as the set they come from. */
  lemma {:induction false} NamesFit(names: seq<string>, from: set<string>)
    requires (forall v, w | 0 <= v < w < |names| :: names[v] != names[w]) && forall v | 0 <= v < |names| :: names[v] in from
    ensures |names| <= |from|
  {
    if names != [] {
      var k := |names| - 1;
      NamesFit(names[..k], from - {names[k]});
    }
  }

  lemma FieldlessValid()
    ensures Valid(Fieldless()) && Acyclic(Fieldless()) && |Fieldless()| == 3 && IsMask(Fieldless()[2])
    ensures forall n <- Fieldless() :: !n.Load? && (IsLeaf(n) || IsMask(n))
  {
    assert Ranked(Fieldless(), [0, 0, 1]);
  }

  lemma {:induction false} FieldlessValue(schema: Schema, rows: seq<Cells>, i: nat)
    requires Acyclic(Fieldless()) && i < |rows|
    ensures RowValue(Fieldless(), 2, schema, rows, i) == 1
  {
    hide Pow2, Val;
    ValOfOne();
    ValAllClear(Zero());
    WordRange(One());
    WordRange(Zero());
  }
}
