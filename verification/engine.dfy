/**
 What an installed expression computes on a block of up to 64 rows: the three ways the engine turns
 a kernel's result into a number, and their common row-by-row meaning.
 */
module Engine {
  import opened Words
  import opened Ir
  import opened Machine
  import opened Emission
  import opened Correctness
  import opened Analysis
  import opened Allocation
  import opened Compiler
  import opened Bounds
  import opened Transpose
  import opened Semantics
  import opened Sums

  /** One row of data: 64-bit cells, addressed by word offset. */
  type Cells = seq<Word>

  /** Word offset of every registered field. */
  type Schema = map<string, nat>

  datatype Kind = MaskCount | WeightedCount | PlaneSum

  /** A compiled expression with the data its aggregator needs; numbers are residues modulo 2^64. */
  datatype Logic = Logic(kernel: Kernel, offsets: seq<nat>, kind: Kind, base: nat, weights: seq<nat>, masks: seq<nat>)

  // --- Sums of selections ---------------------------------------------------------------------

  /** The SUM behind a root of the form SUM or SUM + constant. */
  function SumNode(g: Graph, root: nat): (s: nat)
    requires root < |g| && Within(g[root], |g|)
    ensures s < |g|
  {
    if g[root].Add? && g[g[root].left].Sum? && g[g[root].right].Const? then g[root].left else root
  }

  predicate IsForest(g: Graph, root: nat)
    requires root < |g| && Within(g[root], |g|)
  {
    g[SumNode(g, root)].Sum?
  }

  /** Nodes the engine evaluates itself and tells the compiler to skip. */
  function SkipOf(g: Graph, root: nat): set<nat>
    requires root < |g| && Within(g[root], |g|)
  {
    if !IsForest(g, root) then {} else
      var s := SumNode(g, root);
      {root, s} + (if s != root then {g[root].right} else {})
      + set k | 0 <= k < |g[s].operands| && g[s].operands[k] < |g| && g[g[s].operands[k]].Select? :: g[s].operands[k]
  }

  /** Every operand selects between two constants, and there is at least one. */
  predicate Leafy(g: Graph, ops: seq<nat>)
    requires Closed(g)
  {
    && ops != []
    && forall k | 0 <= k < |ops| ::
         ops[k] < |g| && g[ops[k]].Select? && g[g[ops[k]].left].Const? && g[g[ops[k]].right].Const?
  }

  function LeafValue(g: Graph, id: nat): nat {
    if id < |g| && g[id].Const? then Val(g[id].value) else 0
  }

  /** The optional constant added to the sum. */
  function Offset0(g: Graph, root: nat): nat
    requires root < |g| && Within(g[root], |g|)
  {
    if SumNode(g, root) != root then LeafValue(g, g[root].right) else 0
  }

  ghost predicate ForestData(lg: Logic, g: Graph, root: nat)
    requires Closed(g) && root < |g| && IsForest(g, root)
  {
    var ops := g[SumNode(g, root)].operands;
    && Leafy(g, ops) && |lg.kernel.lay| == |g|
    && |lg.weights| == |lg.masks| == |ops|
    && Same(lg.base, Offset0(g, root) + Total(|ops|, (k: nat) => if k < |ops| then RightLeaf(g, ops, k) else 0))
    && (forall k | 0 <= k < |ops| :: Same(lg.weights[k], LeftLeaf(g, ops, k) - RightLeaf(g, ops, k)))
    && (forall k | 0 <= k < |ops| :: lg.masks[k] == lg.kernel.lay[g[ops[k]].cond].slot)
  }

  function LeftLeaf(g: Graph, ops: seq<nat>, k: nat): nat {
    if k < |ops| && ops[k] < |g| && g[ops[k]].Select? then LeafValue(g, g[ops[k]].left) else 0
  }

  function RightLeaf(g: Graph, ops: seq<nat>, k: nat): nat {
    if k < |ops| && ops[k] < |g| && g[ops[k]].Select? then LeafValue(g, g[ops[k]].right) else 0
  }

  /** The logic was installed for `root` over this schema. */
  ghost predicate Installed(lg: Logic, g: Graph, root: nat, schema: Schema) {
    && Valid(g) && root < |g| && !IsLeaf(g[root])
    && KernelFor(lg.kernel, g, root, 64, SkipOf(g, root))
    && SkipClosed(g, lg.kernel.order, SkipOf(g, root))
    && |lg.offsets| == |lg.kernel.names| <= MAX_FIELDS
    && (forall v | 0 <= v < |lg.offsets| :: lg.kernel.names[v] in schema && lg.offsets[v] == schema[lg.kernel.names[v]])
    && (lg.kind.WeightedCount? || (lg.weights == [] && lg.masks == []))
    && match lg.kind
       case MaskCount => IsMask(g[root])
       case WeightedCount => IsForest(g, root) && ForestData(lg, g, root)
       case PlaneSum => !IsMask(g[root]) && !IsForest(g, root)
  }

  // --- Aggregation ----------------------------------------------------------------------------

  /** Mask slots lie inside the scratchpad. */
  predicate MasksInside(lg: Logic, mem: seq<Word>) {
    |mem| >= 64 && |lg.masks| == |lg.weights| && forall k | 0 <= k < |lg.masks| :: lg.masks[k] < |mem|
  }

  /** What row r contributes, read off the kernel's result word and scratchpad. */
  ghost function RowTerm(lg: Logic, result: Word, mem: seq<Word>, r: nat): int
    requires r < 64 && MasksInside(lg, mem)
  {
    match lg.kind
    case MaskCount => Bit(result[r])
    case WeightedCount => lg.base + Total(|lg.weights|, (k: nat) => Chosen(lg, mem, r, k))
    case PlaneSum => Val(Lane(mem[..64], r))
  }

  ghost function Chosen(lg: Logic, mem: seq<Word>, r: nat, k: nat): int
    requires r < 64 && MasksInside(lg, mem)
  {
    if k < |lg.weights| && mem[lg.masks[k]][r] then lg.weights[k] else 0
  }

  /** What the engine adds up for the first n rows of a block. */
  ghost function Aggregate(lg: Logic, result: Word, mem: seq<Word>, n: nat): int
    requires MasksInside(lg, mem)
  {
    match lg.kind
    case MaskCount => Pop(BitAnd(result, RowsMask(n)))
    case WeightedCount => lg.base * n + Total(|lg.weights|, (k: nat) => Weighed(lg, mem, n, k))
    case PlaneSum => Total(64, (i: nat) => PlaneCount(mem, n, i))
  }

  function Weighed(lg: Logic, mem: seq<Word>, n: nat, k: nat): int
    requires MasksInside(lg, mem)
  {
    if k < |lg.weights| then Pop(BitAnd(mem[lg.masks[k]], RowsMask(n))) * lg.weights[k] else 0
  }

  function PlaneCount(mem: seq<Word>, n: nat, i: nat): int {
    if i < |mem| then Pop(BitAnd(mem[i], RowsMask(n))) * Pow2(i) else 0
  }

  /** Whatever the scratchpad holds, the aggregate is the sum of what its rows contribute. */
  lemma {:induction false} AggregateAddsRows(lg: Logic, result: Word, mem: seq<Word>, n: nat, f: nat -> int)
    requires n <= 64 && MasksInside(lg, mem)
    requires forall r: nat | r < n :: f(r) == RowTerm(lg, result, mem, r)
    ensures Aggregate(lg, result, mem, n) == Total(n, f)
  {
    hide Pop, Val, Pow2, RowsMask, BitAnd;
    match lg.kind
    case MaskCount => MaskedPop(result, n, f);
    case WeightedCount => WeightedAddsRows(lg, result, mem, n, f);
    case PlaneSum =>
      assert forall i: nat | i < 64 :: mem[..64][i] == mem[i];
      PlanesAddUp(mem[..64], n, (i: nat) => PlaneCount(mem, n, i), f);
  }

  lemma {:induction false} WeightedAddsRows(lg: Logic, result: Word, mem: seq<Word>, n: nat, f: nat -> int)
    requires n <= 64 && MasksInside(lg, mem) && lg.kind.WeightedCount?
    requires forall r: nat | r < n :: f(r) == RowTerm(lg, result, mem, r)
    ensures Aggregate(lg, result, mem, n) == Total(n, f)
  {
    hide Pop, RowsMask, BitAnd;
    var t := (r: nat, k: nat) => if r < 64 then Chosen(lg, mem, r, k) else 0;
    var base := (r: nat) => lg.base;
    var chosen := (r: nat) => Total(|lg.weights|, (k: nat) => t(r, k));
    forall r: nat | r < n ensures f(r) == base(r) + chosen(r) {
      SumEqual(|lg.weights|, (k: nat) => Chosen(lg, mem, r, k), (k: nat) => t(r, k));
    }
    SumPlus(n, base, chosen, f);
    SumConstant(n, lg.base, base);
    forall k: nat | k < |lg.weights| ensures Weighed(lg, mem, n, k) == Total(n, (r: nat) => t(r, k)) {
      WeighedIsSum(lg, mem, n, k, (r: nat) => t(r, k));
    }
    SumExchange(n, |lg.weights|, t, chosen, (k: nat) => Weighed(lg, mem, n, k));
  }

  lemma {:induction false} WeighedIsSum(lg: Logic, mem: seq<Word>, n: nat, k: nat, f: nat -> int)
    requires n <= 64 && MasksInside(lg, mem) && k < |lg.weights|
    requires forall r: nat | r < n :: f(r) == Chosen(lg, mem, r, k)
    ensures Weighed(lg, mem, n, k) == Total(n, f)
  {
    hide Pop, RowsMask, BitAnd;
    var w := mem[lg.masks[k]];
    var bits := (r: nat) => if r < 64 then Bit(w[r]) else 0;
    MaskedPop(w, n, bits);
    SumTimes(n, lg.weights[k], bits, f);
  }

  // --- Rows and columns -----------------------------------------------------------------------

  /** The fields of a row, as numbers. */
  ghost function RowEnv(schema: Schema, row: Cells): Env {
    (name: string) => if name in schema && schema[name] < |row| then Val(row[schema[name]]) else 0
  }

  /** The fields that lane r of the gathered columns sees. */
  ghost function LaneEnv(names: seq<string>, cols: seq<Block>, r: nat): Env
    requires r < 64
  {
    NamedEnv(names, seq(|cols|, v requires 0 <= v < |cols| => Val(cols[v][r])))
  }

  ghost function LaneEnvs(names: seq<string>, cols: seq<Block>): (rows: seq<Env>)
    ensures |rows| == 64
  {
    seq(64, r requires 0 <= r < 64 => LaneEnv(names, cols, r))
  }

  function Planes(cols: seq<Block>): (p: seq<Block>)
    ensures |p| == |cols|
  {
    seq<Block>(|cols|, v requires 0 <= v < |cols| => Sliced(cols[v], 64))
  }

  lemma {:induction false} PlanesMatchLanes(names: seq<string>, cols: seq<Block>)
    requires |names| <= |cols| && forall v, w | 0 <= v < w < |names| :: names[v] != names[w]
    ensures FieldsMatch(names, Planes(cols), LaneEnvs(names, cols), 64)
  {
    hide Val, Pow2, Sliced;
    var planes, rows := Planes(cols), LaneEnvs(names, cols);
    forall v, r | 0 <= v < |names| && 0 <= r < 64
      ensures rows[r](names[v]) % Pow2(64) == Val(Lane(planes[v][..64], r))
    {
      LaneEnvAt(names, cols, r, v);
      SlicedLane(cols[v], 64, r);
      assert cols[v][r][..64] == cols[v][r];
      WordRange(cols[v][r]);
    }
  }

  lemma LaneEnvAt(names: seq<string>, cols: seq<Block>, r: nat, v: nat)
    requires r < 64 && v < |names| <= |cols| && forall v, w | 0 <= v < w < |names| :: names[v] != names[w]
    ensures LaneEnv(names, cols, r)(names[v]) == Val(cols[v][r])
  {
    hide Val, NamedEnv;
    NamedEnvAt(names, seq(|cols|, v requires 0 <= v < |cols| => Val(cols[v][r])), v);
  }

  /** The first n lanes of the columns hold rows start.. of the data; the other lanes are anything. */
  ghost predicate Gathered(offsets: seq<nat>, rows: seq<Cells>, start: nat, n: nat, cols: seq<Block>) {
    && n <= 64 && start + n <= |rows| && |cols| == |offsets|
    && forall v, r | 0 <= v < |cols| && 0 <= r < n ::
         offsets[v] < |rows[start + r]| && cols[v][r] == rows[start + r][offsets[v]]
  }

  /** The listed nodes load numbered fields, each at the offset the schema gives it. */
  ghost predicate Numbered(g: Graph, order: seq<nat>, lay: Layout, names: seq<string>, offsets: seq<nat>, schema: Schema)
    requires |lay| == |g| && forall i | 0 <= i < |order| :: order[i] < |g|
  {
    && |offsets| == |names|
    && (forall v, w | 0 <= v < w < |names| :: names[v] != names[w])
    && (forall v | 0 <= v < |names| :: names[v] in schema && offsets[v] == schema[names[v]])
    && forall i | 0 <= i < |order| && g[order[i]].Load? ::
         0 <= lay[order[i]].field < |names| && names[lay[order[i]].field] == g[order[i]].name
  }

  /** A lane that holds a row reads that row's fields. */
  lemma {:induction false} LaneReadsRow(g: Graph, order: seq<nat>, lay: Layout, names: seq<string>,
                                        offsets: seq<nat>, schema: Schema, rows: seq<Cells>, start: nat, n: nat,
                                        cols: seq<Block>, r: nat)
    requires |lay| == |g| && (forall i | 0 <= i < |order| :: order[i] < |g|)
    requires Numbered(g, order, lay, names, offsets, schema) && Gathered(offsets, rows, start, n, cols) && r < n
    ensures SameFields(g, order, LaneEnv(names, cols, r), RowEnv(schema, rows[start + r]), Pow2(64))
  {
    hide Val, Pow2, LaneEnv;
    forall i | 0 <= i < |order| && g[order[i]].Load?
      ensures LaneEnv(names, cols, r)(g[order[i]].name) == RowEnv(schema, rows[start + r])(g[order[i]].name)
    {
      LaneEnvAt(names, cols, r, lay[order[i]].field);
    }
  }

  /** Reference: the value of the root on row i; a subtraction is one short except in row 0 of a block. */
  ghost function RowValue(g: Graph, root: nat, schema: Schema, rows: seq<Cells>, i: nat): int
    requires Acyclic(g) && root < |g| && i < |rows|
  {
    Eval(g, root, RowEnv(schema, rows[i]), Pow2(64), Borrow(i % 64))
  }

  // --- Meaning of a row's contribution --------------------------------------------------------

  lemma EvalSumStep(g: Graph, ops: seq<nat>, bound: nat, env: Env, m: nat, b: nat)
    requires Acyclic(g) && m > 0
    requires forall k | 0 <= k < |ops| :: ops[k] < |g| && Rank(g)[ops[k]] < bound
    ensures EvalSum(g, ops, bound, env, m, b)
         == if ops == [] then 0 else Eval(g, ops[0], env, m, b) + EvalSum(g, ops[1..], bound, env, m, b)
  {
    hide Eval;
  }

  lemma {:induction false} EvalSumIsTotal(g: Graph, ops: seq<nat>, bound: nat, env: Env, m: nat, b: nat, f: nat -> int)
    requires Acyclic(g) && m > 0
    requires forall k | 0 <= k < |ops| :: ops[k] < |g| && Rank(g)[ops[k]] < bound
    requires forall k: nat | k < |ops| :: f(k) == Eval(g, ops[k], env, m, b)
    ensures EvalSum(g, ops, bound, env, m, b) == Total(|ops|, f)
  {
    hide Eval, EvalSum, Total, Acyclic, Rank;
    EvalSumStep(g, ops, bound, env, m, b);
    if ops == [] {
      TotalNone(f);
    } else {
      var h := (k: nat) => f(k + 1);
      forall k: nat | k < |ops| - 1 ensures h(k) == Eval(g, ops[1..][k], env, m, b) {
        assert f(k + 1) == Eval(g, ops[k + 1], env, m, b);
      }
      EvalSumIsTotal(g, ops[1..], bound, env, m, b, h);
      SumSplit(|ops|, 1, f, h);
      SumFirst(f);
    }
  }

  /** The leaf a selection chooses on a row. */
  ghost function ChosenLeaf(g: Graph, ops: seq<nat>, env: Env, b: nat, k: nat): int
    requires Acyclic(g) && Leafy(g, ops) && k < |ops|
  {
    if Eval(g, g[ops[k]].cond, env, Pow2(64), b) != 0 then LeftLeaf(g, ops, k) else RightLeaf(g, ops, k)
  }

  /** The root of a forest is the optional constant plus the chosen leaves. */
  lemma {:induction false} ForestValue(g: Graph, root: nat, env: Env, b: nat, f: nat -> int)
    requires Valid(g) && root < |g| && IsForest(g, root) && Leafy(g, g[SumNode(g, root)].operands)
    requires forall k: nat | k < |g[SumNode(g, root)].operands| ::
               f(k) == ChosenLeaf(g, g[SumNode(g, root)].operands, env, b, k)
    ensures Same(Eval(g, root, env, Pow2(64), b),
                 Offset0(g, root) + Total(|g[SumNode(g, root)].operands|, f))
  {
    hide Pow2, Val, Same, ChosenLeaf, Eval, EvalSum, Total, Offset0, SumNode;
    var s := SumNode(g, root);
    var ops := g[s].operands;
    assert Below(g[s], Rank(g), Rank(g)[s]);
    forall k: nat | k < |ops| ensures f(k) == Eval(g, ops[k], env, Pow2(64), b) {
      SelectValue(g, ops, env, b, k);
    }
    EvalSumIsTotal(g, ops, Rank(g)[s], env, Pow2(64), b, f);
    SumRoot(g, root, env, b, Total(|ops|, f));
  }

  lemma {:induction false} SumRoot(g: Graph, root: nat, env: Env, b: nat, t: int)
    requires Valid(g) && root < |g| && IsForest(g, root)
    requires var s := SumNode(g, root); t == EvalSum(g, g[s].operands, Rank(g)[s], env, Pow2(64), b)
    ensures Same(Eval(g, root, env, Pow2(64), b), Offset0(g, root) + t)
  {
    hide Pow2, Val, Same;
    WrapSame(t);
    if SumNode(g, root) != root {
      var c := Val(g[g[root].right].value);
      WordRange(g[g[root].right].value);
      WrapSame(Wrap(t) + c);
      SameRefl(c);
      SamePlus(Wrap(t), c, t, c);
      SameTrans(Wrap(Wrap(t) + c), Wrap(t) + c, t + c);
    }
  }

  lemma SameTrans(x: int, y: int, z: int)
    requires Same(x, y) && Same(y, z)
    ensures Same(x, z)
  {
  }

  lemma {:induction false} SelectValue(g: Graph, ops: seq<nat>, env: Env, b: nat, k: nat)
    requires Valid(g) && Leafy(g, ops) && k < |ops|
    ensures Eval(g, ops[k], env, Pow2(64), b) == ChosenLeaf(g, ops, env, b, k)
  {
    hide Pow2, Val;
    var n := g[ops[k]];
    WordRange(g[n.left].value);
    WordRange(g[n.right].value);
  }

  /** Base and weighted masks give, modulo 2^64, the constant plus the chosen leaves. */
  lemma {:induction false} ForestTerm(lg: Logic, g: Graph, root: nat, result: Word, mem: seq<Word>, r: nat,
                                      f: nat -> int)
    requires Closed(g) && root < |g| && IsForest(g, root) && ForestData(lg, g, root) && lg.kind.WeightedCount?
    requires r < 64 && MasksInside(lg, mem)
    requires var ops := g[SumNode(g, root)].operands;
             forall k: nat | k < |ops| ::
               f(k) == if mem[lg.masks[k]][r] then LeftLeaf(g, ops, k) else RightLeaf(g, ops, k)
    ensures Same(RowTerm(lg, result, mem, r), Offset0(g, root) + Total(|g[SumNode(g, root)].operands|, f))
  {
    hide Pow2, Val, Same, LeftLeaf, RightLeaf, Offset0, ForestData, SumNode;
    ForestParts(lg, g, root);
    var ops, c := g[SumNode(g, root)].operands, Offset0(g, root);
    var right := (k: nat) => if k < |ops| then RightLeaf(g, ops, k) else 0;
    var delta := (k: nat) => if k < |ops| && mem[lg.masks[k]][r] then LeftLeaf(g, ops, k) - RightLeaf(g, ops, k) else 0;
    var chosen := (k: nat) => Chosen(lg, mem, r, k);
    SumPlus(|ops|, right, delta, f);
    forall k: nat | k < |ops| ensures Same(chosen(k), delta(k)) {
      SameBy(0, 0, 0);
    }
    SameSum(|ops|, chosen, delta);
    SamePlus(lg.base, Total(|ops|, chosen), c + Total(|ops|, right), Total(|ops|, delta));
  }

  lemma ForestParts(lg: Logic, g: Graph, root: nat)
    requires Closed(g) && root < |g| && IsForest(g, root) && ForestData(lg, g, root)
    ensures var ops := g[SumNode(g, root)].operands;
            && |lg.weights| == |ops|
            && Same(lg.base, Offset0(g, root) + Total(|ops|, (k: nat) => if k < |ops| then RightLeaf(g, ops, k) else 0))
            && forall k | 0 <= k < |ops| :: Same(lg.weights[k], LeftLeaf(g, ops, k) - RightLeaf(g, ops, k))
  {
    hide Pow2, Val, Same, LeftLeaf, RightLeaf, Offset0, Leafy, Total;
  }

  ghost function SetupFor(lg: Logic, g: Graph, root: nat, cols: seq<Block>): Setup
    requires root < |g| && Within(g[root], |g|)
  {
    SetupOf(lg.kernel, g, 64, SkipOf(g, root), Planes(cols), LaneEnvs(lg.kernel.names, cols))
  }

  /** The kernel ran on the planes of these columns and ended in s. */
  ghost predicate Ran(lg: Logic, g: Graph, root: nat, cols: seq<Block>, s: State)
    ensures Ran(lg, g, root, cols, s) ==> s.Running? && s.regs[Result0].Data? && MasksInside(lg, s.mem)
  {
    && root < |g| && Within(g[root], |g|)
    && SetupOk(SetupFor(lg, g, root, cols)) && Delivers(SetupFor(lg, g, root, cols), root, s) && MasksInside(lg, s.mem)
  }

  /** What row r contributes is, modulo 2^64, the value the kernel computes for the root in row r. */
  lemma {:induction false} RowTermMeaning(lg: Logic, g: Graph, root: nat, schema: Schema, cols: seq<Block>,
                                          s: State, r: nat)
    requires Installed(lg, g, root, schema) && r < 64
    requires Ran(lg, g, root, cols, s)
    ensures Same(RowTerm(lg, s.regs[Result0].w, s.mem, r),
                 Eval(g, root, LaneEnv(lg.kernel.names, cols, r), Pow2(64), Borrow(r)))
  {
    hide Val, Pow2, KernelFor, SkipClosed, Same, Holds, Topological, Disjoint, AllEmittable, Feeds;
    var x := SetupFor(lg, g, root, cols);
    SameRefl(Eval(g, root, LaneEnv(lg.kernel.names, cols, r), Pow2(64), Borrow(r)));
    match lg.kind
    case MaskCount => MaskMeaning(x, root, r);
    case PlaneSum =>
    case WeightedCount => ForestMeaning(lg, g, root, schema, cols, s, r);
  }

  lemma SameRefl(v: int)
    ensures Same(v, v)
  {
  }

  lemma MaskMeaning(x: Setup, root: nat, r: nat)
    requires SetupOk(x) && root < |x.g| && r < 64 && IsMask(x.g[root])
    ensures Meaning(x, root, r) == Bit(Meaning(x, root, r) != 0)
  {
    EvalRange(x.g, root, x.rows[r], Pow2(x.bits), Borrow(r));
  }

  lemma {:induction false} ForestMeaning(lg: Logic, g: Graph, root: nat, schema: Schema, cols: seq<Block>, s: State,
                                         r: nat)
    requires Installed(lg, g, root, schema) && r < 64 && lg.kind.WeightedCount?
    requires Ran(lg, g, root, cols, s)
    ensures Same(RowTerm(lg, s.regs[Result0].w, s.mem, r),
                 Eval(g, root, LaneEnv(lg.kernel.names, cols, r), Pow2(64), Borrow(r)))
  {
    hide Pow2, Val, Same, Installed, ForestData, Ran, RowTerm, Eval, Offset0, LeftLeaf, RightLeaf, SumNode,
         Total, LaneEnv;
    ForestFacts(lg, g, root, schema);
    var ops, env := g[SumNode(g, root)].operands, LaneEnv(lg.kernel.names, cols, r);
    var f := (k: nat) => if k < |ops| && Leafy(g, ops) then ChosenLeaf(g, ops, env, Borrow(r), k) else 0;
    ForestValue(g, root, env, Borrow(r), f);
    forall k: nat | k < |ops| ensures f(k) == if s.mem[lg.masks[k]][r] then LeftLeaf(g, ops, k) else RightLeaf(g, ops, k) {
      ConditionHolds(lg, g, root, schema, cols, s, r, k);
    }
    ForestTerm(lg, g, root, s.regs[Result0].w, s.mem, r, f);
    SameJoin(RowTerm(lg, s.regs[Result0].w, s.mem, r), Eval(g, root, env, Pow2(64), Borrow(r)),
             Offset0(g, root) + Total(|ops|, f));
  }

  lemma SameJoin(x: int, y: int, z: int)
    requires Same(x, z) && Same(y, z)
    ensures Same(x, y)
  {
  }

  lemma ForestFacts(lg: Logic, g: Graph, root: nat, schema: Schema)
    requires Installed(lg, g, root, schema) && lg.kind.WeightedCount?
    ensures Valid(g) && root < |g| && IsForest(g, root) && ForestData(lg, g, root)
    ensures Leafy(g, g[SumNode(g, root)].operands) && |lg.masks| == |g[SumNode(g, root)].operands|
  {
  }

  /** The slot of selection k says, in lane r, whether its condition holds. */
  ghost predicate MaskBit(lg: Logic, g: Graph, ops: seq<nat>, env: Env, mem: seq<Word>, r: nat, k: nat) {
    && Acyclic(g) && k < |ops| && ops[k] < |g| && g[ops[k]].Select? && g[ops[k]].cond < |g|
    && r < 64 && k < |lg.masks| && lg.masks[k] < |mem|
    && mem[lg.masks[k]][r] == (Eval(g, g[ops[k]].cond, env, Pow2(64), Borrow(r)) != 0)
  }

  /** The slot of every selection's condition holds its truth value. */
  lemma {:induction false} ConditionHolds(lg: Logic, g: Graph, root: nat, schema: Schema, cols: seq<Block>,
                                          s: State, r: nat, k: nat)
    requires Installed(lg, g, root, schema) && r < 64 && lg.kind.WeightedCount?
    requires Ran(lg, g, root, cols, s) && k < |g[SumNode(g, root)].operands|
    ensures MaskBit(lg, g, g[SumNode(g, root)].operands, LaneEnv(lg.kernel.names, cols, r), s.mem, r, k)
  {
    hide Val, Pow2, Same, Eval, Installed, SetupOk, Delivers, Holds, MasksInside, SkipOf, ForestData, Listed, LaneEnv;
    ForestFacts(lg, g, root, schema);
    ForestSlots(lg, g, root, schema, k);
    MaskInRange(lg, g, root, cols, s, k);
    var x := SetupFor(lg, g, root, cols);
    ConditionListed(lg, g, root, schema, k);
    MaskHolds(x, root, s, g[g[SumNode(g, root)].operands[k]].cond, r);
  }

  lemma ForestSlots(lg: Logic, g: Graph, root: nat, schema: Schema, k: nat)
    requires Installed(lg, g, root, schema) && lg.kind.WeightedCount? && k < |g[SumNode(g, root)].operands|
    ensures |lg.kernel.lay| == |g| && k < |lg.masks| && root in SkipOf(g, root)
    ensures lg.masks[k] == lg.kernel.lay[g[g[SumNode(g, root)].operands[k]].cond].slot
  {
    hide Val, Pow2, Same, KernelCode, Reach, AllEmittable, Disjoint, Topological, SkipClosed, Total;
  }

  lemma MaskInRange(lg: Logic, g: Graph, root: nat, cols: seq<Block>, s: State, k: nat)
    requires Ran(lg, g, root, cols, s) && k < |lg.masks|
    ensures lg.masks[k] < |s.mem|
  {
    hide SetupOk, Delivers;
  }

  /** A mask that was listed and emitted reads, lane by lane, as its truth value. */
  lemma MaskHolds(x: Setup, root: nat, s: State, id: nat, r: nat)
    requires SetupOk(x) && root < |x.g| && Delivers(x, root, s) && root in x.skip
    requires Listed(x.order, |x.order|, id) && id !in x.skip && id < |x.g| && IsMask(x.g[id]) && r < 64
    ensures 0 <= x.lay[id].slot < |s.mem| && s.mem[x.lay[id].slot][r] == (Meaning(x, id, r) != 0)
  {
    hide Val, Pow2, Eval, AllEmittable, Valid, SkipClosed, Feeds, Topological;
    var j :| 0 <= j < |x.order| && x.order[j] == id;
    assert PlacedAlone(x.g[id], x.lay[id]) && Holds(x, x.order[j], s.mem);
  }

  lemma {:induction false} ConditionListed(lg: Logic, g: Graph, root: nat, schema: Schema, k: nat)
    requires Installed(lg, g, root, schema) && lg.kind.WeightedCount? && k < |g[SumNode(g, root)].operands|
    ensures var cond := g[g[SumNode(g, root)].operands[k]].cond;
            Listed(lg.kernel.order, |lg.kernel.order|, cond) && cond !in SkipOf(g, root) && IsMask(g[cond])
  {
    hide Val, Pow2, Same, Eval, KernelCode, Reach, AllEmittable, Disjoint, Topological, SkipOf, SkipClosed;
    var s := SumNode(g, root);
    var op := g[s].operands[k];
    ForestListed(g, lg.kernel.order, root, k);
    assert TypedAt(g, op);
    SkipNoMask(g, root, g[op].cond);
  }

  lemma SkipNoMask(g: Graph, root: nat, id: nat)
    requires root < |g| && Within(g[root], |g|) && id < |g| && IsMask(g[id])
    ensures id !in SkipOf(g, root)
  {
  }

  /** The condition of every selection is listed when the root is. */
  lemma {:induction false} ForestListed(g: Graph, order: seq<nat>, root: nat, k: nat)
    requires Closed(g) && Topological(g, order) && order != [] && order[|order| - 1] == root
    requires IsForest(g, root) && Leafy(g, g[SumNode(g, root)].operands) && k < |g[SumNode(g, root)].operands|
    ensures Listed(order, |order|, g[g[SumNode(g, root)].operands[k]].cond)
  {
    var s := SumNode(g, root);
    var i0 := |order| - 1;
    assert OperandsListed(g[root], order, i0);
    if s != root {
      i0 :| 0 <= i0 < |order| - 1 && order[i0] == s;
    }
    SumListed(g, order, i0, k);
  }

  lemma {:induction false} SumListed(g: Graph, order: seq<nat>, i: nat, k: nat)
    requires Closed(g) && Topological(g, order) && i < |order| && g[order[i]].Sum?
    requires k < |g[order[i]].operands| && g[g[order[i]].operands[k]].Select?
    ensures Listed(order, |order|, g[g[order[i]].operands[k]].cond)
  {
    var op := g[order[i]].operands[k];
    assert OperandsListed(g[order[i]], order, i) && Listed(order, i, op);
    var j :| 0 <= j < i && order[j] == op;
    assert OperandsListed(g[op], order, j);
    var c :| 0 <= c < j && order[c] == g[op].cond;
  }

  // --- A whole block --------------------------------------------------------------------------

  function EntryRegs(): Regs {
    seq(32, i => Offset(0))
  }

  function RunKernel(lg: Logic, planes: seq<Block>, scratch: seq<Word>): State {
    Exec(lg.kernel.code, planes, Running(EntryRegs(), scratch))
  }

  /** The kernel runs on the planes of any gathered columns and any scratchpad contents. */
  lemma {:induction false} KernelRan(lg: Logic, g: Graph, root: nat, schema: Schema, cols: seq<Block>,
                                     scratch: seq<Word>)
    requires Installed(lg, g, root, schema) && |cols| == |lg.offsets| && |scratch| >= SLOTS
    ensures Ran(lg, g, root, cols, RunKernel(lg, Planes(cols), scratch))
    ensures |RunKernel(lg, Planes(cols), scratch).mem| >= SLOTS
  {
    hide Exec, SetupOk, Installed, KernelFor, SkipClosed, FieldsMatch, Planes, Delivers, LaneEnvs, SkipOf;
    InstalledFacts(lg, g, root, schema);
    InstalledKernel(lg, g, root, schema);
    var rows := LaneEnvs(lg.kernel.names, cols);
    PlanesMatchLanes(lg.kernel.names, cols);
    CompiledKernelRuns(lg.kernel, g, root, 64, SkipOf(g, root), Planes(cols), rows, EntryRegs(), scratch);
    DeliversRoom(SetupFor(lg, g, root, cols), root, RunKernel(lg, Planes(cols), scratch));
    if lg.kind.WeightedCount? {
      MasksPlaced(lg, g, root, schema);
    }
  }

  lemma DeliversRoom(x: Setup, root: nat, s: State)
    requires SetupOk(x) && root < |x.g| && Delivers(x, root, s)
    ensures s.Running? && s.regs[Result0].Data? && |s.mem| >= SLOTS
  {
  }

  lemma {:induction false} MasksPlaced(lg: Logic, g: Graph, root: nat, schema: Schema)
    requires Installed(lg, g, root, schema) && lg.kind.WeightedCount?
    ensures |lg.masks| == |lg.weights| && forall k | 0 <= k < |lg.masks| :: lg.masks[k] < SLOTS
  {
    hide Val, Pow2, Same, KernelCode, Reach, AllEmittable, Valid, SkipClosed;
    forall k | 0 <= k < |lg.masks| ensures lg.masks[k] < SLOTS {
      ConditionListed(lg, g, root, schema, k);
      var cond := g[g[SumNode(g, root)].operands[k]].cond;
      var j :| 0 <= j < |lg.kernel.order| && lg.kernel.order[j] == cond;
      assert PlacedAlone(g[cond], lg.kernel.lay[cond]);
    }
  }

  /** Each row that was gathered contributes its reference value, whatever the stale lanes and the scratchpad held. */
  lemma {:induction false} RowTermIsValue(lg: Logic, g: Graph, root: nat, schema: Schema, rows: seq<Cells>,
                                          start: nat, n: nat, cols: seq<Block>, s: State, r: nat)
    requires Installed(lg, g, root, schema) && Gathered(lg.offsets, rows, start, n, cols) && start % 64 == 0 && r < n
    requires Ran(lg, g, root, cols, s)
    ensures Same(RowTerm(lg, s.regs[Result0].w, s.mem, r), RowValue(g, root, schema, rows, start + r))
  {
    hide Ran, Same, RowTerm, Eval, Pow2, KernelCode, Disjoint, AllEmittable, SkipClosed, ForestData, LaneEnv;
    RowTermMeaning(lg, g, root, schema, cols, s, r);
    InstalledNumbered(lg, g, root, schema);
    LaneReadsRow(g, lg.kernel.order, lg.kernel.lay, lg.kernel.names, lg.offsets, schema, rows, start, n, cols, r);
    EvalAgrees(g, lg.kernel.order, |lg.kernel.order| - 1, LaneEnv(lg.kernel.names, cols, r), RowEnv(schema, rows[start + r]),
               Pow2(64), Borrow(r), Borrow(r));
    BlockLane(start, r);
  }

  lemma BlockLane(start: nat, r: nat)
    requires start % 64 == 0 && r < 64
    ensures (start + r) % 64 == r
  {
  }

  /** The reference value of row start + r, for use in sums. */
  ghost function ValueAt(g: Graph, root: nat, schema: Schema, rows: seq<Cells>, start: nat): nat -> int
    requires Acyclic(g) && root < |g|
  {
    (r: nat) => if start + r < |rows| then RowValue(g, root, schema, rows, start + r) else 0
  }

  /** A block's aggregate is, modulo 2^64, the sum of the reference values of its rows. */
  lemma {:induction false} BlockCorrect(lg: Logic, g: Graph, root: nat, schema: Schema, rows: seq<Cells>,
                                        start: nat, n: nat, cols: seq<Block>, s: State)
    requires Installed(lg, g, root, schema) && Gathered(lg.offsets, rows, start, n, cols) && start % 64 == 0
    requires Ran(lg, g, root, cols, s)
    ensures Same(Aggregate(lg, s.regs[Result0].w, s.mem, n), Total(n, ValueAt(g, root, schema, rows, start)))
  {
    hide Ran, Same, Installed, RowTerm, RowValue, Aggregate, MasksInside;
    InstalledFacts(lg, g, root, schema);
    var w, mem := s.regs[Result0].w, s.mem;
    var f := (r: nat) => if r < 64 && MasksInside(lg, mem) then RowTerm(lg, w, mem, r) else 0;
    AggregateAddsRows(lg, w, mem, n, f);
    forall r: nat | r < n ensures Same(f(r), ValueAt(g, root, schema, rows, start)(r)) {
      RowTermIsValue(lg, g, root, schema, rows, start, n, cols, s, r);
    }
    SameSum(n, f, ValueAt(g, root, schema, rows, start));
  }

  lemma InstalledFacts(lg: Logic, g: Graph, root: nat, schema: Schema)
    requires Installed(lg, g, root, schema)
    ensures Valid(g) && Acyclic(g) && root < |g| && Within(g[root], |g|) && !IsLeaf(g[root])
  {
  }

  lemma InstalledNumbered(lg: Logic, g: Graph, root: nat, schema: Schema)
    requires Installed(lg, g, root, schema)
    ensures |lg.kernel.lay| == |g| && (forall i | 0 <= i < |lg.kernel.order| :: lg.kernel.order[i] < |g|)
    ensures Numbered(g, lg.kernel.order, lg.kernel.lay, lg.kernel.names, lg.offsets, schema)
  {
    hide Disjoint, AllEmittable, Reach, Valid, SkipClosed, ForestData, KernelCode, OperandsListed;
  }

  lemma InstalledKernel(lg: Logic, g: Graph, root: nat, schema: Schema)
    requires Installed(lg, g, root, schema)
    ensures root < |g| && Within(g[root], |g|)
    ensures KernelFor(lg.kernel, g, root, 64, SkipOf(g, root)) && SkipClosed(g, lg.kernel.order, SkipOf(g, root))
    ensures |lg.offsets| == |lg.kernel.names| <= MAX_FIELDS
    ensures forall v, w | 0 <= v < w < |lg.kernel.names| :: lg.kernel.names[v] != lg.kernel.names[w]
    ensures lg.kind.WeightedCount? || (lg.weights == [] && lg.masks == [])
  {
  }

  // --- Installation ---------------------------------------------------------------------------

  /**
   Nothing is installed; what is installed is undefined when run; its weights are not those of the
   expression; or logic is ready to run.
   */
  datatype Installation = Unchanged | Broken | Unweighted | Ready(logic: Logic)

  /** Word offset of every numbered field; an unregistered field gets an entry that must not be used. */
  method CollectOffsets(names: seq<string>, schema: Schema) returns (offsets: seq<nat>)
    ensures |offsets| == |names|
    ensures forall v | 0 <= v < |names| && names[v] in schema :: offsets[v] == schema[names[v]]
  {
    offsets := [];
    for v := 0 to |names|
      invariant |offsets| == v && forall w | 0 <= w < v && names[w] in schema :: offsets[w] == schema[names[w]]
    {
      offsets := offsets + [if names[v] in schema then schema[names[v]] else 0];
    }
  }

  /** The condition of every selection owns a slot. */
  ghost predicate Slotted(g: Graph, ops: seq<nat>, lay: Layout)
    requires Closed(g) && Leafy(g, ops) && |lay| == |g|
  {
    forall k | 0 <= k < |ops| :: lay[g[ops[k]].cond].slot >= 0
  }

  /** Turns a sum of selections into a base, and a weight and a mask slot per selection. */
  method CollectForest(g: Graph, root: nat, lay: Layout) returns (base: nat, weights: seq<nat>, masks: seq<nat>)
    requires Closed(g) && root < |g| && IsForest(g, root) && |lay| == |g|
    requires Leafy(g, g[SumNode(g, root)].operands)
    requires Slotted(g, g[SumNode(g, root)].operands, lay)
    ensures var ops := g[SumNode(g, root)].operands;
            && |weights| == |masks| == |ops|
            && Same(base, Offset0(g, root) + Total(|ops|, (k: nat) => if k < |ops| then RightLeaf(g, ops, k) else 0))
            && (forall k | 0 <= k < |ops| :: Same(weights[k], LeftLeaf(g, ops, k) - RightLeaf(g, ops, k)))
            && (forall k | 0 <= k < |ops| :: masks[k] == lay[g[ops[k]].cond].slot)
  {
    hide Val, Pow2, Same, Total, LeftLeaf, RightLeaf, Offset0;
    OffsetLeaf(g, root);
    var s, ops := SumNode(g, root), g[SumNode(g, root)].operands;
    ghost var right := (k: nat) => if k < |ops| then RightLeaf(g, ops, k) else 0;
    base := if s != root then Val(g[g[root].right].value) else 0;
    weights, masks := [], [];
    TotalNone(right);
    SameRefl(base);
    for k := 0 to |ops|
      invariant |weights| == |masks| == k
      invariant Same(base, Offset0(g, root) + Total(k, right))
      invariant forall j | 0 <= j < k :: Same(weights[j], LeftLeaf(g, ops, j) - RightLeaf(g, ops, j))
      invariant forall j | 0 <= j < k :: masks[j] == lay[g[ops[j]].cond].slot
    {
      var op := g[ops[k]];
      var rightValue: int, leftValue: int := Val(g[op.right].value), Val(g[op.left].value);
      masks := masks + [lay[op.cond].slot];
      Leaves(g, ops, k);
      WrapPlus(base, Offset0(g, root) + Total(k, right), rightValue);
      SumLast(k + 1, right);
      base := Wrap(base + rightValue);
      WrapSame(leftValue - rightValue);
      weights := weights + [Wrap(leftValue - rightValue)];
    }
  }

  lemma OffsetLeaf(g: Graph, root: nat)
    requires Closed(g) && root < |g| && IsForest(g, root)
    ensures Offset0(g, root) == if SumNode(g, root) != root then Val(g[g[root].right].value) else 0
  {
    hide Val;
  }

  lemma Leaves(g: Graph, ops: seq<nat>, k: nat)
    requires Closed(g) && Leafy(g, ops) && k < |ops|
    ensures LeftLeaf(g, ops, k) == Val(g[g[ops[k]].left].value) && RightLeaf(g, ops, k) == Val(g[g[ops[k]].right].value)
  {
    hide Val;
  }

  lemma TotalNone(f: nat -> int)
    ensures Total(0, f) == 0
  {
  }

  /** Wrapping addition keeps a residue. */
  lemma {:induction false} WrapPlus(x: int, y: int, d: int)
    requires Same(x, y)
    ensures Same(Wrap(x + d), y + d)
  {
    hide Same, Wrap, Pow2;
    WrapSame(x + d);
    SameRefl(d);
    SamePlus(x, d, y, d);
    SameTrans(Wrap(x + d), x + d, y + d);
  }

  /** Every field that the code of the node loads is registered; a SUM has no code. */
  predicate NodeKnown(g: Graph, id: nat, schema: Schema)
    requires id < |g| && Within(g[id], |g|)
  {
    g[id].Sum? || forall c <- Children(g[id]) :: c < |g| && g[c].Load? ==> g[c].name in schema
  }

  /** Every field that emitted code loads is registered. */
  predicate Known(g: Graph, order: seq<nat>, skip: set<nat>, schema: Schema)
    requires forall i | 0 <= i < |order| :: order[i] < |g| && Within(g[order[i]], |g|)
  {
    forall i | 0 <= i < |order| && order[i] !in skip :: NodeKnown(g, order[i], schema)
  }

  /** Node s is a SUM, and the root is s or s plus a constant. */
  ghost predicate SumAt(g: Graph, root: nat, s: nat)
    requires Closed(g) && root < |g|
  {
    s < |g| && g[s].Sum? && (root == s || (g[root].Add? && g[root].left == s && g[g[root].right].Const?))
  }

  /** It has operands, all of them selections between constants. */
  ghost predicate SumOfChoices(g: Graph, root: nat, s: nat)
    requires Closed(g) && root < |g|
  {
    && SumAt(g, root, s) && g[s].operands != []
    && forall op <- g[s].operands :: op < |g| && g[op].Select? && g[g[op].left].Const? && g[g[op].right].Const?
  }

  /** A part of the sum: the root, the SUM or one of its selections. */
  predicate PartOf(g: Graph, root: nat, s: nat, id: nat)
    requires s < |g| && g[s].Sum?
  {
    id == root || id == s || id in g[s].operands
  }

  /** No node outside the sum is a SUM or reads a part of it. */
  ghost predicate ReadByItself(g: Graph, order: seq<nat>, root: nat, s: nat)
    requires s < |g| && g[s].Sum? && forall i | 0 <= i < |order| :: order[i] < |g|
  {
    forall i | 0 <= i < |order| && !PartOf(g, root, s, order[i]) :: ReadsElsewhere(g, root, s, order[i])
  }

  ghost predicate ReadsElsewhere(g: Graph, root: nat, s: nat, id: nat)
    requires s < |g| && g[s].Sum? && id < |g|
  {
    !g[id].Sum? && forall c <- Children(g[id]) :: !PartOf(g, root, s, c)
  }

  /** Such a sum is recognised, and no emitted code depends on it exactly when nothing else reads its parts. */
  lemma {:induction false} ChoicesFound(g: Graph, root: nat, s: nat, order: seq<nat>)
    requires Valid(g) && root < |g| && SumOfChoices(g, root, s) && Topological(g, order)
    ensures IsForest(g, root) && SumNode(g, root) == s && Leafy(g, g[s].operands)
    ensures SkipClosed(g, order, SkipOf(g, root)) <==> ReadByItself(g, order, root, s)
  {
    hide OperandsListed, ReadsEmitted, ReadsElsewhere, Children, SkipOf, PartOf;
    assert SumNode(g, root) == s;
    forall i | 0 <= i < |order|
      ensures order[i] !in SkipOf(g, root) ==> !PartOf(g, root, s, order[i])
      ensures order[i] !in SkipOf(g, root) ==>
                (ReadsEmitted(g, order[i], SkipOf(g, root)) <==> ReadsElsewhere(g, root, s, order[i]))
      ensures order[i] in SkipOf(g, root) ==> PartOf(g, root, s, order[i]) || ReadsElsewhere(g, root, s, order[i])
    {
      ChoiceSkipped(g, root, s, order[i]);
      ChoiceReader(g, root, s, order[i]);
    }
  }

  /** The root is no such sum and no SUM is listed, or nothing outside its sum is a SUM or reads a part of it. */
  ghost predicate Standalone(g: Graph, order: seq<nat>, root: nat)
    requires Closed(g) && root < |g| && forall i | 0 <= i < |order| :: order[i] < |g|
  {
    && (forall s: nat | SumAt(g, root, s) :: ReadByItself(g, order, root, s))
    && ((forall s: nat :: !SumAt(g, root, s)) ==> forall i | 0 <= i < |order| :: !g[order[i]].Sum?)
  }

  /** Recognition, on the nodes: what counts as a sum of selections, and when emitted code is independent of it. */
  lemma {:induction false} SumsFound(g: Graph, root: nat, order: seq<nat>)
    requires Valid(g) && root < |g| && Topological(g, order)
    ensures IsForest(g, root) <==> exists s: nat :: SumAt(g, root, s)
    ensures IsForest(g, root) ==> (Leafy(g, g[SumNode(g, root)].operands) <==> SumOfChoices(g, root, SumNode(g, root)))
    ensures IsForest(g, root) ==> (Leafy(g, g[SumNode(g, root)].operands) <==> exists s: nat :: SumOfChoices(g, root, s))
    ensures (IsForest(g, root) ==> Leafy(g, g[SumNode(g, root)].operands)) ==>
              (SkipClosed(g, order, SkipOf(g, root)) <==> Standalone(g, order, root))
  {
    hide OperandsListed, ReadByItself, SkipOf, SkipClosed;
    if IsForest(g, root) {
      OnlySum(g, root);
      assert SumAt(g, root, SumNode(g, root));
      if Leafy(g, g[SumNode(g, root)].operands) {
        ChoicesFound(g, root, SumNode(g, root), order);
      }
    } else {
      NoSumFound(g, root, order);
    }
  }

  lemma OnlySum(g: Graph, root: nat)
    requires Valid(g) && root < |g| && IsForest(g, root)
    ensures forall s: nat :: SumAt(g, root, s) <==> s == SumNode(g, root)
    ensures Leafy(g, g[SumNode(g, root)].operands) <==> SumOfChoices(g, root, SumNode(g, root))
  {
  }

  lemma NoSumFound(g: Graph, root: nat, order: seq<nat>)
    requires Valid(g) && root < |g| && !IsForest(g, root) && Topological(g, order)
    ensures forall s: nat :: !SumAt(g, root, s)
    ensures SkipClosed(g, order, SkipOf(g, root)) <==> forall i | 0 <= i < |order| :: !g[order[i]].Sum?
  {
    hide OperandsListed;
    forall i | 0 <= i < |order| ensures ReadsEmitted(g, order[i], {}) <==> !g[order[i]].Sum? {
    }
  }

  /** Skipped is what belongs to the sum, and the added constant. */
  lemma ChoiceSkipped(g: Graph, root: nat, s: nat, id: nat)
    requires Valid(g) && root < |g| && id < |g| && SumOfChoices(g, root, s)
    ensures Emitted(g, id, SkipOf(g, root)) <==> !PartOf(g, root, s, id)
    ensures IsMask(g[id]) ==> id !in SkipOf(g, root)
    ensures id in SkipOf(g, root) ==> PartOf(g, root, s, id) || IsLeaf(g[id])
    ensures PartOf(g, root, s, id) ==> id in SkipOf(g, root)
  {
    assert SumNode(g, root) == s;
  }

  lemma {:induction false} ChoiceReader(g: Graph, root: nat, s: nat, id: nat)
    requires Valid(g) && root < |g| && id < |g| && SumOfChoices(g, root, s)
    ensures IsLeaf(g[id]) ==> ReadsElsewhere(g, root, s, id)
    ensures ReadsEmitted(g, id, SkipOf(g, root)) <==> ReadsElsewhere(g, root, s, id)
  {
    hide SkipOf, PartOf, Emitted;
    assert TypedAt(g, id);
    forall c: nat | c < |g|
      ensures Emitted(g, c, SkipOf(g, root)) <==> !PartOf(g, root, s, c)
      ensures IsMask(g[c]) ==> c !in SkipOf(g, root) && !PartOf(g, root, s, c)
    {
      ChoiceSkipped(g, root, s, c);
    }
  }

  /**
   Compiles an expression and prepares its aggregation. Nothing is installed when too many fields or
   scratchpad words are needed. Running what is installed is undefined when the kernel is, or when it
   loads a field the schema lacks, whose planes are a null pointer. A SUM of anything but selections
   between constants is weighed by raw weights. Selections under a SUM must not feed anything else.
   */
  method SetExpression(g: Graph, root: nat, schema: Schema) returns (out: Installation, order: seq<nat>)
    requires Valid(g) && root < |g|
    ensures Topological(g, order) && Elements(order) == Reach(g, root) && order == Visit(g, root, [])
    ensures out.Unchanged? == (|Names(g, order, |order|)| > MAX_FIELDS
                               || Needed(Blocks(g, order, |order|), Singles(g, order, |order|)) > CHUNKS)
    ensures out.Broken? == (!out.Unchanged? && (!CarriesSuffice(g, order, SkipOf(g, root)) || IsLeaf(g[root])
                                                || !Known(g, order, SkipOf(g, root), schema)))
    ensures out.Unweighted? == (!out.Unchanged? && !out.Broken?
                                && exists s: nat :: SumAt(g, root, s) && !SumOfChoices(g, root, s))
    ensures out.Ready? ==> out.logic.kernel.order == order
    ensures out.Ready? ==> out.logic.kind == if IsMask(g[root]) then MaskCount
                                             else if exists s: nat :: SumOfChoices(g, root, s) then WeightedCount else PlaneSum
    ensures out.Ready? ==> (Installed(out.logic, g, root, schema) <==> Standalone(g, order, root))
  {
    hide Reach, Visit, Acyclic, Needed, Names, Blocks, Singles, CarriesSuffice, Elements, SkipOf, KernelFor, SkipClosed,
         Val, Pow2, Total, Same, Known, Leafy;
    LeafNotSkipped(g, root);
    var skip := SkipOf(g, root);
    var compiled;
    compiled, order := CompileExpression(g, root, 64, skip);
    SumsFound(g, root, order);
    if compiled.NoKernel? {
      return Unchanged, order;
    }
    if compiled.Undefined? || !Known(g, order, skip, schema) {
      return Broken, order;
    }
    var kernel := compiled.kernel;
    var offsets := CollectOffsets(kernel.names, schema);
    var base, weights, masks := 0, [], [];
    if IsForest(g, root) {
      if !Leafy(g, g[SumNode(g, root)].operands) {
        return Unweighted, order;
      }
      MaskSlots(kernel, g, root);
      base, weights, masks := CollectForest(g, root, kernel.lay);
      LeafyFilled(g, g[SumNode(g, root)].operands);
    }
    var kind := if IsMask(g[root]) then MaskCount else if weights != [] then WeightedCount else PlaneSum;
    out := Ready(Logic(kernel, offsets, kind, base, weights, masks));
    if SkipClosed(g, order, skip) {
      KernelNames(kernel, g, root, order, schema);
    }
  }

  lemma LeafyFilled(g: Graph, ops: seq<nat>)
    requires Closed(g) && Leafy(g, ops)
    ensures ops != []
  {
  }

  /** A listed node other than the root is an operand of a listed node. */
  lemma {:induction false} ParentListed(g: Graph, order: seq<nat>, i: nat, n: nat) returns (p: nat)
    requires Acyclic(g) && Topological(g, order) && i < |order| && n in Reach(g, order[i]) && n != order[i]
    ensures p < |order| && n in Children(g[order[p]])
    decreases i
  {
    hide ReachFirst;
    var id := order[i];
    ReachUnfold(g, id);
    var k := ReachedThrough(g, id, |Children(g[id])|, n);
    if Children(g[id])[k] == n {
      p := i;
    } else {
      ListedChild(g, order, i, k);
      var j :| 0 <= j < i && order[j] == Children(g[id])[k];
      p := ParentListed(g, order, j, n);
    }
  }

  /** What is skipped for a sum of selections between constants reads no field. */
  lemma SkippedReadsNothing(g: Graph, root: nat, id: nat, c: nat)
    requires Valid(g) && root < |g| && id in SkipOf(g, root) && id < |g| && c in Children(g[id])
    requires IsForest(g, root) ==> Leafy(g, g[SumNode(g, root)].operands)
    ensures c < |g| && !g[c].Load?
  {
    assert TypedAt(g, id);
  }

  /** Every field the kernel numbers is loaded by emitted code and so registered. */
  lemma {:induction false} KernelNames(k: Kernel, g: Graph, root: nat, order: seq<nat>, schema: Schema)
    requires root < |g| && Within(g[root], |g|) && !IsLeaf(g[root])
    requires KernelFor(k, g, root, 64, SkipOf(g, root)) && k.order == order && Topological(g, order)
    requires IsForest(g, root) ==> Leafy(g, g[SumNode(g, root)].operands)
    requires SkipClosed(g, order, SkipOf(g, root)) && Known(g, order, SkipOf(g, root), schema)
    requires forall name <- k.names :: name in Names(g, order, |order|)
    ensures forall name <- k.names :: name in schema
  {
    hide Reach, Disjoint, AllEmittable, KernelCode, Names, SkipOf, Leafy, OperandsListed;
    forall name <- k.names ensures name in schema {
      var i := NameSource(g, order, |order|, name);
      assert order[i] in Elements(order);
      var p := ParentListed(g, order, |order| - 1, order[i]);
      LoadIsKnown(g, root, order, p, order[i], schema);
    }
  }

  lemma LoadIsKnown(g: Graph, root: nat, order: seq<nat>, p: nat, id: nat, schema: Schema)
    requires Valid(g) && root < |g| && Topological(g, order) && p < |order| && id in Children(g[order[p]])
    requires id < |g| && g[id].Load? && (IsForest(g, root) ==> Leafy(g, g[SumNode(g, root)].operands))
    requires SkipClosed(g, order, SkipOf(g, root)) && Known(g, order, SkipOf(g, root), schema)
    ensures g[id].name in schema
  {
    hide SkipOf, Leafy, OperandsListed;
    if order[p] in SkipOf(g, root) {
      SkippedReadsNothing(g, root, order[p], id);
    } else {
      assert ReadsEmitted(g, order[p], SkipOf(g, root)) && NodeKnown(g, order[p], schema);
    }
  }

  lemma LeafNotSkipped(g: Graph, root: nat)
    requires Valid(g) && root < |g|
    ensures Closed(g) && Within(g[root], |g|)
    ensures IsLeaf(g[root]) ==> root !in SkipOf(g, root)
    ensures IsForest(g, root) ==> !IsMask(g[root])
  {
  }

  lemma {:induction false} NameSource(g: Graph, order: seq<nat>, k: nat, name: string) returns (i: nat)
    requires k <= |order| && forall i | 0 <= i < |order| :: order[i] < |g|
    requires name in Names(g, order, k)
    ensures i < k && g[order[i]].Load? && g[order[i]].name == name
  {
    if g[order[k - 1]].Load? && g[order[k - 1]].name == name {
      i := k - 1;
    } else {
      i := NameSource(g, order, k - 1, name);
    }
  }

  lemma {:induction false} MaskSlots(kernel: Kernel, g: Graph, root: nat)
    requires root < |g| && Within(g[root], |g|) && KernelFor(kernel, g, root, 64, SkipOf(g, root))
    requires IsForest(g, root) && Leafy(g, g[SumNode(g, root)].operands)
    ensures |kernel.lay| == |g|
    ensures Slotted(g, g[SumNode(g, root)].operands, kernel.lay)
  {
    hide Val, Pow2, KernelCode, Reach, AllEmittable, SkipOf, SumNode;
    var ops := g[SumNode(g, root)].operands;
    forall k | 0 <= k < |ops| ensures kernel.lay[g[ops[k]].cond].slot >= 0 {
      ForestListed(g, kernel.order, root, k);
      var cond := g[ops[k]].cond;
      var j :| 0 <= j < |kernel.order| && kernel.order[j] == cond;
      assert TypedAt(g, ops[k]) && PlacedAlone(g[cond], kernel.lay[cond]);
    }
  }

  /** An expression of at most 128 nodes, all comparisons and logic, can always be installed. */
  lemma {:induction false} LogicInstalls(g: Graph, root: nat, order: seq<nat>)
    requires Valid(g) && root < |g| <= 128 && Topological(g, order) && IsMask(g[root])
    requires forall n <- g :: IsLeaf(n) || IsMask(n)
    ensures |Names(g, order, |order|)| <= MAX_FIELDS
    ensures Needed(Blocks(g, order, |order|), Singles(g, order, |order|)) <= CHUNKS
    ensures SkipOf(g, root) == {} && CarriesSuffice(g, order, {}) && Standalone(g, order, root)
  {
    hide Names, Blocks, Singles, Adders, Needed, CarriesSuffice, OperandsListed;
    forall id: nat | id < |g| ensures !IsAdder(g[id]) && !g[id].Sum? {
      assert g[id] in g;
    }
    SmallCompiles(g, order, {});
    NothingSkipped(g, root);
  }

  /** So can a sum of selections between constants of at most 128 nodes that has no further adder and that nothing else reads. */
  lemma {:induction false} ChoicesInstall(g: Graph, root: nat, s: nat, order: seq<nat>)
    requires Valid(g) && root < |g| <= 128 && Topological(g, order) && SumOfChoices(g, root, s)
    requires ReadByItself(g, order, root, s) && forall id: nat | id < |g| && id != root :: !IsAdder(g[id])
    ensures |Names(g, order, |order|)| <= MAX_FIELDS
    ensures Needed(Blocks(g, order, |order|), Singles(g, order, |order|)) <= CHUNKS
    ensures CarriesSuffice(g, order, SkipOf(g, root)) && Standalone(g, order, root)
  {
    hide Names, Blocks, Singles, Adders, Needed, CarriesSuffice, OperandsListed, SkipClosed, ReadByItself, Standalone;
    ChoicesFound(g, root, s, order);
    SumsFound(g, root, order);
    assert root in SkipOf(g, root);
    SmallCompiles(g, order, SkipOf(g, root));
  }

  lemma NothingSkipped(g: Graph, root: nat)
    requires Valid(g) && root < |g| && IsMask(g[root])
    ensures SkipOf(g, root) == {}
  {
  }

  // --- The plain reading ----------------------------------------------------------------------

  /** Without subtractions a row's value does not depend on where in a block the row lies. */
  lemma {:induction false} RowValuePlain(g: Graph, root: nat, schema: Schema, order: seq<nat>, rows: seq<Cells>, i: nat)
    requires Acyclic(g) && root < |g| && i < |rows|
    requires Topological(g, order) && order != [] && order[|order| - 1] == root && NoSub(g, order)
    ensures RowValue(g, root, schema, rows, i) == Eval(g, root, RowEnv(schema, rows[i]), Pow2(64), 0)
  {
    hide Eval, Pow2, Topological, RowEnv;
    var env := RowEnv(schema, rows[i]);
    EvalAgrees(g, order, |order| - 1, env, env, Pow2(64), Borrow(i % 64), 0);
  }
}
