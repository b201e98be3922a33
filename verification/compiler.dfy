/**
 Compilation of an expression to a bit-sliced kernel: analysis, field numbering, placement, emission.
 */
module Compiler {
  import opened Words
  import opened Ir
  import opened Machine
  import opened Emission
  import opened Emitting
  import opened Correctness
  import opened Analysis
  import opened Allocation

  datatype Kernel = Kernel(code: Code, lay: Layout, order: seq<nat>, names: seq<string>)

  /** No kernel is returned, the emitted code is undefined, or a kernel is available. */
  datatype Outcome = NoKernel | Undefined | Compiled(kernel: Kernel)

  /** The kernel is the code of a sound placement of exactly what the root depends on, the root last. */
  ghost predicate KernelFor(k: Kernel, g: Graph, root: nat, bits: nat, skip: set<nat>) {
    && Valid(g) && root < |g| && bits <= 64 && |k.lay| == |g|
    && Topological(g, k.order) && Elements(k.order) == Reach(g, root)
    && k.order != [] && k.order[|k.order| - 1] == root
    && Disjoint(g, k.lay, k.order)
    && AllEmittable(g, k.lay, k.order, skip)
    && (forall i | 0 <= i < |k.order| && g[k.order[i]].Load? ::
          0 <= k.lay[k.order[i]].field < |k.names| && k.names[k.lay[k.order[i]].field] == g[k.order[i]].name)
    && (forall v, w | 0 <= v < w < |k.names| :: k.names[v] != k.names[w])
    && (root in skip || !IsLeaf(g[root]))
    && (root in skip || k.lay[root].slot >= 0)
    && k.code == KernelCode(g, k.lay, bits, k.order, skip, root)
  }

  /** Field v of the planes handed to a kernel holds, lane by lane, field names[v] of the rows. */
  ghost predicate FieldsMatch(names: seq<string>, fields: seq<Block>, rows: seq<Env>, bits: nat)
    requires |rows| == 64 && bits <= 64
  {
    && |names| <= |fields|
    && forall v, r | 0 <= v < |names| && 0 <= r < 64 ::
         rows[r](names[v]) % Pow2(bits) == Val(Lane(fields[v][..bits], r))
  }

  ghost function SetupOf(k: Kernel, g: Graph, bits: nat, skip: set<nat>, fields: seq<Block>, rows: seq<Env>): Setup {
    Setup(g, k.lay, bits, k.order, skip, fields, rows)
  }

  lemma KernelSetup(k: Kernel, g: Graph, root: nat, bits: nat, skip: set<nat>, fields: seq<Block>, rows: seq<Env>)
    requires KernelFor(k, g, root, bits, skip) && SkipClosed(g, k.order, skip)
    requires |rows| == 64 && FieldsMatch(k.names, fields, rows, bits)
    ensures SetupOk(SetupOf(k, g, bits, skip, fields, rows))
    ensures Member(SetupOf(k, g, bits, skip, fields, rows), root)
  {
    hide Valid, Topological, Disjoint, AllEmittable, SkipClosed, KernelCode, Pow2, Val, Reach;
    var x := SetupOf(k, g, bits, skip, fields, rows);
    forall i | 0 <= i < |k.order| ensures k.order[i] < |g| && Feeds(x, k.order[i]) {
      OrderInRange(g, k.order, i);
    }
    assert k.order[|k.order| - 1] == root;
  }

  lemma OrderInRange(g: Graph, order: seq<nat>, i: nat)
    requires Topological(g, order) && i < |order|
    ensures order[i] < |g|
  {
  }

  /** Running a compiled kernel delivers the row-by-row meaning of its expression. */
  lemma {:induction false} CompiledKernelRuns(k: Kernel, g: Graph, root: nat, bits: nat, skip: set<nat>,
                                              fields: seq<Block>, rows: seq<Env>, regs: Regs, mem: seq<Word>)
    requires KernelFor(k, g, root, bits, skip) && SkipClosed(g, k.order, skip) && !IsLeaf(g[root])
    requires |rows| == 64 && FieldsMatch(k.names, fields, rows, bits) && |mem| >= SLOTS
    ensures SetupOk(SetupOf(k, g, bits, skip, fields, rows))
    ensures Delivers(SetupOf(k, g, bits, skip, fields, rows), root, Exec(k.code, fields, Running(regs, mem)))
  {
    hide Exec, Delivers, SetupOk, KernelCode;
    KernelSetup(k, g, root, bits, skip, fields, rows);
    KernelCorrect(SetupOf(k, g, bits, skip, fields, rows), root, regs, mem);
  }

  /** Every emitted adder is among the first six and so has a carry register. */
  ghost predicate CarriesSuffice(g: Graph, order: seq<nat>, skip: set<nat>)
    requires forall i | 0 <= i < |order| :: order[i] < |g|
  {
    forall i | 0 <= i < |order| && order[i] !in skip && IsAdder(g[order[i]]) :: Adders(g, order, i) < 6
  }

  lemma EmittableListed(g: Graph, idx: map<string, nat>, order: seq<nat>, lay: Layout, i: nat)
    requires Valid(g) && Topological(g, order) && |lay| == |g| && i < |order|
    requires PlacedSoFar(g, idx, order, |order|, lay)
    requires IsAdder(g[order[i]]) ==> Adders(g, order, i) < 6
    ensures Emittable(g, lay, order[i])
  {
    hide Adders, OwnedOnce;
    var id := order[i];
    assert NodePlaced(g, idx, order, i, lay[id]) && OperandsListed(g[id], order, i) && TypedAt(g, id);
    forall c: nat | Listed(order, i, c) ensures c < |g| && Placed(g[c], lay[c]) {
      var j :| 0 <= j < i && order[j] == c;
      assert NodePlaced(g, idx, order, j, lay[c]);
    }
  }

  lemma PlacedIsDisjoint(g: Graph, idx: map<string, nat>, order: seq<nat>, lay: Layout)
    requires |lay| == |g| && forall i | 0 <= i < |order| :: order[i] < |g|
    requires PlacedSoFar(g, idx, order, |order|, lay)
    ensures Disjoint(g, lay, order)
  {
    hide Owns, PlacedAlone;
    forall i | 0 <= i < |order| ensures PlacedAlone(g[order[i]], lay[order[i]]) {
      assert NodePlaced(g, idx, order, i, lay[order[i]]);
    }
  }

  lemma LoadsInRange(g: Graph, idx: map<string, nat>, order: seq<nat>, lay: Layout, names: seq<string>)
    requires |lay| == |g| && forall i | 0 <= i < |order| :: order[i] < |g|
    requires PlacedSoFar(g, idx, order, |order|, lay) && Numbers(names, idx)
    requires forall i | 0 <= i < |order| && g[order[i]].Load? :: g[order[i]].name in idx
    ensures forall i | 0 <= i < |order| && g[order[i]].Load? ::
              0 <= lay[order[i]].field < |names| && names[lay[order[i]].field] == g[order[i]].name
    ensures forall v, w | 0 <= v < w < |names| :: names[v] != names[w]
  {
    hide OwnedOnce, Adders;
    forall i | 0 <= i < |order| && g[order[i]].Load?
      ensures 0 <= lay[order[i]].field < |names| && names[lay[order[i]].field] == g[order[i]].name
    {
      assert NodePlaced(g, idx, order, i, lay[order[i]]);
    }
  }

  lemma {:induction false} NameNumbered(g: Graph, order: seq<nat>, i: nat, k: nat)
    requires i < k <= |order| && forall i | 0 <= i < |order| :: order[i] < |g|
    requires g[order[i]].Load?
    ensures g[order[i]].name in Names(g, order, k)
    decreases k
  {
    if i < k - 1 {
      NameNumbered(g, order, i, k - 1);
    }
  }

  /** An emitted adder beyond the sixth, if there is one. */
  method FindUncarried(g: Graph, order: seq<nat>, skip: set<nat>) returns (found: bool)
    requires forall i | 0 <= i < |order| :: order[i] < |g|
    ensures found == !CarriesSuffice(g, order, skip)
  {
    found := false;
    var adders := 0;
    for k := 0 to |order|
      invariant adders == Adders(g, order, k)
      invariant found <==> exists i :: 0 <= i < k && order[i] !in skip && IsAdder(g[order[i]]) && Adders(g, order, i) >= 6
    {
      if order[k] !in skip && IsAdder(g[order[k]]) && adders >= 6 {
        found := true;
      }
      adders := adders + Bit(IsAdder(g[order[k]]));
    }
  }

  /**
   Compiles `root`. No kernel comes out exactly when more than 128 fields are loaded or the results
   do not fit the scratchpad; what is emitted is undefined exactly when an emitted adder has no carry
   register or an emitted root is a leaf, which owns no scratchpad words.
   */
  method CompileExpression(g: Graph, root: nat, bits: nat, skip: set<nat>) returns (out: Outcome, order: seq<nat>)
    requires Valid(g) && root < |g| && bits <= 64
    ensures Topological(g, order) && Elements(order) == Reach(g, root) && order == Visit(g, root, [])
    ensures out.NoKernel? == (|Names(g, order, |order|)| > MAX_FIELDS
                              || Needed(Blocks(g, order, |order|), Singles(g, order, |order|)) > CHUNKS)
    ensures out.Undefined? == (!out.NoKernel?
                               && (!CarriesSuffice(g, order, skip) || (root !in skip && IsLeaf(g[root]))))
    ensures out.Compiled? ==> out.kernel.order == order && KernelFor(out.kernel, g, root, bits, skip)
    ensures out.Compiled? ==> FirstMaskLow(g, order, |order|, out.kernel.lay)
    ensures out.Compiled? ==> |out.kernel.names| <= MAX_FIELDS
    ensures out.Compiled? ==> forall name <- out.kernel.names :: name in Names(g, order, |order|)
  {
    hide Reach, Visit, Acyclic, Needed, Names, Blocks, Singles, PlacedSoFar, CarriesSuffice, Elements, KernelFor, Numbers,
         AllEmittable, KernelCode, Adders, Listed, FirstMaskLow;
    var analyzer := new ExpressionAnalyzer();
    TopologicalNone(g);
    analyzer.Analyze(g, root);
    order := analyzer.allNodes;
    var ok, names, idx := NumberFields(g, order);
    if !ok {
      return NoKernel, order;
    }
    forall i | 0 <= i < |order| && g[order[i]].Load? ensures g[order[i]].name in idx {
      NameNumbered(g, order, i, |order|);
    }
    var lay;
    ok, lay := PlaceNodes(g, idx, order);
    if !ok {
      return NoKernel, order;
    }
    var uncarried := FindUncarried(g, order, skip);
    if uncarried || (root !in skip && IsLeaf(g[root])) {
      return Undefined, order;
    }
    KernelMade(g, idx, order, lay, names, skip, root, bits);
    var e := new Emitter();
    var code := EmitKernel(e, g, lay, bits, order, skip, root);
    out := Compiled(Kernel(code, lay, order, names));
  }

  lemma KernelMade(g: Graph, idx: map<string, nat>, order: seq<nat>, lay: Layout, names: seq<string>,
                   skip: set<nat>, root: nat, bits: nat)
    requires Valid(g) && Topological(g, order) && |lay| == |g| && root < |g| && bits <= 64 && Elements(order) == Reach(g, root)
    requires PlacedSoFar(g, idx, order, |order|, lay) && Numbers(names, idx)
    requires forall i | 0 <= i < |order| && g[order[i]].Load? :: g[order[i]].name in idx
    requires CarriesSuffice(g, order, skip)
    requires order != [] && order[|order| - 1] == root && (root in skip || !IsLeaf(g[root]))
    ensures AllEmittable(g, lay, order, skip) && (root in skip || lay[root].slot >= 0)
    ensures KernelFor(Kernel(KernelCode(g, lay, bits, order, skip, root), lay, order, names), g, root, bits, skip)
    ensures forall name <- names :: name in idx.Keys
  {
    hide PlacedSoFar, Numbers, Emittable, Disjoint, Acyclic, Adders, CarriesSuffice, Reach, Elements,
         KernelCode, Listed;
    KernelFacts(g, idx, order, lay, names, skip, root);
    NumberedKeys(names, idx);
  }

  lemma NumberedKeys(names: seq<string>, idx: map<string, nat>)
    requires Numbers(names, idx)
    ensures forall name <- names :: name in idx.Keys
  {
  }

  lemma TopologicalNone(g: Graph)
    ensures Topological(g, []) && Elements([]) == {}
  {
  }

  lemma KernelFacts(g: Graph, idx: map<string, nat>, order: seq<nat>, lay: Layout, names: seq<string>,
                    skip: set<nat>, root: nat)
    requires Valid(g) && Topological(g, order) && |lay| == |g| && root < |g|
    requires PlacedSoFar(g, idx, order, |order|, lay) && Numbers(names, idx)
    requires forall i | 0 <= i < |order| && g[order[i]].Load? :: g[order[i]].name in idx
    requires CarriesSuffice(g, order, skip)
    requires order != [] && order[|order| - 1] == root && (root in skip || !IsLeaf(g[root]))
    ensures Disjoint(g, lay, order) && AllEmittable(g, lay, order, skip)
    ensures root in skip || lay[root].slot >= 0
    ensures forall i | 0 <= i < |order| && g[order[i]].Load? ::
              0 <= lay[order[i]].field < |names| && names[lay[order[i]].field] == g[order[i]].name
    ensures forall v, w | 0 <= v < w < |names| :: names[v] != names[w]
  {
    hide PlacedSoFar, Numbers, Emittable, Disjoint, Acyclic, Adders;
    PlacedIsDisjoint(g, idx, order, lay);
    LoadsInRange(g, idx, order, lay, names);
    forall i | 0 <= i < |order| && order[i] !in skip ensures Emittable(g, lay, order[i]) {
      EmittableListed(g, idx, order, lay, i);
    }
    RootPlaced(g, lay, order, |order| - 1);
  }

  lemma RootPlaced(g: Graph, lay: Layout, order: seq<nat>, i: nat)
    requires |lay| == |g| && forall i | 0 <= i < |order| :: order[i] < |g|
    requires Disjoint(g, lay, order) && i < |order|
    ensures IsLeaf(g[order[i]]) || lay[order[i]].slot >= 0
  {
    assert PlacedAlone(g[order[i]], lay[order[i]]);
  }

  method EmitKernel(e: Emitter, g: Graph, lay: Layout, bits: nat, order: seq<nat>, skip: set<nat>,
                    root: nat) returns (code: Code)
    requires e.code == [] && e.CacheNow() == EmptyCache()
    requires AllEmittable(g, lay, order, skip) && bits <= 64
    requires |lay| == |g| && root < |g| && forall i | 0 <= i < |order| :: order[i] < |g|
    requires root in skip || lay[root].slot >= 0
    modifies e
    ensures code == KernelCode(g, lay, bits, order, skip, root)
  {
    hide InitCode, BodyCode, FinalCode, ClearCarries, AllEmittable;
    e.EmitInit(g, lay, order);
    e.EmitBody(g, lay, bits, order, skip);
    e.EmitFinal(g[root], lay[root], root in skip);
    code := e.code;
  }
}
