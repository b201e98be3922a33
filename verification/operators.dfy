/**
 What compiled code answers, operator by operator and in the operators of arithmetic, and the five
 relations between two fields, compiled by both backends.
 */
module Operators {
  import opened Words
  import opened Ir
  import opened Machine
  import opened Emission
  import opened Correctness
  import opened Analysis
  import opened Allocation
  import opened Compiler
  import opened Bounds
  import opened Backends
  import S = Scalar

  // --- One operator at the root ---------------------------------------------------------------

  /** The value of a node in lane r, with the borrow of that lane. */
  ghost function In(g: Graph, id: nat, rows: seq<Env>, bits: nat, r: nat): nat
    requires Acyclic(g) && id < |g| && r < |rows|
  {
    Eval(g, id, rows[r], Pow2(bits), if r == 0 then 0 else 1)
  }

  /** A compared pair, whatever computes its two numbers. */
  lemma {:induction false} RelationRoot(k: Kernel, g: Graph, root: nat, bits: nat, skip: set<nat>, fields: seq<Block>,
                                        rows: seq<Env>, regs: Regs, mem: seq<Word>, r: nat)
    requires KernelFor(k, g, root, bits, skip) && SkipClosed(g, k.order, skip) && root !in skip && g[root].Compare?
    requires |rows| == 64 && FieldsMatch(k.names, fields, rows, bits) && |mem| >= SLOTS && r < 64
    ensures Acyclic(g) && g[root].left < |g| && g[root].right < |g|
    ensures var s := Exec(k.code, fields, Running(regs, mem));
            s.Running? && s.regs[Result0].Data? &&
            var x, y := In(g, g[root].left, rows, bits, r), In(g, g[root].right, rows, bits, r);
            match g[root].rel
            case GT => s.regs[Result0].w[r] <==> x > y
            case LT => s.regs[Result0].w[r] <==> x < y
            case GE => s.regs[Result0].w[r] <==> x >= y
            case LE => s.regs[Result0].w[r] <==> x <= y
            case EQ => s.regs[Result0].w[r] <==> x == y
  {
    hide Exec, SkipClosed, FieldsMatch, Pow2, Disjoint, AllEmittable, SetupOk, KernelCode, Reach, Topological;
    CompiledKernelRuns(k, g, root, bits, skip, fields, rows, regs, mem);
  }

  /** Two masks combined, or one negated. */
  lemma {:induction false} LogicRoot(k: Kernel, g: Graph, root: nat, bits: nat, skip: set<nat>, fields: seq<Block>,
                                     rows: seq<Env>, regs: Regs, mem: seq<Word>, r: nat)
    requires KernelFor(k, g, root, bits, skip) && SkipClosed(g, k.order, skip) && root !in skip
    requires g[root].And? || g[root].Or? || g[root].Not?
    requires |rows| == 64 && FieldsMatch(k.names, fields, rows, bits) && |mem| >= SLOTS && r < 64
    ensures Acyclic(g) && Within(g[root], |g|)
    ensures var s := Exec(k.code, fields, Running(regs, mem));
            && s.Running? && s.regs[Result0].Data?
            && match g[root]
               case And(a, b) => s.regs[Result0].w[r] <==> In(g, a, rows, bits, r) != 0 && In(g, b, rows, bits, r) != 0
               case Or(a, b) => s.regs[Result0].w[r] <==> In(g, a, rows, bits, r) != 0 || In(g, b, rows, bits, r) != 0
               case Not(a) => s.regs[Result0].w[r] <==> In(g, a, rows, bits, r) == 0
  {
    hide Exec, SkipClosed, FieldsMatch, Pow2, Disjoint, AllEmittable, SetupOk, KernelCode, Reach, Topological;
    CompiledKernelRuns(k, g, root, bits, skip, fields, rows, regs, mem);
  }

  /** A sum, a difference, one short in every lane but the first, or a choice, read off words 0 to bits. */
  lemma {:induction false} NumberRoot(k: Kernel, g: Graph, root: nat, bits: nat, skip: set<nat>, fields: seq<Block>,
                                      rows: seq<Env>, regs: Regs, mem: seq<Word>, r: nat)
    requires KernelFor(k, g, root, bits, skip) && SkipClosed(g, k.order, skip) && root !in skip
    requires g[root].Add? || g[root].Sub? || g[root].Select?
    requires |rows| == 64 && FieldsMatch(k.names, fields, rows, bits) && |mem| >= SLOTS && r < 64
    ensures Acyclic(g) && Within(g[root], |g|) && bits <= 64 && Pow2(bits) > 0
    ensures var s := Exec(k.code, fields, Running(regs, mem));
            && s.Running? && |s.mem| >= SLOTS
            && match g[root]
               case Add(a, b) =>
                 Val(Lane(s.mem[..bits], r)) == (In(g, a, rows, bits, r) + In(g, b, rows, bits, r)) % Pow2(bits)
               case Sub(a, b) =>
                 Val(Lane(s.mem[..bits], r))
                 == (In(g, a, rows, bits, r) - In(g, b, rows, bits, r) - (if r == 0 then 0 else 1)) % Pow2(bits)
               case Select(c, a, b) =>
                 Val(Lane(s.mem[..bits], r))
                 == if In(g, c, rows, bits, r) != 0 then In(g, a, rows, bits, r) else In(g, b, rows, bits, r)
  {
    hide Exec, SkipClosed, FieldsMatch, Pow2, Disjoint, AllEmittable, SetupOk, KernelCode, Reach, Topological, Val;
    CompiledKernelRuns(k, g, root, bits, skip, fields, rows, regs, mem);
  }

  /** The leaves: a field of the row, or a constant. */
  lemma {:induction false} LeafValues(g: Graph, id: nat, rows: seq<Env>, bits: nat, r: nat)
    requires Acyclic(g) && id < |g| && r < |rows|
    ensures g[id].Load? && rows[r](g[id].name) < Pow2(bits) ==> In(g, id, rows, bits, r) == rows[r](g[id].name)
    ensures g[id].Const? && Val(g[id].value) < Pow2(bits) ==> In(g, id, rows, bits, r) == Val(g[id].value)
  {
    hide Pow2, Val;
    if g[id].Load? && rows[r](g[id].name) < Pow2(bits) {
      ModOf(rows[r](g[id].name), 0, Pow2(bits));
    }
    if g[id].Const? && Val(g[id].value) < Pow2(bits) {
      ModOf(Val(g[id].value), 0, Pow2(bits));
    }
  }

  // --- Two fields compared --------------------------------------------------------------------

  const COMPARED: nat := 2

  function Compared(rel: Relation): Graph {
    [Load("a"), Load("b"), Compare(rel, 0, 1)]
  }

  lemma ComparedValid(rel: Relation)
    ensures Valid(Compared(rel)) && Acyclic(Compared(rel)) && |Compared(rel)| == 3
  {
    assert Ranked(Compared(rel), [0, 0, 1]);
    forall i | 0 <= i < 3 ensures TypedAt(Compared(rel), i) {
    }
  }

  lemma ComparedPlain(rel: Relation, order: seq<nat>)
    requires Topological(Compared(rel), order)
    ensures Closed(Compared(rel)) && SkipClosed(Compared(rel), order, {}) && S.Direct(Compared(rel), order, |order|)
  {
    hide OperandsListed;
  }

  /** Every relation between two fields compiles, for planes and for rows. */
  method CompileCompared(rel: Relation) returns (k: Kernel, scalar: ScalarKernel)
    ensures KernelFor(k, Compared(rel), COMPARED, 64, {}) && ScalarFor(scalar, Compared(rel), COMPARED)
  {
    hide KernelFor, ScalarFor, FirstMaskLow, CarriesSuffice, Names, Blocks, Singles, Needed, Reach, Visit, Elements, Topological,
         Inner;
    ComparedValid(rel);
    var out, order := CompileExpression(Compared(rel), COMPARED, 64, {});
    SmallCompiles(Compared(rel), order, {});
    k := out.kernel;
    var out', order' := CompileScalar(Compared(rel), COMPARED);
    FewInner(rel, order');
    scalar := out'.kernel;
  }

  lemma {:induction false} FewInner(rel: Relation, order: seq<nat>)
    requires Topological(Compared(rel), order)
    ensures Inner(Compared(rel), order, |order|) <= 3
  {
    hide Inner, OperandsListed;
    AtMost(order, 3);
    InnerBounded(Compared(rel), order, |order|);
  }

  /** x and y stand in the relation, in the operators of arithmetic. */
  predicate Related(rel: Relation, x: int, y: int) {
    && (rel.GT? ==> x > y) && (rel.LT? ==> x < y)
    && (rel.GE? ==> x >= y) && (rel.LE? ==> x <= y) && (rel.EQ? ==> x == y)
  }

  /** Planes or rows, from any registers and any scratchpad, bit r says how a and b stand in row r. */
  lemma {:induction false} FieldsCompared(rel: Relation, k: Kernel, scalar: ScalarKernel, planes: seq<Block>, cols: seq<Block>,
                                          rows: seq<Env>, regs: Regs, mem: seq<Word>, s: S.State, r: nat)
    requires KernelFor(k, Compared(rel), COMPARED, 64, {}) && ScalarFor(scalar, Compared(rel), COMPARED)
    requires |rows| == 64 && FieldsMatch(k.names, planes, rows, 64) && ColumnsMatch(scalar.names, cols, rows)
    requires |mem| >= SLOTS && s.Running? && |s.mem| >= SLOTS
    requires r < 64 && rows[r]("a") < Pow2(64) && rows[r]("b") < Pow2(64)
    ensures var s' := Exec(k.code, planes, Running(regs, mem));
            s'.Running? && s'.regs[Result0].Data? && (s'.regs[Result0].w[r] <==> Related(rel, rows[r]("a"), rows[r]("b")))
    ensures RowLoop(scalar.code, cols, 0, Zero(), s).1[r] <==> Related(rel, rows[r]("a"), rows[r]("b"))
  {
    hide Exec, KernelFor, ScalarFor, FieldsMatch, ColumnsMatch, RowLoop, SkipClosed, Pow2, Topological, S.Direct, MaskKernel,
         RunOf;
    var g := Compared(rel);
    ComparedValid(rel);
    KernelOrder(k, g, COMPARED);
    ComparedPlain(rel, k.order);
    RelationRoot(k, g, COMPARED, 64, {}, planes, rows, regs, mem, r);
    LeafValues(g, 0, rows, 64, r);
    LeafValues(g, 1, rows, 64, r);
    RowFacts(scalar, g, COMPARED);
    ComparedPlain(rel, scalar.order);
    DirectMask(scalar, g, COMPARED);
    ScalarLoopCorrect(scalar, g, COMPARED, cols, rows, s);
    ModOf(rows[r]("a"), 0, Pow2(64));
    ModOf(rows[r]("b"), 0, Pow2(64));
  }

  lemma KernelOrder(k: Kernel, g: Graph, root: nat)
    requires KernelFor(k, g, root, 64, {})
    ensures Topological(g, k.order)
  {
    hide Topological, Disjoint, AllEmittable, KernelCode, Reach;
  }
}
