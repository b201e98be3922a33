/**
 A compiled kernel treats its 64 rows apart: lane r of the answer depends on lane r of the planes only,
 and on nothing that registers or scratchpad held before.
 */
module Independence {
  import opened Words
  import opened Ir
  import opened Machine
  import opened Emission
  import opened Analysis
  import opened Correctness
  import opened Compiler
  import opened Semantics

  ghost function PlaneValues(fields: seq<Block>, bits: nat, r: nat): seq<nat>
    requires r < 64 && bits <= 64
  {
    seq(|fields|, v requires 0 <= v < |fields| => Val(Lane(fields[v][..bits], r)))
  }

  /** The fields that lane r of the planes spells out. */
  ghost function PlaneEnv(names: seq<string>, fields: seq<Block>, bits: nat, r: nat): Env
    requires r < 64 && bits <= 64
  {
    NamedEnv(names, PlaneValues(fields, bits, r))
  }

  ghost function PlaneEnvs(names: seq<string>, fields: seq<Block>, bits: nat): (rows: seq<Env>)
    requires bits <= 64
    ensures |rows| == 64
  {
    seq(64, r requires 0 <= r < 64 => PlaneEnv(names, fields, bits, r))
  }

  lemma {:induction false} PlaneEnvsMatch(names: seq<string>, fields: seq<Block>, bits: nat)
    requires |names| <= |fields| && bits <= 64 && forall v, w | 0 <= v < w < |names| :: names[v] != names[w]
    ensures FieldsMatch(names, fields, PlaneEnvs(names, fields, bits), bits)
  {
    hide Val, Pow2, NamedEnv;
    var rows := PlaneEnvs(names, fields, bits);
    forall v, r | 0 <= v < |names| && 0 <= r < 64 ensures rows[r](names[v]) % Pow2(bits) == Val(Lane(fields[v][..bits], r)) {
      NamedEnvAt(names, PlaneValues(fields, bits, r), v);
      ValBound(Lane(fields[v][..bits], r));
      ModOf(Val(Lane(fields[v][..bits], r)), 0, Pow2(bits));
    }
  }

  /** The two stacks of planes agree in lane r, on every numbered field. */
  ghost predicate SameLane(names: seq<string>, fields: seq<Block>, fields': seq<Block>, bits: nat, r: nat)
    requires r < 64 && bits <= 64
  {
    && |names| <= |fields| && |names| <= |fields'|
    && forall v | 0 <= v < |names| :: Lane(fields[v][..bits], r) == Lane(fields'[v][..bits], r)
  }

  lemma {:induction false} SameLaneFields(k: Kernel, g: Graph, root: nat, bits: nat, skip: set<nat>,
                                          fields: seq<Block>, fields': seq<Block>, r: nat)
    requires KernelFor(k, g, root, bits, skip) && r < 64 && SameLane(k.names, fields, fields', bits, r)
    ensures SameFields(g, k.order, PlaneEnv(k.names, fields, bits, r), PlaneEnv(k.names, fields', bits, r), Pow2(bits))
  {
    hide Val, Pow2, Valid, Disjoint, AllEmittable, Reach, KernelCode, NamedEnv;
    forall i | 0 <= i < |k.order| && g[k.order[i]].Load?
      ensures PlaneEnv(k.names, fields, bits, r)(g[k.order[i]].name) == PlaneEnv(k.names, fields', bits, r)(g[k.order[i]].name)
    {
      NamedEnvAt(k.names, PlaneValues(fields, bits, r), k.lay[k.order[i]].field);
      NamedEnvAt(k.names, PlaneValues(fields', bits, r), k.lay[k.order[i]].field);
    }
  }

  /** Two runs ended well and answer alike in lane r. */
  predicate SameAnswer(g: Graph, root: nat, bits: nat, skip: set<nat>, s: State, s': State, r: nat)
    requires root < |g| && r < 64 && bits <= 64
  {
    && s.Running? && s'.Running? && |s.mem| >= SLOTS && |s'.mem| >= SLOTS
    && s.regs[Result0].Data? && s'.regs[Result0].Data? && s.regs[Result0].w[r] == s'.regs[Result0].w[r]
    && (root !in skip && !IsMask(g[root]) ==> Lane(s.mem[..bits], r) == Lane(s'.mem[..bits], r))
  }

  /** The words of a node agree in lane r. */
  predicate SameWords(n: Node, m: Meta, bits: nat, mem: seq<Word>, mem': seq<Word>, r: nat)
    requires r < 64 && bits <= 64 && |mem| >= SLOTS && |mem'| >= SLOTS && PlacedAlone(n, m)
  {
    IsLeaf(n) ||
    if IsMask(n) then mem[m.slot][r] == mem'[m.slot][r]
    else Lane(mem[m.slot..m.slot + bits], r) == Lane(mem'[m.slot..m.slot + bits], r)
  }

  /**
   Planes that agree in lane r give, from any registers and scratchpads, the same answer in lane r and the
   same lane r of every emitted node's words, also when the root itself is not emitted. Left open is only
   a mask that the copy of a root narrower than 64 planes overwrites, past the planes the root has.
   */
  lemma {:induction false} LaneIndependence(k: Kernel, g: Graph, root: nat, bits: nat, skip: set<nat>,
                                            fields: seq<Block>, fields': seq<Block>, regs: Regs, regs': Regs,
                                            mem: seq<Word>, mem': seq<Word>, r: nat)
    requires KernelFor(k, g, root, bits, skip) && SkipClosed(g, k.order, skip) && !IsLeaf(g[root])
    requires |mem| >= SLOTS && |mem'| >= SLOTS && r < 64 && SameLane(k.names, fields, fields', bits, r)
    ensures var s, s' := Exec(k.code, fields, Running(regs, mem)), Exec(k.code, fields', Running(regs', mem'));
            && SameAnswer(g, root, bits, skip, s, s', r)
            && forall i | 0 <= i < |k.order| && k.order[i] !in skip ::
                 Spared(g, k.lay, skip, root, k.order[i]) || k.lay[k.order[i]].slot < bits ==>
                   SameWords(g[k.order[i]], k.lay[k.order[i]], bits, s.mem, s'.mem, r)
  {
    hide Exec, KernelFor, SkipClosed, SetupOk, Delivers, FieldsMatch, Eval, PlaneEnv, SameLane, SameFields, SameWords,
         Lane, Spared;
    Basics(k, g, root, bits, skip, fields, fields', r);
    var e, e' := PlaneEnvs(k.names, fields, bits), PlaneEnvs(k.names, fields', bits);
    PlaneEnvsMatch(k.names, fields, bits);
    PlaneEnvsMatch(k.names, fields', bits);
    CompiledKernelRuns(k, g, root, bits, skip, fields, e, regs, mem);
    CompiledKernelRuns(k, g, root, bits, skip, fields', e', regs', mem');
    SameLaneFields(k, g, root, bits, skip, fields, fields', r);
    var x, x' := SetupOf(k, g, bits, skip, fields, e), SetupOf(k, g, bits, skip, fields', e');
    var s, s' := Exec(k.code, fields, Running(regs, mem)), Exec(k.code, fields', Running(regs', mem'));
    EvalAgrees(g, k.order, |k.order| - 1, e[r], e'[r], Pow2(bits), Borrow(r), Borrow(r));
    SameDelivery(x, x', root, s, s', r);
    forall i | 0 <= i < |k.order| && k.order[i] !in skip
               && (Spared(g, k.lay, skip, root, k.order[i]) || k.lay[k.order[i]].slot < bits)
      ensures SameWords(g[k.order[i]], k.lay[k.order[i]], bits, s.mem, s'.mem, r)
    {
      EvalAgrees(g, k.order, i, e[r], e'[r], Pow2(bits), Borrow(r), Borrow(r));
      SameNode(x, x', root, s, s', i, r);
    }
  }

  lemma Basics(k: Kernel, g: Graph, root: nat, bits: nat, skip: set<nat>, fields: seq<Block>, fields': seq<Block>, r: nat)
    requires KernelFor(k, g, root, bits, skip) && r < 64 && SameLane(k.names, fields, fields', bits, r)
    ensures bits <= 64 && Acyclic(g) && Topological(g, k.order) && k.order != [] && k.order[|k.order| - 1] == root
    ensures |k.lay| == |g| && Disjoint(g, k.lay, k.order)
    ensures |k.names| <= |fields| && |k.names| <= |fields'|
    ensures forall v, w | 0 <= v < w < |k.names| :: k.names[v] != k.names[w]
  {
    hide Disjoint, AllEmittable, Reach, KernelCode;
  }

  lemma {:induction false} SameDelivery(x: Setup, x': Setup, root: nat, s: State, s': State, r: nat)
    requires SetupOk(x) && SetupOk(x') && x.g == x'.g && x.bits == x'.bits && x.skip == x'.skip
    requires root < |x.g| && r < 64 && Delivers(x, root, s) && Delivers(x', root, s')
    requires Meaning(x, root, r) == Meaning(x', root, r)
    ensures x.bits <= 64 && SameAnswer(x.g, root, x.bits, x.skip, s, s', r)
  {
    hide SetupOk, Val, Meaning, AllHold;
    SetupShape(x);
    if root !in x.skip && !IsMask(x.g[root]) {
      ValInjective(Lane(s.mem[..x.bits], r), Lane(s'.mem[..x.bits], r));
    }
  }

  /** The words of an emitted node, spared by the root's copy or overwritten by it, agree. */
  lemma {:induction false} SameNode(x: Setup, x': Setup, root: nat, s: State, s': State, i: nat, r: nat)
    requires SetupOk(x) && SetupOk(x') && x.g == x'.g && x.bits == x'.bits && x.skip == x'.skip
    requires x.lay == x'.lay && x.order == x'.order
    requires root < |x.g| && r < 64 && Delivers(x, root, s) && Delivers(x', root, s')
    requires i < |x.order| && x.order[i] !in x.skip && x.order[i] < |x.g|
    requires |x.lay| == |x.g| && PlacedAlone(x.g[x.order[i]], x.lay[x.order[i]])
    requires Spared(x.g, x.lay, x.skip, root, x.order[i]) || x.lay[x.order[i]].slot < x.bits
    requires Meaning(x, x.order[i], r) == Meaning(x', x.order[i], r) && Meaning(x, root, r) == Meaning(x', root, r)
    ensures x.bits <= 64 && SameWords(x.g[x.order[i]], x.lay[x.order[i]], x.bits, s.mem, s'.mem, r)
  {
    hide SetupOk, Val, Meaning, Holds;
    SetupShape(x);
    SetupShape(x');
    var id := x.order[i];
    if Spared(x.g, x.lay, x.skip, root, id) {
      SameHeld(x, x', id, s.mem, s'.mem, r);
    } else {
      var a, b := Lane(s.mem[..x.bits], r), Lane(s'.mem[..x.bits], r);
      ValInjective(a, b);
      if IsMask(x.g[id]) {
        assert s.mem[x.lay[id].slot][r] == a[x.lay[id].slot] && s'.mem[x.lay[id].slot][r] == b[x.lay[id].slot];
      } else {
        assert s.mem[0..x.bits] == s.mem[..x.bits] && s'.mem[0..x.bits] == s'.mem[..x.bits];
      }
    }
  }

  lemma {:induction false} SameHeld(x: Setup, x': Setup, id: nat, mem: seq<Word>, mem': seq<Word>, r: nat)
    requires SetupOk(x) && SetupOk(x') && x.g == x'.g && x.bits == x'.bits && x.lay == x'.lay
    requires id < |x.g| && r < 64 && PlacedAlone(x.g[id], x.lay[id]) && |mem| >= SLOTS && |mem'| >= SLOTS
    requires Holds(x, id, mem) && Holds(x', id, mem') && Meaning(x, id, r) == Meaning(x', id, r)
    ensures x.bits <= 64 && SameWords(x.g[id], x.lay[id], x.bits, mem, mem', r)
  {
    hide SetupOk, Val, Meaning;
    SetupShape(x);
    SetupShape(x');
    if !IsLeaf(x.g[id]) && !IsMask(x.g[id]) {
      var at := x.lay[id].slot;
      ValInjective(Lane(mem[at..at + x.bits], r), Lane(mem'[at..at + x.bits], r));
    }
  }
}
