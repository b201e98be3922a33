/**
 Which fields the emitted code reads: exactly the fields that are operands of emitted nodes.
 */
module Loads {
  import opened Words
  import opened Ir
  import opened Machine
  import opened Emission
  import opened Correctness
  import opened Analysis
  import opened Compiler
  import opened Engine

  /** The code takes the planes of field f. */
  predicate Reads(code: Code, f: nat) {
    exists i :: 0 <= i < |code| && code[i].LdrField? && code[i].f == f
  }

  lemma ReadsConcat(p: Code, q: Code, f: nat)
    ensures Reads(p + q, f) <==> Reads(p, f) || Reads(q, f)
  {
    if i :| 0 <= i < |p| && p[i].LdrField? && p[i].f == f {
      assert (p + q)[i] == p[i];
    }
    if i :| 0 <= i < |q| && q[i].LdrField? && q[i].f == f {
      assert (p + q)[|p| + i] == q[i];
    }
  }

  predicate Denotes(o: Operand, f: nat) {
    o.Field? && o.f == f
  }

  lemma HoistReads(o: Operand, d: Reg, f: nat)
    ensures Reads(Hoist(o, d), f) <==> Denotes(o, f)
  {
    assert o.Field? ==> Hoist(o, d)[0] == LdrField(d, o.f);
  }

  lemma CacheReads(c: Cache, slot: nat, v: Reg, f: nat)
    requires CacheOk(c)
    ensures !Reads(StoreSlot(c, slot, v).0, f) && !Reads(LoadSlot(c, slot, v).0, f)
  {
  }

  lemma {:induction false} HoistsRead(l: Operand, r: Operand, f: nat)
    ensures Reads(Hoist(l, HoistL) + Hoist(r, HoistR), f) <==> Denotes(l, f) || Denotes(r, f)
  {
    hide Hoist, Reads;
    ReadsConcat(Hoist(l, HoistL), Hoist(r, HoistR), f);
    HoistReads(l, HoistL, f);
    HoistReads(r, HoistR, f);
  }

  // --- Nodes ----------------------------------------------------------------------------------

  lemma {:induction false} AddBitsRead(l: Operand, r: Operand, sub: bool, carry: Reg, bit: nat, bits: nat, f: nat)
    requires bit <= bits <= 64
    ensures !Reads(AddBits(l, r, sub, carry, bit, bits), f)
    decreases bits - bit
  {
    hide AddBit, Reads;
    if bit == bits {
      NothingReads(f);
    } else {
      AddBitReads(l, r, sub, carry, bit, f);
      AddBitsRead(l, r, sub, carry, bit + 1, bits, f);
      ReadsConcat(AddBit(l, r, sub, carry, bit), AddBits(l, r, sub, carry, bit + 1, bits), f);
    }
  }

  lemma NothingReads(f: nat)
    ensures !Reads([], f)
  {
  }

  lemma AddBitReads(l: Operand, r: Operand, sub: bool, carry: Reg, bit: nat, f: nat)
    requires bit < 64
    ensures !Reads(AddBit(l, r, sub, carry, bit), f)
  {
  }

  lemma {:induction false} AddReads(l: Operand, r: Operand, sub: bool, carry: Reg, slot: nat, bits: nat, f: nat)
    requires bits <= 64
    ensures Reads(AddCode(l, r, sub, carry, slot, bits), f) <==> Denotes(l, f) || Denotes(r, f)
  {
    hide Hoist, Reads, AddBits;
    var p0, p1 := [MovImm(carry, if sub then One() else Zero())], Hoist(l, HoistL) + Hoist(r, HoistR);
    var p2, p3 := [MovOff(TempPtr, slot), AddBase(TempPtr)], AddBits(l, r, sub, carry, 0, bits);
    ReadsConcat(p0 + p1 + p2, p3, f);
    ReadsConcat(p0 + p1, p2, f);
    ReadsConcat(p0, p1, f);
    AddEntryReads(sub, carry, slot, f);
    HoistsRead(l, r, f);
    AddBitsRead(l, r, sub, carry, 0, bits, f);
  }

  lemma AddEntryReads(sub: bool, carry: Reg, slot: nat, f: nat)
    ensures !Reads([MovImm(carry, if sub then One() else Zero())], f)
    ensures !Reads([MovOff(TempPtr, slot), AddBase(TempPtr)], f)
  {
  }

  lemma {:induction false} CompareBitsRead(l: Operand, r: Operand, rel: Relation, bits: nat, f: nat)
    requires bits <= 64
    ensures !Reads(CompareBits(l, r, rel, bits), f)
  {
    hide CompareBit, Reads;
    if bits == 0 {
      NothingReads(f);
    } else {
      CompareBitReads(l, r, rel, bits - 1, f);
      CompareBitsRead(l, r, rel, bits - 1, f);
      ReadsConcat(CompareBit(l, r, rel, bits - 1), CompareBits(l, r, rel, bits - 1), f);
    }
  }

  lemma CompareBitReads(l: Operand, r: Operand, rel: Relation, bit: nat, f: nat)
    requires bit < 64
    ensures !Reads(CompareBit(l, r, rel, bit), f)
  {
  }

  lemma {:induction false} LogicReads(op: Instr, left: nat, right: nat, slot: nat, c: Cache, f: nat)
    requires CacheOk(c) && !op.LdrField?
    ensures !Reads(LogicCode(op, left, right, slot, c).0, f)
  {
    hide Reads, LoadSlot, StoreSlot;
    var (p1, c1) := LoadSlot(c, left, PlaneA);
    var (p2, c2) := LoadSlot(c1, right, PlaneB);
    var (p3, c3) := StoreSlot(c2, slot, Result);
    CacheReads(c, left, PlaneA, f);
    CacheReads(c1, right, PlaneB, f);
    CacheReads(c2, slot, Result, f);
    ReadsConcat(p1 + p2 + [op], p3, f);
    ReadsConcat(p1 + p2, [op], f);
    ReadsConcat(p1, p2, f);
    OneReads(op, f);
  }

  lemma OneReads(op: Instr, f: nat)
    ensures Reads([op], f) <==> op.LdrField? && op.f == f
  {
    assert [op][0] == op;
  }

  lemma {:induction false} NotReads(left: nat, slot: nat, c: Cache, f: nat)
    requires CacheOk(c)
    ensures !Reads(NotCode(left, slot, c).0, f)
  {
    hide Reads, LoadSlot, StoreSlot;
    var (p1, c1) := LoadSlot(c, left, PlaneA);
    var (p2, c2) := StoreSlot(c1, slot, Result);
    CacheReads(c, left, PlaneA, f);
    CacheReads(c1, slot, Result, f);
    ReadsConcat(p1 + [Mvn(Result, PlaneA)], p2, f);
    ReadsConcat(p1, [Mvn(Result, PlaneA)], f);
    OneReads(Mvn(Result, PlaneA), f);
  }

  lemma {:induction false} ScanReads(l: Operand, r: Operand, rel: Relation, slot: nat, eqSlot: nat, bits: nat, c: Cache, f: nat)
    requires CacheOk(c) && bits <= 64
    ensures Reads(ScanCode(l, r, rel, slot, eqSlot, bits, c).0, f) <==> Denotes(l, f) || Denotes(r, f)
  {
    hide Reads, LoadSlot, Hoist, CompareBits;
    var (p1, c1) := LoadSlot(c, eqSlot, MaskEq);
    var (p2, c2) := LoadSlot(c1, slot, MaskGt);
    var h, p3 := Hoist(l, HoistL) + Hoist(r, HoistR), CompareBits(l, r, rel, bits);
    CacheReads(c, eqSlot, MaskEq, f);
    CacheReads(c1, slot, MaskGt, f);
    ReadsConcat(p1 + p2, h + p3, f);
    ReadsConcat(p1, p2, f);
    ReadsConcat(h, p3, f);
    HoistsRead(l, r, f);
    CompareBitsRead(l, r, rel, bits, f);
  }

  lemma {:induction false} SettleReads(rel: Relation, slot: nat, eqSlot: nat, c: Cache, f: nat)
    requires CacheOk(c)
    ensures !Reads(SettleCode(rel, slot, eqSlot, c).0, f)
  {
    hide Reads, StoreSlot, LogicCode;
    var (p1, c1) := StoreSlot(c, slot, MaskGt);
    var (p2, c2) := StoreSlot(c1, eqSlot, MaskEq);
    var (p3, c3) := MergeEqual(rel, slot, eqSlot, c2);
    CacheReads(c, slot, MaskGt, f);
    CacheReads(c1, eqSlot, MaskEq, f);
    ReadsConcat(p1 + p2, p3, f);
    ReadsConcat(p1, p2, f);
    NothingReads(f);
    LogicReads(Mov(Result, PlaneB), slot, eqSlot, slot, c2, f);
    LogicReads(Orr(Result, PlaneA, PlaneB), slot, eqSlot, slot, c2, f);
  }

  lemma {:induction false} CompareReads(l: Operand, r: Operand, rel: Relation, slot: nat, eqSlot: nat, bits: nat, c: Cache, f: nat)
    requires CacheOk(c) && bits <= 64
    ensures Reads(CompareCode(l, r, rel, slot, eqSlot, bits, c).0, f) <==> Denotes(l, f) || Denotes(r, f)
  {
    hide Reads, ScanCode, SettleCode;
    var (p1, c1) := ScanCode(l, r, rel, slot, eqSlot, bits, c);
    ScanReads(l, r, rel, slot, eqSlot, bits, c, f);
    SettleReads(rel, slot, eqSlot, c1, f);
    ReadsConcat(p1, SettleCode(rel, slot, eqSlot, c1).0, f);
  }

  lemma IndexedReads(o: Operand, d: Reg, f: nat)
    ensures Reads(LoadIndexed(o, d), f) <==> Denotes(o, f)
  {
    assert o.Field? ==> LoadIndexed(o, d)[0] == LdrField(TempPtr, o.f);
  }

  lemma MuxReads(slot: nat, f: nat)
    ensures !Reads([AndR(Scratch1, MaskGt, PlaneA), Bic(TempPtr, PlaneB, MaskGt), Orr(Scratch1, Scratch1, TempPtr)], f)
    ensures !Reads([MovOff(TempPtr, slot), StrScratch(Scratch1, TempPtr)], f)
  {
  }

  lemma {:induction false} SelectBitReads(l: Operand, r: Operand, slot: nat, bit: nat, f: nat)
    ensures Reads(SelectBit(l, r, slot, bit), f) <==> Denotes(l, f) || Denotes(r, f)
  {
    hide Reads, LoadIndexed;
    var p0, p1, p2 := [MovOff(BitIndex, bit)], LoadIndexed(l, PlaneA), LoadIndexed(r, PlaneB);
    var p3 := [AndR(Scratch1, MaskGt, PlaneA), Bic(TempPtr, PlaneB, MaskGt), Orr(Scratch1, Scratch1, TempPtr)];
    ReadsConcat(p0 + p1 + p2 + p3, [MovOff(TempPtr, slot + bit), StrScratch(Scratch1, TempPtr)], f);
    ReadsConcat(p0 + p1 + p2, p3, f);
    ReadsConcat(p0 + p1, p2, f);
    ReadsConcat(p0, p1, f);
    OneReads(MovOff(BitIndex, bit), f);
    IndexedReads(l, PlaneA, f);
    IndexedReads(r, PlaneB, f);
    MuxReads(slot + bit, f);
  }

  lemma {:induction false} SelectBitsRead(l: Operand, r: Operand, slot: nat, bit: nat, bits: nat, f: nat)
    requires bit <= bits
    ensures Reads(SelectBits(l, r, slot, bit, bits), f) <==> bit < bits && (Denotes(l, f) || Denotes(r, f))
    decreases bits - bit
  {
    hide Reads, SelectBit;
    if bit == bits {
      NothingReads(f);
    } else {
      SelectBitReads(l, r, slot, bit, f);
      SelectBitsRead(l, r, slot, bit + 1, bits, f);
      ReadsConcat(SelectBit(l, r, slot, bit), SelectBits(l, r, slot, bit + 1, bits), f);
    }
  }

  lemma {:induction false} SelectReads(l: Operand, r: Operand, cond: nat, slot: nat, bits: nat, c: Cache, f: nat)
    requires CacheOk(c) && bits > 0
    ensures Reads(SelectCode(l, r, cond, slot, bits, c).0, f) <==> Denotes(l, f) || Denotes(r, f)
  {
    hide Reads, LoadSlot, SelectBits;
    CacheReads(c, cond, MaskGt, f);
    SelectBitsRead(l, r, slot, 0, bits, f);
    ReadsConcat(LoadSlot(c, cond, MaskGt).0, SelectBits(l, r, slot, 0, bits), f);
  }

  /** Node `id` is emitted with field f as an operand; a SUM has no code. */
  predicate Takes(g: Graph, lay: Layout, id: nat, f: nat)
    requires id < |g| == |lay|
  {
    !g[id].Sum? && exists c :: c in Children(g[id]) && c < |g| && g[c].Load? && lay[c].field == f
  }

  lemma OperandNames(n: Node, m: Meta, f: nat)
    requires Placed(n, m)
    ensures Denotes(OperandOf(n, m), f) <==> n.Load? && m.field == f
  {
  }

  lemma {:induction false} NodeReads(g: Graph, lay: Layout, bits: nat, id: nat, c: Cache, f: nat)
    requires Emittable(g, lay, id) && CacheOk(c) && 0 < bits <= 64
    ensures Reads(NodeCode(g, lay, bits, id, c).0, f) <==> Takes(g, lay, id, f)
  {
    hide Reads, AddCode, CompareCode, LogicCode, NotCode, SelectCode, OperandOf;
    NothingReads(f);
    match g[id]
    case Load(_) =>
    case Const(_) =>
    case Sum(_) =>
    case Add(l, r) => PairReads(g, lay, bits, id, c, f);
    case Sub(l, r) => PairReads(g, lay, bits, id, c, f);
    case Compare(rel, l, r) => PairReads(g, lay, bits, id, c, f);
    case And(l, r) => LogicReads(AndR(Result, PlaneA, PlaneB), lay[l].slot, lay[r].slot, lay[id].slot, c, f);
    case Or(l, r) => LogicReads(Orr(Result, PlaneA, PlaneB), lay[l].slot, lay[r].slot, lay[id].slot, c, f);
    case Not(l) => NotReads(lay[l].slot, lay[id].slot, c, f);
    case Select(cond, l, r) => PairReads(g, lay, bits, id, c, f);
  }

  /** Nodes that read the planes of two operands. */
  lemma {:induction false} PairReads(g: Graph, lay: Layout, bits: nat, id: nat, c: Cache, f: nat)
    requires Emittable(g, lay, id) && CacheOk(c) && 0 < bits <= 64
    requires IsAdder(g[id]) || g[id].Compare? || g[id].Select?
    ensures Reads(NodeCode(g, lay, bits, id, c).0, f) <==> Takes(g, lay, id, f)
  {
    hide Reads, AddCode, CompareCode, LogicCode, NotCode, SelectCode, OperandOf;
    var l, r := g[id].left, g[id].right;
    var ol, or := OperandOf(g[l], lay[l]), OperandOf(g[r], lay[r]);
    OperandNames(g[l], lay[l], f);
    OperandNames(g[r], lay[r], f);
    assert l in Children(g[id]) && r in Children(g[id]);
    if IsAdder(g[id]) {
      AddReads(ol, or, g[id].Sub?, CarryBase + lay[id].carry, lay[id].slot, bits, f);
    } else if g[id].Compare? {
      CompareReads(ol, or, g[id].rel, lay[id].slot, lay[id].eqSlot, bits, c, f);
    } else {
      SelectReads(ol, or, lay[g[id].cond].slot, lay[id].slot, bits, c, f);
    }
  }

  // --- Whole kernels --------------------------------------------------------------------------

  lemma {:induction false} BodyReads(g: Graph, lay: Layout, bits: nat, order: seq<nat>, skip: set<nat>, c: Cache, f: nat)
    requires AllEmittable(g, lay, order, skip) && CacheOk(c) && 0 < bits <= 64 && |lay| == |g|
    requires forall i | 0 <= i < |order| :: order[i] < |g|
    ensures Reads(BodyCode(g, lay, bits, order, skip, c), f)
            <==> exists i :: 0 <= i < |order| && order[i] !in skip && Takes(g, lay, order[i], f)
    decreases |order|
  {
    hide Reads, NodeCode, Takes, Emittable;
    if order == [] {
      NothingReads(f);
    } else {
      var rest := order[1..];
      assert forall i | 0 <= i < |rest| :: rest[i] == order[i + 1];
      assert forall i | 1 <= i < |order| :: order[i] == rest[i - 1];
      if order[0] in skip {
        BodyReads(g, lay, bits, rest, skip, c, f);
      } else {
        var (p, c') := NodeCode(g, lay, bits, order[0], c);
        NodeReads(g, lay, bits, order[0], c, f);
        BodyReads(g, lay, bits, rest, skip, c', f);
        ReadsConcat(p, BodyCode(g, lay, bits, rest, skip, c'), f);
      }
    }
  }

  lemma InitNodeReads(n: Node, m: Meta, f: nat)
    ensures !Reads(InitNode(n, m), f)
  {
  }

  lemma {:induction false} InitReads(g: Graph, lay: Layout, order: seq<nat>, f: nat)
    requires |lay| == |g| && forall i | 0 <= i < |order| :: order[i] < |g|
    ensures !Reads(InitCode(g, lay, order), f)
    decreases |order|
  {
    hide Reads, InitNode;
    if order == [] {
      NothingReads(f);
    } else {
      InitNodeReads(g[order[0]], lay[order[0]], f);
      InitReads(g, lay, order[1..], f);
      ReadsConcat(InitNode(g[order[0]], lay[order[0]]), InitCode(g, lay, order[1..]), f);
    }
  }

  lemma {:induction false} ClearReads(k: nat, f: nat)
    requires k <= 6
    ensures !Reads(ClearCarries(k), f)
    decreases 6 - k
  {
    hide Reads;
    if k == 6 {
      NothingReads(f);
    } else {
      OneReads(MovImm(CarryBase + k, Zero()), f);
      ClearReads(k + 1, f);
      ReadsConcat([MovImm(CarryBase + k, Zero())], ClearCarries(k + 1), f);
    }
  }

  lemma CopyStepReads(i: nat, f: nat)
    ensures !Reads([LdrScratch(Result, TempPtr), StrWord(Result, i), AddOff(TempPtr, 1)], f)
  {
  }

  lemma {:induction false} CopyReads(i: nat, f: nat)
    requires i <= 64
    ensures !Reads(CopyOut(i), f)
    decreases 64 - i
  {
    hide Reads;
    if i == 64 {
      NothingReads(f);
    } else {
      CopyStepReads(i, f);
      CopyReads(i + 1, f);
      ReadsConcat([LdrScratch(Result, TempPtr), StrWord(Result, i), AddOff(TempPtr, 1)], CopyOut(i + 1), f);
    }
  }

  lemma MaskFinalReads(slot: nat, f: nat)
    ensures !Reads([MovOff(TempPtr, slot), LdrScratch(Result0, TempPtr)], f)
  {
  }

  lemma {:induction false} FinalReads(n: Node, m: Meta, skipped: bool, f: nat)
    requires skipped || m.slot >= 0
    ensures !Reads(FinalCode(n, m, skipped), f)
  {
    hide Reads, CopyOut;
    OneReads(MovImm(Result0, Zero()), f);
    if !skipped {
      MaskFinalReads(m.slot, f);
      CopyReads(0, f);
      OneReads(MovOff(TempPtr, m.slot), f);
      ReadsConcat([MovOff(TempPtr, m.slot)] + CopyOut(0), [MovImm(Result0, Zero())], f);
      ReadsConcat([MovOff(TempPtr, m.slot)], CopyOut(0), f);
    }
  }

  /** A kernel reads exactly the fields that are operands of the nodes it computes. */
  lemma {:induction false} KernelReads(k: Kernel, g: Graph, root: nat, bits: nat, skip: set<nat>, f: nat)
    requires KernelFor(k, g, root, bits, skip) && bits > 0
    ensures Reads(k.code, f) <==> exists i :: 0 <= i < |k.order| && k.order[i] !in skip && Takes(g, k.lay, k.order[i], f)
  {
    hide Reads, Takes, Valid, Disjoint, Reach, OperandsListed, ClearCarries, InitCode, BodyCode, FinalCode, Emittable;
    var p0, p1 := ClearCarries(0), InitCode(g, k.lay, k.order);
    var p2 := BodyCode(g, k.lay, bits, k.order, skip, EmptyCache());
    var p3 := FinalCode(g[root], k.lay[root], root in skip);
    ReadsConcat(p0 + p1 + p2, p3, f);
    ReadsConcat(p0 + p1, p2, f);
    ReadsConcat(p0, p1, f);
    ClearReads(0, f);
    InitReads(g, k.lay, k.order, f);
    BodyReads(g, k.lay, bits, k.order, skip, EmptyCache(), f);
    FinalReads(g[root], k.lay[root], root in skip, f);
  }

  lemma {:induction false} OperandNumbered(k: Kernel, g: Graph, root: nat, bits: nat, skip: set<nat>, i: nat, c: nat)
    requires KernelFor(k, g, root, bits, skip) && i < |k.order| && c in Children(g[k.order[i]]) && c < |g| && g[c].Load?
    ensures 0 <= k.lay[c].field < |k.names| && k.names[k.lay[c].field] == g[c].name
  {
    hide Valid, Disjoint, Reach, AllEmittable, KernelCode;
    assert OperandsListed(g[k.order[i]], k.order, i);
    assert Listed(k.order, i, c);
    var j :| 0 <= j < i && k.order[j] == c;
  }

  /** Installation finds every field known exactly when the code reads registered fields only. */
  lemma {:induction false} KnownExact(k: Kernel, g: Graph, root: nat, skip: set<nat>, schema: Schema)
    requires KernelFor(k, g, root, 64, skip)
    ensures Closed(g) && forall i | 0 <= i < |k.order| :: k.order[i] < |g| && Within(g[k.order[i]], |g|)
    ensures Known(g, k.order, skip, schema)
            <==> forall f: nat | Reads(k.code, f) :: f < |k.names| && k.names[f] in schema
  {
    hide Reads, Disjoint, Reach, AllEmittable, KernelCode, OperandsListed;
    forall f: nat
      ensures Reads(k.code, f) <==> exists i :: 0 <= i < |k.order| && k.order[i] !in skip && Takes(g, k.lay, k.order[i], f)
    {
      KernelReads(k, g, root, 64, skip, f);
    }
    forall i, c: nat | 0 <= i < |k.order| && c in Children(g[k.order[i]]) && c < |g| && g[c].Load?
      ensures 0 <= k.lay[c].field < |k.names| && k.names[k.lay[c].field] == g[c].name
    {
      OperandNumbered(k, g, root, 64, skip, i, c);
    }
    if Known(g, k.order, skip, schema) {
      forall f: nat | Reads(k.code, f) ensures f < |k.names| && k.names[f] in schema {
        var i :| 0 <= i < |k.order| && k.order[i] !in skip && Takes(g, k.lay, k.order[i], f);
        assert NodeKnown(g, k.order[i], schema);
      }
    } else {
      var i :| 0 <= i < |k.order| && k.order[i] !in skip && !NodeKnown(g, k.order[i], schema);
      var c :| c in Children(g[k.order[i]]) && c < |g| && g[c].Load? && g[c].name !in schema;
      assert Takes(g, k.lay, k.order[i], k.lay[c].field);
      assert Reads(k.code, k.lay[c].field);
    }
  }
}
