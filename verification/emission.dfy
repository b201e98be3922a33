/**
 The code each node of an expression turns into, and the write-through register cache that is
 simulated while the code is laid down.
 */
module Emission {
  import opened Words
  import opened Ir
  import opened Machine

  /** What the compiler records on a node; -1 stands for "not assigned". */
  datatype Meta = Meta(slot: int, eqSlot: int, field: int, carry: int)

  type Layout = seq<Meta>

  /** Where an operand's planes come from. */
  datatype Operand = Field(f: nat) | Literal(c: Word) | Slot(s: nat)

  predicate Placed(n: Node, m: Meta) {
    match n
    case Load(_) => m.field >= 0
    case Const(_) => true
    case Compare(_, _, _) => m.slot >= 0 && m.eqSlot >= 0
    case _ => m.slot >= 0
  }

  /** Everything the code of node `id` refers to has been assigned. */
  predicate Emittable(g: Graph, lay: Layout, id: nat) {
    && |lay| == |g| && id < |g| && Within(g[id], |g|)
    && Placed(g[id], lay[id])
    && match g[id]
       case Load(_) => true
       case Const(_) => true
       case Sum(_) => true
       case Not(l) => !IsLeaf(g[l]) && Placed(g[l], lay[l])
       case And(l, r) => !IsLeaf(g[l]) && !IsLeaf(g[r]) && Placed(g[l], lay[l]) && Placed(g[r], lay[r])
       case Or(l, r) => !IsLeaf(g[l]) && !IsLeaf(g[r]) && Placed(g[l], lay[l]) && Placed(g[r], lay[r])
       case Select(c, l, r) =>
         !IsLeaf(g[c]) && Placed(g[c], lay[c]) && Placed(g[l], lay[l]) && Placed(g[r], lay[r])
       case Compare(_, l, r) => Placed(g[l], lay[l]) && Placed(g[r], lay[r])
       case _ => Placed(g[g[id].left], lay[g[id].left]) && Placed(g[g[id].right], lay[g[id].right])
                 && 0 <= lay[id].carry < 6
  }

  function OperandOf(n: Node, m: Meta): Operand
    requires Placed(n, m)
  {
    match n
    case Load(_) => Field(m.field)
    case Const(w) => Literal(w)
    case _ => Slot(m.slot)
  }

  // --- Register cache -------------------------------------------------------------------------

  datatype Cache = Cache(regOf: map<int, nat>, slotOf: seq<int>, next: nat)

  function EmptyCache(): Cache {
    Cache(map[], [-1, -1, -1, -1, -1, -1, -1, -1], 0)
  }

  /** The two directions of the cache are inverse to each other. */
  predicate CacheOk(c: Cache) {
    && |c.slotOf| == 8 && c.next < 8
    && (forall s | s in c.regOf :: s >= 0 && c.regOf[s] < 8 && c.slotOf[c.regOf[s]] == s)
    && (forall i | 0 <= i < 8 :: c.slotOf[i] != -1 ==>
          c.slotOf[i] >= 0 && c.slotOf[i] in c.regOf && c.regOf[c.slotOf[i]] == i)
  }

  /** Give the next register, round robin, to `slot`, evicting its previous owner. */
  function Install(c: Cache, slot: nat): (c': Cache)
    requires CacheOk(c) && slot !in c.regOf
    ensures CacheOk(c')
    ensures slot in c'.regOf && c'.regOf.Keys <= c.regOf.Keys + {slot}
  {
    var r := c.next;
    var evicted := c.slotOf[r];
    var kept := if evicted != -1 then c.regOf - {evicted} else c.regOf;
    Cache(kept[slot := r], c.slotOf[r := slot], (r + 1) % 8)
  }

  function StoreSlot(c: Cache, slot: nat, v: Reg): (e: (Code, Cache))
    requires CacheOk(c)
    ensures CacheOk(e.1) && e.1.regOf.Keys <= c.regOf.Keys + {slot}
  {
    var c' := if slot in c.regOf then c else Install(c, slot);
    ([MovOff(TempPtr, slot), StrScratch(v, TempPtr), Mov(CacheBase + c'.regOf[slot], v)], c')
  }

  function LoadSlot(c: Cache, slot: nat, d: Reg): (e: (Code, Cache))
    requires CacheOk(c)
    ensures CacheOk(e.1) && e.1.regOf.Keys <= c.regOf.Keys + {slot}
  {
    if slot in c.regOf then
      ([Mov(d, CacheBase + c.regOf[slot])], c)
    else
      var c' := Install(c, slot);
      ([MovOff(TempPtr, slot), LdrScratch(d, TempPtr), Mov(CacheBase + c'.regOf[slot], d)], c')
  }

  // --- Operand access -------------------------------------------------------------------------

  function Hoist(o: Operand, d: Reg): Code {
    match o
    case Field(f) => [LdrField(d, f)]
    case Literal(c) => [MovImm(d, c)]
    case Slot(s) => [MovOff(d, s), AddBase(d)]
  }

  function LoadPlane(o: Operand, hoisted: Reg, d: Reg, bit: nat): Instr
    requires bit < 64
  {
    match o
    case Literal(c) => MovImm(d, if c[bit] then Ones() else Zero())
    case _ => LdrAt(d, hoisted, bit)
  }

  function LoadIndexed(o: Operand, d: Reg): Code {
    match o
    case Field(f) => [LdrField(TempPtr, f), LdrIndexed(d, TempPtr, BitIndex)]
    case Literal(c) => [MovImm(Scratch1, c), LsrBy(d, Scratch1, BitIndex), AndOne(d, d), Neg(d, d)]
    case Slot(s) => [MovOff(Scratch1, s), AddIndex(Scratch1, BitIndex), LdrScratch(d, Scratch1)]
  }

  // --- Adders ---------------------------------------------------------------------------------

  function AddBit(l: Operand, r: Operand, sub: bool, carry: Reg, bit: nat): Code
    requires bit < 64
  {
    [LoadPlane(l, HoistL, PlaneA, bit), LoadPlane(r, HoistR, PlaneB, bit)]
    + (if sub then [Mvn(PlaneB, PlaneB)] else [])
    + [Eor(Result, PlaneA, PlaneB), Eor(Scratch1, Result, carry), AndR(PlaneA, PlaneA, PlaneB)]
    + [AndR(Result, Result, carry), Orr(carry, PlaneA, Result), StrAt(Scratch1, TempPtr, bit)]
  }

  function AddBits(l: Operand, r: Operand, sub: bool, carry: Reg, bit: nat, bits: nat): Code
    requires bit <= bits <= 64
    decreases bits - bit
  {
    if bit == bits then [] else
      AddBit(l, r, sub, carry, bit) + AddBits(l, r, sub, carry, bit + 1, bits)
  }

  function AddCode(l: Operand, r: Operand, sub: bool, carry: Reg, slot: nat, bits: nat): Code
    requires bits <= 64
  {
    [MovImm(carry, if sub then One() else Zero())]
    + (Hoist(l, HoistL) + Hoist(r, HoistR))
    + [MovOff(TempPtr, slot), AddBase(TempPtr)]
    + AddBits(l, r, sub, carry, 0, bits)
  }

  // --- Mask logic -----------------------------------------------------------------------------

  /** Two masks loaded, combined by `op` and stored. */
  function LogicCode(op: Instr, left: nat, right: nat, slot: nat, c: Cache): (e: (Code, Cache))
    requires CacheOk(c)
    ensures CacheOk(e.1) && e.1.regOf.Keys <= c.regOf.Keys + {left, right, slot}
  {
    var (p1, c1) := LoadSlot(c, left, PlaneA);
    var (p2, c2) := LoadSlot(c1, right, PlaneB);
    var (p3, c3) := StoreSlot(c2, slot, Result);
    (p1 + p2 + [op] + p3, c3)
  }

  function NotCode(left: nat, slot: nat, c: Cache): (e: (Code, Cache))
    requires CacheOk(c)
    ensures CacheOk(e.1) && e.1.regOf.Keys <= c.regOf.Keys + {left, slot}
  {
    var (p1, c1) := LoadSlot(c, left, PlaneA);
    var (p2, c2) := StoreSlot(c1, slot, Result);
    (p1 + [Mvn(Result, PlaneA)] + p2, c2)
  }

  // --- Comparators ----------------------------------------------------------------------------

  /** The operands trade places for "less" relations. */
  predicate Swapped(rel: Relation) {
    rel.LT? || rel.LE?
  }

  function CompareBit(l: Operand, r: Operand, rel: Relation, bit: nat): Code
    requires bit < 64
  {
    (if Swapped(rel) then
       [LoadPlane(r, HoistR, PlaneA, bit), LoadPlane(l, HoistL, PlaneB, bit)]
     else
       [LoadPlane(l, HoistL, PlaneA, bit), LoadPlane(r, HoistR, PlaneB, bit)])
    + [Bic(Result, PlaneA, PlaneB), AndR(Result, Result, MaskEq), Orr(MaskGt, MaskGt, Result)]
    + [Eor(Result, PlaneA, PlaneB), Bic(MaskEq, MaskEq, Result)]
  }

  /** Planes bits-1 down to 0. */
  function CompareBits(l: Operand, r: Operand, rel: Relation, bits: nat): Code
    requires bits <= 64
  {
    if bits == 0 then [] else
      CompareBit(l, r, rel, bits - 1) + CompareBits(l, r, rel, bits - 1)
  }

  /** Masks loaded, operands hoisted, planes scanned. */
  function ScanCode(l: Operand, r: Operand, rel: Relation, slot: nat, eqSlot: nat, bits: nat, c: Cache)
      : (e: (Code, Cache))
    requires CacheOk(c) && bits <= 64
    ensures CacheOk(e.1) && e.1.regOf.Keys <= c.regOf.Keys + {slot, eqSlot}
  {
    var (p1, c1) := LoadSlot(c, eqSlot, MaskEq);
    var (p2, c2) := LoadSlot(c1, slot, MaskGt);
    (p1 + p2 + (Hoist(l, HoistL) + Hoist(r, HoistR) + CompareBits(l, r, rel, bits)), c2)
  }

  /** Masks stored and merged. */
  function SettleCode(rel: Relation, slot: nat, eqSlot: nat, c: Cache): (e: (Code, Cache))
    requires CacheOk(c)
    ensures CacheOk(e.1) && e.1.regOf.Keys <= c.regOf.Keys + {slot, eqSlot}
  {
    var (p1, c1) := StoreSlot(c, slot, MaskGt);
    var (p2, c2) := StoreSlot(c1, eqSlot, MaskEq);
    var (p3, c3) := MergeEqual(rel, slot, eqSlot, c2);
    (p1 + p2 + p3, c3)
  }

  function CompareCode(l: Operand, r: Operand, rel: Relation, slot: nat, eqSlot: nat, bits: nat, c: Cache)
      : (e: (Code, Cache))
    requires CacheOk(c) && bits <= 64
    ensures CacheOk(e.1) && e.1.regOf.Keys <= c.regOf.Keys + {slot, eqSlot}
  {
    var (p1, c1) := ScanCode(l, r, rel, slot, eqSlot, bits, c);
    var (p2, c2) := SettleCode(rel, slot, eqSlot, c1);
    (p1 + p2, c2)
  }

  /** The extra step for the relations that accept equality. */
  function MergeEqual(rel: Relation, slot: nat, eqSlot: nat, c: Cache): (e: (Code, Cache))
    requires CacheOk(c)
    ensures CacheOk(e.1) && e.1.regOf.Keys <= c.regOf.Keys + {slot, eqSlot}
  {
    if rel.GT? || rel.LT? then ([], c) else
      LogicCode(if rel.EQ? then Mov(Result, PlaneB) else Orr(Result, PlaneA, PlaneB), slot, eqSlot, slot, c)
  }

  // --- Selection ------------------------------------------------------------------------------

  function SelectBit(l: Operand, r: Operand, slot: nat, bit: nat): Code {
    [MovOff(BitIndex, bit)] + LoadIndexed(l, PlaneA) + LoadIndexed(r, PlaneB)
    + [AndR(Scratch1, MaskGt, PlaneA), Bic(TempPtr, PlaneB, MaskGt), Orr(Scratch1, Scratch1, TempPtr)]
    + [MovOff(TempPtr, slot + bit), StrScratch(Scratch1, TempPtr)]
  }

  function SelectBits(l: Operand, r: Operand, slot: nat, bit: nat, bits: nat): Code
    requires bit <= bits
    decreases bits - bit
  {
    if bit == bits then [] else
      SelectBit(l, r, slot, bit) + SelectBits(l, r, slot, bit + 1, bits)
  }

  function SelectCode(l: Operand, r: Operand, cond: nat, slot: nat, bits: nat, c: Cache): (e: (Code, Cache))
    requires CacheOk(c)
    ensures CacheOk(e.1) && e.1.regOf.Keys <= c.regOf.Keys + {cond}
  {
    var (p1, c1) := LoadSlot(c, cond, MaskGt);
    (p1 + SelectBits(l, r, slot, 0, bits), c1)
  }

  // --- Whole kernel ---------------------------------------------------------------------------

  function NodeCode(g: Graph, lay: Layout, bits: nat, id: nat, c: Cache): (e: (Code, Cache))
    requires Emittable(g, lay, id) && CacheOk(c) && bits <= 64
    ensures CacheOk(e.1)
  {
    match g[id]
    case Load(_) => ([], c)
    case Const(_) => ([], c)
    case Sum(_) => ([], c)
    case Add(l, r) =>
      (AddCode(OperandOf(g[l], lay[l]), OperandOf(g[r], lay[r]), false, CarryBase + lay[id].carry,
               lay[id].slot, bits), c)
    case Sub(l, r) =>
      (AddCode(OperandOf(g[l], lay[l]), OperandOf(g[r], lay[r]), true, CarryBase + lay[id].carry,
               lay[id].slot, bits), c)
    case Compare(rel, l, r) =>
      CompareCode(OperandOf(g[l], lay[l]), OperandOf(g[r], lay[r]), rel,
                  lay[id].slot, lay[id].eqSlot, bits, c)
    case And(l, r) => LogicCode(AndR(Result, PlaneA, PlaneB), lay[l].slot, lay[r].slot, lay[id].slot, c)
    case Or(l, r) => LogicCode(Orr(Result, PlaneA, PlaneB), lay[l].slot, lay[r].slot, lay[id].slot, c)
    case Not(l) => NotCode(lay[l].slot, lay[id].slot, c)
    case Select(cond, l, r) =>
      SelectCode(OperandOf(g[l], lay[l]), OperandOf(g[r], lay[r]), lay[cond].slot, lay[id].slot, bits, c)
  }

  /** The nodes the compiler emits are those of the order that are not marked to be skipped. */
  predicate AllEmittable(g: Graph, lay: Layout, order: seq<nat>, skip: set<nat>) {
    forall i | 0 <= i < |order| :: order[i] !in skip ==> Emittable(g, lay, order[i])
  }

  function BodyCode(g: Graph, lay: Layout, bits: nat, order: seq<nat>, skip: set<nat>, c: Cache): Code
    requires AllEmittable(g, lay, order, skip) && CacheOk(c) && bits <= 64
  {
    if order == [] then [] else if order[0] in skip then
      BodyCode(g, lay, bits, order[1..], skip, c)
    else
      var (p, c') := NodeCode(g, lay, bits, order[0], c);
      p + BodyCode(g, lay, bits, order[1..], skip, c')
  }

  /** Carry seeds and initial masks, laid down before any node. */
  function InitNode(n: Node, m: Meta): Code {
    (if n.Sub? && 0 <= m.carry < 6 then [MovImm(CarryBase + m.carry, One())] else [])
    + (if m.slot >= 0 && IsMask(n) then
         [MovOff(TempPtr, m.slot), StrZero(TempPtr)]
         + (if m.eqSlot >= 0 then
              [MovOff(TempPtr, m.eqSlot), MovImm(Scratch1, Ones()), StrScratch(Scratch1, TempPtr)]
            else [])
       else [])
  }

  function InitCode(g: Graph, lay: Layout, order: seq<nat>): Code
    requires |lay| == |g| && forall i | 0 <= i < |order| :: order[i] < |g|
  {
    if order == [] then [] else
      InitNode(g[order[0]], lay[order[0]]) + InitCode(g, lay, order[1..])
  }

  function ClearCarries(k: nat): Code
    requires k <= 6
    decreases 6 - k
  {
    if k == 6 then [] else [MovImm(CarryBase + k, Zero())] + ClearCarries(k + 1)
  }

  /** Copies planes i..63 of the root block to the front of the scratchpad. */
  function CopyOut(i: nat): Code
    requires i <= 64
    decreases 64 - i
  {
    if i == 64 then [] else
      [LdrScratch(Result, TempPtr), StrWord(Result, i), AddOff(TempPtr, 1)] + CopyOut(i + 1)
  }

  function FinalCode(n: Node, m: Meta, skipped: bool): Code
    requires skipped || m.slot >= 0
  {
    if skipped then [MovImm(Result0, Zero())]
    else if IsMask(n) then [MovOff(TempPtr, m.slot), LdrScratch(Result0, TempPtr)]
    else [MovOff(TempPtr, m.slot)] + CopyOut(0) + [MovImm(Result0, Zero())]
  }

  function KernelCode(g: Graph, lay: Layout, bits: nat, order: seq<nat>, skip: set<nat>, root: nat): Code
    requires AllEmittable(g, lay, order, skip) && bits <= 64
    requires |lay| == |g| && root < |g| && forall i | 0 <= i < |order| :: order[i] < |g|
    requires root in skip || lay[root].slot >= 0
  {
    ClearCarries(0) + InitCode(g, lay, order) + BodyCode(g, lay, bits, order, skip, EmptyCache())
    + FinalCode(g[root], lay[root], root in skip)
  }
}
