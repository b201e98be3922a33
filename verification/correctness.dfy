/**
 Correctness of the bit-sliced compiler: whatever the graph, the placement and the initial
 scratchpad, running the emitted code leaves every node's row-by-row value where it was placed.
 */
module Correctness {
  import opened Words
  import opened Circuits
  import opened Ir
  import opened Machine
  import opened Emission
  import opened Effects

  const SLOTS: nat := 32768

  /** A compilation and the data it runs on: 64 rows, read through the planes of each field. */
  datatype Setup = Setup(g: Graph, lay: Layout, bits: nat, order: seq<nat>, skip: set<nat>,
                         fields: seq<Block>, rows: seq<Env>)

  /** Scratchpad words written on behalf of a node. */
  predicate Owns(n: Node, m: Meta, w: int) {
    if IsLeaf(n) then false
    else if n.Compare? then w == m.slot || w == m.eqSlot
    else if IsMask(n) then w == m.slot
    else m.slot <= w < m.slot + 64
  }

  ghost predicate Listed(order: seq<nat>, i: nat, c: nat)
    requires i <= |order|
  {
    exists j :: 0 <= j < i && order[j] == c
  }

  /** Operands come earlier in the order. */
  ghost predicate OperandsListed(n: Node, order: seq<nat>, i: nat)
    requires i <= |order|
  {
    match n
    case Load(_) => true
    case Const(_) => true
    case Not(l) => Listed(order, i, l)
    case Select(c, l, r) => Listed(order, i, c) && Listed(order, i, l) && Listed(order, i, r)
    case Sum(ops) => forall k | 0 <= k < |ops| :: Listed(order, i, ops[k])
    case _ => Listed(order, i, n.left) && Listed(order, i, n.right)
  }

  /** Each node once, after its operands. */
  ghost predicate Topological(g: Graph, order: seq<nat>) {
    && (forall i | 0 <= i < |order| :: order[i] < |g| && OperandsListed(g[order[i]], order, i))
    && (forall i, j | 0 <= i < j < |order| :: order[i] != order[j])
  }

  /** Live allocations are inside the scratchpad and pairwise disjoint. */
  ghost predicate Disjoint(g: Graph, lay: Layout, order: seq<nat>)
    requires |lay| == |g| && forall i | 0 <= i < |order| :: order[i] < |g|
  {
    && (forall i | 0 <= i < |order| :: PlacedAlone(g[order[i]], lay[order[i]]))
    && (forall i, j, w | 0 <= i < j < |order| && Owns(g[order[i]], lay[order[i]], w) ::
          !Owns(g[order[j]], lay[order[j]], w))
  }

  predicate PlacedAlone(n: Node, m: Meta) {
    && Placed(n, m)
    && (IsMask(n) ==> m.slot < SLOTS)
    && (!n.Compare? ==> m.eqSlot < 0)
    && (n.Compare? ==> m.eqSlot < SLOTS && m.slot != m.eqSlot)
    && (!IsLeaf(n) && !IsMask(n) ==> m.slot + 64 <= SLOTS && m.slot % 64 == 0)
  }

  /** Emitted nodes only read leaves and emitted nodes. */
  ghost predicate SkipClosed(g: Graph, order: seq<nat>, skip: set<nat>)
    requires Closed(g) && forall i | 0 <= i < |order| :: order[i] < |g|
  {
    forall i | 0 <= i < |order| && order[i] !in skip :: ReadsEmitted(g, order[i], skip)
  }

  ghost predicate ReadsEmitted(g: Graph, id: nat, skip: set<nat>)
    requires Closed(g) && id < |g|
  {
    match g[id]
    case Load(_) => true
    case Const(_) => true
    case Sum(_) => false
    case Not(l) => l !in skip
    case Select(c, l, r) => c !in skip && Emitted(g, l, skip) && Emitted(g, r, skip)
    case _ => Emitted(g, g[id].left, skip) && Emitted(g, g[id].right, skip)
  }

  predicate Emitted(g: Graph, id: nat, skip: set<nat>)
    requires id < |g|
  {
    IsLeaf(g[id]) || id !in skip
  }

  /** Row r reads its own field values. */
  ghost predicate Feeds(x: Setup, id: nat)
    requires |x.lay| == |x.g| && id < |x.g| && |x.rows| == 64 && x.bits <= 64
  {
    x.g[id].Load? ==>
      && 0 <= x.lay[id].field < |x.fields|
      && forall r | 0 <= r < 64 ::
           x.rows[r](x.g[id].name) % Pow2(x.bits) == Val(Lane(x.fields[x.lay[id].field][..x.bits], r))
  }

  ghost predicate SetupOk(x: Setup) {
    && Valid(x.g) && x.bits <= 64 && |x.rows| == 64 && |x.lay| == |x.g|
    && Topological(x.g, x.order)
    && Disjoint(x.g, x.lay, x.order)
    && AllEmittable(x.g, x.lay, x.order, x.skip)
    && SkipClosed(x.g, x.order, x.skip)
    && forall i | 0 <= i < |x.order| :: Feeds(x, x.order[i])
  }

  /** Only lane 0 of the carry seed is set, so a subtraction is one short in every other row. */
  function Borrow(r: nat): nat {
    if r == 0 then 0 else 1
  }

  /** The value the kernel computes for a node in row r. */
  ghost function Meaning(x: Setup, id: nat, r: nat): nat
    requires SetupOk(x) && id < |x.g| && r < 64
  {
    Eval(x.g, id, x.rows[r], Pow2(x.bits), Borrow(r))
  }

  /** A node's result is in place. */
  ghost predicate Holds(x: Setup, id: nat, mem: seq<Word>)
    requires SetupOk(x) && id < |x.g| && |mem| >= SLOTS
    requires PlacedAlone(x.g[id], x.lay[id])
  {
    if IsLeaf(x.g[id]) then true
    else if IsMask(x.g[id]) then
      forall r | 0 <= r < 64 :: mem[x.lay[id].slot][r] == (Meaning(x, id, r) != 0)
    else
      forall r | 0 <= r < 64 ::
        Val(Lane(mem[x.lay[id].slot..x.lay[id].slot + x.bits], r)) == Meaning(x, id, r)
  }

  /** The masks a comparator starts from. */
  predicate Primed(n: Node, m: Meta, mem: seq<Word>) {
    n.Compare? ==> && 0 <= m.slot < |mem| && mem[m.slot] == Zero()
                   && 0 <= m.eqSlot < |mem| && mem[m.eqSlot] == Ones()
  }

  /** No cached slot lies in a block of planes. */
  ghost predicate PlanesUncached(x: Setup, c: Cache)
    requires SetupOk(x)
  {
    forall i, t | 0 <= i < |x.order| && t in c.regOf && !IsMask(x.g[x.order[i]]) ::
      !Owns(x.g[x.order[i]], x.lay[x.order[i]], t)
  }

  /** What holds between nodes: k of them have been emitted. */
  ghost predicate Inv(x: Setup, k: nat, c: Cache, s: State)
    requires SetupOk(x) && k <= |x.order|
  {
    && s.Running? && |s.mem| >= SLOTS
    && CacheOk(c) && Coherent(c, s) && PlanesUncached(x, c)
    && (forall j | 0 <= j < k && x.order[j] !in x.skip :: Holds(x, x.order[j], s.mem))
    && (forall j | k <= j < |x.order| :: Primed(x.g[x.order[j]], x.lay[x.order[j]], s.mem))
  }

  // --- Operands -------------------------------------------------------------------------------

  ghost predicate Member(x: Setup, id: nat) {
    Listed(x.order, |x.order|, id)
  }

  /** An operand listed before node k is readable and, if it is not a mask, its planes denote its value. */
  lemma {:induction false} OperandMeaning(x: Setup, id: nat, mem: seq<Word>)
    requires SetupOk(x) && Member(x, id) && id < |x.g| && |mem| >= SLOTS
    requires !IsMask(x.g[id]) && PlacedAlone(x.g[id], x.lay[id]) && Holds(x, id, mem)
    ensures var o := OperandOf(x.g[id], x.lay[id]);
            && Readable(o, x.fields, mem, x.bits)
            && forall r | 0 <= r < 64 :: Val(Lane(PlanesOf(o, x.fields, mem, 0, x.bits), r)) == Meaning(x, id, r)
  {
    var o := OperandOf(x.g[id], x.lay[id]);
    var p := PlanesOf(o, x.fields, mem, 0, x.bits);
    if x.g[id].Load? {
      assert Feeds(x, id);
      assert p == x.fields[o.f][..x.bits];
    } else if x.g[id].Const? {
      var w := x.g[id].value;
      assert p == ConstPlanes(w[..x.bits]);
      forall r | 0 <= r < 64 ensures Val(Lane(p, r)) == Meaning(x, id, r) {
        ConstPlanesValue(w[..x.bits], r);
        ValPrefix(w, x.bits);
      }
    } else {
      assert p == mem[o.s..o.s + x.bits];
    }
  }

  /** An operand of an emitted node is in place when the node's turn comes. */
  lemma OperandReady(x: Setup, k: nat, c: Cache, s: State, id: nat)
    requires SetupOk(x) && k < |x.order| && Inv(x, k, c, s)
    requires Listed(x.order, k, id) && Emitted(x.g, id, x.skip)
    ensures id < |x.g| && Member(x, id) && PlacedAlone(x.g[id], x.lay[id]) && Holds(x, id, s.mem)
    ensures id != x.order[k]
    ensures forall w | Owns(x.g[id], x.lay[id], w) :: !Owns(x.g[x.order[k]], x.lay[x.order[k]], w)
  {
    var j :| 0 <= j < k && x.order[j] == id;
  }

  // --- Nodes ----------------------------------------------------------------------------------

  /** Node `id` was emitted between s and s': its result is in place and nothing else moved. */
  ghost predicate NodeDone(x: Setup, id: nat, c': Cache, s: State, s': State)
    requires SetupOk(x) && id < |x.g| && PlacedAlone(x.g[id], x.lay[id])
  {
    && s.Running? && s'.Running? && |s'.mem| == |s.mem| >= SLOTS
    && CacheOk(c') && Coherent(c', s') && PlanesUncached(x, c')
    && (forall w | 0 <= w < |s.mem| && !Owns(x.g[id], x.lay[id], w) :: s'.mem[w] == s.mem[w])
    && Holds(x, id, s'.mem)
  }

  /** Slot t belongs to a mask. */
  ghost predicate MaskSlot(x: Setup, t: int)
    requires SetupOk(x)
  {
    exists j :: 0 <= j < |x.order| && IsMask(x.g[x.order[j]]) && Owns(x.g[x.order[j]], x.lay[x.order[j]], t)
  }

  lemma MaskSlotOf(x: Setup, id: nat, t: int)
    requires SetupOk(x) && Member(x, id) && id < |x.g| && IsMask(x.g[id]) && Owns(x.g[id], x.lay[id], t)
    ensures MaskSlot(x, t)
  {
    var j :| 0 <= j < |x.order| && x.order[j] == id;
  }

  /** Caching mask slots keeps blocks of planes out of the cache. */
  lemma CacheGrows(x: Setup, c: Cache, c': Cache)
    requires SetupOk(x) && PlanesUncached(x, c)
    requires forall t | t in c'.regOf :: t in c.regOf || MaskSlot(x, t)
    ensures PlanesUncached(x, c')
  {
    forall i, t | 0 <= i < |x.order| && t in c'.regOf && !IsMask(x.g[x.order[i]])
      ensures !Owns(x.g[x.order[i]], x.lay[x.order[i]], t)
    {
      if t !in c.regOf {
        var j :| 0 <= j < |x.order| && IsMask(x.g[x.order[j]]) && Owns(x.g[x.order[j]], x.lay[x.order[j]], t);
        assert i != j;
      }
    }
  }

  /** What the setup says about the node being emitted. */
  lemma NodeFacts(x: Setup, k: nat)
    requires SetupOk(x) && k < |x.order| && x.order[k] !in x.skip
    ensures var id := x.order[k];
            && id < |x.g| && Closed(x.g) && Emittable(x.g, x.lay, id) && PlacedAlone(x.g[id], x.lay[id])
            && ReadsEmitted(x.g, id, x.skip) && TypedAt(x.g, id) && OperandsListed(x.g[id], x.order, k)
            && Member(x, id) && x.bits <= 64 && |x.lay| == |x.g|
  {
  }

  /** What the invariant says about the state in which a node is emitted. */
  lemma InvFacts(x: Setup, k: nat, c: Cache, s: State)
    requires SetupOk(x) && k < |x.order| && Inv(x, k, c, s)
    ensures s.Running? && |s.mem| >= SLOTS && CacheOk(c) && Coherent(c, s) && PlanesUncached(x, c)
    ensures var id := x.order[k];
            && Primed(x.g[id], x.lay[id], s.mem)
            && (!IsMask(x.g[id]) ==> forall t | t in c.regOf :: !Owns(x.g[id], x.lay[id], t))
  {
  }

  /** A plane operand of node k, ready to be read. */
  lemma PlaneOperand(x: Setup, k: nat, c: Cache, s: State, id: nat)
    requires SetupOk(x) && k < |x.order| && Inv(x, k, c, s)
    requires Listed(x.order, k, id) && id < |x.g| && Emitted(x.g, id, x.skip) && !IsMask(x.g[id])
    ensures PlacedAlone(x.g[id], x.lay[id])
    ensures var o := OperandOf(x.g[id], x.lay[id]);
            && Readable(o, x.fields, s.mem, x.bits)
            && (!IsMask(x.g[x.order[k]]) && !IsLeaf(x.g[x.order[k]]) ==> Apart(o, x.lay[x.order[k]].slot, x.bits))
            && forall r | 0 <= r < 64 :: Val(Lane(PlanesOf(o, x.fields, s.mem, 0, x.bits), r)) == Meaning(x, id, r)
  {
    OperandReady(x, k, c, s, id);
    OperandMeaning(x, id, s.mem);
    if !IsMask(x.g[x.order[k]]) && !IsLeaf(x.g[x.order[k]]) {
      ApartFromBlock(x, k, id);
    }
  }

  /** Planes written directly into node k's block make it done. */
  lemma PlanesDone(x: Setup, k: nat, c: Cache, c': Cache, s: State, s': State)
    requires SetupOk(x) && k < |x.order| && Inv(x, k, c, s)
    requires !IsMask(x.g[x.order[k]]) && !IsLeaf(x.g[x.order[k]])
    requires s'.Running? && |s'.mem| == |s.mem|
    requires CacheOk(c') && PlanesUncached(x, c') && Coherent(c', s')
    requires var m := x.lay[x.order[k]];
             && m.slot + x.bits <= |s.mem|
             && (forall i | 0 <= i < |s.mem| && !(m.slot <= i < m.slot + x.bits) :: s'.mem[i] == s.mem[i])
             && forall r | 0 <= r < 64 :: Val(Lane(s'.mem[m.slot..m.slot + x.bits], r)) == Meaning(x, x.order[k], r)
    ensures NodeDone(x, x.order[k], c', s, s')
  {
  }

  lemma {:induction false} AdderDone(x: Setup, k: nat, c: Cache, s: State)
    requires SetupOk(x) && k < |x.order| && Inv(x, k, c, s)
    requires x.order[k] !in x.skip && IsAdder(x.g[x.order[k]])
    ensures var id := x.order[k];
            var (p, c') := NodeCode(x.g, x.lay, x.bits, id, c);
            NodeDone(x, id, c', s, Exec(p, x.fields, s))
  {
    hide Exec, Step, AddCode, Ripple, PlanesOf, Addends, SetupOk, Inv, NodeDone, Meaning, PlanesUncached;
    NodeFacts(x, k);
    InvFacts(x, k, c, s);
    var id, n := x.order[k], x.bits;
    var l, r := x.g[id].left, x.g[id].right;
    var dst := x.lay[id].slot;
    PlaneOperand(x, k, c, s, l);
    PlaneOperand(x, k, c, s, r);
    var ol, or := OperandOf(x.g[l], x.lay[l]), OperandOf(x.g[r], x.lay[r]);
    var sub, carry := x.g[id].Sub?, CarryBase + x.lay[id].carry;
    UncachedAt(x, k, c);
    AdderEffect(ol, or, sub, carry, dst, n, c, x.fields, s);
    var s' := Exec(AddCode(ol, or, sub, carry, dst, n), x.fields, s);
    forall q | 0 <= q < 64 ensures Val(Lane(s'.mem[dst..dst + n], q)) == Meaning(x, id, q) {
      AdderLane(x, id, PlanesOf(ol, x.fields, s.mem, 0, n), PlanesOf(or, x.fields, s.mem, 0, n), q);
    }
    PlanesDone(x, k, c, c, s, s');
  }

  /** The blocks of an earlier operand and of node k do not meet. */
  lemma ApartFromBlock(x: Setup, k: nat, id: nat)
    requires SetupOk(x) && k < |x.order| && !IsMask(x.g[x.order[k]]) && !IsLeaf(x.g[x.order[k]])
    requires Listed(x.order, k, id) && id < |x.g| && !IsMask(x.g[id])
    ensures PlacedAlone(x.g[id], x.lay[id])
    ensures Apart(OperandOf(x.g[id], x.lay[id]), x.lay[x.order[k]].slot, x.bits)
  {
    var j :| 0 <= j < k && x.order[j] == id;
    var a, b := x.lay[id].slot, x.lay[x.order[k]].slot;
    assert PlacedAlone(x.g[x.order[k]], x.lay[x.order[k]]);
    if !IsLeaf(x.g[id]) {
      assert Owns(x.g[id], x.lay[id], a) && !Owns(x.g[x.order[k]], x.lay[x.order[k]], a);
      assert Owns(x.g[id], x.lay[id], a + 63) && !Owns(x.g[x.order[k]], x.lay[x.order[k]], a + 63);
    }
  }

  lemma {:induction false} AdderLane(x: Setup, id: nat, a: seq<Word>, b: seq<Word>, r: nat)
    requires SetupOk(x) && id < |x.g| && IsAdder(x.g[id]) && r < 64 && |a| == |b| == x.bits
    requires Val(Lane(a, r)) == Meaning(x, x.g[id].left, r)
    requires Val(Lane(b, r)) == Meaning(x, x.g[id].right, r)
    ensures var sub := x.g[id].Sub?;
            Val(Lane(Ripple(a, Addends(sub, b), if sub then One() else Zero()), r)) == Meaning(x, id, r)
  {
    hide Ripple;
    if x.g[id].Sub? {
      RippleSubtracts(a, b, One(), r);
    } else {
      RippleAdds(a, b, Zero(), r);
    }
  }

  /** One or two mask words written make a mask node done. */
  lemma MaskDone(x: Setup, k: nat, c: Cache, c': Cache, s: State, s': State)
    requires SetupOk(x) && k < |x.order| && Inv(x, k, c, s) && IsMask(x.g[x.order[k]])
    requires s'.Running? && |s'.mem| == |s.mem|
    requires CacheOk(c') && PlanesUncached(x, c') && Coherent(c', s')
    requires forall w | 0 <= w < |s.mem| && !Owns(x.g[x.order[k]], x.lay[x.order[k]], w) :: s'.mem[w] == s.mem[w]
    requires PlacedAlone(x.g[x.order[k]], x.lay[x.order[k]])
    requires forall r | 0 <= r < 64 :: s'.mem[x.lay[x.order[k]].slot][r] == (Meaning(x, x.order[k], r) != 0)
    ensures NodeDone(x, x.order[k], c', s, s')
  {
  }

  lemma {:induction false} CompareLane(x: Setup, id: nat, a: seq<Word>, b: seq<Word>, r: nat)
    requires SetupOk(x) && id < |x.g| && x.g[id].Compare? && r < 64 && |a| == |b|
    requires Val(Lane(a, r)) == Meaning(x, x.g[id].left, r)
    requires Val(Lane(b, r)) == Meaning(x, x.g[id].right, r)
    ensures var rel := x.g[id].rel;
            var m := Scan(First(rel, a, b), First(rel, b, a), Zero(), Ones());
            Merged(rel, m.0, m.1)[r] == (Meaning(x, id, r) != 0)
  {
    hide Scan;
    var rel := x.g[id].rel;
    ScanCompares(First(rel, a, b), First(rel, b, a), Zero(), Ones(), r);
  }

  lemma {:induction false} CompareDone(x: Setup, k: nat, c: Cache, s: State)
    requires SetupOk(x) && k < |x.order| && Inv(x, k, c, s)
    requires x.order[k] !in x.skip && x.g[x.order[k]].Compare?
    ensures var id := x.order[k];
            var (p, c') := NodeCode(x.g, x.lay, x.bits, id, c);
            NodeDone(x, id, c', s, Exec(p, x.fields, s))
  {
    hide Exec, Step, CompareCode, Scan, PlanesOf, SetupOk, Inv, NodeDone, Meaning, PlanesUncached, MaskSlot;
    NodeFacts(x, k);
    InvFacts(x, k, c, s);
    var id, n := x.order[k], x.bits;
    var Compare(rel, l, r) := x.g[id];
    PlaneOperand(x, k, c, s, l);
    PlaneOperand(x, k, c, s, r);
    var ol, or := OperandOf(x.g[l], x.lay[l]), OperandOf(x.g[r], x.lay[r]);
    var slot, eqSlot := x.lay[id].slot, x.lay[id].eqSlot;
    CompareEffect(ol, or, rel, slot, eqSlot, n, c, x.fields, s);
    var (p, c') := CompareCode(ol, or, rel, slot, eqSlot, n, c);
    var s' := Exec(p, x.fields, s);
    MaskSlotOf(x, id, slot);
    MaskSlotOf(x, id, eqSlot);
    CacheGrows(x, c, c');
    var pl, pr := PlanesOf(ol, x.fields, s.mem, 0, n), PlanesOf(or, x.fields, s.mem, 0, n);
    forall q | 0 <= q < 64 ensures s'.mem[slot][q] == (Meaning(x, id, q) != 0) {
      CompareLane(x, id, pl, pr, q);
    }
    MaskDone(x, k, c, c', s, s');
  }

  /** A mask operand of node k: its slot holds its truth value in every row. */
  lemma MaskOperand(x: Setup, k: nat, c: Cache, s: State, id: nat)
    requires SetupOk(x) && k < |x.order| && Inv(x, k, c, s)
    requires Listed(x.order, k, id) && id < |x.g| && id !in x.skip && IsMask(x.g[id])
    ensures 0 <= x.lay[id].slot < SLOTS <= |s.mem| && MaskSlot(x, x.lay[id].slot)
    ensures forall r | 0 <= r < 64 :: s.mem[x.lay[id].slot][r] == (Meaning(x, id, r) != 0)
  {
    OperandReady(x, k, c, s, id);
    MaskSlotOf(x, id, x.lay[id].slot);
  }

  lemma LogicLane(x: Setup, id: nat, a: Word, b: Word, w: Word, r: nat)
    requires SetupOk(x) && id < |x.g| && (x.g[id].And? || x.g[id].Or?) && r < 64
    requires a[r] == (Meaning(x, x.g[id].left, r) != 0) && b[r] == (Meaning(x, x.g[id].right, r) != 0)
    requires w == if x.g[id].And? then BitAnd(a, b) else BitOr(a, b)
    ensures w[r] == (Meaning(x, id, r) != 0)
  {
  }

  lemma {:induction false} LogicDone(x: Setup, k: nat, c: Cache, s: State)
    requires SetupOk(x) && k < |x.order| && Inv(x, k, c, s)
    requires x.order[k] !in x.skip && (x.g[x.order[k]].And? || x.g[x.order[k]].Or?)
    ensures var id := x.order[k];
            var (p, c') := NodeCode(x.g, x.lay, x.bits, id, c);
            NodeDone(x, id, c', s, Exec(p, x.fields, s))
  {
    hide Exec, Step, LogicCode, SetupOk, Inv, NodeDone, Meaning, PlanesUncached, MaskSlot;
    NodeFacts(x, k);
    InvFacts(x, k, c, s);
    var id := x.order[k];
    var l, r := x.g[id].left, x.g[id].right;
    MaskOperand(x, k, c, s, l);
    MaskOperand(x, k, c, s, r);
    var sl, sr, slot := x.lay[l].slot, x.lay[r].slot, x.lay[id].slot;
    var op := if x.g[id].And? then AndR(Result, PlaneA, PlaneB) else Orr(Result, PlaneA, PlaneB);
    var w := if x.g[id].And? then BitAnd(s.mem[sl], s.mem[sr]) else BitOr(s.mem[sl], s.mem[sr]);
    LogicEffect(op, sl, sr, slot, w, c, x.fields, s);
    var (p, c') := LogicCode(op, sl, sr, slot, c);
    var s' := Exec(p, x.fields, s);
    MaskSlotOf(x, id, slot);
    CacheGrows(x, c, c');
    forall q | 0 <= q < 64 ensures s'.mem[slot][q] == (Meaning(x, id, q) != 0) {
      LogicLane(x, id, s.mem[sl], s.mem[sr], w, q);
    }
    MaskDone(x, k, c, c', s, s');
  }

  lemma NotLane(x: Setup, id: nat, a: Word, r: nat)
    requires SetupOk(x) && id < |x.g| && x.g[id].Not? && r < 64
    requires a[r] == (Meaning(x, x.g[id].left, r) != 0)
    ensures BitNot(a)[r] == (Meaning(x, id, r) != 0)
  {
  }

  lemma {:induction false} NotDone(x: Setup, k: nat, c: Cache, s: State)
    requires SetupOk(x) && k < |x.order| && Inv(x, k, c, s)
    requires x.order[k] !in x.skip && x.g[x.order[k]].Not?
    ensures var id := x.order[k];
            var (p, c') := NodeCode(x.g, x.lay, x.bits, id, c);
            NodeDone(x, id, c', s, Exec(p, x.fields, s))
  {
    hide Exec, Step, NotCode, SetupOk, Inv, NodeDone, Meaning, PlanesUncached, MaskSlot;
    NodeFacts(x, k);
    InvFacts(x, k, c, s);
    var id := x.order[k];
    MaskOperand(x, k, c, s, x.g[id].left);
    var sl, slot := x.lay[x.g[id].left].slot, x.lay[id].slot;
    NotEffect(sl, slot, c, x.fields, s);
    var (p, c') := NotCode(sl, slot, c);
    var s' := Exec(p, x.fields, s);
    MaskSlotOf(x, id, slot);
    CacheGrows(x, c, c');
    forall q | 0 <= q < 64 ensures s'.mem[slot][q] == (Meaning(x, id, q) != 0) {
      NotLane(x, id, s.mem[sl], q);
    }
    MaskDone(x, k, c, c', s, s');
  }

  lemma SelectLane(x: Setup, id: nat, m: Word, a: seq<Word>, b: seq<Word>, r: nat)
    requires SetupOk(x) && id < |x.g| && x.g[id].Select? && r < 64 && |a| == |b|
    requires m[r] == (Meaning(x, x.g[id].cond, r) != 0)
    requires Val(Lane(a, r)) == Meaning(x, x.g[id].left, r)
    requires Val(Lane(b, r)) == Meaning(x, x.g[id].right, r)
    ensures Val(Lane(MuxPlanes(m, a, b), r)) == Meaning(x, id, r)
  {
    MuxSelects(m, a, b, r);
  }

  lemma {:induction false} SelectDone(x: Setup, k: nat, c: Cache, s: State)
    requires SetupOk(x) && k < |x.order| && Inv(x, k, c, s)
    requires x.order[k] !in x.skip && x.g[x.order[k]].Select?
    ensures var id := x.order[k];
            var (p, c') := NodeCode(x.g, x.lay, x.bits, id, c);
            NodeDone(x, id, c', s, Exec(p, x.fields, s))
  {
    hide Exec, Step, SelectCode, PlanesOf, MuxPlanes, SetupOk, Inv, NodeDone, Meaning, PlanesUncached, MaskSlot;
    NodeFacts(x, k);
    InvFacts(x, k, c, s);
    var id, n := x.order[k], x.bits;
    var Select(cond, l, r) := x.g[id];
    PlaneOperand(x, k, c, s, l);
    PlaneOperand(x, k, c, s, r);
    MaskOperand(x, k, c, s, cond);
    var ol, or := OperandOf(x.g[l], x.lay[l]), OperandOf(x.g[r], x.lay[r]);
    var sc, dst := x.lay[cond].slot, x.lay[id].slot;
    SelectEffect(ol, or, sc, dst, n, c, x.fields, s);
    var (p, c') := SelectCode(ol, or, sc, dst, n, c);
    var s' := Exec(p, x.fields, s);
    CacheGrows(x, c, c');
    UncachedAt(x, k, c');
    var pl, pr := PlanesOf(ol, x.fields, s.mem, 0, n), PlanesOf(or, x.fields, s.mem, 0, n);
    forall q | 0 <= q < 64 ensures Val(Lane(s'.mem[dst..dst + n], q)) == Meaning(x, id, q) {
      SelectLane(x, id, s.mem[sc], pl, pr, q);
    }
    PlanesDone(x, k, c, c', s, s');
  }

  lemma UncachedAt(x: Setup, k: nat, c: Cache)
    requires SetupOk(x) && k < |x.order| && PlanesUncached(x, c)
    requires !IsMask(x.g[x.order[k]]) && !IsLeaf(x.g[x.order[k]])
    ensures forall t | t in c.regOf :: !(x.lay[x.order[k]].slot <= t < x.lay[x.order[k]].slot + x.bits)
  {
    forall t | t in c.regOf
      ensures !(x.lay[x.order[k]].slot <= t < x.lay[x.order[k]].slot + x.bits)
    {
      assert !Owns(x.g[x.order[k]], x.lay[x.order[k]], t);
    }
  }

  // --- Whole program --------------------------------------------------------------------------

  /** Writing on behalf of node k leaves every other node's result and initial masks alone. */
  lemma OthersKept(x: Setup, k: nat, j: nat, mem: seq<Word>, mem': seq<Word>)
    requires SetupOk(x) && k < |x.order| && j < |x.order| && j != k && |mem'| == |mem| >= SLOTS
    requires forall w | 0 <= w < |mem| && !Owns(x.g[x.order[k]], x.lay[x.order[k]], w) :: mem'[w] == mem[w]
    ensures PlacedAlone(x.g[x.order[j]], x.lay[x.order[j]])
    ensures Holds(x, x.order[j], mem) ==> Holds(x, x.order[j], mem')
    ensures Primed(x.g[x.order[j]], x.lay[x.order[j]], mem) ==> Primed(x.g[x.order[j]], x.lay[x.order[j]], mem')
  {
    hide Meaning;
    var n, m := x.g[x.order[j]], x.lay[x.order[j]];
    assert PlacedAlone(n, m);
    forall w | Owns(n, m, w) ensures mem'[w] == mem[w] {
      assert !Owns(x.g[x.order[k]], x.lay[x.order[k]], w);
    }
    if !IsLeaf(n) && !IsMask(n) {
      assert mem'[m.slot..m.slot + x.bits] == mem[m.slot..m.slot + x.bits];
    }
  }

  lemma {:induction false} NodeAdvances(x: Setup, k: nat, c: Cache, c': Cache, s: State, s': State)
    requires SetupOk(x) && k < |x.order| && Inv(x, k, c, s)
    requires PlacedAlone(x.g[x.order[k]], x.lay[x.order[k]]) && NodeDone(x, x.order[k], c', s, s')
    ensures Inv(x, k + 1, c', s')
  {
    hide Holds, Primed, PlanesUncached, Coherent, Valid, AllEmittable, SkipClosed, Feeds;
    forall j | 0 <= j < k + 1 && x.order[j] !in x.skip
      ensures PlacedAlone(x.g[x.order[j]], x.lay[x.order[j]]) && Holds(x, x.order[j], s'.mem)
    {
      if j < k {
        OthersKept(x, k, j, s.mem, s'.mem);
      }
    }
    forall j | k + 1 <= j < |x.order|
      ensures Primed(x.g[x.order[j]], x.lay[x.order[j]], s'.mem)
    {
      OthersKept(x, k, j, s.mem, s'.mem);
    }
  }

  /** One turn of the emission loop. */
  lemma {:induction false} NodeCorrect(x: Setup, k: nat, c: Cache, s: State)
    requires SetupOk(x) && k < |x.order| && Inv(x, k, c, s) && x.order[k] !in x.skip
    ensures var (p, c') := NodeCode(x.g, x.lay, x.bits, x.order[k], c);
            Inv(x, k + 1, c', Exec(p, x.fields, s))
  {
    hide Exec, Step, Inv, SetupOk, NodeCode, NodeDone;
    NodeFacts(x, k);
    InvFacts(x, k, c, s);
    var id := x.order[k];
    var (p, c') := NodeCode(x.g, x.lay, x.bits, id, c);
    match x.g[id] {
      case Load(_) => LeafDone(x, k, c, s);
      case Const(_) => LeafDone(x, k, c, s);
      case Add(_, _) => AdderDone(x, k, c, s);
      case Sub(_, _) => AdderDone(x, k, c, s);
      case Compare(_, _, _) => CompareDone(x, k, c, s);
      case And(_, _) => LogicDone(x, k, c, s);
      case Or(_, _) => LogicDone(x, k, c, s);
      case Not(_) => NotDone(x, k, c, s);
      case Select(_, _, _) => SelectDone(x, k, c, s);
    }
    NodeAdvances(x, k, c, c', s, Exec(p, x.fields, s));
  }

  lemma LeafDone(x: Setup, k: nat, c: Cache, s: State)
    requires SetupOk(x) && k < |x.order| && Inv(x, k, c, s)
    requires x.order[k] !in x.skip && IsLeaf(x.g[x.order[k]])
    ensures var id := x.order[k];
            var (p, c') := NodeCode(x.g, x.lay, x.bits, id, c);
            NodeDone(x, id, c', s, Exec(p, x.fields, s))
  {
  }

  lemma SkipAdvances(x: Setup, k: nat, c: Cache, s: State)
    requires SetupOk(x) && k < |x.order| && Inv(x, k, c, s) && x.order[k] in x.skip
    ensures Inv(x, k + 1, c, s)
  {
    hide Holds, Primed, PlanesUncached, Coherent, Valid, AllEmittable, SkipClosed, Feeds;
  }

  /** All remaining nodes. */
  lemma {:induction false} BodyCorrect(x: Setup, k: nat, c: Cache, s: State) returns (c': Cache)
    requires SetupOk(x) && k <= |x.order| && Inv(x, k, c, s)
    ensures AllEmittable(x.g, x.lay, x.order[k..], x.skip) && CacheOk(c)
    ensures Inv(x, |x.order|, c', Exec(BodyCode(x.g, x.lay, x.bits, x.order[k..], x.skip, c), x.fields, s))
    decreases |x.order| - k
  {
    hide Step, Inv, NodeCode, Valid, Topological, Disjoint, SkipClosed, Feeds;
    assert CacheOk(c) by { CacheOfInv(x, k, c, s); }
    var rest := x.order[k..];
    if k == |x.order| {
      c' := c;
    } else {
      assert rest[1..] == x.order[k + 1..];
      if x.order[k] in x.skip {
        SkipAdvances(x, k, c, s);
        c' := BodyCorrect(x, k + 1, c, s);
      } else {
        NodeCorrect(x, k, c, s);
        var (p, c1) := NodeCode(x.g, x.lay, x.bits, x.order[k], c);
        c' := BodyCorrect(x, k + 1, c1, Exec(p, x.fields, s));
        ExecConcat(p, BodyCode(x.g, x.lay, x.bits, rest[1..], x.skip, c1), x.fields, s);
      }
    }
  }

  lemma CacheOfInv(x: Setup, k: nat, c: Cache, s: State)
    requires SetupOk(x) && k <= |x.order| && Inv(x, k, c, s)
    ensures CacheOk(c)
  {
  }

  // --- Prologue and epilogue ------------------------------------------------------------------

  lemma {:induction false} ClearCarriesEffect(k: nat, fields: seq<Block>, s: State)
    requires k <= 6 && s.Running?
    ensures var s' := Exec(ClearCarries(k), fields, s); s'.Running? && s'.mem == s.mem
    decreases 6 - k
  {
    if k < 6 {
      Exec1(MovImm(CarryBase + k, Zero()), fields, s);
      ExecConcat([MovImm(CarryBase + k, Zero())], ClearCarries(k + 1), fields, s);
      ClearCarriesEffect(k + 1, fields, Put(s, CarryBase + k, Data(Zero())));
    }
  }

  /** One word of the scratchpad set from a constant. */
  lemma {:induction false} StoreConstEffect(slot: nat, ones: bool, fields: seq<Block>, s: State)
    requires s.Running? && slot < |s.mem|
    ensures var p := if ones then [MovOff(TempPtr, slot), MovImm(Scratch1, Ones()), StrScratch(Scratch1, TempPtr)]
                     else [MovOff(TempPtr, slot), StrZero(TempPtr)];
            var s' := Exec(p, fields, s);
            s'.Running? && s'.mem == s.mem[slot := if ones then Ones() else Zero()]
  {
    if ones {
      Exec3(MovOff(TempPtr, slot), MovImm(Scratch1, Ones()), StrScratch(Scratch1, TempPtr), fields, s);
    } else {
      Exec2(MovOff(TempPtr, slot), StrZero(TempPtr), fields, s);
    }
  }

  lemma {:induction false} InitNodeEffect(n: Node, m: Meta, fields: seq<Block>, s: State)
    requires s.Running? && |s.mem| >= SLOTS && PlacedAlone(n, m)
    ensures var s' := Exec(InitNode(n, m), fields, s);
            && s'.Running? && |s'.mem| == |s.mem| && Primed(n, m, s'.mem)
            && forall w | 0 <= w < |s.mem| && !Owns(n, m, w) :: s'.mem[w] == s.mem[w]
  {
    hide Exec, Step;
    var p0 := if n.Sub? && 0 <= m.carry < 6 then [MovImm(CarryBase + m.carry, One())] else [];
    var p1 := if IsMask(n) then [MovOff(TempPtr, m.slot), StrZero(TempPtr)] else [];
    var p2 := if n.Compare? then [MovOff(TempPtr, m.eqSlot), MovImm(Scratch1, Ones()), StrScratch(Scratch1, TempPtr)] else [];
    assert InitNode(n, m) == p0 + (p1 + p2);
    SeedEffect(n, m, fields, s);
    var s0 := Exec(p0, fields, s);
    ExecConcat(p0, p1 + p2, fields, s);
    ExecConcat(p1, p2, fields, s0);
    ExecNone(fields, s0);
    if IsMask(n) {
      StoreConstEffect(m.slot, false, fields, s0);
    }
    var s1 := Exec(p1, fields, s0);
    ExecNone(fields, s1);
    if n.Compare? {
      StoreConstEffect(m.eqSlot, true, fields, s1);
    }
  }

  lemma ExecNone(fields: seq<Block>, s: State)
    ensures Exec([], fields, s) == s
  {
  }

  lemma {:induction false} SeedEffect(n: Node, m: Meta, fields: seq<Block>, s: State)
    requires s.Running?
    ensures var p := if n.Sub? && 0 <= m.carry < 6 then [MovImm(CarryBase + m.carry, One())] else [];
            var s' := Exec(p, fields, s);
            s'.Running? && s'.mem == s.mem
  {
    if n.Sub? && 0 <= m.carry < 6 {
      Exec1(MovImm(CarryBase + m.carry, One()), fields, s);
    }
  }

  ghost predicate AllPrimed(x: Setup, k: nat, mem: seq<Word>)
    requires SetupOk(x) && k <= |x.order|
  {
    forall j | 0 <= j < k :: Primed(x.g[x.order[j]], x.lay[x.order[j]], mem)
  }

  /** The prologue primes every comparator, whatever the scratchpad held. */
  lemma {:induction false} InitCorrect(x: Setup, k: nat, s: State)
    requires SetupOk(x) && k <= |x.order| && s.Running? && |s.mem| >= SLOTS && AllPrimed(x, k, s.mem)
    ensures forall i | 0 <= i < |x.order[k..]| :: x.order[k..][i] < |x.g|
    ensures var s' := Exec(InitCode(x.g, x.lay, x.order[k..]), x.fields, s);
            s'.Running? && |s'.mem| == |s.mem| && AllPrimed(x, |x.order|, s'.mem)
    decreases |x.order| - k
  {
    hide Step, InitNode, Primed, Valid, AllEmittable, SkipClosed, Feeds;
    if k < |x.order| {
      var id := x.order[k];
      assert x.order[k..][1..] == x.order[k + 1..];
      InitNodeEffect(x.g[id], x.lay[id], x.fields, s);
      var s1 := Exec(InitNode(x.g[id], x.lay[id]), x.fields, s);
      forall j | 0 <= j < k + 1 ensures Primed(x.g[x.order[j]], x.lay[x.order[j]], s1.mem) {
        if j < k {
          OthersKept(x, k, j, s.mem, s1.mem);
        }
      }
      InitCorrect(x, k + 1, s1);
      ExecConcat(InitNode(x.g[id], x.lay[id]), InitCode(x.g, x.lay, x.order[k + 1..]), x.fields, s);
    }
  }

  lemma {:induction false} CopyStep(slot: nat, i: nat, fields: seq<Block>, s: State)
    requires s.Running? && i < 64 && slot + 64 <= |s.mem| && s.regs[TempPtr] == Offset(slot + i)
    ensures Exec([LdrScratch(Result, TempPtr), StrWord(Result, i), AddOff(TempPtr, 1)], fields, s)
         == Running(s.regs[Result := Data(s.mem[slot + i])][TempPtr := Offset(slot + i + 1)],
                    s.mem[i := s.mem[slot + i]])
  {
    Exec3(LdrScratch(Result, TempPtr), StrWord(Result, i), AddOff(TempPtr, 1), fields, s);
  }

  /** The root block is copied to the front, however the two overlap. */
  lemma {:induction false} CopyOutEffect(slot: nat, i: nat, fields: seq<Block>, s: State)
    requires s.Running? && i <= 64 && slot + 64 <= |s.mem| && s.regs[TempPtr] == Offset(slot + i)
    ensures var s' := Exec(CopyOut(i), fields, s);
            && s'.Running? && |s'.mem| == |s.mem|
            && s'.mem[..i] == s.mem[..i]
            && s'.mem[i..64] == s.mem[slot + i..slot + 64]
            && s'.mem[64..] == s.mem[64..]
    decreases 64 - i
  {
    hide Step;
    if i < 64 {
      var p := [LdrScratch(Result, TempPtr), StrWord(Result, i), AddOff(TempPtr, 1)];
      CopyStep(slot, i, fields, s);
      ExecConcat(p, CopyOut(i + 1), fields, s);
      var s1 := Exec(p, fields, s);
      CopyOutEffect(slot, i + 1, fields, s1);
      var s' := Exec(CopyOut(i + 1), fields, s1);
      assert s'.mem[i] == s1.mem[i] by { assert s'.mem[..i + 1][i] == s1.mem[..i + 1][i]; }
      assert s'.mem[..i] == s'.mem[..i + 1][..i];
      assert s'.mem[i..64] == [s'.mem[i]] + s'.mem[i + 1..64];
    }
  }

  /** The returned word, and for a plane root the copied block. */
  lemma {:induction false} FinalEffect(n: Node, m: Meta, skipped: bool, fields: seq<Block>, s: State)
    requires s.Running? && |s.mem| >= SLOTS && PlacedAlone(n, m) && !IsLeaf(n)
    ensures var s' := Exec(FinalCode(n, m, skipped), fields, s);
            && s'.Running? && |s'.mem| == |s.mem|
            && (skipped ==> s'.mem == s.mem && s'.regs[Result0] == Data(Zero()))
            && (!skipped && IsMask(n) ==> s'.mem == s.mem && s'.regs[Result0] == Data(s.mem[m.slot]))
            && (!skipped && !IsMask(n) ==>
                  && s'.mem[..64] == s.mem[m.slot..m.slot + 64] && s'.mem[64..] == s.mem[64..]
                  && s'.regs[Result0] == Data(Zero()))
  {
    if skipped {
      Exec1(MovImm(Result0, Zero()), fields, s);
    } else if IsMask(n) {
      Exec2(MovOff(TempPtr, m.slot), LdrScratch(Result0, TempPtr), fields, s);
    } else {
      CopyFinal(m.slot, fields, s);
    }
  }

  lemma {:induction false} CopyFinal(slot: nat, fields: seq<Block>, s: State)
    requires s.Running? && slot + 64 <= |s.mem|
    ensures var s' := Exec([MovOff(TempPtr, slot)] + CopyOut(0) + [MovImm(Result0, Zero())], fields, s);
            && s'.Running? && |s'.mem| == |s.mem|
            && s'.mem[..64] == s.mem[slot..slot + 64] && s'.mem[64..] == s.mem[64..]
            && s'.regs[Result0] == Data(Zero())
  {
    hide CopyOut;
    var p, q := [MovOff(TempPtr, slot)], [MovImm(Result0, Zero())];
    ExecConcat(p + CopyOut(0), q, fields, s);
    ExecConcat(p, CopyOut(0), fields, s);
    Exec1(p[0], fields, s);
    var s1 := Put(s, TempPtr, Offset(slot));
    CopyOutEffect(slot, 0, fields, s1);
    var s2 := Exec(CopyOut(0), fields, s1);
    Exec1(q[0], fields, s2);
    assert s2.mem[0..64] == s2.mem[..64];
  }

  /**
   The final code leaves a node's words alone: it copies nothing, or copies a block onto itself, or
   overwrites only words below the node's.
   */
  predicate Spared(g: Graph, lay: Layout, skip: set<nat>, root: nat, id: nat)
    requires |lay| == |g| && root < |g| && id < |g|
  {
    root in skip || IsMask(g[root]) || lay[root].slot == 0 || lay[id].slot >= 64
  }

  /** The result of every emitted node that the final code spares is in place. */
  ghost predicate AllHold(x: Setup, root: nat, mem: seq<Word>)
    requires SetupOk(x) && root < |x.g| && |mem| >= SLOTS
  {
    forall i | 0 <= i < |x.order| && x.order[i] !in x.skip && Spared(x.g, x.lay, x.skip, root, x.order[i]) ::
      Holds(x, x.order[i], mem)
  }

  /** What the caller of a kernel sees. */
  ghost predicate Delivers(x: Setup, root: nat, s: State)
    requires SetupOk(x) && root < |x.g|
  {
    && s.Running? && |s.mem| >= SLOTS && s.regs[Result0].Data? && AllHold(x, root, s.mem)
    && (root in x.skip ==> s.regs[Result0] == Data(Zero()))
    && (root !in x.skip && IsMask(x.g[root]) ==>
          forall r | 0 <= r < 64 :: s.regs[Result0].w[r] == (Meaning(x, root, r) != 0))
    && (root !in x.skip && !IsMask(x.g[root]) ==>
          && s.regs[Result0] == Data(Zero())
          && forall r | 0 <= r < 64 :: Val(Lane(s.mem[..x.bits], r)) == Meaning(x, root, r))
  }

  lemma NestedSlice(mem: seq<Word>, i: nat, n: nat)
    requires n <= 64 && i + 64 <= |mem|
    ensures mem[i..i + 64][..n] == mem[i..i + n]
  {
  }

  lemma {:induction false} BodyDelivers(x: Setup, root: nat, c: Cache, s: State)
    requires SetupOk(x) && Inv(x, |x.order|, c, s) && Member(x, root) && root < |x.g| && !IsLeaf(x.g[root])
    ensures PlacedAlone(x.g[root], x.lay[root])
    ensures Delivers(x, root, Exec(FinalCode(x.g[root], x.lay[root], root in x.skip), x.fields, s))
  {
    hide Exec, Step, FinalCode, Meaning, PlanesUncached, Coherent, Holds;
    var j :| 0 <= j < |x.order| && x.order[j] == root;
    var m := x.lay[root];
    assert PlacedAlone(x.g[root], m);
    FinalEffect(x.g[root], m, root in x.skip, x.fields, s);
    if root !in x.skip && !IsMask(x.g[root]) {
      var s' := Exec(FinalCode(x.g[root], m, false), x.fields, s);
      assert Holds(x, x.order[j], s.mem);
      CopiedRoot(x, root, s.mem, s'.mem);
      forall i | 0 <= i < |x.order| && x.order[i] !in x.skip && Spared(x.g, x.lay, x.skip, root, x.order[i])
        ensures Holds(x, x.order[i], s'.mem)
      {
        CopySpares(x, root, x.order[i], s.mem, s'.mem);
      }
    } else if root !in x.skip {
      assert Holds(x, x.order[j], s.mem);
      MaskRoot(x, root, s.mem);
    }
  }

  lemma MaskRoot(x: Setup, root: nat, mem: seq<Word>)
    requires SetupOk(x) && root < |x.g| && PlacedAlone(x.g[root], x.lay[root]) && IsMask(x.g[root])
    requires |mem| >= SLOTS && Holds(x, root, mem)
    ensures forall r | 0 <= r < 64 :: mem[x.lay[root].slot][r] == (Meaning(x, root, r) != 0)
  {
    hide Meaning, SetupOk;
  }

  /** The copied block denotes the root's value. */
  lemma {:induction false} CopiedRoot(x: Setup, root: nat, mem: seq<Word>, mem': seq<Word>)
    requires SetupOk(x) && root < |x.g| && PlacedAlone(x.g[root], x.lay[root]) && !IsLeaf(x.g[root]) && !IsMask(x.g[root])
    requires |mem| == |mem'| >= SLOTS && Holds(x, root, mem)
    requires mem'[..64] == mem[x.lay[root].slot..x.lay[root].slot + 64]
    ensures forall r | 0 <= r < 64 :: Val(Lane(mem'[..x.bits], r)) == Meaning(x, root, r)
  {
    hide Val, Meaning, SetupOk;
    SetupShape(x);
    NestedSlice(mem, x.lay[root].slot, x.bits);
    assert mem'[..x.bits] == mem'[..64][..x.bits];
  }

  lemma SetupShape(x: Setup)
    requires SetupOk(x)
    ensures x.bits <= 64 && |x.lay| == |x.g| && |x.rows| == 64
  {
  }

  /** A node whose words the copy spares keeps its result. */
  lemma {:induction false} CopySpares(x: Setup, root: nat, id: nat, mem: seq<Word>, mem': seq<Word>)
    requires SetupOk(x) && root < |x.g| && id < |x.g| && PlacedAlone(x.g[root], x.lay[root]) && PlacedAlone(x.g[id], x.lay[id])
    requires !IsLeaf(x.g[root]) && !IsMask(x.g[root])
    requires |mem| == |mem'| >= SLOTS && Holds(x, id, mem)
    requires mem'[..64] == mem[x.lay[root].slot..x.lay[root].slot + 64] && mem'[64..] == mem[64..]
    requires x.lay[root].slot == 0 || x.lay[id].slot >= 64
    ensures Holds(x, id, mem')
  {
    hide Val, Meaning, SetupOk;
    SetupShape(x);
    if x.lay[root].slot == 0 {
      assert mem' == mem'[..64] + mem'[64..] && mem == mem[..64] + mem[64..];
      assert mem[0..64] == mem[..64];
      assert mem' == mem;
    } else if !IsLeaf(x.g[id]) {
      var at := x.lay[id].slot;
      assert forall w | 64 <= w < |mem| :: mem'[w] == mem'[64..][w - 64] && mem[w] == mem[64..][w - 64];
      if !IsMask(x.g[id]) {
        assert mem'[at..at + x.bits] == mem[at..at + x.bits];
      }
    }
  }

  /**
   What is left of a node in the first 64 words when the root's block is copied over it: the node
   still reads as its own value exactly when the root's planes happen to spell it.
   */
  lemma {:induction false} OverwrittenHolds(x: Setup, root: nat, s: State, id: nat)
    requires SetupOk(x) && root < |x.g| && Delivers(x, root, s) && root !in x.skip && !IsMask(x.g[root])
    requires id < |x.g| && PlacedAlone(x.g[id], x.lay[id]) && !IsLeaf(x.g[id]) && x.lay[id].slot < x.bits
    ensures IsMask(x.g[id]) ==>
              (Holds(x, id, s.mem) <==>
               forall r | 0 <= r < 64 :: (Meaning(x, id, r) != 0) == Bits(Meaning(x, root, r), x.bits)[x.lay[id].slot])
    ensures !IsMask(x.g[id]) ==>
              (Holds(x, id, s.mem) <==> forall r | 0 <= r < 64 :: Meaning(x, id, r) == Meaning(x, root, r))
  {
    hide Val, Meaning, SetupOk, AllHold, Bits;
    SetupShape(x);
    var at := x.lay[id].slot;
    forall r | 0 <= r < 64 ensures Bits(Meaning(x, root, r), x.bits) == Lane(s.mem[..x.bits], r) {
      BitsOfVal(Lane(s.mem[..x.bits], r));
    }
    if IsMask(x.g[id]) {
      assert forall r | 0 <= r < 64 :: s.mem[at][r] == Lane(s.mem[..x.bits], r)[at];
    } else {
      assert at == 0 && s.mem[0..x.bits] == s.mem[..x.bits];
    }
  }

  /**
   Compiler correctness. From any registers and any scratchpad contents the kernel runs without
   a fault and delivers the root's value; every emitted node that the final copy spares is left
   where it was placed. The copied block never overlaps its source in part.
   */
  lemma {:induction false} KernelCorrect(x: Setup, root: nat, regs: Regs, mem: seq<Word>)
    requires SetupOk(x) && Member(x, root) && root < |x.g| && !IsLeaf(x.g[root]) && |mem| >= SLOTS
    ensures root in x.skip || x.lay[root].slot >= 0
    ensures !IsMask(x.g[root]) ==> x.lay[root].slot == 0 || x.lay[root].slot >= 64
    ensures Delivers(x, root, Exec(KernelCode(x.g, x.lay, x.bits, x.order, x.skip, root), x.fields, Running(regs, mem)))
  {
    hide Exec, Step, FinalCode, InitCode, BodyCode, ClearCarries, Delivers, Valid, Disjoint, SkipClosed, Feeds;
    var s := Running(regs, mem);
    assert x.order[0..] == x.order;
    var p0, p1 := ClearCarries(0), InitCode(x.g, x.lay, x.order);
    var p2 := BodyCode(x.g, x.lay, x.bits, x.order, x.skip, EmptyCache());
    ClearCarriesEffect(0, x.fields, s);
    var s0 := Exec(p0, x.fields, s);
    InitCorrect(x, 0, s0);
    var s1 := Exec(p1, x.fields, s0);
    InvAtStart(x, s1);
    var c := BodyCorrect(x, 0, EmptyCache(), s1);
    var s2 := Exec(p2, x.fields, s1);
    BodyDelivers(x, root, c, s2);
    var p3 := FinalCode(x.g[root], x.lay[root], root in x.skip);
    ExecConcat(p0 + p1 + p2, p3, x.fields, s);
    ExecConcat(p0 + p1, p2, x.fields, s);
    ExecConcat(p0, p1, x.fields, s);
  }

  lemma InvAtStart(x: Setup, s: State)
    requires SetupOk(x) && s.Running? && |s.mem| >= SLOTS && AllPrimed(x, |x.order|, s.mem)
    ensures Inv(x, 0, EmptyCache(), s)
  {
  }
}
