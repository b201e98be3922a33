/**
 The emission pass as the compiler runs it: instructions are appended to a buffer while the
 register cache is updated in place. Each method lays down exactly the code its specification names.
 */
module Emitting {
  import opened Words
  import opened Ir
  import opened Machine
  import E = Emission
  import opened Emission

  lemma Assoc(a: Code, b: Code, c: Code)
    ensures (a + b) + c == a + (b + c)
  {
  }

  class Emitter {
    var code: Code
    var regOf: map<int, nat>
    var slotOf: seq<int>
    var next: nat

    ghost function CacheNow(): Cache
      reads this
    {
      Cache(regOf, slotOf, next)
    }

    constructor ()
      ensures code == [] && CacheNow() == EmptyCache()
    {
      code := [];
      regOf, slotOf, next := map[], [-1, -1, -1, -1, -1, -1, -1, -1], 0;
    }

    method Emit(i: Instr)
      modifies this`code
      ensures code == old(code) + [i]
    {
      code := code + [i];
    }

    method EmitAll(p: Code)
      modifies this`code
      ensures code == old(code) + p
    {
      code := code + p;
    }

    /** A register for a slot that has none: the next one round robin, whose owner is evicted. */
    method Claim(slot: nat) returns (r: nat)
      requires CacheOk(CacheNow()) && slot !in regOf
      modifies this`regOf, this`slotOf, this`next
      ensures CacheNow() == Install(old(CacheNow()), slot) && r < 8 && r == regOf[slot]
    {
      r := next;
      next := (next + 1) % 8;
      var evicted := slotOf[r];
      if evicted != -1 {
        regOf := regOf - {evicted};
      }
      regOf := regOf[slot := r];
      slotOf := slotOf[r := slot];
    }

    method StoreSlot(slot: nat, v: Reg)
      requires CacheOk(CacheNow())
      modifies this
      ensures var e := E.StoreSlot(old(CacheNow()), slot, v);
              code == old(code) + e.0 && CacheNow() == e.1
    {
      Emit(MovOff(TempPtr, slot));
      Emit(StrScratch(v, TempPtr));
      var r;
      if slot in regOf {
        r := regOf[slot];
      } else {
        r := Claim(slot);
      }
      Emit(Mov(CacheBase + r, v));
    }

    method LoadSlot(slot: nat, d: Reg)
      requires CacheOk(CacheNow())
      modifies this
      ensures var e := E.LoadSlot(old(CacheNow()), slot, d);
              code == old(code) + e.0 && CacheNow() == e.1
    {
      if slot in regOf {
        Emit(Mov(d, CacheBase + regOf[slot]));
      } else {
        Emit(MovOff(TempPtr, slot));
        Emit(LdrScratch(d, TempPtr));
        var r := Claim(slot);
        Emit(Mov(CacheBase + r, d));
      }
    }

    method Adder(l: Operand, r: Operand, sub: bool, carry: Reg, slot: nat, bits: nat)
      requires bits <= 64
      modifies this`code
      ensures code == old(code) + AddCode(l, r, sub, carry, slot, bits)
    {
      hide AddBits, Hoist, One, Zero;
      Emit(MovImm(carry, if sub then One() else Zero()));
      EmitAll(Hoist(l, HoistL) + Hoist(r, HoistR));
      EmitAll([MovOff(TempPtr, slot), AddBase(TempPtr)]);
      ghost var p := [MovImm(carry, if sub then One() else Zero())] + (Hoist(l, HoistL) + Hoist(r, HoistR))
                     + [MovOff(TempPtr, slot), AddBase(TempPtr)];
      assert code == old(code) + p;
      AdderLoop(l, r, sub, carry, bits);
      Assoc(old(code), p, AddBits(l, r, sub, carry, 0, bits));
    }

    /** From the bottom plane up. */
    method AdderLoop(l: Operand, r: Operand, sub: bool, carry: Reg, bits: nat)
      requires bits <= 64
      modifies this`code
      ensures code == old(code) + AddBits(l, r, sub, carry, 0, bits)
    {
      hide AddBit;
      for bit := 0 to bits
        invariant code + AddBits(l, r, sub, carry, bit, bits) == old(code) + AddBits(l, r, sub, carry, 0, bits)
      {
        Assoc(code, AddBit(l, r, sub, carry, bit), AddBits(l, r, sub, carry, bit + 1, bits));
        AdderBit(l, r, sub, carry, bit);
      }
    }

    method AdderBit(l: Operand, r: Operand, sub: bool, carry: Reg, bit: nat)
      requires bit < 64
      modifies this`code
      ensures code == old(code) + AddBit(l, r, sub, carry, bit)
    {
      hide LoadPlane;
      Emit(LoadPlane(l, HoistL, PlaneA, bit));
      Emit(LoadPlane(r, HoistR, PlaneB, bit));
      if sub {
        Emit(Mvn(PlaneB, PlaneB));
      }
      EmitAll([Eor(Result, PlaneA, PlaneB), Eor(Scratch1, Result, carry), AndR(PlaneA, PlaneA, PlaneB)]);
      EmitAll([AndR(Result, Result, carry), Orr(carry, PlaneA, Result), StrAt(Scratch1, TempPtr, bit)]);
    }

    method Comparator(l: Operand, r: Operand, rel: Relation, slot: nat, eqSlot: nat, bits: nat)
      requires CacheOk(CacheNow()) && bits <= 64
      modifies this
      ensures var e := CompareCode(l, r, rel, slot, eqSlot, bits, old(CacheNow()));
              code == old(code) + e.0 && CacheNow() == e.1
    {
      hide ScanCode, SettleCode, CacheOk;
      ScanMasks(l, r, rel, slot, eqSlot, bits);
      Settle(rel, slot, eqSlot);
      assert code == old(code) + CompareCode(l, r, rel, slot, eqSlot, bits, old(CacheNow())).0;
    }

    method ScanMasks(l: Operand, r: Operand, rel: Relation, slot: nat, eqSlot: nat, bits: nat)
      requires CacheOk(CacheNow()) && bits <= 64
      modifies this
      ensures var e := ScanCode(l, r, rel, slot, eqSlot, bits, old(CacheNow()));
              code == old(code) + e.0 && CacheNow() == e.1
    {
      hide E.LoadSlot, CompareBits, E.Hoist, CacheOk;
      LoadSlot(eqSlot, MaskEq);
      LoadSlot(slot, MaskGt);
      EmitAll(Hoist(l, HoistL) + Hoist(r, HoistR));
      CompareLoop(l, r, rel, bits);
      assert code == old(code) + ScanCode(l, r, rel, slot, eqSlot, bits, old(CacheNow())).0;
    }

    method Settle(rel: Relation, slot: nat, eqSlot: nat)
      requires CacheOk(CacheNow())
      modifies this
      ensures var e := SettleCode(rel, slot, eqSlot, old(CacheNow()));
              code == old(code) + e.0 && CacheNow() == e.1
    {
      hide E.StoreSlot, CacheOk, MergeEqual;
      StoreSlot(slot, MaskGt);
      StoreSlot(eqSlot, MaskEq);
      Merge(rel, slot, eqSlot);
      assert code == old(code) + SettleCode(rel, slot, eqSlot, old(CacheNow())).0;
    }

    method Merge(rel: Relation, slot: nat, eqSlot: nat)
      requires CacheOk(CacheNow())
      modifies this
      ensures var e := MergeEqual(rel, slot, eqSlot, old(CacheNow()));
              code == old(code) + e.0 && CacheNow() == e.1
    {
      if !rel.GT? && !rel.LT? {
        Logic(if rel.EQ? then Mov(Result, PlaneB) else Orr(Result, PlaneA, PlaneB), slot, eqSlot, slot);
      }
    }

    /** From the top plane down. */
    method CompareLoop(l: Operand, r: Operand, rel: Relation, bits: nat)
      requires bits <= 64
      modifies this`code
      ensures code == old(code) + CompareBits(l, r, rel, bits)
    {
      hide CompareBit;
      for bit := bits downto 0
        invariant code + CompareBits(l, r, rel, bit) == old(code) + CompareBits(l, r, rel, bits)
      {
        Assoc(code, CompareBit(l, r, rel, bit), CompareBits(l, r, rel, bit));
        ComparatorBit(l, r, rel, bit);
      }
    }

    method ComparatorBit(l: Operand, r: Operand, rel: Relation, bit: nat)
      requires bit < 64
      modifies this`code
      ensures code == old(code) + CompareBit(l, r, rel, bit)
    {
      hide LoadPlane;
      if Swapped(rel) {
        EmitAll([LoadPlane(r, HoistR, PlaneA, bit), LoadPlane(l, HoistL, PlaneB, bit)]);
      } else {
        EmitAll([LoadPlane(l, HoistL, PlaneA, bit), LoadPlane(r, HoistR, PlaneB, bit)]);
      }
      EmitAll([Bic(Result, PlaneA, PlaneB), AndR(Result, Result, MaskEq), Orr(MaskGt, MaskGt, Result)]);
      EmitAll([Eor(Result, PlaneA, PlaneB), Bic(MaskEq, MaskEq, Result)]);
    }

    method Logic(op: Instr, left: nat, right: nat, slot: nat)
      requires CacheOk(CacheNow())
      modifies this
      ensures var e := LogicCode(op, left, right, slot, old(CacheNow()));
              code == old(code) + e.0 && CacheNow() == e.1
    {
      hide E.LoadSlot, E.StoreSlot, CacheOk;
      LoadSlot(left, PlaneA);
      LoadSlot(right, PlaneB);
      Emit(op);
      StoreSlot(slot, Result);
      assert code == old(code) + LogicCode(op, left, right, slot, old(CacheNow())).0;
    }

    method Inverter(left: nat, slot: nat)
      requires CacheOk(CacheNow())
      modifies this
      ensures var e := NotCode(left, slot, old(CacheNow()));
              code == old(code) + e.0 && CacheNow() == e.1
    {
      LoadSlot(left, PlaneA);
      Emit(Mvn(Result, PlaneA));
      StoreSlot(slot, Result);
    }

    method Selector(l: Operand, r: Operand, cond: nat, slot: nat, bits: nat)
      requires CacheOk(CacheNow())
      modifies this
      ensures var e := SelectCode(l, r, cond, slot, bits, old(CacheNow()));
              code == old(code) + e.0 && CacheNow() == e.1
    {
      hide E.LoadSlot, SelectBits, CacheOk;
      LoadSlot(cond, MaskGt);
      SelectLoop(l, r, slot, bits);
      assert code == old(code) + SelectCode(l, r, cond, slot, bits, old(CacheNow())).0;
    }

    method SelectLoop(l: Operand, r: Operand, slot: nat, bits: nat)
      modifies this`code
      ensures code == old(code) + SelectBits(l, r, slot, 0, bits)
    {
      hide SelectBit;
      for bit := 0 to bits
        invariant code + SelectBits(l, r, slot, bit, bits) == old(code) + SelectBits(l, r, slot, 0, bits)
      {
        Assoc(code, SelectBit(l, r, slot, bit), SelectBits(l, r, slot, bit + 1, bits));
        SelectorBit(l, r, slot, bit);
      }
    }

    method SelectorBit(l: Operand, r: Operand, slot: nat, bit: nat)
      modifies this`code
      ensures code == old(code) + SelectBit(l, r, slot, bit)
    {
      hide LoadIndexed;
      Emit(MovOff(BitIndex, bit));
      EmitAll(LoadIndexed(l, PlaneA));
      EmitAll(LoadIndexed(r, PlaneB));
      EmitAll([AndR(Scratch1, MaskGt, PlaneA), Bic(TempPtr, PlaneB, MaskGt), Orr(Scratch1, Scratch1, TempPtr)]);
      EmitAll([MovOff(TempPtr, slot + bit), StrScratch(Scratch1, TempPtr)]);
    }

    method EmitNode(g: Graph, lay: Layout, bits: nat, id: nat)
      requires Emittable(g, lay, id) && CacheOk(CacheNow()) && bits <= 64
      modifies this
      ensures var e := NodeCode(g, lay, bits, id, old(CacheNow()));
              code == old(code) + e.0 && CacheNow() == e.1
    {
      hide AddCode, CompareCode, LogicCode, NotCode, SelectCode, CacheOk;
      match g[id] {
        case Load(_) =>
        case Const(_) =>
        case Sum(_) =>
        case Add(l, r) =>
          Adder(OperandOf(g[l], lay[l]), OperandOf(g[r], lay[r]), false, CarryBase + lay[id].carry, lay[id].slot, bits);
        case Sub(l, r) =>
          Adder(OperandOf(g[l], lay[l]), OperandOf(g[r], lay[r]), true, CarryBase + lay[id].carry, lay[id].slot, bits);
        case Compare(rel, l, r) =>
          Comparator(OperandOf(g[l], lay[l]), OperandOf(g[r], lay[r]), rel, lay[id].slot, lay[id].eqSlot, bits);
        case And(l, r) => Logic(AndR(Result, PlaneA, PlaneB), lay[l].slot, lay[r].slot, lay[id].slot);
        case Or(l, r) => Logic(Orr(Result, PlaneA, PlaneB), lay[l].slot, lay[r].slot, lay[id].slot);
        case Not(l) => Inverter(lay[l].slot, lay[id].slot);
        case Select(cond, l, r) =>
          Selector(OperandOf(g[l], lay[l]), OperandOf(g[r], lay[r]), lay[cond].slot, lay[id].slot, bits);
      }
    }

    method EmitInit(g: Graph, lay: Layout, order: seq<nat>)
      requires |lay| == |g| && forall i | 0 <= i < |order| :: order[i] < |g|
      modifies this`code
      ensures code == old(code) + ClearCarries(0) + InitCode(g, lay, order)
    {
      hide InitNode, Zero;
      for k := 0 to 6
        invariant code + ClearCarries(k) == old(code) + ClearCarries(0)
      {
        Assoc(code, [MovImm(CarryBase + k, Zero())], ClearCarries(k + 1));
        Emit(MovImm(CarryBase + k, Zero()));
      }
      ghost var start := code;
      assert start == old(code) + ClearCarries(0);
      assert order[0..] == order;
      for k := 0 to |order|
        invariant code + InitCode(g, lay, order[k..]) == start + InitCode(g, lay, order)
      {
        assert order[k..][1..] == order[k + 1..];
        Assoc(code, InitNode(g[order[k]], lay[order[k]]), InitCode(g, lay, order[k + 1..]));
        InitOne(g[order[k]], lay[order[k]]);
      }
      assert order[|order|..] == [];
      assert code == start + InitCode(g, lay, order);
    }

    method InitOne(n: Node, m: Meta)
      modifies this`code
      ensures code == old(code) + InitNode(n, m)
    {
      if n.Sub? && 0 <= m.carry < 6 {
        Emit(MovImm(CarryBase + m.carry, One()));
      }
      if m.slot >= 0 && IsMask(n) {
        EmitAll([MovOff(TempPtr, m.slot), StrZero(TempPtr)]);
        if m.eqSlot >= 0 {
          EmitAll([MovOff(TempPtr, m.eqSlot), MovImm(Scratch1, Ones()), StrScratch(Scratch1, TempPtr)]);
        }
      }
    }

    method EmitBody(g: Graph, lay: Layout, bits: nat, order: seq<nat>, skip: set<nat>)
      requires AllEmittable(g, lay, order, skip) && CacheOk(CacheNow()) && bits <= 64
      modifies this
      ensures code == old(code) + BodyCode(g, lay, bits, order, skip, old(CacheNow()))
    {
      hide NodeCode, Emittable, CacheOk;
      for k := 0 to |order|
        invariant CacheOk(CacheNow()) && AllEmittable(g, lay, order[k..], skip)
        invariant code + BodyCode(g, lay, bits, order[k..], skip, CacheNow())
               == old(code) + BodyCode(g, lay, bits, order, skip, old(CacheNow()))
      {
        assert order[k..][1..] == order[k + 1..];
        if order[k] !in skip {
          ghost var (p, c) := NodeCode(g, lay, bits, order[k], CacheNow());
          Assoc(code, p, BodyCode(g, lay, bits, order[k + 1..], skip, c));
          EmitNode(g, lay, bits, order[k]);
        }
      }
    }

    method EmitFinal(n: Node, m: Meta, skipped: bool)
      requires skipped || m.slot >= 0
      modifies this`code
      ensures code == old(code) + FinalCode(n, m, skipped)
    {
      hide Zero, CopyOut;
      if skipped {
        Emit(MovImm(Result0, Zero()));
      } else if IsMask(n) {
        EmitAll([MovOff(TempPtr, m.slot), LdrScratch(Result0, TempPtr)]);
      } else {
        Emit(MovOff(TempPtr, m.slot));
        CopyLoop();
        Emit(MovImm(Result0, Zero()));
        assert code == old(code) + FinalCode(n, m, skipped);
      }
    }

    method CopyLoop()
      modifies this`code
      ensures code == old(code) + CopyOut(0)
    {
      for i := 0 to 64
        invariant code + CopyOut(i) == old(code) + CopyOut(0)
      {
        Assoc(code, [LdrScratch(Result, TempPtr), StrWord(Result, i), AddOff(TempPtr, 1)], CopyOut(i + 1));
        EmitAll([LdrScratch(Result, TempPtr), StrWord(Result, i), AddOff(TempPtr, 1)]);
      }
    }
  }
}
