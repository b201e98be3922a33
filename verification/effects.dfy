/**
 What each emitted fragment does to the registers and the scratchpad when it runs.
 */
module Effects {
  import opened Words
  import opened Circuits
  import opened Ir
  import opened Machine
  import opened Emission

  /** Both states run, and only the listed registers may differ. */
  ghost predicate Keeps(s: State, s': State, changed: set<nat>) {
    s.Running? && s'.Running? && forall q | 0 <= q < 32 && q !in changed :: s'.regs[q] == s.regs[q]
  }

  function CacheRegs(): set<nat> {
    {8, 9, 10, 11, 12, 13, 14, 15}
  }

  /** Every cached register equals the scratchpad word it stands for. */
  ghost predicate Coherent(c: Cache, s: State)
    requires CacheOk(c)
  {
    && s.Running?
    && forall slot | slot in c.regOf ::
         slot < |s.mem| && s.regs[CacheBase + c.regOf[slot]] == Data(s.mem[slot])
  }

  // --- Cache ----------------------------------------------------------------------------------

  /** Installing a slot keeps coherence once its register holds the slot's word. */
  lemma InstallCoherent(c: Cache, slot: nat, s: State, s': State, changed: set<nat>)
    requires CacheOk(c) && slot !in c.regOf && Coherent(c, s)
    requires Keeps(s, s', changed) && s'.mem == s.mem && slot < |s.mem|
    requires changed * CacheRegs() <= {CacheBase + c.next}
    requires s'.regs[CacheBase + c.next] == Data(s.mem[slot])
    ensures Coherent(Install(c, slot), s')
  {
    var c' := Install(c, slot);
    forall t | t in c'.regOf
      ensures t < |s'.mem| && s'.regs[CacheBase + c'.regOf[t]] == Data(s'.mem[t])
    {
      if t != slot {
        assert t in c.regOf && c.regOf[t] == c'.regOf[t] != c.next;
        var q := CacheBase + c.regOf[t];
        assert q in CacheRegs() && q !in changed * CacheRegs();
      }
    }
  }

  /** A word written to a slot keeps coherence if the slot's register follows or it has none. */
  lemma PokeCoherent(c: Cache, slot: nat, s: State, s': State, changed: set<nat>)
    requires CacheOk(c) && Coherent(c, s) && slot < |s.mem|
    requires s'.Running? && |s'.mem| == |s.mem| && s'.mem == s.mem[slot := s'.mem[slot]]
    requires Keeps(s, s', changed)
    requires slot in c.regOf ==> s'.regs[CacheBase + c.regOf[slot]] == Data(s'.mem[slot])
    requires changed * CacheRegs() <= if slot in c.regOf then {CacheBase + c.regOf[slot]} else {}
    ensures Coherent(c, s')
  {
    forall t | t in c.regOf
      ensures t < |s'.mem| && s'.regs[CacheBase + c.regOf[t]] == Data(s'.mem[t])
    {
      if t != slot {
        assert slot in c.regOf ==> c.regOf[t] != c.regOf[slot];
        var q := CacheBase + c.regOf[t];
        assert q in CacheRegs() && q !in changed * CacheRegs();
      }
    }
  }

  /** A store reaches memory and the cache alike. */
  lemma {:induction false} StoreSlotEffect(c: Cache, slot: nat, v: Reg, fields: seq<Block>, s: State)
    requires CacheOk(c) && Coherent(c, s)
    requires slot < |s.mem| && s.regs[v].Data? && v !in CacheRegs() && v != TempPtr
    ensures var (p, c') := StoreSlot(c, slot, v);
            var s' := Exec(p, fields, s);
            && Keeps(s, s', CacheRegs() + {TempPtr})
            && s'.mem == s.mem[slot := s.regs[v].w]
            && Coherent(c', s')
  {
    var (p, c') := StoreSlot(c, slot, v);
    var q := CacheBase + c'.regOf[slot];
    Exec3(MovOff(TempPtr, slot), StrScratch(v, TempPtr), Mov(q, v), fields, s);
    var s2 := Step(StrScratch(v, TempPtr), fields, Step(MovOff(TempPtr, slot), fields, s));
    var s3 := Step(Mov(q, v), fields, s2);
    assert s2 == Running(s.regs[TempPtr := Offset(slot)], s.mem[slot := s.regs[v].w]);
    assert s3 == Put(s2, q, s.regs[v]);
    if slot in c.regOf {
      PokeCoherent(c, slot, s, s3, {TempPtr, q});
    } else {
      PokeCoherent(c, slot, s, s2, {TempPtr});
      InstallCoherent(c, slot, s2, s3, {q});
    }
  }

  /** What a load of a slot leaves behind. */
  ghost predicate Loaded(slot: nat, d: Reg, s: State, s': State) {
    && Keeps(s, s', CacheRegs() + {TempPtr, d})
    && s'.mem == s.mem
    && slot < |s.mem| && s'.regs[d] == Data(s.mem[slot])
  }

  lemma {:induction false} LoadMissEffect(c: Cache, slot: nat, d: Reg, fields: seq<Block>, s: State)
    requires CacheOk(c) && Coherent(c, s) && slot !in c.regOf
    requires slot < |s.mem| && d !in CacheRegs() && d != TempPtr
    ensures var s' := Exec(LoadSlot(c, slot, d).0, fields, s);
            Loaded(slot, d, s, s') && Coherent(Install(c, slot), s')
  {
    hide Exec, Step;
    var q := CacheBase + c.next;
    LoadThrough(slot, d, q, fields, s);
    InstallCoherent(c, slot, s, Exec([MovOff(TempPtr, slot), LdrScratch(d, TempPtr), Mov(q, d)], fields, s), {TempPtr, d, q});
  }

  lemma {:induction false} LoadThrough(slot: nat, d: Reg, q: Reg, fields: seq<Block>, s: State)
    requires s.Running? && slot < |s.mem| && d != TempPtr && q != TempPtr && q != d
    ensures Exec([MovOff(TempPtr, slot), LdrScratch(d, TempPtr), Mov(q, d)], fields, s)
         == Running(s.regs[TempPtr := Offset(slot)][d := Data(s.mem[slot])][q := Data(s.mem[slot])], s.mem)
  {
    Exec3(MovOff(TempPtr, slot), LdrScratch(d, TempPtr), Mov(q, d), fields, s);
  }

  lemma {:induction false} LoadHitEffect(c: Cache, slot: nat, d: Reg, fields: seq<Block>, s: State)
    requires CacheOk(c) && Coherent(c, s) && slot in c.regOf
    requires d !in CacheRegs() && d != TempPtr
    ensures var s' := Exec(LoadSlot(c, slot, d).0, fields, s);
            Loaded(slot, d, s, s') && Coherent(c, s')
  {
    Exec1(Mov(d, CacheBase + c.regOf[slot]), fields, s);
    PokeCoherent(c, slot, s, Put(s, d, Data(s.mem[slot])), {d});
  }

  /** A load yields the slot's word whether or not it was cached. */
  lemma {:induction false} LoadSlotEffect(c: Cache, slot: nat, d: Reg, fields: seq<Block>, s: State)
    requires CacheOk(c) && Coherent(c, s)
    requires slot < |s.mem| && d !in CacheRegs() && d != TempPtr
    ensures var (p, c') := LoadSlot(c, slot, d);
            var s' := Exec(p, fields, s);
            Loaded(slot, d, s, s') && Coherent(c', s')
  {
    if slot in c.regOf {
      LoadHitEffect(c, slot, d, fields, s);
    } else {
      LoadMissEffect(c, slot, d, fields, s);
    }
  }

  // --- Operands -------------------------------------------------------------------------------

  /** Plane k of an operand. */
  function PlaneOf(o: Operand, fields: seq<Block>, mem: seq<Word>, k: nat): Word {
    match o
    case Field(f) => if f < |fields| && k < 64 then fields[f][k] else Zero()
    case Literal(c) => if k < 64 && c[k] then Ones() else Zero()
    case Slot(s) => if s + k < |mem| then mem[s + k] else Zero()
  }

  /** Planes k..n-1 of an operand. */
  function PlanesOf(o: Operand, fields: seq<Block>, mem: seq<Word>, k: nat, n: nat): (p: seq<Word>)
    requires k <= n
    ensures |p| == n - k
  {
    seq<Word>(n - k, i requires 0 <= i < n - k => PlaneOf(o, fields, mem, k + i))
  }

  /** The operand's n planes can be read. */
  predicate Readable(o: Operand, fields: seq<Block>, mem: seq<Word>, n: nat) {
    match o
    case Field(f) => f < |fields|
    case Literal(c) => true
    case Slot(s) => s + n <= |mem|
  }

  /** The operand's planes do not meet the n words from `slot` on. */
  predicate Apart(o: Operand, slot: nat, n: nat) {
    o.Slot? ==> o.s + n <= slot || slot + n <= o.s
  }

  predicate Hoisted(o: Operand, v: Value) {
    match o
    case Field(f) => v == FieldPtr(f)
    case Literal(c) => true
    case Slot(s) => v == ScratchPtr(s)
  }

  lemma {:induction false} HoistEffect(o: Operand, d: Reg, fields: seq<Block>, s: State)
    requires s.Running? && Readable(o, fields, s.mem, 0)
    ensures var s' := Exec(Hoist(o, d), fields, s);
            Keeps(s, s', {d}) && s'.mem == s.mem && Hoisted(o, s'.regs[d])
  {
    match o
    case Field(f) => Exec1(LdrField(d, f), fields, s);
    case Literal(c) => Exec1(MovImm(d, c), fields, s);
    case Slot(n) => Exec2(MovOff(d, n), AddBase(d), fields, s);
  }

  lemma LoadPlaneEffect(o: Operand, hoisted: Reg, d: Reg, bit: nat, fields: seq<Block>, s: State)
    requires s.Running? && bit < 64 && Readable(o, fields, s.mem, bit + 1) && Hoisted(o, s.regs[hoisted])
    ensures Step(LoadPlane(o, hoisted, d, bit), fields, s)
         == Put(s, d, Data(PlaneOf(o, fields, s.mem, bit)))
  {
  }

  lemma PlanesOfStep(o: Operand, fields: seq<Block>, mem: seq<Word>, k: nat, n: nat)
    requires k < n
    ensures PlanesOf(o, fields, mem, k, n)[0] == PlaneOf(o, fields, mem, k)
    ensures PlanesOf(o, fields, mem, k, n)[1..] == PlanesOf(o, fields, mem, k + 1, n)
    ensures PlanesOf(o, fields, mem, k, n)[..n - 1 - k] == PlanesOf(o, fields, mem, k, n - 1)
  {
  }

  /** Writing elsewhere leaves an operand's planes alone. */
  lemma PlanesOfFrame(o: Operand, fields: seq<Block>, mem: seq<Word>, mem': seq<Word>, k: nat, n: nat)
    requires k <= n && |mem'| == |mem|
    requires o.Slot? ==> forall i | o.s + k <= i < o.s + n && i < |mem| :: mem'[i] == mem[i]
    ensures PlanesOf(o, fields, mem', k, n) == PlanesOf(o, fields, mem, k, n)
  {
    assert forall j: nat | k <= j < n :: PlaneOf(o, fields, mem', j) == PlaneOf(o, fields, mem, j);
  }

  /** Both plane registers loaded. */
  lemma {:induction false} LoadTwo(a: Operand, b: Operand, ha: Reg, hb: Reg, bit: nat, fields: seq<Block>, s: State)
    requires s.Running? && bit < 64 && ha != PlaneA && hb != PlaneA
    requires Readable(a, fields, s.mem, bit + 1) && Readable(b, fields, s.mem, bit + 1)
    requires Hoisted(a, s.regs[ha]) && Hoisted(b, s.regs[hb])
    ensures Exec([LoadPlane(a, ha, PlaneA, bit), LoadPlane(b, hb, PlaneB, bit)], fields, s)
         == Put(Put(s, PlaneA, Data(PlaneOf(a, fields, s.mem, bit))), PlaneB, Data(PlaneOf(b, fields, s.mem, bit)))
  {
    hide Step, LoadPlane, PlaneOf;
    Exec2(LoadPlane(a, ha, PlaneA, bit), LoadPlane(b, hb, PlaneB, bit), fields, s);
    LoadPlaneEffect(a, ha, PlaneA, bit, fields, s);
    LoadPlaneEffect(b, hb, PlaneB, bit, fields, Put(s, PlaneA, Data(PlaneOf(a, fields, s.mem, bit))));
  }

  // --- Adders ---------------------------------------------------------------------------------

  /** The right operand as the adder sees it: complemented for a subtraction. */
  function Addend(sub: bool, b: Word): Word {
    if sub then BitNot(b) else b
  }

  function Addends(sub: bool, b: seq<Word>): (p: seq<Word>)
    ensures |p| == |b|
  {
    if sub then Inverted(b) else b
  }

  predicate IsCarry(q: Reg) {
    23 <= q < 29
  }

  lemma {:induction false} FullAdderEffect(carry: Reg, dst: nat, bit: nat, a: Word, b: Word, c: Word,
                                           fields: seq<Block>, s: State)
    requires s.Running? && IsCarry(carry) && dst + bit < |s.mem|
    requires s.regs[PlaneA] == Data(a) && s.regs[PlaneB] == Data(b) && s.regs[carry] == Data(c)
    requires s.regs[TempPtr] == ScratchPtr(dst)
    ensures var s' := Exec([Eor(Result, PlaneA, PlaneB), Eor(Scratch1, Result, carry), AndR(PlaneA, PlaneA, PlaneB)]
                           + [AndR(Result, Result, carry), Orr(carry, PlaneA, Result), StrAt(Scratch1, TempPtr, bit)],
                           fields, s);
            && Keeps(s, s', {PlaneA, Result, Scratch1, carry})
            && s'.regs[carry] == Data(CarryOut(a, b, c))
            && s'.mem == s.mem[dst + bit := BitXor(BitXor(a, b), c)]
  {
    var p := [Eor(Result, PlaneA, PlaneB), Eor(Scratch1, Result, carry), AndR(PlaneA, PlaneA, PlaneB)];
    var q := [AndR(Result, Result, carry), Orr(carry, PlaneA, Result), StrAt(Scratch1, TempPtr, bit)];
    ExecConcat(p, q, fields, s);
    Exec3(p[0], p[1], p[2], fields, s);
    var s1 := Exec(p, fields, s);
    assert s1 == Running(s.regs[Result := Data(BitXor(a, b))][Scratch1 := Data(BitXor(BitXor(a, b), c))]
                         [PlaneA := Data(BitAnd(a, b))], s.mem);
    Exec3(q[0], q[1], q[2], fields, s1);
  }

  lemma {:induction false} InvertEffect(sub: bool, b: Word, fields: seq<Block>, s: State)
    requires s.Running? && s.regs[PlaneB] == Data(b)
    ensures Exec(if sub then [Mvn(PlaneB, PlaneB)] else [], fields, s) == Put(s, PlaneB, Data(Addend(sub, b)))
  {
    if sub {
      Exec1(Mvn(PlaneB, PlaneB), fields, s);
    } else {
      assert s.regs[PlaneB := Data(b)] == s.regs;
    }
  }

  lemma {:induction false} AddBitEffect(l: Operand, r: Operand, sub: bool, carry: Reg, dst: nat, bit: nat, c: Word,
                                        fields: seq<Block>, s: State)
    requires s.Running? && IsCarry(carry) && bit < 64 && dst + bit < |s.mem|
    requires Readable(l, fields, s.mem, bit + 1) && Readable(r, fields, s.mem, bit + 1)
    requires Hoisted(l, s.regs[HoistL]) && Hoisted(r, s.regs[HoistR])
    requires s.regs[TempPtr] == ScratchPtr(dst) && s.regs[carry] == Data(c)
    ensures var s' := Exec(AddBit(l, r, sub, carry, bit), fields, s);
            var a, b := PlaneOf(l, fields, s.mem, bit), Addend(sub, PlaneOf(r, fields, s.mem, bit));
            && Keeps(s, s', {PlaneA, PlaneB, Result, Scratch1, carry})
            && s'.regs[carry] == Data(CarryOut(a, b, c))
            && s'.mem == s.mem[dst + bit := BitXor(BitXor(a, b), c)]
  {
    hide Exec, Step, LoadPlane, CarryOut, PlaneOf, BitXor;
    var a, b := PlaneOf(l, fields, s.mem, bit), PlaneOf(r, fields, s.mem, bit);
    var p1 := [LoadPlane(l, HoistL, PlaneA, bit), LoadPlane(r, HoistR, PlaneB, bit)];
    var p2 := if sub then [Mvn(PlaneB, PlaneB)] else [];
    var p3 := [Eor(Result, PlaneA, PlaneB), Eor(Scratch1, Result, carry), AndR(PlaneA, PlaneA, PlaneB)];
    var p4 := [AndR(Result, Result, carry), Orr(carry, PlaneA, Result), StrAt(Scratch1, TempPtr, bit)];
    assert AddBit(l, r, sub, carry, bit) == p1 + (p2 + (p3 + p4));
    ExecConcat(p1, p2 + (p3 + p4), fields, s);
    LoadTwo(l, r, HoistL, HoistR, bit, fields, s);
    var s1 := Put(Put(s, PlaneA, Data(a)), PlaneB, Data(b));
    ExecConcat(p2, p3 + p4, fields, s1);
    InvertEffect(sub, b, fields, s1);
    FullAdderEffect(carry, dst, bit, a, Addend(sub, b), c, fields, Put(s1, PlaneB, Data(Addend(sub, b))));
  }

  /** Planes k.. of the sum are plane k followed by planes k+1.., read from a memory changed only at dst + k. */
  lemma RippleStep(l: Operand, r: Operand, sub: bool, dst: nat, k: nat, n: nat, c: Word, x: Word,
                   fields: seq<Block>, mem: seq<Word>)
    requires k < n && dst + n <= |mem| && Apart(l, dst, n) && Apart(r, dst, n)
    requires x == BitXor(BitXor(PlaneOf(l, fields, mem, k), Addend(sub, PlaneOf(r, fields, mem, k))), c)
    ensures var c' := CarryOut(PlaneOf(l, fields, mem, k), Addend(sub, PlaneOf(r, fields, mem, k)), c);
            var mem' := mem[dst + k := x];
            Ripple(PlanesOf(l, fields, mem, k, n), Addends(sub, PlanesOf(r, fields, mem, k, n)), c)
            == [x] + Ripple(PlanesOf(l, fields, mem', k + 1, n), Addends(sub, PlanesOf(r, fields, mem', k + 1, n)), c')
  {
    hide PlanesOf, PlaneOf, Addend, Addends, CarryOut, BitXor;
    var mem' := mem[dst + k := x];
    PlanesOfFrame(l, fields, mem, mem', k + 1, n);
    PlanesOfFrame(r, fields, mem, mem', k + 1, n);
    PlanesOfStep(l, fields, mem, k, n);
    PlanesOfStep(r, fields, mem, k, n);
    AddendsStep(sub, PlanesOf(r, fields, mem, k, n));
  }

  lemma AddendsStep(sub: bool, b: seq<Word>)
    requires b != []
    ensures Addends(sub, b)[0] == Addend(sub, b[0]) && Addends(sub, b)[1..] == Addends(sub, b[1..])
  {
  }

  /** From s to s' the words dst+k..dst+n became the ripple sum of planes k..n and nothing else moved. */
  ghost predicate Rippled(l: Operand, r: Operand, sub: bool, carry: Reg, dst: nat, k: nat, n: nat, c: Word,
                          fields: seq<Block>, s: State, s': State)
    requires k <= n
  {
    && Keeps(s, s', {PlaneA, PlaneB, Result, Scratch1, carry})
    && |s'.mem| == |s.mem| && dst + n <= |s.mem|
    && (forall i | 0 <= i < |s.mem| && !(dst + k <= i < dst + n) :: s'.mem[i] == s.mem[i])
    && s'.mem[dst + k..dst + n]
       == Ripple(PlanesOf(l, fields, s.mem, k, n), Addends(sub, PlanesOf(r, fields, s.mem, k, n)), c)
  }

  lemma {:induction false} RippledStep(l: Operand, r: Operand, sub: bool, carry: Reg, dst: nat, k: nat, n: nat,
                                       c: Word, fields: seq<Block>, s: State, s1: State, s': State)
    requires k < n && s.Running? && dst + n <= |s.mem| && Apart(l, dst, n) && Apart(r, dst, n)
    requires Keeps(s, s1, {PlaneA, PlaneB, Result, Scratch1, carry})
    requires var a, b := PlaneOf(l, fields, s.mem, k), Addend(sub, PlaneOf(r, fields, s.mem, k));
             && s1.mem == s.mem[dst + k := BitXor(BitXor(a, b), c)]
             && Rippled(l, r, sub, carry, dst, k + 1, n, CarryOut(a, b, c), fields, s1, s')
    ensures Rippled(l, r, sub, carry, dst, k, n, c, fields, s, s')
  {
    RippleStep(l, r, sub, dst, k, n, c, s1.mem[dst + k], fields, s.mem);
    assert s'.mem[dst + k..dst + n] == [s'.mem[dst + k]] + s'.mem[dst + k + 1..dst + n];
  }

  lemma {:induction false} AddBitsUnroll(l: Operand, r: Operand, sub: bool, carry: Reg, k: nat, n: nat,
                                         fields: seq<Block>, s: State)
    requires k < n <= 64
    ensures Exec(AddBits(l, r, sub, carry, k, n), fields, s)
         == Exec(AddBits(l, r, sub, carry, k + 1, n), fields, Exec(AddBit(l, r, sub, carry, k), fields, s))
  {
    ExecConcat(AddBit(l, r, sub, carry, k), AddBits(l, r, sub, carry, k + 1, n), fields, s);
  }

  /** The unrolled adder leaves the ripple sum in its block and touches nothing else. */
  lemma {:induction false} AddBitsEffect(l: Operand, r: Operand, sub: bool, carry: Reg, dst: nat, k: nat, n: nat,
                                         c: Word, fields: seq<Block>, s: State)
    requires s.Running? && IsCarry(carry) && k <= n <= 64 && dst + n <= |s.mem|
    requires Readable(l, fields, s.mem, n) && Readable(r, fields, s.mem, n)
    requires Apart(l, dst, n) && Apart(r, dst, n)
    requires Hoisted(l, s.regs[HoistL]) && Hoisted(r, s.regs[HoistR])
    requires s.regs[TempPtr] == ScratchPtr(dst) && s.regs[carry] == Data(c)
    ensures Rippled(l, r, sub, carry, dst, k, n, c, fields, s, Exec(AddBits(l, r, sub, carry, k, n), fields, s))
    decreases n - k
  {
    hide Step;
    if k < n {
      var a, b := PlaneOf(l, fields, s.mem, k), Addend(sub, PlaneOf(r, fields, s.mem, k));
      AddBitsUnroll(l, r, sub, carry, k, n, fields, s);
      AddBitEffect(l, r, sub, carry, dst, k, c, fields, s);
      var s1 := Exec(AddBit(l, r, sub, carry, k), fields, s);
      AddBitsEffect(l, r, sub, carry, dst, k + 1, n, CarryOut(a, b, c), fields, s1);
      RippledStep(l, r, sub, carry, dst, k, n, c, fields, s, s1, Exec(AddBits(l, r, sub, carry, k + 1, n), fields, s1));
    } else {
      assert Exec(AddBits(l, r, sub, carry, k, n), fields, s) == s;
    }
  }

  /** Both operands hoisted. */
  lemma {:induction false} HoistBoth(l: Operand, r: Operand, fields: seq<Block>, s: State)
    requires s.Running? && Readable(l, fields, s.mem, 0) && Readable(r, fields, s.mem, 0)
    ensures var s' := Exec(Hoist(l, HoistL) + Hoist(r, HoistR), fields, s);
            && Keeps(s, s', {HoistL, HoistR}) && s'.mem == s.mem
            && Hoisted(l, s'.regs[HoistL]) && Hoisted(r, s'.regs[HoistR])
  {
    ExecConcat(Hoist(l, HoistL), Hoist(r, HoistR), fields, s);
    HoistEffect(l, HoistL, fields, s);
    HoistEffect(r, HoistR, fields, Exec(Hoist(l, HoistL), fields, s));
  }

  /** Carry seeded, operands hoisted and the destination address in place. */
  lemma {:induction false} AddPrologue(l: Operand, r: Operand, carry: Reg, c: Word, dst: nat, fields: seq<Block>,
                                       s: State)
    requires s.Running? && IsCarry(carry)
    requires Readable(l, fields, s.mem, 0) && Readable(r, fields, s.mem, 0)
    ensures var s' := Exec([MovImm(carry, c)] + (Hoist(l, HoistL) + Hoist(r, HoistR))
                           + [MovOff(TempPtr, dst), AddBase(TempPtr)], fields, s);
            && Keeps(s, s', {HoistL, HoistR, TempPtr, carry}) && s'.mem == s.mem
            && Hoisted(l, s'.regs[HoistL]) && Hoisted(r, s'.regs[HoistR])
            && s'.regs[TempPtr] == ScratchPtr(dst) && s'.regs[carry] == Data(c)
  {
    var p0, p1, p2 := [MovImm(carry, c)], Hoist(l, HoistL) + Hoist(r, HoistR), [MovOff(TempPtr, dst), AddBase(TempPtr)];
    ExecConcat(p0 + p1, p2, fields, s);
    ExecConcat(p0, p1, fields, s);
    Exec1(MovImm(carry, c), fields, s);
    var s0 := Put(s, carry, Data(c));
    HoistBoth(l, r, fields, s0);
    Exec2(MovOff(TempPtr, dst), AddBase(TempPtr), fields, Exec(p1, fields, s0));
  }

  lemma {:induction false} AddCodeEffect(l: Operand, r: Operand, sub: bool, carry: Reg, dst: nat, n: nat,
                                         fields: seq<Block>, s: State)
    requires s.Running? && IsCarry(carry) && n <= 64 && dst + n <= |s.mem|
    requires Readable(l, fields, s.mem, n) && Readable(r, fields, s.mem, n)
    requires Apart(l, dst, n) && Apart(r, dst, n)
    ensures var s' := Exec(AddCode(l, r, sub, carry, dst, n), fields, s);
            && Keeps(s, s', {PlaneA, PlaneB, Result, Scratch1, HoistL, HoistR, TempPtr, carry})
            && |s'.mem| == |s.mem|
            && (forall i | 0 <= i < |s.mem| && !(dst <= i < dst + n) :: s'.mem[i] == s.mem[i])
            && s'.mem[dst..dst + n]
               == Ripple(PlanesOf(l, fields, s.mem, 0, n), Addends(sub, PlanesOf(r, fields, s.mem, 0, n)),
                         if sub then One() else Zero())
  {
    var c := if sub then One() else Zero();
    var p := [MovImm(carry, c)] + (Hoist(l, HoistL) + Hoist(r, HoistR)) + [MovOff(TempPtr, dst), AddBase(TempPtr)];
    assert AddCode(l, r, sub, carry, dst, n) == p + AddBits(l, r, sub, carry, 0, n);
    ExecConcat(p, AddBits(l, r, sub, carry, 0, n), fields, s);
    AddPrologue(l, r, carry, c, dst, fields, s);
    AddBitsEffect(l, r, sub, carry, dst, 0, n, c, fields, Exec(p, fields, s));
  }

  /** An adder stores its planes directly, so the cache survives as long as it holds none of them. */
  lemma {:induction false} AdderEffect(l: Operand, r: Operand, sub: bool, carry: Reg, dst: nat, n: nat, c: Cache,
                                       fields: seq<Block>, s: State)
    requires CacheOk(c) && Coherent(c, s) && IsCarry(carry) && n <= 64 && dst + n <= |s.mem|
    requires Readable(l, fields, s.mem, n) && Readable(r, fields, s.mem, n)
    requires Apart(l, dst, n) && Apart(r, dst, n)
    requires forall t | t in c.regOf :: !(dst <= t < dst + n)
    ensures var s' := Exec(AddCode(l, r, sub, carry, dst, n), fields, s);
            && s'.Running? && |s'.mem| == |s.mem| && Coherent(c, s')
            && (forall i | 0 <= i < |s.mem| && !(dst <= i < dst + n) :: s'.mem[i] == s.mem[i])
            && s'.mem[dst..dst + n]
               == Ripple(PlanesOf(l, fields, s.mem, 0, n), Addends(sub, PlanesOf(r, fields, s.mem, 0, n)),
                         if sub then One() else Zero())
  {
    hide Exec, Step, AddCode, Ripple, PlanesOf, Addends;
    AddCodeEffect(l, r, sub, carry, dst, n, fields, s);
    var s' := Exec(AddCode(l, r, sub, carry, dst, n), fields, s);
    PlanesCoherent(c, dst, n, s, s', {PlaneA, PlaneB, Result, Scratch1, HoistL, HoistR, TempPtr, carry});
  }

  // --- Comparators ----------------------------------------------------------------------------

  lemma {:induction false} CompareStepEffect(a: Word, b: Word, gt: Word, eq: Word, fields: seq<Block>, s: State)
    requires s.Running?
    requires s.regs[PlaneA] == Data(a) && s.regs[PlaneB] == Data(b)
    requires s.regs[MaskGt] == Data(gt) && s.regs[MaskEq] == Data(eq)
    ensures var s' := Exec([Bic(Result, PlaneA, PlaneB), AndR(Result, Result, MaskEq), Orr(MaskGt, MaskGt, Result)]
                           + [Eor(Result, PlaneA, PlaneB), Bic(MaskEq, MaskEq, Result)], fields, s);
            && Keeps(s, s', {Result, MaskGt, MaskEq}) && s'.mem == s.mem
            && s'.regs[MaskGt] == Data(BitOr(gt, BitAnd(BitClear(a, b), eq)))
            && s'.regs[MaskEq] == Data(BitClear(eq, BitXor(a, b)))
  {
    var p := [Bic(Result, PlaneA, PlaneB), AndR(Result, Result, MaskEq), Orr(MaskGt, MaskGt, Result)];
    var q := [Eor(Result, PlaneA, PlaneB), Bic(MaskEq, MaskEq, Result)];
    ExecConcat(p, q, fields, s);
    Exec3(p[0], p[1], p[2], fields, s);
    Exec2(q[0], q[1], fields, Exec(p, fields, s));
  }

  /** Where the comparator's first and second operand come from. */
  function First<T>(rel: Relation, l: T, r: T): T {
    if Swapped(rel) then r else l
  }

  lemma {:induction false} CompareBitEffect(l: Operand, r: Operand, rel: Relation, bit: nat, gt: Word, eq: Word,
                                            fields: seq<Block>, s: State)
    requires s.Running? && bit < 64
    requires Readable(l, fields, s.mem, bit + 1) && Readable(r, fields, s.mem, bit + 1)
    requires Hoisted(l, s.regs[HoistL]) && Hoisted(r, s.regs[HoistR])
    requires s.regs[MaskGt] == Data(gt) && s.regs[MaskEq] == Data(eq)
    ensures var s' := Exec(CompareBit(l, r, rel, bit), fields, s);
            var a, b := PlaneOf(First(rel, l, r), fields, s.mem, bit), PlaneOf(First(rel, r, l), fields, s.mem, bit);
            && Keeps(s, s', {PlaneA, PlaneB, Result, MaskGt, MaskEq}) && s'.mem == s.mem
            && s'.regs[MaskGt] == Data(BitOr(gt, BitAnd(BitClear(a, b), eq)))
            && s'.regs[MaskEq] == Data(BitClear(eq, BitXor(a, b)))
  {
    hide Exec, Step, LoadPlane, PlaneOf, BitOr, BitAnd, BitClear, BitXor;
    var x, y := First(rel, l, r), First(rel, r, l);
    var hx, hy := First(rel, HoistL, HoistR), First(rel, HoistR, HoistL);
    var a, b := PlaneOf(x, fields, s.mem, bit), PlaneOf(y, fields, s.mem, bit);
    var p := [LoadPlane(x, hx, PlaneA, bit), LoadPlane(y, hy, PlaneB, bit)];
    var q := [Bic(Result, PlaneA, PlaneB), AndR(Result, Result, MaskEq), Orr(MaskGt, MaskGt, Result)]
             + [Eor(Result, PlaneA, PlaneB), Bic(MaskEq, MaskEq, Result)];
    assert CompareBit(l, r, rel, bit) == p + q;
    ExecConcat(p, q, fields, s);
    LoadTwo(x, y, hx, hy, bit, fields, s);
    CompareStepEffect(a, b, gt, eq, fields, Put(Put(s, PlaneA, Data(a)), PlaneB, Data(b)));
  }

  /** The unrolled comparator computes the scan of its operands' planes. */
  lemma {:induction false} CompareBitsEffect(l: Operand, r: Operand, rel: Relation, n: nat, gt: Word, eq: Word,
                                             fields: seq<Block>, s: State)
    requires s.Running? && n <= 64
    requires Readable(l, fields, s.mem, n) && Readable(r, fields, s.mem, n)
    requires Hoisted(l, s.regs[HoistL]) && Hoisted(r, s.regs[HoistR])
    requires s.regs[MaskGt] == Data(gt) && s.regs[MaskEq] == Data(eq)
    ensures var s' := Exec(CompareBits(l, r, rel, n), fields, s);
            var m := Scan(PlanesOf(First(rel, l, r), fields, s.mem, 0, n), PlanesOf(First(rel, r, l), fields, s.mem, 0, n), gt, eq);
            && Keeps(s, s', {PlaneA, PlaneB, Result, MaskGt, MaskEq}) && s'.mem == s.mem
            && s'.regs[MaskGt] == Data(m.0) && s'.regs[MaskEq] == Data(m.1)
  {
    hide Step;
    if n > 0 {
      ExecConcat(CompareBit(l, r, rel, n - 1), CompareBits(l, r, rel, n - 1), fields, s);
      CompareBitEffect(l, r, rel, n - 1, gt, eq, fields, s);
      var s1 := Exec(CompareBit(l, r, rel, n - 1), fields, s);
      CompareBitsEffect(l, r, rel, n - 1, s1.regs[MaskGt].w, s1.regs[MaskEq].w, fields, s1);
      PlanesOfStep(First(rel, l, r), fields, s.mem, 0, n);
      PlanesOfStep(First(rel, r, l), fields, s.mem, 0, n);
    }
  }

  lemma {:induction false} LoadMasksEffect(c: Cache, eqSlot: nat, slot: nat, fields: seq<Block>, s: State)
    requires CacheOk(c) && Coherent(c, s) && slot < |s.mem| && eqSlot < |s.mem|
    ensures var (p1, c1) := LoadSlot(c, eqSlot, MaskEq);
            var (p2, c2) := LoadSlot(c1, slot, MaskGt);
            var s' := Exec(p1 + p2, fields, s);
            && Keeps(s, s', CacheRegs() + {TempPtr, MaskEq, MaskGt}) && s'.mem == s.mem
            && s'.regs[MaskEq] == Data(s.mem[eqSlot]) && s'.regs[MaskGt] == Data(s.mem[slot])
            && Coherent(c2, s')
  {
    hide Exec, Step, LoadSlot, StoreSlot, Scan, CompareBits;
    var (p1, c1) := LoadSlot(c, eqSlot, MaskEq);
    var (p2, c2) := LoadSlot(c1, slot, MaskGt);
    ExecConcat(p1, p2, fields, s);
    LoadSlotEffect(c, eqSlot, MaskEq, fields, s);
    LoadSlotEffect(c1, slot, MaskGt, fields, Exec(p1, fields, s));
  }

  /** Registers outside the cache may change freely without hurting coherence. */
  lemma KeepsCoherent(c: Cache, s: State, s': State, changed: set<nat>)
    requires CacheOk(c) && Coherent(c, s) && Keeps(s, s', changed) && s'.mem == s.mem
    requires changed !! CacheRegs()
    ensures Coherent(c, s')
  {
    forall t | t in c.regOf
      ensures s'.regs[CacheBase + c.regOf[t]] == Data(s'.mem[t])
    {
      assert CacheBase + c.regOf[t] in CacheRegs();
    }
  }

  lemma ReadableNone(o: Operand, fields: seq<Block>, mem: seq<Word>, n: nat)
    requires Readable(o, fields, mem, n)
    ensures Readable(o, fields, mem, 0)
  {
  }

  lemma CoherentRuns(c: Cache, s: State)
    requires CacheOk(c) && Coherent(c, s)
    ensures s.Running?
  {
  }

  lemma {:induction false} ScanEffect(c: Cache, l: Operand, r: Operand, rel: Relation, n: nat, gt: Word, eq: Word,
                                      fields: seq<Block>, s: State)
    requires CacheOk(c) && Coherent(c, s) && n <= 64
    requires Readable(l, fields, s.mem, n) && Readable(r, fields, s.mem, n)
    requires s.regs[MaskGt] == Data(gt) && s.regs[MaskEq] == Data(eq)
    ensures var s' := Exec(Hoist(l, HoistL) + Hoist(r, HoistR) + CompareBits(l, r, rel, n), fields, s);
            var m := Scan(PlanesOf(First(rel, l, r), fields, s.mem, 0, n), PlanesOf(First(rel, r, l), fields, s.mem, 0, n), gt, eq);
            && s'.Running? && s'.mem == s.mem && Coherent(c, s')
            && s'.regs[MaskGt] == Data(m.0) && s'.regs[MaskEq] == Data(m.1)
  {
    hide Exec, Step, Scan, CompareBits, Hoist, PlanesOf, Hoisted, Readable, Coherent, CacheOk, First;
    var p, q := Hoist(l, HoistL) + Hoist(r, HoistR), CompareBits(l, r, rel, n);
    ExecConcat(p, q, fields, s);
    CoherentRuns(c, s);
    ReadableNone(l, fields, s.mem, n);
    ReadableNone(r, fields, s.mem, n);
    HoistBoth(l, r, fields, s);
    var s1 := Exec(p, fields, s);
    CompareBitsEffect(l, r, rel, n, gt, eq, fields, s1);
    KeepsCoherent(c, s, Exec(q, fields, s1), {PlaneA, PlaneB, Result, MaskGt, MaskEq, HoistL, HoistR});
  }

  lemma {:induction false} StoreMasksEffect(c: Cache, slot: nat, eqSlot: nat, gt: Word, eq: Word,
                                            fields: seq<Block>, s: State)
    requires CacheOk(c) && Coherent(c, s) && slot < |s.mem| && eqSlot < |s.mem|
    requires s.regs[MaskGt] == Data(gt) && s.regs[MaskEq] == Data(eq)
    ensures var (p1, c1) := StoreSlot(c, slot, MaskGt);
            var (p2, c2) := StoreSlot(c1, eqSlot, MaskEq);
            var s' := Exec(p1 + p2, fields, s);
            s'.Running? && s'.mem == s.mem[slot := gt][eqSlot := eq] && Coherent(c2, s')
  {
    hide Exec, Step, LoadSlot, StoreSlot, Scan, CompareBits;
    var (p1, c1) := StoreSlot(c, slot, MaskGt);
    var (p2, c2) := StoreSlot(c1, eqSlot, MaskEq);
    ExecConcat(p1, p2, fields, s);
    StoreSlotEffect(c, slot, MaskGt, fields, s);
    StoreSlotEffect(c1, eqSlot, MaskEq, fields, Exec(p1, fields, s));
  }

  /** The mask a relation keeps of the greater-than and equal masks of its scan. */
  function Merged(rel: Relation, gt: Word, eq: Word): Word {
    match rel
    case EQ => eq
    case GE => BitOr(gt, eq)
    case LE => BitOr(gt, eq)
    case _ => gt
  }

  /** The operation of a logic node, on the two masks in the plane registers. */
  lemma {:induction false} MaskOpEffect(op: Instr, a: Word, b: Word, w: Word, fields: seq<Block>, s: State)
    requires s.Running? && s.regs[PlaneA] == Data(a)
    requires op != Mvn(Result, PlaneA) ==> s.regs[PlaneB] == Data(b)
    requires || (op == Mov(Result, PlaneB) && w == b)
             || (op == AndR(Result, PlaneA, PlaneB) && w == BitAnd(a, b))
             || (op == Orr(Result, PlaneA, PlaneB) && w == BitOr(a, b))
             || (op == Mvn(Result, PlaneA) && w == BitNot(a))
    ensures Exec([op], fields, s) == Put(s, Result, Data(w))
  {
    Exec1(op, fields, s);
  }

  /** Two slots loaded, one operation, the result stored. */
  lemma {:induction false} LogicEffect(op: Instr, left: nat, right: nat, slot: nat, w: Word, c: Cache,
                                       fields: seq<Block>, s: State)
    requires CacheOk(c) && Coherent(c, s) && left < |s.mem| && right < |s.mem| && slot < |s.mem|
    requires || (op == Mov(Result, PlaneB) && w == s.mem[right])
             || (op == AndR(Result, PlaneA, PlaneB) && w == BitAnd(s.mem[left], s.mem[right]))
             || (op == Orr(Result, PlaneA, PlaneB) && w == BitOr(s.mem[left], s.mem[right]))
    ensures var (p, c') := LogicCode(op, left, right, slot, c);
            var s' := Exec(p, fields, s);
            s'.Running? && s'.mem == s.mem[slot := w] && Coherent(c', s')
  {
    hide Exec, Step, LoadSlot, StoreSlot, Scan, CompareBits;
    var (p1, c1) := LoadSlot(c, left, PlaneA);
    var (p2, c2) := LoadSlot(c1, right, PlaneB);
    var (p3, c3) := StoreSlot(c2, slot, Result);
    ExecConcat(p1 + p2 + [op], p3, fields, s);
    ExecConcat(p1 + p2, [op], fields, s);
    ExecConcat(p1, p2, fields, s);
    LoadSlotEffect(c, left, PlaneA, fields, s);
    var s1 := Exec(p1, fields, s);
    LoadSlotEffect(c1, right, PlaneB, fields, s1);
    var s2 := Exec(p2, fields, s1);
    MaskOpEffect(op, s.mem[left], s.mem[right], w, fields, s2);
    var s3 := Put(s2, Result, Data(w));
    KeepsCoherent(c2, s2, s3, {Result});
    StoreSlotEffect(c2, slot, Result, fields, s3);
  }

  lemma {:induction false} NotEffect(left: nat, slot: nat, c: Cache, fields: seq<Block>, s: State)
    requires CacheOk(c) && Coherent(c, s) && left < |s.mem| && slot < |s.mem|
    ensures var (p, c') := NotCode(left, slot, c);
            var s' := Exec(p, fields, s);
            s'.Running? && s'.mem == s.mem[slot := BitNot(s.mem[left])] && Coherent(c', s')
  {
    hide Exec, Step, LoadSlot, StoreSlot, Scan, CompareBits;
    var (p1, c1) := LoadSlot(c, left, PlaneA);
    var (p2, c2) := StoreSlot(c1, slot, Result);
    ExecConcat(p1 + [Mvn(Result, PlaneA)], p2, fields, s);
    ExecConcat(p1, [Mvn(Result, PlaneA)], fields, s);
    LoadSlotEffect(c, left, PlaneA, fields, s);
    var s1 := Exec(p1, fields, s);
    MaskOpEffect(Mvn(Result, PlaneA), s.mem[left], s.mem[left], BitNot(s.mem[left]), fields, s1);
    var s2 := Put(s1, Result, Data(BitNot(s.mem[left])));
    KeepsCoherent(c1, s1, s2, {Result});
    StoreSlotEffect(c1, slot, Result, fields, s2);
  }

  lemma {:induction false} ScanCodeEffect(l: Operand, r: Operand, rel: Relation, slot: nat, eqSlot: nat, n: nat,
                                          c: Cache, fields: seq<Block>, s: State)
    requires CacheOk(c) && Coherent(c, s) && n <= 64 && slot < |s.mem| && eqSlot < |s.mem|
    requires Readable(l, fields, s.mem, n) && Readable(r, fields, s.mem, n)
    ensures var (p, c') := ScanCode(l, r, rel, slot, eqSlot, n, c);
            var s' := Exec(p, fields, s);
            var m := Scan(PlanesOf(First(rel, l, r), fields, s.mem, 0, n), PlanesOf(First(rel, r, l), fields, s.mem, 0, n),
                          s.mem[slot], s.mem[eqSlot]);
            && s'.Running? && s'.mem == s.mem && Coherent(c', s')
            && s'.regs[MaskGt] == Data(m.0) && s'.regs[MaskEq] == Data(m.1)
  {
    hide Exec, Step, LoadSlot, Scan, CompareBits;
    var (p1, c1) := LoadSlot(c, eqSlot, MaskEq);
    var (p2, c2) := LoadSlot(c1, slot, MaskGt);
    var p3 := Hoist(l, HoistL) + Hoist(r, HoistR) + CompareBits(l, r, rel, n);
    ExecConcat(p1 + p2, p3, fields, s);
    LoadMasksEffect(c, eqSlot, slot, fields, s);
    ScanEffect(c2, l, r, rel, n, s.mem[slot], s.mem[eqSlot], fields, Exec(p1 + p2, fields, s));
  }

  lemma {:induction false} SettleEffect(rel: Relation, slot: nat, eqSlot: nat, gt: Word, eq: Word, c: Cache,
                                        fields: seq<Block>, s: State)
    requires CacheOk(c) && Coherent(c, s) && slot < |s.mem| && eqSlot < |s.mem| && slot != eqSlot
    requires s.regs[MaskGt] == Data(gt) && s.regs[MaskEq] == Data(eq)
    ensures var (p, c') := SettleCode(rel, slot, eqSlot, c);
            var s' := Exec(p, fields, s);
            s'.Running? && s'.mem == s.mem[slot := Merged(rel, gt, eq)][eqSlot := eq] && Coherent(c', s')
  {
    hide Exec, Step, StoreSlot, MergeEqual;
    var (p1, c1) := StoreSlot(c, slot, MaskGt);
    var (p2, c2) := StoreSlot(c1, eqSlot, MaskEq);
    var (p3, c3) := MergeEqual(rel, slot, eqSlot, c2);
    ExecConcat(p1 + p2, p3, fields, s);
    StoreMasksEffect(c, slot, eqSlot, gt, eq, fields, s);
    var s2 := Exec(p1 + p2, fields, s);
    MergeEffect(rel, slot, eqSlot, gt, eq, c2, fields, s2);
    assert s2.mem[slot := Merged(rel, gt, eq)] == s.mem[slot := Merged(rel, gt, eq)][eqSlot := eq];
  }

  lemma {:induction false} CompareEffect(l: Operand, r: Operand, rel: Relation, slot: nat, eqSlot: nat, n: nat,
                                         c: Cache, fields: seq<Block>, s: State)
    requires CacheOk(c) && Coherent(c, s) && n <= 64
    requires slot < |s.mem| && eqSlot < |s.mem| && slot != eqSlot
    requires Readable(l, fields, s.mem, n) && Readable(r, fields, s.mem, n)
    ensures var (p, c') := CompareCode(l, r, rel, slot, eqSlot, n, c);
            var s' := Exec(p, fields, s);
            var m := Scan(PlanesOf(First(rel, l, r), fields, s.mem, 0, n), PlanesOf(First(rel, r, l), fields, s.mem, 0, n),
                          s.mem[slot], s.mem[eqSlot]);
            s'.Running? && s'.mem == s.mem[slot := Merged(rel, m.0, m.1)][eqSlot := m.1] && Coherent(c', s')
  {
    hide Exec, Step, ScanCode, SettleCode, Scan;
    var m := Scan(PlanesOf(First(rel, l, r), fields, s.mem, 0, n), PlanesOf(First(rel, r, l), fields, s.mem, 0, n),
                  s.mem[slot], s.mem[eqSlot]);
    var (p1, c1) := ScanCode(l, r, rel, slot, eqSlot, n, c);
    var (p2, c2) := SettleCode(rel, slot, eqSlot, c1);
    ExecConcat(p1, p2, fields, s);
    ScanCodeEffect(l, r, rel, slot, eqSlot, n, c, fields, s);
    SettleEffect(rel, slot, eqSlot, m.0, m.1, c1, fields, Exec(p1, fields, s));
  }

  /** Started from primed masks, the comparator decides its relation between the numbers of every lane. */
  lemma {:induction false} ComparatorDecides(l: Operand, r: Operand, rel: Relation, slot: nat, eqSlot: nat, n: nat,
                                             c: Cache, fields: seq<Block>, s: State, lane: nat)
    requires CacheOk(c) && Coherent(c, s) && n <= 64 && lane < 64
    requires slot < |s.mem| && eqSlot < |s.mem| && slot != eqSlot && s.mem[slot] == Zero() && s.mem[eqSlot] == Ones()
    requires Readable(l, fields, s.mem, n) && Readable(r, fields, s.mem, n)
    ensures var s' := Exec(CompareCode(l, r, rel, slot, eqSlot, n, c).0, fields, s);
            s'.Running? && |s'.mem| == |s.mem| &&
            var x, y := Val(Lane(PlanesOf(l, fields, s.mem, 0, n), lane)), Val(Lane(PlanesOf(r, fields, s.mem, 0, n), lane));
            match rel
            case GT => s'.mem[slot][lane] <==> x > y
            case LT => s'.mem[slot][lane] <==> x < y
            case GE => s'.mem[slot][lane] <==> x >= y
            case LE => s'.mem[slot][lane] <==> x <= y
            case EQ => s'.mem[slot][lane] <==> x == y
  {
    hide Exec, Step, CompareCode, Scan, PlanesOf, Val;
    CompareEffect(l, r, rel, slot, eqSlot, n, c, fields, s);
    var a, b := PlanesOf(First(rel, l, r), fields, s.mem, 0, n), PlanesOf(First(rel, r, l), fields, s.mem, 0, n);
    ScanCompares(a, b, Zero(), Ones(), lane);
  }

  lemma {:induction false} MergeEffect(rel: Relation, slot: nat, eqSlot: nat, gt: Word, eq: Word, c: Cache,
                                       fields: seq<Block>, s: State)
    requires CacheOk(c) && Coherent(c, s) && slot < |s.mem| && eqSlot < |s.mem|
    requires s.mem[slot] == gt && s.mem[eqSlot] == eq
    ensures var (p, c') := MergeEqual(rel, slot, eqSlot, c);
            var s' := Exec(p, fields, s);
            s'.Running? && s'.mem == s.mem[slot := Merged(rel, gt, eq)] && Coherent(c', s')
  {
    if rel.GT? || rel.LT? {
      assert s.mem[slot := gt] == s.mem;
    } else {
      var op := if rel.EQ? then Mov(Result, PlaneB) else Orr(Result, PlaneA, PlaneB);
      LogicEffect(op, slot, eqSlot, slot, Merged(rel, gt, eq), c, fields, s);
    }
  }

  // --- Selection ------------------------------------------------------------------------------

  /** A constant's plane: the bit is shifted down, isolated and negated. */
  lemma {:induction false} LoadLiteralEffect(c: Word, d: Reg, bit: nat, fields: seq<Block>, s: State)
    requires s.Running? && bit < 64 && s.regs[BitIndex] == Offset(bit) && (d == PlaneA || d == PlaneB)
    ensures Exec(LoadIndexed(Literal(c), d), fields, s)
         == Put(Put(s, Scratch1, Data(c)), d, Data(if c[bit] then Ones() else Zero()))
  {
    hide Negate, ShiftRight, BitAnd;
    Exec4(MovImm(Scratch1, c), LsrBy(d, Scratch1, BitIndex), AndOne(d, d), Neg(d, d), fields, s);
    NegateBit(c, bit);
  }

  /** An operand's plane fetched through the bit index register. */
  lemma {:induction false} LoadIndexedEffect(o: Operand, d: Reg, bit: nat, fields: seq<Block>, s: State)
    requires s.Running? && bit < 64 && Readable(o, fields, s.mem, bit + 1)
    requires s.regs[BitIndex] == Offset(bit) && (d == PlaneA || d == PlaneB)
    ensures var s' := Exec(LoadIndexed(o, d), fields, s);
            Keeps(s, s', {d, Scratch1, TempPtr}) && s'.mem == s.mem && s'.regs[d] == Data(PlaneOf(o, fields, s.mem, bit))
  {
    hide Exec, Step;
    match o
    case Field(f) => LoadFieldEffect(f, d, bit, fields, s);
    case Literal(c) => LoadLiteralEffect(c, d, bit, fields, s);
    case Slot(n) => LoadWordEffect(n, d, bit, fields, s);
  }

  lemma {:induction false} LoadFieldEffect(f: nat, d: Reg, bit: nat, fields: seq<Block>, s: State)
    requires s.Running? && bit < 64 && f < |fields| && s.regs[BitIndex] == Offset(bit) && (d == PlaneA || d == PlaneB)
    ensures var s' := Exec(LoadIndexed(Field(f), d), fields, s);
            Keeps(s, s', {d, Scratch1, TempPtr}) && s'.mem == s.mem && s'.regs[d] == Data(fields[f][bit])
  {
    Exec2(LdrField(TempPtr, f), LdrIndexed(d, TempPtr, BitIndex), fields, s);
  }

  lemma {:induction false} LoadWordEffect(n: nat, d: Reg, bit: nat, fields: seq<Block>, s: State)
    requires s.Running? && n + bit < |s.mem| && s.regs[BitIndex] == Offset(bit) && (d == PlaneA || d == PlaneB)
    ensures var s' := Exec(LoadIndexed(Slot(n), d), fields, s);
            Keeps(s, s', {d, Scratch1, TempPtr}) && s'.mem == s.mem && s'.regs[d] == Data(s.mem[n + bit])
  {
    Exec3(MovOff(Scratch1, n), AddIndex(Scratch1, BitIndex), LdrScratch(d, Scratch1), fields, s);
  }

  lemma {:induction false} MuxStoreEffect(mask: Word, a: Word, b: Word, dst: nat, fields: seq<Block>, s: State)
    requires s.Running? && dst < |s.mem|
    requires s.regs[MaskGt] == Data(mask) && s.regs[PlaneA] == Data(a) && s.regs[PlaneB] == Data(b)
    ensures var s' := Exec([AndR(Scratch1, MaskGt, PlaneA), Bic(TempPtr, PlaneB, MaskGt), Orr(Scratch1, Scratch1, TempPtr)]
                           + [MovOff(TempPtr, dst), StrScratch(Scratch1, TempPtr)], fields, s);
            Keeps(s, s', {Scratch1, TempPtr}) && s'.mem == s.mem[dst := Mux(mask, a, b)]
  {
    var p := [AndR(Scratch1, MaskGt, PlaneA), Bic(TempPtr, PlaneB, MaskGt), Orr(Scratch1, Scratch1, TempPtr)];
    var q := [MovOff(TempPtr, dst), StrScratch(Scratch1, TempPtr)];
    ExecConcat(p, q, fields, s);
    Exec3(p[0], p[1], p[2], fields, s);
    Exec2(q[0], q[1], fields, Exec(p, fields, s));
  }

  lemma {:induction false} SetIndex(bit: nat, fields: seq<Block>, s: State)
    requires s.Running?
    ensures Exec([MovOff(BitIndex, bit)], fields, s) == Put(s, BitIndex, Offset(bit))
  {
    Exec1(MovOff(BitIndex, bit), fields, s);
  }

  lemma {:induction false} SelectBitEffect(l: Operand, r: Operand, mask: Word, dst: nat, bit: nat,
                                           fields: seq<Block>, s: State)
    requires s.Running? && bit < 64 && dst + bit < |s.mem| && s.regs[MaskGt] == Data(mask)
    requires Readable(l, fields, s.mem, bit + 1) && Readable(r, fields, s.mem, bit + 1)
    ensures var s' := Exec(SelectBit(l, r, dst, bit), fields, s);
            && Keeps(s, s', {PlaneA, PlaneB, Scratch1, BitIndex, TempPtr})
            && s'.mem == s.mem[dst + bit := Mux(mask, PlaneOf(l, fields, s.mem, bit), PlaneOf(r, fields, s.mem, bit))]
  {
    hide Exec, Step, LoadIndexed, Mux, PlaneOf;
    var p0, p1, p2 := [MovOff(BitIndex, bit)], LoadIndexed(l, PlaneA), LoadIndexed(r, PlaneB);
    var p3 := [AndR(Scratch1, MaskGt, PlaneA), Bic(TempPtr, PlaneB, MaskGt), Orr(Scratch1, Scratch1, TempPtr)]
              + [MovOff(TempPtr, dst + bit), StrScratch(Scratch1, TempPtr)];
    SetIndex(bit, fields, s);
    var s0 := Put(s, BitIndex, Offset(bit));
    assert SelectBit(l, r, dst, bit) == p0 + p1 + p2 + p3;
    ExecConcat(p0 + p1 + p2, p3, fields, s);
    ExecConcat(p0 + p1, p2, fields, s);
    ExecConcat(p0, p1, fields, s);
    LoadIndexedEffect(l, PlaneA, bit, fields, s0);
    var s1 := Exec(p1, fields, s0);
    LoadIndexedEffect(r, PlaneB, bit, fields, s1);
    MuxStoreEffect(mask, PlaneOf(l, fields, s.mem, bit), PlaneOf(r, fields, s.mem, bit), dst + bit, fields,
                   Exec(p2, fields, s1));
  }

  /** From s to s' the words dst+k..dst+n became the selected planes k..n and nothing else moved. */
  ghost predicate Muxed(l: Operand, r: Operand, mask: Word, dst: nat, k: nat, n: nat, fields: seq<Block>, s: State,
                        s': State)
    requires k <= n
  {
    && Keeps(s, s', {PlaneA, PlaneB, Scratch1, BitIndex, TempPtr})
    && |s'.mem| == |s.mem| && dst + n <= |s.mem|
    && (forall i | 0 <= i < |s.mem| && !(dst + k <= i < dst + n) :: s'.mem[i] == s.mem[i])
    && s'.mem[dst + k..dst + n]
       == MuxPlanes(mask, PlanesOf(l, fields, s.mem, k, n), PlanesOf(r, fields, s.mem, k, n))
  }

  lemma MuxPlanesStep(l: Operand, r: Operand, mask: Word, dst: nat, k: nat, n: nat, fields: seq<Block>,
                      mem: seq<Word>, mem': seq<Word>)
    requires k < n && dst + n <= |mem| == |mem'| && Apart(l, dst, n) && Apart(r, dst, n)
    requires forall i | 0 <= i < |mem| && i != dst + k :: mem'[i] == mem[i]
    ensures MuxPlanes(mask, PlanesOf(l, fields, mem, k, n), PlanesOf(r, fields, mem, k, n))
         == [Mux(mask, PlaneOf(l, fields, mem, k), PlaneOf(r, fields, mem, k))]
            + MuxPlanes(mask, PlanesOf(l, fields, mem', k + 1, n), PlanesOf(r, fields, mem', k + 1, n))
  {
    hide Mux, PlaneOf;
    PlanesOfFrame(l, fields, mem, mem', k + 1, n);
    PlanesOfFrame(r, fields, mem, mem', k + 1, n);
    PlanesOfStep(l, fields, mem, k, n);
    PlanesOfStep(r, fields, mem, k, n);
  }

  lemma {:induction false} MuxedStep(l: Operand, r: Operand, mask: Word, dst: nat, k: nat, n: nat,
                                     fields: seq<Block>, s: State, s1: State, s': State)
    requires k < n && s.Running? && dst + n <= |s.mem| && Apart(l, dst, n) && Apart(r, dst, n)
    requires Keeps(s, s1, {PlaneA, PlaneB, Scratch1, BitIndex, TempPtr})
    requires s1.mem == s.mem[dst + k := Mux(mask, PlaneOf(l, fields, s.mem, k), PlaneOf(r, fields, s.mem, k))]
    requires Muxed(l, r, mask, dst, k + 1, n, fields, s1, s')
    ensures Muxed(l, r, mask, dst, k, n, fields, s, s')
  {
    hide Mux, PlaneOf, MuxPlanes, PlanesOf;
    MuxPlanesStep(l, r, mask, dst, k, n, fields, s.mem, s1.mem);
    assert s'.mem[dst + k..dst + n] == [s'.mem[dst + k]] + s'.mem[dst + k + 1..dst + n];
  }

  lemma {:induction false} SelectBitsEffect(l: Operand, r: Operand, mask: Word, dst: nat, k: nat, n: nat,
                                            fields: seq<Block>, s: State)
    requires s.Running? && k <= n <= 64 && dst + n <= |s.mem| && s.regs[MaskGt] == Data(mask)
    requires Readable(l, fields, s.mem, n) && Readable(r, fields, s.mem, n)
    requires Apart(l, dst, n) && Apart(r, dst, n)
    ensures Muxed(l, r, mask, dst, k, n, fields, s, Exec(SelectBits(l, r, dst, k, n), fields, s))
    decreases n - k
  {
    hide Step;
    if k < n {
      ExecConcat(SelectBit(l, r, dst, k), SelectBits(l, r, dst, k + 1, n), fields, s);
      SelectBitEffect(l, r, mask, dst, k, fields, s);
      var s1 := Exec(SelectBit(l, r, dst, k), fields, s);
      SelectBitsEffect(l, r, mask, dst, k + 1, n, fields, s1);
      MuxedStep(l, r, mask, dst, k, n, fields, s, s1, Exec(SelectBits(l, r, dst, k + 1, n), fields, s1));
    }
  }

  lemma {:induction false} SelectEffect(l: Operand, r: Operand, cond: nat, dst: nat, n: nat, c: Cache,
                                        fields: seq<Block>, s: State)
    requires CacheOk(c) && Coherent(c, s) && n <= 64 && dst + n <= |s.mem| && cond < |s.mem|
    requires Readable(l, fields, s.mem, n) && Readable(r, fields, s.mem, n)
    requires Apart(l, dst, n) && Apart(r, dst, n)
    ensures var (p, c') := SelectCode(l, r, cond, dst, n, c);
            var s' := Exec(p, fields, s);
            && s'.Running? && |s'.mem| == |s.mem|
            && (forall i | 0 <= i < |s.mem| && !(dst <= i < dst + n) :: s'.mem[i] == s.mem[i])
            && s'.mem[dst..dst + n]
               == MuxPlanes(s.mem[cond], PlanesOf(l, fields, s.mem, 0, n), PlanesOf(r, fields, s.mem, 0, n))
            && ((forall t | t in c'.regOf :: !(dst <= t < dst + n)) ==> Coherent(c', s'))
  {
    hide Exec, Step, LoadSlot, SelectBits, MuxPlanes, PlanesOf, CacheOk;
    var (p1, c1) := LoadSlot(c, cond, MaskGt);
    ExecConcat(p1, SelectBits(l, r, dst, 0, n), fields, s);
    LoadSlotEffect(c, cond, MaskGt, fields, s);
    var s1 := Exec(p1, fields, s);
    SelectBitsEffect(l, r, s.mem[cond], dst, 0, n, fields, s1);
    var s' := Exec(SelectBits(l, r, dst, 0, n), fields, s1);
    if forall t | t in c1.regOf :: !(dst <= t < dst + n) {
      PlanesCoherent(c1, dst, n, s1, s', {PlaneA, PlaneB, Scratch1, BitIndex, TempPtr});
    }
  }

  /** Planes stored directly cannot disturb the cache when no cached slot lies among them. */
  lemma PlanesCoherent(c: Cache, dst: nat, n: nat, s: State, s': State, changed: set<nat>)
    requires CacheOk(c) && Coherent(c, s) && Keeps(s, s', changed) && changed !! CacheRegs()
    requires |s'.mem| == |s.mem|
    requires forall i | 0 <= i < |s.mem| && !(dst <= i < dst + n) :: s'.mem[i] == s.mem[i]
    requires forall t | t in c.regOf :: !(dst <= t < dst + n)
    ensures Coherent(c, s')
  {
    forall t | t in c.regOf
      ensures s'.regs[CacheBase + c.regOf[t]] == Data(s'.mem[t])
    {
      assert CacheBase + c.regOf[t] in CacheRegs();
    }
  }
}
