/**
 The ARM64 instructions a kernel is made of, over a register file, a scratchpad of 64-bit words
 and read-only field blocks. Registers that hold addresses are kept apart from registers that
 hold data, and offsets count words; any access outside the scratchpad or the field blocks,
 and any use of an address as data, faults.
 */
module Machine {
  import opened Words

  datatype Value =
    | Data(w: Word)
    | Offset(n: nat)        // byte offset into the scratchpad, in words
    | ScratchPtr(n: nat)    // address of scratchpad word n
    | FieldPtr(f: nat)      // address of the planes of field f

  type Reg = r: nat | r < 32
  type Regs = r: seq<Value> | |r| == 32 witness seq(32, i => Offset(0))

  // Register assignment of the bit-sliced kernels; x19 and x20 hold the two arguments throughout.
  const Result0: Reg := 0
  const PlaneA: Reg := 2
  const PlaneB: Reg := 3
  const Result: Reg := 4
  const MaskGt: Reg := 5
  const MaskEq: Reg := 6
  const Scratch1: Reg := 7
  const CacheBase: Reg := 8
  const HoistL: Reg := 16
  const HoistR: Reg := 17
  const BitIndex: Reg := 21
  const TempPtr: Reg := 22
  const CarryBase: Reg := 23

  datatype Instr =
    | MovImm(d: Reg, w: Word)
    | MovOff(d: Reg, n: nat)
    | Mov(d: Reg, a: Reg)
    | Mvn(d: Reg, a: Reg)
    | AndR(d: Reg, a: Reg, b: Reg)
    | Orr(d: Reg, a: Reg, b: Reg)
    | Eor(d: Reg, a: Reg, b: Reg)
    | Bic(d: Reg, a: Reg, b: Reg)
    | LsrBy(d: Reg, a: Reg, idx: Reg)
    | AndOne(d: Reg, a: Reg)
    | Neg(d: Reg, a: Reg)
    | LdrField(d: Reg, f: nat)               // ldr d, [x19, f*8]
    | AddBase(d: Reg)                        // add d, d, x20
    | AddIndex(d: Reg, idx: Reg)             // add d, d, idx, lsl 3
    | AddOff(d: Reg, n: nat)                 // add d, d, n*8
    | LdrAt(d: Reg, p: Reg, k: nat)          // ldr d, [p, k*8]
    | StrAt(a: Reg, p: Reg, k: nat)          // str a, [p, k*8]
    | LdrIndexed(d: Reg, p: Reg, idx: Reg)   // ldr d, [p, idx, lsl 3]
    | LdrScratch(d: Reg, o: Reg)             // ldr d, [x20, o]
    | StrScratch(a: Reg, o: Reg)             // str a, [x20, o]
    | StrZero(o: Reg)                        // str xzr, [x20, o]
    | StrWord(a: Reg, k: nat)                // str a, [x20, k*8]

  type Code = seq<Instr>

  datatype State = Fault | Running(regs: Regs, mem: seq<Word>)

  function Put(s: State, d: Reg, v: Value): State
    requires s.Running?
  {
    Running(s.regs[d := v], s.mem)
  }

  function Fetch(fields: seq<Block>, s: State, d: Reg, p: Value, k: nat): State
    requires s.Running?
  {
    match p
    case FieldPtr(f) => if f < |fields| && k < 64 then Put(s, d, Data(fields[f][k])) else Fault
    case ScratchPtr(n) => if n + k < |s.mem| then Put(s, d, Data(s.mem[n + k])) else Fault
    case _ => Fault
  }

  function Poke(s: State, n: nat, v: Value): State
    requires s.Running?
  {
    if n < |s.mem| && v.Data? then Running(s.regs, s.mem[n := v.w]) else Fault
  }

  function Step(i: Instr, fields: seq<Block>, s: State): State {
    if s.Fault? then Fault else
    match i
    case MovImm(d, w) => Put(s, d, Data(w))
    case MovOff(d, n) => Put(s, d, Offset(n))
    case Mov(d, a) => Put(s, d, s.regs[a])
    case Mvn(d, a) => if s.regs[a].Data? then Put(s, d, Data(BitNot(s.regs[a].w))) else Fault
    case AndR(d, a, b) =>
      if s.regs[a].Data? && s.regs[b].Data? then Put(s, d, Data(BitAnd(s.regs[a].w, s.regs[b].w))) else Fault
    case Orr(d, a, b) =>
      if s.regs[a].Data? && s.regs[b].Data? then Put(s, d, Data(BitOr(s.regs[a].w, s.regs[b].w))) else Fault
    case Eor(d, a, b) =>
      if s.regs[a].Data? && s.regs[b].Data? then Put(s, d, Data(BitXor(s.regs[a].w, s.regs[b].w))) else Fault
    case Bic(d, a, b) =>
      if s.regs[a].Data? && s.regs[b].Data? then Put(s, d, Data(BitClear(s.regs[a].w, s.regs[b].w))) else Fault
    case LsrBy(d, a, idx) =>
      if s.regs[a].Data? && s.regs[idx].Offset? then Put(s, d, Data(ShiftRight(s.regs[a].w, s.regs[idx].n))) else Fault
    case AndOne(d, a) => if s.regs[a].Data? then Put(s, d, Data(BitAnd(s.regs[a].w, One()))) else Fault
    case Neg(d, a) => if s.regs[a].Data? then Put(s, d, Data(Negate(s.regs[a].w))) else Fault
    case LdrField(d, f) => if f < |fields| then Put(s, d, FieldPtr(f)) else Fault
    case AddBase(d) => if s.regs[d].Offset? then Put(s, d, ScratchPtr(s.regs[d].n)) else Fault
    case AddIndex(d, idx) =>
      if s.regs[d].Offset? && s.regs[idx].Offset? then Put(s, d, Offset(s.regs[d].n + s.regs[idx].n)) else Fault
    case AddOff(d, n) => if s.regs[d].Offset? then Put(s, d, Offset(s.regs[d].n + n)) else Fault
    case LdrAt(d, p, k) => Fetch(fields, s, d, s.regs[p], k)
    case StrAt(a, p, k) => if s.regs[p].ScratchPtr? then Poke(s, s.regs[p].n + k, s.regs[a]) else Fault
    case LdrIndexed(d, p, idx) => if s.regs[idx].Offset? then Fetch(fields, s, d, s.regs[p], s.regs[idx].n) else Fault
    case LdrScratch(d, o) => if s.regs[o].Offset? then Fetch(fields, s, d, ScratchPtr(s.regs[o].n), 0) else Fault
    case StrScratch(a, o) => if s.regs[o].Offset? then Poke(s, s.regs[o].n, s.regs[a]) else Fault
    case StrZero(o) => if s.regs[o].Offset? then Poke(s, s.regs[o].n, Data(Zero())) else Fault
    case StrWord(a, k) => Poke(s, k, s.regs[a])
  }

  function Exec(code: Code, fields: seq<Block>, s: State): State {
    if code == [] then s else Exec(code[1..], fields, Step(code[0], fields, s))
  }

  lemma {:induction false} ExecConcat(p: Code, q: Code, fields: seq<Block>, s: State)
    ensures Exec(p + q, fields, s) == Exec(q, fields, Exec(p, fields, s))
  {
    if p == [] {
      assert p + q == q;
    } else {
      assert (p + q)[1..] == p[1..] + q;
      ExecConcat(p[1..], q, fields, Step(p[0], fields, s));
    }
  }

  lemma {:induction false} Exec1(a: Instr, fields: seq<Block>, s: State)
    ensures Exec([a], fields, s) == Step(a, fields, s)
  {
    assert Exec([a][1..], fields, Step(a, fields, s)) == Step(a, fields, s);
  }

  lemma {:induction false} Exec2(a: Instr, b: Instr, fields: seq<Block>, s: State)
    ensures Exec([a, b], fields, s) == Step(b, fields, Step(a, fields, s))
  {
    assert [a, b][1..] == [b];
    Exec1(b, fields, Step(a, fields, s));
  }

  lemma {:induction false} Exec3(a: Instr, b: Instr, c: Instr, fields: seq<Block>, s: State)
    ensures Exec([a, b, c], fields, s) == Step(c, fields, Step(b, fields, Step(a, fields, s)))
  {
    assert [a, b, c][1..] == [b, c];
    Exec2(b, c, fields, Step(a, fields, s));
  }

  lemma {:induction false} Exec4(a: Instr, b: Instr, c: Instr, d: Instr, fields: seq<Block>, s: State)
    ensures Exec([a, b, c, d], fields, s)
         == Step(d, fields, Step(c, fields, Step(b, fields, Step(a, fields, s))))
  {
    assert [a, b, c, d][1..] == [b, c, d];
    Exec3(b, c, d, fields, Step(a, fields, s));
  }
}
