/**
 The scalar backend: straight-line code that evaluates one row, run in a loop over 64 rows that
 collects the root's result bit by bit.
 */
module Scalar {
  import opened Words
  import opened Ir
  import opened Emission
  import opened Correctness

  type Reg = r: nat | r < 32
  type Regs = r: seq<Word> | |r| == 32 witness seq(32, i => seq(64, j => false))

  const ValRes: Reg := 5
  const ValLeft: Reg := 16
  const ValRight: Reg := 17
  const TempReg: Reg := 23

  datatype Instr =
    | LdrCell(d: Reg, f: nat)        // field pointer, then the cell of the current row
    | MovConst(d: Reg, w: Word)
    | LdrSlot(d: Reg, k: nat)
    | StrSlot(a: Reg, k: nat)
    | AddR(d: Reg, a: Reg, b: Reg)
    | SubR(d: Reg, a: Reg, b: Reg)
    | AndR(d: Reg, a: Reg, b: Reg)
    | OrrR(d: Reg, a: Reg, b: Reg)
    | CmpR(a: Reg, b: Reg)
    | CmpZero(a: Reg)
    | Cset(d: Reg, rel: Relation)
    | CselNe(d: Reg, a: Reg, b: Reg)

  type Code = seq<Instr>

  /** `cmp` holds the two operands of the last comparison, which decide every condition code. */
  datatype State = Fault | Running(regs: Regs, mem: seq<Word>, cmp: (Word, Word))

  function Put(s: State, d: Reg, w: Word): State
    requires s.Running?
  {
    Running(s.regs[d := w], s.mem, s.cmp)
  }

  function Step(i: Instr, cols: seq<Block>, row: nat, s: State): State
    requires row < 64
  {
    if s.Fault? then Fault else
    match i
    case LdrCell(d, f) => if f < |cols| then Put(s, d, cols[f][row]) else Fault
    case MovConst(d, w) => Put(s, d, w)
    case LdrSlot(d, k) => if k < |s.mem| then Put(s, d, s.mem[k]) else Fault
    case StrSlot(a, k) => if k < |s.mem| then Running(s.regs, s.mem[k := s.regs[a]], s.cmp) else Fault
    case AddR(d, a, b) => Put(s, d, AddWords(s.regs[a], s.regs[b]))
    case SubR(d, a, b) => Put(s, d, SubWords(s.regs[a], s.regs[b]))
    case AndR(d, a, b) => Put(s, d, BitAnd(s.regs[a], s.regs[b]))
    case OrrR(d, a, b) => Put(s, d, BitOr(s.regs[a], s.regs[b]))
    case CmpR(a, b) => Running(s.regs, s.mem, (s.regs[a], s.regs[b]))
    case CmpZero(a) => Running(s.regs, s.mem, (s.regs[a], Zero()))
    case Cset(d, rel) => Put(s, d, Truth(rel, s.cmp.0, s.cmp.1))
    case CselNe(d, a, b) => Put(s, d, if s.cmp.0 != s.cmp.1 then s.regs[a] else s.regs[b])
  }

  function AddWords(a: Word, b: Word): Word {
    ToWord(Val(a) + Val(b))
  }

  function SubWords(a: Word, b: Word): Word {
    ToWord(Wrap(Val(a) - Val(b)))
  }

  function Truth(rel: Relation, a: Word, b: Word): Word {
    if Compares(rel, Val(a), Val(b)) then One() else Zero()
  }

  function Exec(code: Code, cols: seq<Block>, row: nat, s: State): State
    requires row < 64
  {
    if code == [] then s else Exec(code[1..], cols, row, Step(code[0], cols, row, s))
  }

  lemma {:induction false} ExecConcat(p: Code, q: Code, cols: seq<Block>, row: nat, s: State)
    requires row < 64
    ensures Exec(p + q, cols, row, s) == Exec(q, cols, row, Exec(p, cols, row, s))
  {
    if p == [] {
      assert p + q == q;
    } else {
      assert (p + q)[1..] == p[1..] + q;
      ExecConcat(p[1..], q, cols, row, Step(p[0], cols, row, s));
    }
  }

  // --- Emission -------------------------------------------------------------------------------

  /** The cell or slot that holds a node's word is known. */
  predicate Located(n: Node, m: Meta) {
    match n
    case Load(_) => m.field >= 0
    case Const(_) => true
    case _ => m.slot >= 0
  }

  function Fetch(n: Node, m: Meta, d: Reg): Instr
    requires Located(n, m)
  {
    match n
    case Load(_) => LdrCell(d, m.field)
    case Const(w) => MovConst(d, w)
    case _ => LdrSlot(d, m.slot)
  }

  /** Operands the code of a node reads are placed. */
  predicate Reads(g: Graph, lay: Layout, id: nat) {
    && |lay| == |g| && id < |g| && Within(g[id], |g|)
    && match g[id]
       case Load(_) => true
       case Const(_) => true
       case Sum(_) => true
       case Not(l) => Located(g[l], lay[l])
       case Select(c, l, r) => Located(g[l], lay[l]) && Located(g[r], lay[r]) && lay[c].slot >= 0
       case _ => Located(g[g[id].left], lay[g[id].left]) && Located(g[g[id].right], lay[g[id].right])
  }

  function FetchBoth(g: Graph, lay: Layout, l: nat, r: nat): Code
    requires |lay| == |g| && l < |g| && r < |g| && Located(g[l], lay[l]) && Located(g[r], lay[r])
  {
    [Fetch(g[l], lay[l], ValLeft), Fetch(g[r], lay[r], ValRight)]
  }

  /** The result is stored if the node has a slot. */
  function Keep(m: Meta): Code {
    if m.slot >= 0 then [StrSlot(ValRes, m.slot)] else []
  }

  /** No instruction computes a negation or a sum: their slots get whatever the result register holds. */
  function NodeCode(g: Graph, lay: Layout, id: nat): Code
    requires Reads(g, lay, id)
  {
    if IsLeaf(g[id]) then [] else Operation(g, lay, id) + Keep(lay[id])
  }

  /** Everything but the store. */
  function Operation(g: Graph, lay: Layout, id: nat): Code
    requires Reads(g, lay, id)
  {
    match g[id]
    case Load(_) => []
    case Const(_) => []
    case Sum(_) => []
    case Not(l) => [Fetch(g[l], lay[l], ValLeft)]
    case Add(l, r) => FetchBoth(g, lay, l, r) + [AddR(ValRes, ValLeft, ValRight)]
    case Sub(l, r) => FetchBoth(g, lay, l, r) + [SubR(ValRes, ValLeft, ValRight)]
    case And(l, r) => FetchBoth(g, lay, l, r) + [AndR(ValRes, ValLeft, ValRight)]
    case Or(l, r) => FetchBoth(g, lay, l, r) + [OrrR(ValRes, ValLeft, ValRight)]
    case Compare(rel, l, r) => FetchBoth(g, lay, l, r) + [CmpR(ValLeft, ValRight), Cset(ValRes, rel)]
    case Select(c, l, r) =>
      FetchBoth(g, lay, l, r) + [LdrSlot(TempReg, lay[c].slot), CmpZero(TempReg), CselNe(ValRes, ValLeft, ValRight)]
  }

  predicate AllRead(g: Graph, lay: Layout, order: seq<nat>) {
    forall i | 0 <= i < |order| :: Reads(g, lay, order[i])
  }

  /** The code of the first k nodes. */
  function RowCode(g: Graph, lay: Layout, order: seq<nat>, k: nat): Code
    requires k <= |order| && AllRead(g, lay, order)
  {
    if k == 0 then [] else RowCode(g, lay, order, k - 1) + NodeCode(g, lay, order[k - 1])
  }

  /** The emission loop of the scalar backend. */
  method EmitRow(g: Graph, lay: Layout, order: seq<nat>) returns (code: Code)
    requires AllRead(g, lay, order)
    ensures code == RowCode(g, lay, order, |order|)
  {
    code := [];
    for k := 0 to |order|
      invariant code == RowCode(g, lay, order, k)
    {
      code := code + NodeCode(g, lay, order[k]);
    }
  }

  // --- Meaning --------------------------------------------------------------------------------

  /** One row of a scalar kernel. */
  datatype Row = Row(g: Graph, lay: Layout, order: seq<nat>, cols: seq<Block>, row: nat)

  ghost predicate RowOk(x: Row) {
    && Valid(x.g) && x.row < 64 && |x.lay| == |x.g| && Topological(x.g, x.order)
    && AllRead(x.g, x.lay, x.order)
    && (forall i | 0 <= i < |x.order| && x.g[x.order[i]].Load? :: 0 <= x.lay[x.order[i]].field < |x.cols|)
    && (forall i | 0 <= i < |x.order| && !IsLeaf(x.g[x.order[i]]) :: x.lay[x.order[i]].slot < SLOTS)
    && (forall i | 0 <= i < |x.order| - 1 && !IsLeaf(x.g[x.order[i]]) :: 0 <= x.lay[x.order[i]].slot)
    && (forall i, j | 0 <= i < j < |x.order| && !IsLeaf(x.g[x.order[i]]) && !IsLeaf(x.g[x.order[j]]) ::
          x.lay[x.order[i]].slot != x.lay[x.order[j]].slot)
  }

  /** The word an operand contributes, given the words computed so far. */
  ghost function Operand(x: Row, vals: map<nat, Word>, c: nat): Word
    requires RowOk(x)
  {
    if c < |x.g| && x.g[c].Load? && 0 <= x.lay[c].field < |x.cols| then x.cols[x.lay[c].field][x.row]
    else if c < |x.g| && x.g[c].Const? then x.g[c].value
    else if c in vals then vals[c]
    else Zero()
  }

  /** The result register after a node: a negation or a sum leaves it as the previous node did. */
  ghost function Computed(x: Row, vals: map<nat, Word>, res: Word, n: Node): Word
    requires RowOk(x)
  {
    match n
    case Add(l, r) => AddWords(Operand(x, vals, l), Operand(x, vals, r))
    case Sub(l, r) => SubWords(Operand(x, vals, l), Operand(x, vals, r))
    case And(l, r) => BitAnd(Operand(x, vals, l), Operand(x, vals, r))
    case Or(l, r) => BitOr(Operand(x, vals, l), Operand(x, vals, r))
    case Compare(rel, l, r) => Truth(rel, Operand(x, vals, l), Operand(x, vals, r))
    case Select(c, l, r) => if Operand(x, vals, c) != Zero() then Operand(x, vals, l) else Operand(x, vals, r)
    case _ => res
  }

  /** Words stored for the first k nodes, and the result register, entered with `res`. */
  ghost function Folded(x: Row, k: nat, res: Word): (f: (map<nat, Word>, Word))
    requires RowOk(x) && k <= |x.order|
  {
    if k == 0 then (map[], res) else
      var (vals, r) := Folded(x, k - 1, res);
      var id := x.order[k - 1];
      if IsLeaf(x.g[id]) then (vals, r) else
        var w := Computed(x, vals, r, x.g[id]);
        (vals[id := w], w)
  }

  /** The state agrees with the words computed so far. */
  ghost predicate Agrees(x: Row, k: nat, res: Word, s: State)
    requires RowOk(x) && k <= |x.order|
  {
    && s.Running? && |s.mem| >= SLOTS && s.regs[ValRes] == Folded(x, k, res).1
    && forall i | 0 <= i < k && !IsLeaf(x.g[x.order[i]]) && x.lay[x.order[i]].slot >= 0 ::
         x.order[i] in Folded(x, k, res).0 && s.mem[x.lay[x.order[i]].slot] == Folded(x, k, res).0[x.order[i]]
  }

  // --- Correctness of the emitted code --------------------------------------------------------

  lemma {:induction false} Exec1(a: Instr, cols: seq<Block>, row: nat, s: State)
    requires row < 64
    ensures Exec([a], cols, row, s) == Step(a, cols, row, s)
  {
    assert Exec([a][1..], cols, row, Step(a, cols, row, s)) == Step(a, cols, row, s);
  }

  lemma {:induction false} Exec2(a: Instr, b: Instr, cols: seq<Block>, row: nat, s: State)
    requires row < 64
    ensures Exec([a, b], cols, row, s) == Step(b, cols, row, Step(a, cols, row, s))
  {
    assert [a, b][1..] == [b];
    Exec1(b, cols, row, Step(a, cols, row, s));
  }

  lemma {:induction false} Exec3(a: Instr, b: Instr, c: Instr, cols: seq<Block>, row: nat, s: State)
    requires row < 64
    ensures Exec([a, b, c], cols, row, s) == Step(c, cols, row, Step(b, cols, row, Step(a, cols, row, s)))
  {
    assert [a, b, c][1..] == [b, c];
    Exec2(b, c, cols, row, Step(a, cols, row, s));
  }

  lemma {:induction false} FetchEffect(x: Row, k: nat, res: Word, s: State, c: nat, d: Reg)
    requires RowOk(x) && k < |x.order| && Agrees(x, k, res, s) && Listed(x.order, k, c) && c < |x.g|
    requires Located(x.g[c], x.lay[c])
    ensures Step(Fetch(x.g[c], x.lay[c], d), x.cols, x.row, s) == Put(s, d, Operand(x, Folded(x, k, res).0, c))
  {
    hide Folded, Valid, AllRead, Topological;
    var j :| 0 <= j < k && x.order[j] == c;
    MemberFolded(x, k, res, j);
  }

  lemma {:induction false} MemberFolded(x: Row, k: nat, res: Word, j: nat)
    requires RowOk(x) && j < k <= |x.order|
    ensures x.order[j] < |x.g|
    ensures !IsLeaf(x.g[x.order[j]]) ==> x.order[j] in Folded(x, k, res).0
    decreases k
  {
    hide Computed, Valid, AllRead;
    if j < k - 1 {
      MemberFolded(x, k - 1, res, j);
    }
  }

  /** Both operands in their registers. */
  lemma {:induction false} FetchBothEffect(x: Row, k: nat, res: Word, s: State, l: nat, r: nat)
    requires RowOk(x) && k < |x.order| && Agrees(x, k, res, s)
    requires Listed(x.order, k, l) && Listed(x.order, k, r) && l < |x.g| && r < |x.g|
    requires Located(x.g[l], x.lay[l]) && Located(x.g[r], x.lay[r])
    ensures var vals := Folded(x, k, res).0;
            Exec(FetchBoth(x.g, x.lay, l, r), x.cols, x.row, s)
            == Put(Put(s, ValLeft, Operand(x, vals, l)), ValRight, Operand(x, vals, r))
  {
    hide Step, Fetch, Folded, Operand, Valid, Topological, AllRead;
    var a, b := Fetch(x.g[l], x.lay[l], ValLeft), Fetch(x.g[r], x.lay[r], ValRight);
    Exec2(a, b, x.cols, x.row, s);
    FetchEffect(x, k, res, s, l, ValLeft);
    var s1 := Put(s, ValLeft, Operand(x, Folded(x, k, res).0, l));
    AgreesOperands(x, k, res, s, s1);
    FetchEffect(x, k, res, s1, r, ValRight);
  }

  /** Operand and temporary registers do not matter to the agreement. */
  lemma AgreesOperands(x: Row, k: nat, res: Word, s: State, s1: State)
    requires RowOk(x) && k <= |x.order| && Agrees(x, k, res, s)
    requires s1.Running? && s1.mem == s.mem && s1.regs[ValRes] == s.regs[ValRes]
    ensures Agrees(x, k, res, s1)
  {
    hide Folded, RowOk;
  }

  /** The result register holds w and is stored in the slot of node k, if it has one. */
  ghost predicate Stored(x: Row, k: nat, w: Word, s: State, s': State)
    requires RowOk(x) && k < |x.order|
  {
    && s.Running? && s'.Running? && s'.regs[ValRes] == w
    && if x.lay[x.order[k]].slot < 0 then s'.mem == s.mem
       else x.lay[x.order[k]].slot < |s.mem| && s'.mem == s.mem[x.lay[x.order[k]].slot := w]
  }

  /** The result register holds w and nothing was stored. */
  ghost predicate Produced(w: Word, s: State, s': State) {
    s.Running? && s'.Running? && s'.regs[ValRes] == w && s'.mem == s.mem
  }

  /** The operation of a two-operand node on the fetched operands. */
  lemma {:induction false} OperationEffect(op: Instr, a: Word, b: Word, w: Word, cols: seq<Block>, row: nat, s: State)
    requires row < 64 && s.Running? && s.regs[ValLeft] == a && s.regs[ValRight] == b
    requires || (op == AddR(ValRes, ValLeft, ValRight) && w == AddWords(a, b))
             || (op == SubR(ValRes, ValLeft, ValRight) && w == SubWords(a, b))
             || (op == AndR(ValRes, ValLeft, ValRight) && w == BitAnd(a, b))
             || (op == OrrR(ValRes, ValLeft, ValRight) && w == BitOr(a, b))
    ensures Produced(w, s, Exec([op], cols, row, s))
  {
    hide AddWords, SubWords, BitAnd, BitOr;
    Exec1(op, cols, row, s);
  }

  lemma {:induction false} CompareEffect(rel: Relation, a: Word, b: Word, cols: seq<Block>, row: nat, s: State)
    requires row < 64 && s.Running? && s.regs[ValLeft] == a && s.regs[ValRight] == b
    ensures Produced(Truth(rel, a, b), s, Exec([CmpR(ValLeft, ValRight), Cset(ValRes, rel)], cols, row, s))
  {
    hide Truth;
    Exec2(CmpR(ValLeft, ValRight), Cset(ValRes, rel), cols, row, s);
  }

  lemma {:induction false} SelectEffect(cond: nat, a: Word, b: Word, cols: seq<Block>, row: nat, s: State)
    requires row < 64 && s.Running? && s.regs[ValLeft] == a && s.regs[ValRight] == b && cond < |s.mem|
    ensures Produced(if s.mem[cond] != Zero() then a else b, s,
                     Exec([LdrSlot(TempReg, cond), CmpZero(TempReg), CselNe(ValRes, ValLeft, ValRight)], cols, row, s))
  {
    hide Zero;
    Exec3(LdrSlot(TempReg, cond), CmpZero(TempReg), CselNe(ValRes, ValLeft, ValRight), cols, row, s);
  }

  /** The code of one node stores the word the row semantics gives it. */
  lemma {:induction false} NodeRuns(x: Row, k: nat, res: Word, s: State)
    requires RowOk(x) && k < |x.order| && Agrees(x, k, res, s) && !IsLeaf(x.g[x.order[k]])
    ensures var f := Folded(x, k, res);
            Stored(x, k, Computed(x, f.0, f.1, x.g[x.order[k]]), s, Exec(NodeCode(x.g, x.lay, x.order[k]), x.cols, x.row, s))
  {
    hide Exec, Folded, Computed, Operation, Valid, Agrees, Topological;
    var id, f := x.order[k], Folded(x, k, res);
    assert Reads(x.g, x.lay, id);
    OperationRuns(x, k, res, s);
    ExecConcat(Operation(x.g, x.lay, id), Keep(x.lay[id]), x.cols, x.row, s);
    AgreesRoom(x, k, res, s);
    KeepRuns(x, k, Exec(Operation(x.g, x.lay, id), x.cols, x.row, s));
  }

  lemma AgreesRoom(x: Row, k: nat, res: Word, s: State)
    requires RowOk(x) && k <= |x.order| && Agrees(x, k, res, s)
    ensures s.Running? && |s.mem| >= SLOTS
  {
  }

  lemma {:induction false} KeepRuns(x: Row, k: nat, s: State)
    requires RowOk(x) && k < |x.order| && !IsLeaf(x.g[x.order[k]]) && s.Running? && |s.mem| >= SLOTS
    ensures Stored(x, k, s.regs[ValRes], s, Exec(Keep(x.lay[x.order[k]]), x.cols, x.row, s))
  {
    if x.lay[x.order[k]].slot >= 0 {
      Exec1(StrSlot(ValRes, x.lay[x.order[k]].slot), x.cols, x.row, s);
    }
  }

  /** Everything but the store leaves the node's word in the result register. */
  lemma {:induction false} OperationRuns(x: Row, k: nat, res: Word, s: State)
    requires RowOk(x) && k < |x.order| && Agrees(x, k, res, s) && !IsLeaf(x.g[x.order[k]])
    ensures Reads(x.g, x.lay, x.order[k])
    ensures var f := Folded(x, k, res);
            Produced(Computed(x, f.0, f.1, x.g[x.order[k]]), s, Exec(Operation(x.g, x.lay, x.order[k]), x.cols, x.row, s))
  {
    hide Exec, Step, Fetch, Folded, Operand, AddWords, SubWords, Truth, BitAnd, BitOr, FetchBoth, Valid;
    var id := x.order[k];
    var f := Folded(x, k, res);
    assert Reads(x.g, x.lay, id) && OperandsListed(x.g[id], x.order, k);
    if x.g[id].Sum? {
      ExecNothing(x.cols, x.row, s);
    } else if x.g[id].Not? {
      var l := x.g[id].left;
      Exec1(Fetch(x.g[l], x.lay[l], ValLeft), x.cols, x.row, s);
      FetchEffect(x, k, res, s, l, ValLeft);
    } else {
      var l, r := x.g[id].left, x.g[id].right;
      var p := FetchBoth(x.g, x.lay, l, r);
      FetchBothEffect(x, k, res, s, l, r);
      var a, b := Operand(x, f.0, l), Operand(x, f.0, r);
      var s1 := Put(Put(s, ValLeft, a), ValRight, b);
      match x.g[id] {
        case Add(_, _) =>
          ExecConcat(p, [AddR(ValRes, ValLeft, ValRight)], x.cols, x.row, s);
          OperationEffect(AddR(ValRes, ValLeft, ValRight), a, b, AddWords(a, b), x.cols, x.row, s1);
        case Sub(_, _) =>
          ExecConcat(p, [SubR(ValRes, ValLeft, ValRight)], x.cols, x.row, s);
          OperationEffect(SubR(ValRes, ValLeft, ValRight), a, b, SubWords(a, b), x.cols, x.row, s1);
        case And(_, _) =>
          ExecConcat(p, [AndR(ValRes, ValLeft, ValRight)], x.cols, x.row, s);
          OperationEffect(AndR(ValRes, ValLeft, ValRight), a, b, BitAnd(a, b), x.cols, x.row, s1);
        case Or(_, _) =>
          ExecConcat(p, [OrrR(ValRes, ValLeft, ValRight)], x.cols, x.row, s);
          OperationEffect(OrrR(ValRes, ValLeft, ValRight), a, b, BitOr(a, b), x.cols, x.row, s1);
        case Compare(rel, _, _) =>
          ExecConcat(p, [CmpR(ValLeft, ValRight), Cset(ValRes, rel)], x.cols, x.row, s);
          CompareEffect(rel, a, b, x.cols, x.row, s1);
        case Select(c, _, _) => SelectRuns(x, k, res, s);
      }
    }
  }

  lemma ExecNothing(cols: seq<Block>, row: nat, s: State)
    requires row < 64
    ensures Exec([], cols, row, s) == s
  {
  }

  lemma {:induction false} SelectRuns(x: Row, k: nat, res: Word, s: State)
    requires RowOk(x) && k < |x.order| && Agrees(x, k, res, s) && x.g[x.order[k]].Select?
    ensures Reads(x.g, x.lay, x.order[k])
    ensures var f := Folded(x, k, res);
            Produced(Computed(x, f.0, f.1, x.g[x.order[k]]), s, Exec(Operation(x.g, x.lay, x.order[k]), x.cols, x.row, s))
  {
    hide Exec, Step, Fetch, Folded, FetchBoth;
    var id := x.order[k];
    assert Reads(x.g, x.lay, id) && OperandsListed(x.g[id], x.order, k) && TypedAt(x.g, id);
    var Select(c, l, r) := x.g[id];
    var f := Folded(x, k, res);
    FetchBothEffect(x, k, res, s, l, r);
    var s1 := Put(Put(s, ValLeft, Operand(x, f.0, l)), ValRight, Operand(x, f.0, r));
    var q := [LdrSlot(TempReg, x.lay[c].slot), CmpZero(TempReg), CselNe(ValRes, ValLeft, ValRight)];
    ExecConcat(FetchBoth(x.g, x.lay, l, r), q, x.cols, x.row, s);
    var j :| 0 <= j < k && x.order[j] == c;
    MemberFolded(x, k, res, j);
    SelectEffect(x.lay[c].slot, Operand(x, f.0, l), Operand(x, f.0, r), x.cols, x.row, s1);
  }

  /** Storing node k's word keeps the words of the others, whose slots are different. */
  lemma {:induction false} StoredAgrees(x: Row, k: nat, res: Word, s: State, s': State)
    requires RowOk(x) && k < |x.order| && Agrees(x, k, res, s) && !IsLeaf(x.g[x.order[k]])
    requires var f := Folded(x, k, res); Stored(x, k, Computed(x, f.0, f.1, x.g[x.order[k]]), s, s')
    ensures Agrees(x, k + 1, res, s')
  {
    hide Computed, Folded, Valid, AllRead;
    FoldedStep(x, k, res);
    var f, f' := Folded(x, k, res), Folded(x, k + 1, res);
    forall i | 0 <= i < k + 1 && !IsLeaf(x.g[x.order[i]]) && x.lay[x.order[i]].slot >= 0
      ensures x.order[i] in f'.0 && s'.mem[x.lay[x.order[i]].slot] == f'.0[x.order[i]]
    {
      if i < k {
        OnceListed(x, i, k);
        MemberFolded(x, k, res, i);
      }
    }
  }

  lemma {:induction false} LeafAgrees(x: Row, k: nat, res: Word, s: State)
    requires RowOk(x) && k < |x.order| && Agrees(x, k, res, s) && IsLeaf(x.g[x.order[k]])
    ensures Agrees(x, k + 1, res, Exec(NodeCode(x.g, x.lay, x.order[k]), x.cols, x.row, s))
  {
    assert NodeCode(x.g, x.lay, x.order[k]) == [];
  }

  /** The row's code computes the row semantics, node by node. */
  lemma {:induction false} RowRuns(x: Row, k: nat, res: Word, s: State)
    requires RowOk(x) && k <= |x.order| && s.Running? && |s.mem| >= SLOTS && s.regs[ValRes] == res
    ensures Agrees(x, k, res, Exec(RowCode(x.g, x.lay, x.order, k), x.cols, x.row, s))
  {
    hide Step, NodeCode, Agrees;
    if k == 0 {
      AgreesNone(x, res, s);
    } else {
      RowRuns(x, k - 1, res, s);
      var s1 := Exec(RowCode(x.g, x.lay, x.order, k - 1), x.cols, x.row, s);
      ExecConcat(RowCode(x.g, x.lay, x.order, k - 1), NodeCode(x.g, x.lay, x.order[k - 1]), x.cols, x.row, s);
      if IsLeaf(x.g[x.order[k - 1]]) {
        LeafAgrees(x, k - 1, res, s1);
      } else {
        NodeRuns(x, k - 1, res, s1);
        StoredAgrees(x, k - 1, res, s1, Exec(NodeCode(x.g, x.lay, x.order[k - 1]), x.cols, x.row, s1));
      }
    }
  }

  lemma AgreesNone(x: Row, res: Word, s: State)
    requires RowOk(x) && s.Running? && |s.mem| >= SLOTS && s.regs[ValRes] == res
    ensures Agrees(x, 0, res, s)
  {
  }

  // --- Meaning of the row semantics -----------------------------------------------------------

  /** Neither a negation nor a sum among the first k nodes of the list. */
  ghost predicate Direct(g: Graph, order: seq<nat>, k: nat)
    requires k <= |order| && forall i | 0 <= i < |order| :: order[i] < |g|
  {
    forall i | 0 <= i < k :: !g[order[i]].Not? && !g[order[i]].Sum?
  }

  /** The columns hold, in this row, the fields of `env`. */
  ghost predicate CellsMatch(x: Row, env: Env)
    requires RowOk(x)
  {
    forall i | 0 <= i < |x.order| && x.g[x.order[i]].Load? ::
      env(x.g[x.order[i]].name) == Val(x.cols[x.lay[x.order[i]].field][x.row])
  }

  /** The arithmetic value of a node in this row. */
  ghost function Value(x: Row, id: nat, env: Env): nat
    requires RowOk(x) && id < |x.g|
  {
    Eval(x.g, id, env, Pow2(64), 0)
  }

  /** A word whose value is at most one is one of two words. */
  lemma {:induction false} TruthWord(w: Word)
    requires Val(w) <= 1
    ensures w == if Val(w) == 0 then Zero() else One()
  {
    hide Val;
    ValAllClear(Zero());
    ValOfOne();
    ValInjective(w, if Val(w) == 0 then Zero() else One());
  }

  lemma {:induction false} TruthValue(b: bool)
    ensures Val(if b then One() else Zero()) == Bit(b)
  {
    hide Val;
    ValAllClear(Zero());
    ValOfOne();
  }

  /** The words computed so far are the values of their nodes. */
  ghost predicate Valued(x: Row, k: nat, res: Word, env: Env)
    requires RowOk(x) && k <= |x.order|
  {
    forall i | 0 <= i < k && !IsLeaf(x.g[x.order[i]]) ::
      x.order[i] in Folded(x, k, res).0 && Val(Folded(x, k, res).0[x.order[i]]) == Value(x, x.order[i], env)
  }

  lemma {:induction false} OperandValue(x: Row, k: nat, res: Word, env: Env, c: nat)
    requires RowOk(x) && k <= |x.order| && CellsMatch(x, env) && Valued(x, k, res, env) && Listed(x.order, k, c)
    ensures c < |x.g| && Val(Operand(x, Folded(x, k, res).0, c)) == Value(x, c, env)
  {
    hide Folded, Valid, AllRead, Val, Pow2;
    var j :| 0 <= j < k && x.order[j] == c;
    if IsLeaf(x.g[c]) {
      WordRange(Operand(x, Folded(x, k, res).0, c));
    }
  }

  /** A node's word is its value when its operands' words are theirs. */
  lemma {:induction false} ComputedValue(x: Row, k: nat, res: Word, env: Env)
    requires RowOk(x) && k < |x.order| && CellsMatch(x, env) && Valued(x, k, res, env)
    requires !IsLeaf(x.g[x.order[k]]) && !x.g[x.order[k]].Not? && !x.g[x.order[k]].Sum?
    ensures var f := Folded(x, k, res);
            Val(Computed(x, f.0, f.1, x.g[x.order[k]])) == Value(x, x.order[k], env)
  {
    hide Folded, AllRead, Val, Pow2, Operand, CellsMatch, Valued;
    var id, f := x.order[k], Folded(x, k, res);
    assert OperandsListed(x.g[id], x.order, k) && TypedAt(x.g, id);
    var l, r := x.g[id].left, x.g[id].right;
    OperandValue(x, k, res, env, l);
    OperandValue(x, k, res, env, r);
    var a, b := Operand(x, f.0, l), Operand(x, f.0, r);
    match x.g[id] {
      case Add(_, _) => ValOfBits(Val(a) + Val(b), 64);
      case Sub(_, _) =>
        ValOfBits(Wrap(Val(a) - Val(b)), 64);
        ModTwice(Val(a) - Val(b), Pow2(64));
      case Compare(rel, _, _) => TruthValue(Compares(rel, Val(a), Val(b)));
      case Select(c, _, _) =>
        OperandValue(x, k, res, env, c);
        ZeroWord(Operand(x, f.0, c));
      case And(_, _) => MaskWords(x, l, r, a, b, env);
      case Or(_, _) => MaskWords(x, l, r, a, b, env);
    }
  }

  lemma ModTwice(x: int, m: nat)
    requires m > 0
    ensures x % m % m == x % m
  {
    ModOf(x % m, 0, m);
  }

  lemma {:induction false} ZeroWord(w: Word)
    ensures w == Zero() <==> Val(w) == 0
  {
    hide Val;
    ValAllClear(Zero());
    if Val(w) == 0 {
      TruthWord(w);
    }
  }

  lemma {:induction false} MaskWords(x: Row, l: nat, r: nat, a: Word, b: Word, env: Env)
    requires RowOk(x) && l < |x.g| && r < |x.g| && IsMask(x.g[l]) && IsMask(x.g[r])
    requires Val(a) == Value(x, l, env) && Val(b) == Value(x, r, env)
    ensures Val(BitAnd(a, b)) == Bit(Val(a) != 0 && Val(b) != 0)
    ensures Val(BitOr(a, b)) == Bit(Val(a) != 0 || Val(b) != 0)
  {
    hide Val, Pow2, AllRead, Topological;
    EvalRange(x.g, l, env, Pow2(64), 0);
    EvalRange(x.g, r, env, Pow2(64), 0);
    TruthWord(a);
    TruthWord(b);
    assert BitAnd(a, b) == if Val(a) != 0 && Val(b) != 0 then One() else Zero();
    assert BitOr(a, b) == if Val(a) != 0 || Val(b) != 0 then One() else Zero();
    TruthValue(Val(a) != 0 && Val(b) != 0);
    TruthValue(Val(a) != 0 || Val(b) != 0);
  }

  /** Without negations and sums the row semantics is the arithmetic one, whatever was in the result register. */
  lemma {:induction false} DirectIsExact(x: Row, k: nat, res: Word, env: Env)
    requires RowOk(x) && k <= |x.order| && CellsMatch(x, env) && Direct(x.g, x.order, k)
    ensures Valued(x, k, res, env)
    ensures k > 0 && !IsLeaf(x.g[x.order[k - 1]]) ==> Val(Folded(x, k, res).1) == Value(x, x.order[k - 1], env)
  {
    hide Computed, Value, Valid, AllRead, CellsMatch, Val, Valued;
    ValuedNone(x, res, env);
    if k > 0 {
      DirectIsExact(x, k - 1, res, env);
      if !IsLeaf(x.g[x.order[k - 1]]) {
        ComputedValue(x, k - 1, res, env);
      }
      ValuedStep(x, k - 1, res, env);
    }
  }

  lemma ValuedNone(x: Row, res: Word, env: Env)
    requires RowOk(x)
    ensures Valued(x, 0, res, env)
  {
  }

  lemma {:induction false} ValuedStep(x: Row, k: nat, res: Word, env: Env)
    requires RowOk(x) && k < |x.order| && Valued(x, k, res, env)
    requires !IsLeaf(x.g[x.order[k]]) ==>
               var f := Folded(x, k, res); Val(Computed(x, f.0, f.1, x.g[x.order[k]])) == Value(x, x.order[k], env)
    ensures Valued(x, k + 1, res, env)
  {
    hide Computed, Value, Valid, AllRead, Val;
    forall i | 0 <= i < k + 1 && !IsLeaf(x.g[x.order[i]])
      ensures x.order[i] in Folded(x, k + 1, res).0
      ensures Val(Folded(x, k + 1, res).0[x.order[i]]) == Value(x, x.order[i], env)
    {
      if i < k {
        assert x.order[i] != x.order[k];
      }
    }
  }

  // --- Negations ------------------------------------------------------------------------------

  /** From position j + 1 to k no instruction writes the result register. */
  ghost predicate Untouched(g: Graph, order: seq<nat>, j: nat, k: nat)
    requires k <= |order| && forall i | 0 <= i < |order| :: order[i] < |g|
  {
    forall i | j < i < k :: IsLeaf(g[order[i]]) || g[order[i]].Not? || g[order[i]].Sum?
  }

  /** One node of the fold. */
  lemma FoldedStep(x: Row, k: nat, res: Word)
    requires RowOk(x) && k < |x.order|
    ensures x.order[k] < |x.g|
    ensures var f, f' := Folded(x, k, res), Folded(x, k + 1, res);
            if IsLeaf(x.g[x.order[k]]) then f' == f
            else f'.1 == Computed(x, f.0, f.1, x.g[x.order[k]]) && f'.0 == f.0[x.order[k] := f'.1]
  {
    hide Computed, Valid, AllRead;
  }

  lemma OnceListed(x: Row, i: nat, j: nat)
    requires RowOk(x) && i < j < |x.order|
    ensures x.order[i] != x.order[j] && x.order[i] < |x.g| && x.order[j] < |x.g|
  {
  }

  /** The result register still holds the word of node j. */
  lemma {:induction false} StaleResult(x: Row, j: nat, k: nat, res: Word)
    requires RowOk(x) && j < k <= |x.order| && !IsLeaf(x.g[x.order[j]]) && Untouched(x.g, x.order, j, k)
    ensures x.order[j] in Folded(x, k, res).0
    ensures Folded(x, k, res).1 == Folded(x, j + 1, res).1 == Folded(x, k, res).0[x.order[j]]
    decreases k
  {
    hide Folded, RowOk;
    FoldedStep(x, k - 1, res);
    if j < k - 1 {
      StaleResult(x, j, k - 1, res);
      OnceListed(x, j, k - 1);
    }
  }

  /**
   A negation stores whatever the last node before it computed, be that its operand or not: run from
   any state, its slot and that node's slot end up with the same word.
   */
  lemma {:induction false} NotIsIgnored(x: Row, j: nat, k: nat, s: State)
    requires RowOk(x) && j < k < |x.order| && x.g[x.order[k]].Not? && s.Running? && |s.mem| >= SLOTS
    requires !IsLeaf(x.g[x.order[j]]) && Untouched(x.g, x.order, j, k)
    ensures var s' := Exec(RowCode(x.g, x.lay, x.order, k + 1), x.cols, x.row, s);
            && s'.Running? && |s'.mem| >= SLOTS && 0 <= x.lay[x.order[j]].slot < SLOTS
            && s'.regs[ValRes] == s'.mem[x.lay[x.order[j]].slot]
            && (x.lay[x.order[k]].slot >= 0 ==> s'.mem[x.lay[x.order[k]].slot] == s'.mem[x.lay[x.order[j]].slot])
  {
    hide Exec, RowCode, Valid, AllRead, Folded;
    var res := s.regs[ValRes];
    RowRuns(x, k + 1, res, s);
    FoldedStep(x, k, res);
    StaleResult(x, j, k + 1, res);
  }

  /** Such a last node always exists, because the operand needs an instruction. */
  lemma {:induction false} NotHasPredecessor(x: Row, k: nat) returns (j: nat)
    requires RowOk(x) && k < |x.order| && x.g[x.order[k]].Not?
    ensures j < k && !IsLeaf(x.g[x.order[j]]) && Untouched(x.g, x.order, j, k)
  {
    assert TypedAt(x.g, x.order[k]) && OperandsListed(x.g[x.order[k]], x.order, k);
    var i :| 0 <= i < k && x.order[i] == x.g[x.order[k]].left;
    j := LastInner(x.g, x.order, i, k);
  }

  lemma {:induction false} LastInner(g: Graph, order: seq<nat>, i: nat, k: nat) returns (j: nat)
    requires i < k <= |order| && (forall i | 0 <= i < |order| :: order[i] < |g|) && !IsLeaf(g[order[i]])
    ensures j < k && !IsLeaf(g[order[j]]) && Untouched(g, order, j, k)
    decreases k
  {
    if IsLeaf(g[order[k - 1]]) {
      j := LastInner(g, order, i, k - 1);
    } else {
      j := k - 1;
    }
  }
}
