/**
 The expression graph and its row-by-row meaning.

 A graph is a pool of nodes that refer to one another by index; sharing is allowed, cycles are not.
 */
module Ir {
  import opened Words

  datatype Relation = GT | LT | GE | LE | EQ

  datatype Node =
    | Load(name: string)
    | Const(value: Word)
    | Add(left: nat, right: nat)
    | Sub(left: nat, right: nat)
    | Compare(rel: Relation, left: nat, right: nat)
    | And(left: nat, right: nat)
    | Or(left: nat, right: nat)
    | Not(left: nat)
    | Select(cond: nat, left: nat, right: nat)
    | Sum(operands: seq<nat>)

  type Graph = seq<Node>

  /** The fields of one row, by name. */
  type Env = string -> nat

  /** Operands in the order the analyzer visits them. */
  function Children(n: Node): seq<nat> {
    match n
    case Load(_) => []
    case Const(_) => []
    case Not(l) => [l]
    case Select(c, l, r) => [l, r, c]
    case Sum(ops) => ops
    case _ => [n.left, n.right]
  }

  predicate IsLeaf(n: Node) {
    n.Load? || n.Const?
  }

  predicate IsAdder(n: Node) {
    n.Add? || n.Sub?
  }

  /** Nodes whose result is one mask word; all others produce 64 planes. */
  predicate IsMask(n: Node) {
    n.Compare? || n.And? || n.Or? || n.Not?
  }

  predicate Within(n: Node, size: nat) {
    match n
    case Load(_) => true
    case Const(_) => true
    case Not(l) => l < size
    case Select(c, l, r) => c < size && l < size && r < size
    case Sum(ops) => forall k | 0 <= k < |ops| :: ops[k] < size
    case _ => n.left < size && n.right < size
  }

  ghost predicate Closed(g: Graph) {
    forall i | 0 <= i < |g| :: Within(g[i], |g|)
  }

  /** Every operand of n ranks below the bound. */
  ghost predicate Below(n: Node, rank: seq<nat>, bound: nat)
    requires Within(n, |rank|)
  {
    match n
    case Load(_) => true
    case Const(_) => true
    case Not(l) => rank[l] < bound
    case Select(c, l, r) => rank[c] < bound && rank[l] < bound && rank[r] < bound
    case Sum(ops) => forall k | 0 <= k < |ops| :: rank[ops[k]] < bound
    case _ => rank[n.left] < bound && rank[n.right] < bound
  }

  ghost predicate Ranked(g: Graph, rank: seq<nat>)
    requires Closed(g)
  {
    && |rank| == |g|
    && forall i | 0 <= i < |g| :: Below(g[i], rank, rank[i])
  }

  ghost predicate Acyclic(g: Graph) {
    Closed(g) && exists rank: seq<nat> :: Ranked(g, rank)
  }

  ghost function Rank(g: Graph): (rank: seq<nat>)
    requires Acyclic(g)
    ensures Ranked(g, rank)
  {
    var rank: seq<nat> :| Ranked(g, rank);
    rank
  }

  /** Operands have the result kind their user reads. */
  ghost predicate TypedAt(g: Graph, i: nat)
    requires Closed(g) && i < |g|
  {
    match g[i]
    case And(l, r) => IsMask(g[l]) && IsMask(g[r])
    case Or(l, r) => IsMask(g[l]) && IsMask(g[r])
    case Not(l) => IsMask(g[l])
    case Select(c, l, r) => IsMask(g[c]) && !IsMask(g[l]) && !IsMask(g[r])
    case Sum(ops) => forall k | 0 <= k < |ops| :: !IsMask(g[ops[k]])
    case Load(_) => true
    case Const(_) => true
    case _ => !IsMask(g[g[i].left]) && !IsMask(g[g[i].right])
  }

  ghost predicate Valid(g: Graph) {
    Acyclic(g) && forall i | 0 <= i < |g| :: TypedAt(g, i)
  }

  predicate Compares(rel: Relation, x: nat, y: nat) {
    match rel
    case GT => x > y
    case LT => x < y
    case GE => x >= y
    case LE => x <= y
    case EQ => x == y
  }

  /**
   The unsigned value of a node on one row, modulo m; a mask is 1 or 0.
   `borrow` is what a subtraction loses beyond its operands: 0 in the arithmetic meaning.
   */
  ghost function Eval(g: Graph, id: nat, env: Env, m: nat, borrow: nat): (v: nat)
    requires Acyclic(g) && id < |g| && m > 0
    decreases Rank(g)[id], 1, 0
  {
    match g[id]
    case Load(name) => env(name) % m
    case Const(w) => Val(w) % m
    case Add(l, r) => (Eval(g, l, env, m, borrow) + Eval(g, r, env, m, borrow)) % m
    case Sub(l, r) => (Eval(g, l, env, m, borrow) - Eval(g, r, env, m, borrow) - borrow) % m
    case Compare(rel, l, r) => Bit(Compares(rel, Eval(g, l, env, m, borrow), Eval(g, r, env, m, borrow)))
    case And(l, r) => Bit(Eval(g, l, env, m, borrow) != 0 && Eval(g, r, env, m, borrow) != 0)
    case Or(l, r) => Bit(Eval(g, l, env, m, borrow) != 0 || Eval(g, r, env, m, borrow) != 0)
    case Not(l) => Bit(Eval(g, l, env, m, borrow) == 0)
    case Select(c, l, r) =>
      if Eval(g, c, env, m, borrow) != 0 then Eval(g, l, env, m, borrow) else Eval(g, r, env, m, borrow)
    case Sum(ops) => EvalSum(g, ops, Rank(g)[id], env, m, borrow) % m
  }

  ghost function EvalSum(g: Graph, ops: seq<nat>, bound: nat, env: Env, m: nat, borrow: nat): (v: nat)
    requires Acyclic(g) && m > 0
    requires forall k | 0 <= k < |ops| :: ops[k] < |g| && Rank(g)[ops[k]] < bound
    decreases bound, 0, |ops|
  {
    if ops == [] then 0 else
      Eval(g, ops[0], env, m, borrow) + EvalSum(g, ops[1..], bound, env, m, borrow)
  }

  lemma {:induction false} EvalRange(g: Graph, id: nat, env: Env, m: nat, borrow: nat)
    requires Valid(g) && id < |g| && m > 0
    ensures IsMask(g[id]) ==> Eval(g, id, env, m, borrow) <= 1
    ensures !IsMask(g[id]) ==> Eval(g, id, env, m, borrow) < m
    decreases Rank(g)[id]
  {
    assert TypedAt(g, id);
    if g[id].Select? {
      EvalRange(g, g[id].left, env, m, borrow);
      EvalRange(g, g[id].right, env, m, borrow);
    }
  }
}
