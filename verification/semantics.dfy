/**
 What the value of a node depends on: only the fields it loads, and the borrow only through
 subtractions.
 */
module Semantics {
  import opened Ir
  import opened Correctness

  /** No subtraction in the list. */
  ghost predicate NoSub(g: Graph, order: seq<nat>)
    requires forall i | 0 <= i < |order| :: order[i] < |g|
  {
    forall i | 0 <= i < |order| :: !g[order[i]].Sub?
  }

  /** The row in which field names[v] has value values[v]. */
  ghost function NamedEnv(names: seq<string>, values: seq<nat>): Env {
    (name: string) =>
      if exists v :: 0 <= v < |names| && v < |values| && names[v] == name then
        var v :| 0 <= v < |names| && v < |values| && names[v] == name; values[v]
      else 0
  }

  lemma NamedEnvAt(names: seq<string>, values: seq<nat>, v: nat)
    requires v < |names| <= |values| && forall v, w | 0 <= v < w < |names| :: names[v] != names[w]
    ensures NamedEnv(names, values)(names[v]) == values[v]
  {
  }

  /** The two rows agree on every field the list loads. */
  ghost predicate SameFields(g: Graph, order: seq<nat>, env: Env, env': Env, m: nat)
    requires m > 0 && forall i | 0 <= i < |order| :: order[i] < |g|
  {
    forall i | 0 <= i < |order| && g[order[i]].Load? :: env(g[order[i]].name) % m == env'(g[order[i]].name) % m
  }

  /** A node's value is decided by the fields that are loaded below it. */
  lemma {:induction false} EvalAgrees(g: Graph, order: seq<nat>, i: nat, env: Env, env': Env, m: nat, b: nat, b': nat)
    requires Acyclic(g) && Topological(g, order) && i < |order| && m > 0
    requires SameFields(g, order, env, env', m)
    requires b == b' || NoSub(g, order)
    ensures Eval(g, order[i], env, m, b) == Eval(g, order[i], env', m, b')
    decreases i, 1, 0
  {
    hide Listed, Topological;
    var id := order[i];
    ListedBefore(g, order, i);
    match g[id]
    case Load(_) =>
    case Const(_) =>
    case Not(l) => OperandAgrees(g, order, i, l, env, env', m, b, b');
    case Select(c, l, r) =>
      OperandAgrees(g, order, i, c, env, env', m, b, b');
      OperandAgrees(g, order, i, l, env, env', m, b, b');
      OperandAgrees(g, order, i, r, env, env', m, b, b');
    case Sum(ops) => SumAgrees(g, order, i, ops, Rank(g)[id], env, env', m, b, b');
    case _ =>
      OperandAgrees(g, order, i, g[id].left, env, env', m, b, b');
      OperandAgrees(g, order, i, g[id].right, env, env', m, b, b');
  }

  lemma ListedBefore(g: Graph, order: seq<nat>, i: nat)
    requires Topological(g, order) && i < |order|
    ensures order[i] < |g| && OperandsListed(g[order[i]], order, i)
  {
  }

  lemma {:induction false} OperandAgrees(g: Graph, order: seq<nat>, i: nat, c: nat, env: Env, env': Env, m: nat,
                                         b: nat, b': nat)
    requires Acyclic(g) && Topological(g, order) && i < |order| && m > 0
    requires SameFields(g, order, env, env', m)
    requires b == b' || NoSub(g, order)
    requires Listed(order, i, c)
    ensures c < |g| && Eval(g, c, env, m, b) == Eval(g, c, env', m, b')
    decreases i, 0, 0
  {
    var j :| 0 <= j < i && order[j] == c;
    EvalAgrees(g, order, j, env, env', m, b, b');
  }

  lemma {:induction false} SumAgrees(g: Graph, order: seq<nat>, i: nat, ops: seq<nat>, bound: nat, env: Env,
                                     env': Env, m: nat, b: nat, b': nat)
    requires Acyclic(g) && Topological(g, order) && i < |order| && m > 0
    requires SameFields(g, order, env, env', m)
    requires b == b' || NoSub(g, order)
    requires forall k | 0 <= k < |ops| :: Listed(order, i, ops[k]) && ops[k] < |g| && Rank(g)[ops[k]] < bound
    ensures EvalSum(g, ops, bound, env, m, b) == EvalSum(g, ops, bound, env', m, b')
    decreases i, 0, |ops| + 1
  {
    if ops != [] {
      OperandAgrees(g, order, i, ops[0], env, env', m, b, b');
      SumAgrees(g, order, i, ops[1..], bound, env, env', m, b, b');
    }
  }
}
