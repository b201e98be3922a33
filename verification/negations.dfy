/**
 Two expressions with a negation, compiled for the row loop, and the wrong answers they give.
 */
module Negations {
  import opened Words
  import opened Ir
  import opened Correctness
  import opened Analysis
  import opened Backends
  import opened Bounds
  import opened RunGraph

  // --- not (a > b) ----------------------------------------------------------------------------

  function Negated(): Graph {
    [Load("a"), Load("b"), Compare(GT, 0, 1), Not(2)]
  }

  lemma NegatedValid()
    ensures Valid(Negated()) && Acyclic(Negated()) && |Negated()| == 4
  {
    NegatedRanked();
    forall i | 0 <= i < 4 ensures TypedAt(Negated(), i) {
    }
  }

  lemma NegatedRanked()
    ensures |Negated()| == 4 && Acyclic(Negated())
  {
    assert Ranked(Negated(), [0, 0, 1, 2]);
  }

  lemma NegatedOrder(order: seq<nat>)
    requires Topological(Negated(), order) && order != [] && order[|order| - 1] == 3
    ensures |order| >= 2 && order[|order| - 2] == 2 && S.Direct(Negated(), order, |order| - 1)
  {
    var g, n := Negated(), |order|;
    assert OperandsListed(g[order[n - 1]], order, n - 1);
    var j :| 0 <= j < n - 1 && order[j] == 2;
    assert OperandsListed(g[order[j]], order, j);
    var a, b :| 0 <= a < j && order[a] == 0 && 0 <= b < j && order[b] == 1;
    assert order[n - 2] < 4;
  }

  /** Every scalar kernel for it answers a > b, in every row and for all columns. */
  lemma {:induction false} NegatedWrong(k: ScalarKernel, cols: seq<Block>, rows: seq<Env>, s: S.State, r: nat)
    requires ScalarFor(k, Negated(), 3) && |rows| == 64 && ColumnsMatch(k.names, cols, rows)
    requires s.Running? && |s.mem| >= SLOTS && r < 64 && rows[r]("a") < Pow2(64) && rows[r]("b") < Pow2(64)
    ensures RowLoop(k.code, cols, 0, Zero(), s).1[r] == (rows[r]("a") > rows[r]("b"))
    ensures Acyclic(Negated()) && Eval(Negated(), 3, rows[r], Pow2(64), 0) == Bit(!(rows[r]("a") > rows[r]("b")))
  {
    hide ColumnsMatch, RowLoop, Pow2, ScalarFor;
    NegatedValid();
    RowFacts(k, Negated(), 3);
    NegatedOrder(k.order);
    NegationInverts(k, Negated(), 3, cols, rows, s);
    ModOf(rows[r]("a"), 0, Pow2(64));
    ModOf(rows[r]("b"), 0, Pow2(64));
  }

  /** It does compile. */
  method CompileNegated() returns (k: ScalarKernel)
    ensures ScalarFor(k, Negated(), 3)
  {
    hide ScalarFor, Reach, Visit, Elements, Inner;
    NegatedValid();
    var out, order := CompileScalar(Negated(), 3);
    AtMost(order, 4);
    InnerBounded(Negated(), order, |order|);
    k := out.kernel;
  }

  // --- not (a > b) and c > d ------------------------------------------------------------------

  function Guarded(): Graph {
    [Load("a"), Load("b"), Compare(GT, 0, 1), Not(2), Load("c"), Load("d"), Compare(GT, 4, 5), And(3, 6)]
  }

  /** The order in which the analyzer lists it. */
  function GuardedOrder(): seq<nat> {
    [0, 1, 2, 3, 4, 5, 6, 7]
  }

  lemma GuardedRanked()
    ensures |Guarded()| == 8 && Acyclic(Guarded())
  {
    assert Ranked(Guarded(), [0, 0, 1, 2, 0, 0, 1, 3]);
  }

  lemma GuardedValid()
    ensures Valid(Guarded()) && Acyclic(Guarded()) && |Guarded()| == 8
  {
    hide Acyclic;
    GuardedRanked();
    forall i | 0 <= i < 8 ensures TypedAt(Guarded(), i) {
    }
  }

  lemma {:induction false} VisitLeft(g: Graph)
    requires GuardedNodes(g) && g[3] == Not(2) && Acyclic(g)
    ensures Visit(g, 3, []) == [0, 1, 2, 3]
  {
    hide Visit, Acyclic;
    VisitOrder(g, 0, []);
    VisitOrder(g, 1, [0]);
    assert Visit(g, 0, []) == [0] && Visit(g, 1, [0]) == [0, 1];
    VisitOrder(g, 2, []);
    VisitOrder(g, 3, []);
  }

  lemma {:induction false} VisitRight(g: Graph)
    requires GuardedNodes(g) && Acyclic(g)
    ensures Visit(g, 6, [0, 1, 2, 3]) == [0, 1, 2, 3, 4, 5, 6]
  {
    hide Visit, Acyclic;
    VisitOrder(g, 4, [0, 1, 2, 3]);
    VisitOrder(g, 5, [0, 1, 2, 3, 4]);
    assert Visit(g, 4, [0, 1, 2, 3]) == [0, 1, 2, 3, 4];
    VisitOrder(g, 6, [0, 1, 2, 3]);
  }

  lemma {:induction false} GuardedVisit()
    ensures Acyclic(Guarded()) && |Guarded()| == 8 && Visit(Guarded(), 7, []) == GuardedOrder()
  {
    hide Visit, Acyclic, Guarded;
    GuardedRanked();
    GuardedShape();
    GuardedRoot();
    VisitLeft(Guarded());
    VisitRight(Guarded());
    VisitOrder(Guarded(), 7, []);
  }

  method CompileGuarded() returns (k: ScalarKernel)
    ensures ScalarFor(k, Guarded(), 7) && k.order == GuardedOrder()
  {
    hide ScalarFor, Reach, Visit, Elements, Inner, Acyclic, Valid, Topological, Guarded;
    GuardedValid();
    GuardedVisit();
    GuardedRoot();
    var out, order := CompileScalar(Guarded(), 7);
    GuardedInside(order);
    AtMost(order, 8);
    InnerBounded(Guarded(), order, |order|);
    k := out.kernel;
  }

  lemma GuardedRoot()
    ensures |Guarded()| == 8 && Guarded()[7] == And(3, 6) && Guarded()[3] == Not(2)
  {
  }

  lemma GuardedInside(order: seq<nat>)
    requires Topological(Guarded(), order)
    ensures |Guarded()| == 8 && forall i | 0 <= i < |order| :: order[i] < 8
    ensures forall i, j | 0 <= i < j < |order| :: order[i] != order[j]
  {
  }

  /** Its negation is run as a repetition of a > b. */
  lemma {:induction false} GuardedAsRun()
    requires Topological(Guarded(), GuardedOrder())
    ensures |Guarded()| == 8 && InKind(Guarded(), GuardedOrder())
    ensures var h := AsRun(Guarded(), GuardedOrder());
            h[3] == Or(2, 2) && forall i | 0 <= i < 8 && i != 3 :: h[i] == Guarded()[i]
  {
    hide AsRun, Topological;
    var g, order := Guarded(), GuardedOrder();
    assert Last(g, order, 3) == order[2];
    assert forall k | 0 <= k < 8 && IsSilent(g[order[k]]) :: k == 3;
    forall i | 0 <= i < 8 ensures AsRun(g, order)[i] == if i == 3 then Or(2, 2) else g[i] {
      RanAt(g, order, i);
      assert order[i] == i;
    }
  }

  /**
   The compiled expression answers a > b and c > d, so a row is answered rightly exactly when c does not
   exceed d.
   */
  lemma {:induction false} GuardedWrong(k: ScalarKernel, cols: seq<Block>, rows: seq<Env>, s: S.State, r: nat)
    requires ScalarFor(k, Guarded(), 7) && k.order == GuardedOrder()
    requires |rows| == 64 && ColumnsMatch(k.names, cols, rows) && s.Running? && |s.mem| >= SLOTS && r < 64
    requires rows[r]("a") < Pow2(64) && rows[r]("b") < Pow2(64) && rows[r]("c") < Pow2(64) && rows[r]("d") < Pow2(64)
    ensures Acyclic(Guarded()) && |Guarded()| == 8
    ensures var mask, a, b, c, d :=
              RowLoop(k.code, cols, 0, Zero(), s).1, rows[r]("a"), rows[r]("b"), rows[r]("c"), rows[r]("d");
            && mask[r] == (a > b && c > d)
            && (Eval(Guarded(), 7, rows[r], Pow2(64), 0) != 0) == (!(a > b) && c > d)
            && (mask[r] == (Eval(Guarded(), 7, rows[r], Pow2(64), 0) != 0) <==> c <= d)
  {
    hide ColumnsMatch, RowLoop, Pow2, ScalarFor, AsRun, InKind, Acyclic, Eval, Valid, Guarded;
    GuardedValid();
    GuardedRoot();
    RowFacts(k, Guarded(), 7);
    GuardedAsRun();
    ScalarLoopCorrect(k, Guarded(), 7, cols, rows, s);
    var h := RunOf(k, Guarded(), 7);
    GuardedShape();
    GuardedValues(Guarded(), rows[r]);
    GuardedValues(h, rows[r]);
  }

  /** The comparisons and the conjunction that both graphs have. */
  predicate GuardedNodes(h: Graph) {
    && |h| == 8 && h[0] == Load("a") && h[1] == Load("b") && h[2] == Compare(GT, 0, 1)
    && h[4] == Load("c") && h[5] == Load("d") && h[6] == Compare(GT, 4, 5) && h[7] == And(3, 6)
    && (h[3] == Not(2) || h[3] == Or(2, 2))
  }

  lemma GuardedShape()
    ensures GuardedNodes(Guarded())
  {
  }

  lemma {:induction false} GuardedValues(h: Graph, env: Env)
    requires GuardedNodes(h) && Acyclic(h)
    requires env("a") < Pow2(64) && env("b") < Pow2(64) && env("c") < Pow2(64) && env("d") < Pow2(64)
    ensures var first := if h[3].Not? then !(env("a") > env("b")) else env("a") > env("b");
            (Eval(h, 7, env, Pow2(64), 0) != 0) == (first && env("c") > env("d"))
  {
    hide Pow2, Eval, Acyclic;
    GreaterValue(h, 2, 0, 1, "a", "b", env);
    GreaterValue(h, 6, 4, 5, "c", "d", env);
    LogicValue(h, 3, env);
    LogicValue(h, 7, env);
  }

  lemma LogicValue(h: Graph, id: nat, env: Env)
    requires Acyclic(h) && id < |h|
    ensures h[id].Not? ==>
              h[id].left < |h| && Eval(h, id, env, Pow2(64), 0) == Bit(Eval(h, h[id].left, env, Pow2(64), 0) == 0)
    ensures h[id].And? ==>
              && h[id].left < |h| && h[id].right < |h|
              && Eval(h, id, env, Pow2(64), 0)
                 == Bit(Eval(h, h[id].left, env, Pow2(64), 0) != 0 && Eval(h, h[id].right, env, Pow2(64), 0) != 0)
    ensures h[id].Or? ==>
              && h[id].left < |h| && h[id].right < |h|
              && Eval(h, id, env, Pow2(64), 0)
                 == Bit(Eval(h, h[id].left, env, Pow2(64), 0) != 0 || Eval(h, h[id].right, env, Pow2(64), 0) != 0)
  {
    hide Pow2;
  }

  lemma GreaterValue(h: Graph, id: nat, l: nat, r: nat, x: string, y: string, env: Env)
    requires Acyclic(h) && id < |h| && l < |h| && r < |h|
    requires h[id] == Compare(GT, l, r) && h[l] == Load(x) && h[r] == Load(y)
    requires env(x) < Pow2(64) && env(y) < Pow2(64)
    ensures Eval(h, id, env, Pow2(64), 0) == Bit(env(x) > env(y))
  {
    hide Pow2;
    ModOf(env(x), 0, Pow2(64));
    ModOf(env(y), 0, Pow2(64));
  }
}
