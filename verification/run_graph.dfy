/**
 What the scalar backend runs in place of an expression. A negation or a sum has no instruction of its
 own and repeats the word of the node computed before it; in the graph as run it is replaced by a node
 that does just that, and every other node is kept.
 */
module RunGraph {
  import opened Words
  import opened Ir
  import opened Correctness
  import opened Scalar

  /** The node computed last before position k, or -1. */
  ghost function Last(g: Graph, order: seq<nat>, k: nat): (p: int)
    requires k <= |order| && forall i | 0 <= i < |order| :: order[i] < |g|
    ensures -1 <= p < |g|
    ensures p >= 0 ==> !IsLeaf(g[p]) && Listed(order, k, p)
  {
    if k == 0 then -1
    else if IsLeaf(g[order[k - 1]]) then LastWiden(g, order, k); Last(g, order, k - 1)
    else assert order[k - 1] == order[k - 1]; order[k - 1]
  }

  lemma LastWiden(g: Graph, order: seq<nat>, k: nat)
    requires 0 < k <= |order|
    ensures forall p | Listed(order, k - 1, p) :: Listed(order, k, p)
  {
    forall p | Listed(order, k - 1, p) ensures Listed(order, k, p) {
      var j :| 0 <= j < k - 1 && order[j] == p;
      assert order[j] == p;
    }
  }

  predicate IsSilent(n: Node) {
    n.Not? || n.Sum?
  }

  /**
   Every negation is listed after the computation of a mask, and every sum after that of a number.
   Otherwise a word of the wrong kind, or of the row before, takes its place.
   */
  ghost predicate InKind(g: Graph, order: seq<nat>)
    requires forall i | 0 <= i < |order| :: order[i] < |g|
  {
    forall k | 0 <= k < |order| && IsSilent(g[order[k]]) ::
      Last(g, order, k) >= 0 && IsMask(g[Last(g, order, k)]) == IsMask(g[order[k]])
  }

  /** What stands at position k in the graph as run. */
  ghost function NodeAsRun(g: Graph, order: seq<nat>, k: nat): Node
    requires k < |order| && (forall i | 0 <= i < |order| :: order[i] < |g|) && InKind(g, order)
  {
    var p := Last(g, order, k);
    if g[order[k]].Not? then Or(p, p) else if g[order[k]].Sum? then Sum([p]) else g[order[k]]
  }

  ghost function AsRunFirst(g: Graph, order: seq<nat>, k: nat): (h: Graph)
    requires k <= |order| && (forall i | 0 <= i < |order| :: order[i] < |g|) && InKind(g, order)
    ensures |h| == |g|
  {
    if k == 0 then g else AsRunFirst(g, order, k - 1)[order[k - 1] := NodeAsRun(g, order, k - 1)]
  }

  /** The graph as run. */
  ghost function AsRun(g: Graph, order: seq<nat>): (h: Graph)
    requires (forall i | 0 <= i < |order| :: order[i] < |g|) && InKind(g, order)
    ensures |h| == |g|
  {
    AsRunFirst(g, order, |order|)
  }

  lemma {:induction false} FirstAt(g: Graph, order: seq<nat>, k: nat, i: nat)
    requires k <= |order| && Topological(g, order) && InKind(g, order) && i < |order|
    ensures AsRunFirst(g, order, k)[order[i]] == if i < k then NodeAsRun(g, order, i) else g[order[i]]
    decreases k
  {
    hide NodeAsRun, InKind;
    if k > 0 {
      FirstAt(g, order, k - 1, i);
    }
  }

  lemma {:induction false} FirstUnlisted(g: Graph, order: seq<nat>, k: nat, id: nat)
    requires k <= |order| && Topological(g, order) && InKind(g, order) && id < |g| && id !in order
    ensures AsRunFirst(g, order, k)[id] == g[id]
    decreases k
  {
    hide NodeAsRun, InKind;
    if k > 0 {
      FirstUnlisted(g, order, k - 1, id);
    }
  }

  lemma RanAt(g: Graph, order: seq<nat>, i: nat)
    requires Topological(g, order) && InKind(g, order) && i < |order|
    ensures order[i] < |g| && AsRun(g, order)[order[i]] == NodeAsRun(g, order, i)
  {
    hide NodeAsRun, InKind;
    FirstAt(g, order, |order|, i);
  }

  /** A node keeps its kind, and a leaf stays as it is. */
  lemma {:induction false} RanKind(g: Graph, order: seq<nat>, id: nat)
    requires Topological(g, order) && InKind(g, order) && id < |g|
    ensures IsMask(AsRun(g, order)[id]) == IsMask(g[id]) && IsLeaf(AsRun(g, order)[id]) == IsLeaf(g[id])
    ensures IsLeaf(g[id]) ==> AsRun(g, order)[id] == g[id]
  {
    hide InKind, AsRunFirst;
    if id in order {
      var i :| 0 <= i < |order| && order[i] == id;
      RanAt(g, order, i);
    } else {
      FirstUnlisted(g, order, |order|, id);
    }
  }

  lemma {:induction false} RanListed(g: Graph, order: seq<nat>, i: nat)
    requires Topological(g, order) && InKind(g, order) && i < |order|
    ensures OperandsListed(AsRun(g, order)[order[i]], order, i)
  {
    hide InKind, AsRunFirst, Last;
    RanAt(g, order, i);
    assert OperandsListed(g[order[i]], order, i);
    if IsSilent(g[order[i]]) {
      SilentHasLast(g, order, i);
    }
  }

  lemma SilentHasLast(g: Graph, order: seq<nat>, k: nat)
    requires (forall i | 0 <= i < |order| :: order[i] < |g|) && InKind(g, order) && k < |order| && IsSilent(g[order[k]])
    ensures var p := Last(g, order, k);
            p >= 0 && Listed(order, k, p) && !IsLeaf(g[p]) && IsMask(g[p]) == IsMask(g[order[k]])
  {
    hide Last;
  }

  lemma {:induction false} RanTopological(g: Graph, order: seq<nat>)
    requires Topological(g, order) && InKind(g, order)
    ensures Topological(AsRun(g, order), order)
  {
    hide InKind, AsRun, OperandsListed;
    forall i | 0 <= i < |order| ensures OperandsListed(AsRun(g, order)[order[i]], order, i) {
      RanListed(g, order, i);
    }
  }

  // --- Validity -------------------------------------------------------------------------------

  /** Position of a listed node. */
  ghost function Position(order: seq<nat>, id: nat): (i: nat)
    requires id in order
    ensures i < |order| && order[i] == id
  {
    var i :| 0 <= i < |order| && order[i] == id;
    i
  }

  /** Listed nodes rank by position, the others above them all. */
  ghost function RanRank(g: Graph, order: seq<nat>): (rank: seq<nat>)
    requires Acyclic(g)
    ensures |rank| == |g|
    ensures forall id | 0 <= id < |g| :: rank[id] == if id in order then Position(order, id) else |order| + Rank(g)[id]
  {
    seq(|g|, id requires 0 <= id < |g| => if id in order then Position(order, id) else |order| + Rank(g)[id])
  }

  lemma ListedRank(g: Graph, order: seq<nat>, i: nat, c: nat)
    requires Acyclic(g) && Topological(g, order) && i <= |order| && Listed(order, i, c)
    ensures c < |g| && RanRank(g, order)[c] < i
  {
    var j :| 0 <= j < i && order[j] == c;
  }

  lemma {:induction false} ListedBelow(n: Node, g: Graph, order: seq<nat>, i: nat)
    requires Acyclic(g) && Topological(g, order) && i <= |order| && OperandsListed(n, order, i)
    ensures Within(n, |g|) && Below(n, RanRank(g, order), i)
  {
    hide RanRank, Listed, Topological;
    forall c: nat | Listed(order, i, c) ensures c < |g| && RanRank(g, order)[c] < i {
      ListedRank(g, order, i, c);
    }
  }

  lemma {:induction false} UnlistedBelow(g: Graph, order: seq<nat>, id: nat)
    requires Acyclic(g) && id < |g| && id !in order
    ensures Within(g[id], |g|) && Below(g[id], RanRank(g, order), RanRank(g, order)[id])
  {
    assert Below(g[id], Rank(g), Rank(g)[id]);
    forall c: nat | c < |g| && Rank(g)[c] < Rank(g)[id] ensures RanRank(g, order)[c] < RanRank(g, order)[id] {
    }
  }

  lemma {:induction false} RanAcyclic(g: Graph, order: seq<nat>)
    requires Acyclic(g) && Topological(g, order) && InKind(g, order)
    ensures Acyclic(AsRun(g, order))
  {
    hide InKind, AsRunFirst, OperandsListed, Below, Within, Acyclic;
    var h, rank := AsRun(g, order), RanRank(g, order);
    forall id | 0 <= id < |h| ensures Within(h[id], |h|) && Below(h[id], rank, rank[id]) {
      if id in order {
        var i := Position(order, id);
        RanListed(g, order, i);
        ListedBelow(h[id], g, order, i);
      } else {
        FirstUnlisted(g, order, |order|, id);
        UnlistedBelow(g, order, id);
      }
    }
    RankedAcyclic(h, rank);
  }

  lemma RankedAcyclic(h: Graph, rank: seq<nat>)
    requires Closed(h) && Ranked(h, rank)
    ensures Acyclic(h)
  {
  }

  lemma {:induction false} RanTyped(g: Graph, order: seq<nat>, id: nat)
    requires Valid(g) && Topological(g, order) && InKind(g, order) && id < |g| && Closed(AsRun(g, order))
    ensures TypedAt(AsRun(g, order), id)
  {
    hide InKind, AsRunFirst, Last;
    var h := AsRun(g, order);
    assert TypedAt(g, id);
    forall c: nat | c < |g| ensures IsMask(h[c]) == IsMask(g[c]) {
      RanKind(g, order, c);
    }
    if id in order {
      var i := Position(order, id);
      RanAt(g, order, i);
      if IsSilent(g[id]) {
        SilentHasLast(g, order, i);
      }
    } else {
      FirstUnlisted(g, order, |order|, id);
    }
  }

  /** The graph as run is a graph like any other. */
  lemma {:induction false} RanValid(g: Graph, order: seq<nat>)
    requires Valid(g) && Topological(g, order) && InKind(g, order)
    ensures Valid(AsRun(g, order)) && Acyclic(AsRun(g, order)) && Topological(AsRun(g, order), order)
  {
    hide InKind, AsRun, OperandsListed, TypedAt;
    RanAcyclic(g, order);
    RanTopological(g, order);
    forall id | 0 <= id < |g| ensures TypedAt(AsRun(g, order), id) {
      RanTyped(g, order, id);
    }
  }

  /** Nothing changes where there is nothing silent. */
  lemma {:induction false} DirectRan(g: Graph, order: seq<nat>)
    requires Topological(g, order) && Direct(g, order, |order|)
    ensures InKind(g, order) && AsRun(g, order) == g
  {
    DirectFirst(g, order, |order|);
  }

  lemma {:induction false} DirectFirst(g: Graph, order: seq<nat>, k: nat)
    requires Topological(g, order) && Direct(g, order, |order|) && k <= |order|
    ensures InKind(g, order) && AsRunFirst(g, order, k) == g
  {
    hide Last, OperandsListed;
    if k > 0 {
      DirectFirst(g, order, k - 1);
      assert !IsSilent(g[order[k - 1]]);
    }
  }

  // --- The fold on both graphs ----------------------------------------------------------------

  /** A row of the graph as run, in the same slots. */
  ghost function RowAsRun(x: Row): Row
    requires RowOk(x) && InKind(x.g, x.order)
  {
    Row(AsRun(x.g, x.order), x.lay, x.order, x.cols, x.row)
  }

  lemma {:induction false} RanReads(x: Row, i: nat)
    requires RowOk(x) && InKind(x.g, x.order) && i < |x.order|
    ensures Reads(AsRun(x.g, x.order), x.lay, x.order[i])
  {
    hide InKind, AsRunFirst, Last, Valid, AsRun;
    var h, id := AsRun(x.g, x.order), x.order[i];
    assert Reads(x.g, x.lay, id);
    assert OperandsListed(x.g[id], x.order, i);
    RanAt(x.g, x.order, i);
    forall c: nat | Listed(x.order, i, c) ensures c < |h| && Located(h[c], x.lay[c]) == Located(x.g[c], x.lay[c]) {
      RanKind(x.g, x.order, c);
    }
    if IsSilent(x.g[id]) {
      SilentHasLast(x.g, x.order, i);
      var p := Last(x.g, x.order, i);
      var j :| 0 <= j < i && x.order[j] == p;
      RanKind(x.g, x.order, p);
    }
  }

  lemma {:induction false} RowAsRunOk(x: Row)
    requires RowOk(x) && InKind(x.g, x.order)
    ensures RowOk(RowAsRun(x))
  {
    hide InKind, AsRun, Valid, Reads, OperandsListed;
    RanValid(x.g, x.order);
    forall i | 0 <= i < |x.order| ensures Reads(AsRun(x.g, x.order), x.lay, x.order[i]) {
      RanReads(x, i);
    }
    forall i | 0 <= i < |x.order|
      ensures IsLeaf(AsRun(x.g, x.order)[x.order[i]]) == IsLeaf(x.g[x.order[i]])
      ensures AsRun(x.g, x.order)[x.order[i]].Load? == x.g[x.order[i]].Load?
    {
      RanKind(x.g, x.order, x.order[i]);
    }
  }

  /** The result register holds the word of the node computed last. */
  lemma {:induction false} LastIsResult(x: Row, k: nat, res: Word)
    requires RowOk(x) && k <= |x.order| && Last(x.g, x.order, k) >= 0
    ensures var p := Last(x.g, x.order, k); p in Folded(x, k, res).0 && Folded(x, k, res).1 == Folded(x, k, res).0[p]
  {
    hide Folded, RowOk, Computed;
    OrderInRange(x, k);
    FoldedStep(x, k - 1, res);
    if IsLeaf(x.g[x.order[k - 1]]) {
      LastIsResult(x, k - 1, res);
    }
  }

  lemma OrderInRange(x: Row, k: nat)
    requires RowOk(x)
    ensures forall i | 0 <= i < |x.order| :: x.order[i] < |x.g|
  {
  }

  lemma OrSame(w: Word)
    ensures BitOr(w, w) == w
  {
  }

  /** Node k gets the same word in both graphs. */
  lemma {:induction false} SameComputed(x: Row, k: nat, res: Word)
    requires RowOk(x) && InKind(x.g, x.order) && k < |x.order| && RowOk(RowAsRun(x))
    ensures var f, h := Folded(x, k, res), AsRun(x.g, x.order);
            Computed(RowAsRun(x), f.0, f.1, h[x.order[k]]) == Computed(x, f.0, f.1, x.g[x.order[k]])
  {
    hide Folded, InKind, Last, AsRun, BitOr, BitAnd, AddWords, SubWords, Truth, Valid, AllRead;
    var f := Folded(x, k, res);
    RanAt(x.g, x.order, k);
    forall c: nat ensures Operand(RowAsRun(x), f.0, c) == Operand(x, f.0, c) {
      if c < |x.g| {
        RanKind(x.g, x.order, c);
      }
    }
    if x.g[x.order[k]].Not? {
      SilentHasLast(x.g, x.order, k);
      LastIsResult(x, k, res);
      OrSame(f.1);
    }
  }

  /** Both graphs leave the same words in the same slots. */
  lemma {:induction false} SameFold(x: Row, k: nat, res: Word)
    requires RowOk(x) && InKind(x.g, x.order) && k <= |x.order| && RowOk(RowAsRun(x))
    ensures Folded(RowAsRun(x), k, res) == Folded(x, k, res)
  {
    hide RowOk, InKind, Computed, AsRun;
    if k > 0 {
      SameFold(x, k - 1, res);
      OrderInRange(x, k);
      SameComputed(x, k - 1, res);
      SameLeaf(x, k - 1);
    }
  }

  lemma SameLeaf(x: Row, k: nat)
    requires RowOk(x) && InKind(x.g, x.order) && k < |x.order|
    ensures x.order[k] < |x.g| && IsLeaf(AsRun(x.g, x.order)[x.order[k]]) == IsLeaf(x.g[x.order[k]])
  {
    hide InKind, AsRun;
    RanKind(x.g, x.order, x.order[k]);
  }

  /** A sum of one number is that number. */
  lemma {:induction false} SumOfOne(g: Graph, id: nat, p: nat, env: Env)
    requires Acyclic(g) && id < |g| && p < |g| && g[id] == Sum([p]) && Eval(g, p, env, Pow2(64), 0) < Pow2(64)
    ensures Eval(g, id, env, Pow2(64), 0) == Eval(g, p, env, Pow2(64), 0)
  {
    hide Pow2;
    assert Below(g[id], Rank(g), Rank(g)[id]);
    assert [p][1..] == [];
    assert EvalSum(g, [p], Rank(g)[id], env, Pow2(64), 0)
        == Eval(g, p, env, Pow2(64), 0) + EvalSum(g, [p][1..], Rank(g)[id], env, Pow2(64), 0);
    ModOf(Eval(g, p, env, Pow2(64), 0), 0, Pow2(64));
  }

  /** In the graph as run every node's word is its arithmetic value. */
  lemma {:induction false} RanValued(x: Row, k: nat, res: Word, env: Env)
    requires RowOk(x) && InKind(x.g, x.order) && k <= |x.order| && RowOk(RowAsRun(x)) && CellsMatch(RowAsRun(x), env)
    ensures Valued(RowAsRun(x), k, res, env)
  {
    hide RowOk, Folded, Computed, Value, InKind, CellsMatch, Val, Valued, AsRun;
    var y := RowAsRun(x);
    ValuedNone(y, res, env);
    if k > 0 {
      RanValued(x, k - 1, res, env);
      SameLeaf(x, k - 1);
      if !IsLeaf(y.g[y.order[k - 1]]) {
        RanComputed(x, k - 1, res, env);
      }
      ValuedStep(y, k - 1, res, env);
    }
  }

  lemma {:induction false} RanComputed(x: Row, k: nat, res: Word, env: Env)
    requires RowOk(x) && InKind(x.g, x.order) && k < |x.order| && RowOk(RowAsRun(x)) && CellsMatch(RowAsRun(x), env)
    requires Valued(RowAsRun(x), k, res, env) && !IsLeaf(x.g[x.order[k]])
    ensures var y, f := RowAsRun(x), Folded(RowAsRun(x), k, res);
            Val(Computed(y, f.0, f.1, y.g[y.order[k]])) == Value(y, y.order[k], env)
  {
    hide Folded, Value, InKind, CellsMatch, Val, AsRun, Last, Valid, AllRead, Pow2;
    var y, f := RowAsRun(x), Folded(RowAsRun(x), k, res);
    RanAt(x.g, x.order, k);
    SameLeaf(x, k);
    if x.g[x.order[k]].Sum? {
      var p := Last(x.g, x.order, k);
      SilentHasLast(x.g, x.order, k);
      SameFold(x, k, res);
      LastIsResult(x, k, res);
      var j :| 0 <= j < k && x.order[j] == p;
      SameLeaf(x, j);
      ValBound(f.1);
      SumValue(y, k, p, env, f.1);
    } else {
      ComputedValue(y, k, res, env);
    }
  }

  lemma {:induction false} SumValue(y: Row, k: nat, p: nat, env: Env, w: Word)
    requires RowOk(y) && k < |y.order| && p < |y.g| && y.g[y.order[k]] == Sum([p])
    requires Val(w) == Value(y, p, env) && Val(w) < Pow2(64)
    ensures Value(y, y.order[k], env) == Val(w)
  {
    hide Pow2, Val, Eval;
    SumOfOne(y.g, y.order[k], p, env);
  }

  /** The fields a row of the graph as run reads are those of the row itself. */
  lemma {:induction false} RanCells(x: Row, env: Env)
    requires RowOk(x) && InKind(x.g, x.order) && RowOk(RowAsRun(x)) && CellsMatch(x, env)
    ensures CellsMatch(RowAsRun(x), env)
  {
    hide InKind, AsRun, Valid, AllRead, Val;
    forall i | 0 <= i < |x.order| && AsRun(x.g, x.order)[x.order[i]].Load?
      ensures env(AsRun(x.g, x.order)[x.order[i]].name) == Val(x.cols[x.lay[x.order[i]].field][x.row])
    {
      RanKind(x.g, x.order, x.order[i]);
    }
  }

  /** Whatever was in the result register, a row ends with the value the root has in the graph as run. */
  lemma {:induction false} RowResult(x: Row, res: Word, env: Env)
    requires RowOk(x) && InKind(x.g, x.order) && CellsMatch(x, env)
    requires x.order != [] && !IsLeaf(x.g[x.order[|x.order| - 1]])
    ensures Valid(AsRun(x.g, x.order)) && Acyclic(AsRun(x.g, x.order))
    ensures Val(Folded(x, |x.order|, res).1) == Eval(AsRun(x.g, x.order), x.order[|x.order| - 1], env, Pow2(64), 0)
  {
    hide RowOk, Folded, InKind, CellsMatch, Val, AsRun, Pow2, Eval, Valid, Acyclic, Computed;
    var n := |x.order|;
    RowAsRunOk(x);
    RowValid(RowAsRun(x));
    RanCells(x, env);
    RanValued(x, n, res, env);
    SameFold(x, n, res);
    FoldedStep(x, n - 1, res);
    SameLeaf(x, n - 1);
  }

  lemma RowValid(x: Row)
    requires RowOk(x)
    ensures Valid(x.g) && Acyclic(x.g)
  {
  }
}
