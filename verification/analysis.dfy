/**
 The analysis pass: a depth-first walk that lists each reachable node once, after its operands,
 and the numbering of the fields that are loaded.
 */
module Analysis {
  import opened Ir
  import opened Correctness

  /** Everything a node's value depends on, itself included. */
  ghost function Reach(g: Graph, id: nat): (r: set<nat>)
    requires Acyclic(g) && id < |g|
    decreases Rank(g)[id], |Children(g[id])| + 1
  {
    {id} + ReachFirst(g, id, |Children(g[id])|)
  }

  /** Everything the first k operands depend on. */
  ghost function ReachFirst(g: Graph, id: nat, k: nat): set<nat>
    requires Acyclic(g) && id < |g| && k <= |Children(g[id])|
    decreases Rank(g)[id], k
  {
    if k == 0 then {} else
      assert Below(g[id], Rank(g), Rank(g)[id]);
      ReachFirst(g, id, k - 1) + Reach(g, Children(g[id])[k - 1])
  }

  lemma {:induction false} ReachedThrough(g: Graph, id: nat, k: nat, n: nat) returns (j: nat)
    requires Acyclic(g) && id < |g| && k <= |Children(g[id])| && n in ReachFirst(g, id, k)
    ensures j < k && Children(g[id])[j] < |g| && Rank(g)[Children(g[id])[j]] < Rank(g)[id]
    ensures n in Reach(g, Children(g[id])[j])
  {
    hide Reach, ReachFirst, Rank, Children, Acyclic;
    ReachUnfold(g, id);
    ReachFirstStep(g, id, k - 1);
    if n in ReachFirst(g, id, k - 1) {
      j := ReachedThrough(g, id, k - 1, n);
    } else {
      j := k - 1;
    }
  }

  lemma ReachUnfold(g: Graph, id: nat)
    requires Acyclic(g) && id < |g|
    ensures Reach(g, id) == {id} + ReachFirst(g, id, |Children(g[id])|)
    ensures ReachFirst(g, id, 0) == {}
  {
  }

  lemma ReachSelf(g: Graph, id: nat)
    requires Acyclic(g) && id < |g|
    ensures id in Reach(g, id)
  {
  }

  lemma ReachFirstStep(g: Graph, id: nat, k: nat)
    requires Acyclic(g) && id < |g| && k < |Children(g[id])|
    ensures Children(g[id])[k] < |g| && Rank(g)[Children(g[id])[k]] < Rank(g)[id]
    ensures ReachFirst(g, id, k + 1) == ReachFirst(g, id, k) + Reach(g, Children(g[id])[k])
  {
    assert Below(g[id], Rank(g), Rank(g)[id]);
  }

  ghost function Elements(order: seq<nat>): set<nat> {
    set n | n in order
  }

  lemma {:induction false} ReachRank(g: Graph, id: nat, n: nat)
    requires Acyclic(g) && id < |g| && n in Reach(g, id)
    ensures n < |g| && Rank(g)[n] <= Rank(g)[id]
    decreases Rank(g)[id]
  {
    if n != id {
      var k := ReachedThrough(g, id, |Children(g[id])|, n);
      ReachRank(g, Children(g[id])[k], n);
    }
  }

  lemma ListedChild(g: Graph, order: seq<nat>, i: nat, k: nat)
    requires Topological(g, order) && i < |order| && k < |Children(g[order[i]])|
    ensures Listed(order, i, Children(g[order[i]])[k])
  {
    assert OperandsListed(g[order[i]], order, i);
  }

  /** A list that is closed under operands holds all that its members depend on. */
  lemma {:induction false} ReachListed(g: Graph, order: seq<nat>, i: nat)
    requires Acyclic(g) && Topological(g, order) && i < |order|
    ensures Reach(g, order[i]) <= Elements(order)
    decreases i
  {
    var id := order[i];
    forall n | n in Reach(g, id) ensures n in Elements(order) {
      if n != id {
        var k := ReachedThrough(g, id, |Children(g[id])|, n);
        ListedChild(g, order, i, k);
        var j :| 0 <= j < i && order[j] == Children(g[id])[k];
        ReachListed(g, order, j);
      }
    }
  }

  lemma AppendListed(g: Graph, order: seq<nat>, id: nat)
    requires Closed(g) && Topological(g, order) && id < |g| && id !in order
    requires forall k | 0 <= k < |Children(g[id])| :: Children(g[id])[k] in order
    ensures Topological(g, order + [id])
  {
    var order' := order + [id];
    forall k | 0 <= k < |Children(g[id])| ensures Listed(order', |order|, Children(g[id])[k]) {
      var j :| 0 <= j < |order| && order[j] == Children(g[id])[k];
      assert order'[j] == Children(g[id])[k];
    }
    ListedOperands(g[id], order', |order|);
    forall i | 0 <= i < |order'| ensures order'[i] < |g| && OperandsListed(g[order'[i]], order', i) {
      if i < |order| {
        assert OperandsListed(g[order[i]], order, i);
        forall k | 0 <= k < |Children(g[order[i]])| ensures Listed(order', i, Children(g[order[i]])[k]) {
          ListedChild(g, order, i, k);
          var j :| 0 <= j < i && order[j] == Children(g[order[i]])[k];
          assert order'[j] == Children(g[order[i]])[k];
        }
        ListedOperands(g[order[i]], order', i);
      }
    }
  }

  lemma ListedOperands(n: Node, order: seq<nat>, i: nat)
    requires i <= |order| && forall k | 0 <= k < |Children(n)| :: Listed(order, i, Children(n)[k])
    ensures OperandsListed(n, order, i)
  {
    match n {
      case Load(_) =>
      case Const(_) =>
      case Not(l) => assert Children(n)[0] == l;
      case Select(c, l, r) => assert Children(n)[0] == l && Children(n)[1] == r && Children(n)[2] == c;
      case Sum(ops) => assert Children(n) == ops;
      case _ => assert Children(n)[0] == n.left && Children(n)[1] == n.right;
    }
  }

  /** The list after a visit to `id`: nothing new if it is listed, else what its operands add and `id` itself. */
  ghost function Visit(g: Graph, id: nat, order: seq<nat>): seq<nat>
    requires Acyclic(g) && id < |g|
    decreases Rank(g)[id], |Children(g[id])| + 1
  {
    if id in order then order else VisitFirst(g, id, |Children(g[id])|, order) + [id]
  }

  /** The list after visits to the first k operands of `id`, in order. */
  ghost function VisitFirst(g: Graph, id: nat, k: nat, order: seq<nat>): seq<nat>
    requires Acyclic(g) && id < |g| && k <= |Children(g[id])|
    decreases Rank(g)[id], k
  {
    if k == 0 then order else
      assert Below(g[id], Rank(g), Rank(g)[id]);
      Visit(g, Children(g[id])[k - 1], VisitFirst(g, id, k - 1, order))
  }

  lemma VisitStep(g: Graph, id: nat, k: nat, order: seq<nat>)
    requires Acyclic(g) && id < |g| && k < |Children(g[id])|
    ensures Children(g[id])[k] < |g|
    ensures VisitFirst(g, id, 0, order) == order
    ensures VisitFirst(g, id, k + 1, order) == Visit(g, Children(g[id])[k], VisitFirst(g, id, k, order))
  {
    assert Below(g[id], Rank(g), Rank(g)[id]);
  }

  lemma VisitNone(g: Graph, id: nat, order: seq<nat>)
    requires Acyclic(g) && id < |g|
    ensures VisitFirst(g, id, 0, order) == order
  {
  }

  /** The walk, node by node: left, then right, then the condition; the operands of a SUM as they come. */
  lemma {:induction false} VisitOrder(g: Graph, id: nat, order: seq<nat>)
    requires Acyclic(g) && id < |g| && id !in order
    ensures Within(g[id], |g|)
    ensures match g[id]
            case Load(_) => Visit(g, id, order) == order + [id]
            case Const(_) => Visit(g, id, order) == order + [id]
            case Not(l) => Visit(g, id, order) == Visit(g, l, order) + [id]
            case Select(c, l, r) => Visit(g, id, order) == Visit(g, c, Visit(g, r, Visit(g, l, order))) + [id]
            case Sum(ops) =>
              && |Children(g[id])| == |ops|
              && Visit(g, id, order) == VisitFirst(g, id, |ops|, order) + [id] && VisitFirst(g, id, 0, order) == order
              && forall k | 0 <= k < |ops| :: VisitFirst(g, id, k + 1, order) == Visit(g, ops[k], VisitFirst(g, id, k, order))
            case _ => Visit(g, id, order) == Visit(g, g[id].right, Visit(g, g[id].left, order)) + [id]
  {
    hide VisitFirst;
    VisitNone(g, id, order);
    forall k: nat | k < |Children(g[id])|
      ensures Children(g[id])[k] < |g|
      ensures VisitFirst(g, id, k + 1, order) == Visit(g, Children(g[id])[k], VisitFirst(g, id, k, order))
    {
      VisitStep(g, id, k, order);
    }
    match g[id]
    case Not(l) => assert Children(g[id])[0] == l;
    case Select(c, l, r) => assert Children(g[id])[0] == l && Children(g[id])[1] == r && Children(g[id])[2] == c;
    case Sum(ops) => assert Children(g[id]) == ops;
    case Load(_) =>
    case Const(_) =>
    case _ => assert Children(g[id])[0] == g[id].left && Children(g[id])[1] == g[id].right;
  }

  class ExpressionAnalyzer {
    var visited: set<nat>
    var allNodes: seq<nat>

    ghost predicate Valid(g: Graph)
      reads this
    {
      Topological(g, allNodes) && visited == Elements(allNodes)
    }

    constructor ()
      ensures visited == {} && allNodes == []
    {
      visited := {};
      allNodes := [];
    }

    /**
     Lists what `id` depends on and was not listed before, operands first and `id` itself last; the list
     is that of a depth-first walk which visits left, right, condition and further operands in turn.
     */
    method Analyze(g: Graph, id: nat)
      requires Acyclic(g) && id < |g| && Valid(g)
      modifies this
      ensures Valid(g)
      ensures old(allNodes) <= allNodes
      ensures visited == old(visited) + Reach(g, id)
      ensures allNodes == Visit(g, id, old(allNodes))
      ensures id !in old(visited) ==> allNodes != [] && allNodes[|allNodes| - 1] == id
      decreases Rank(g)[id], 1
    {
      hide Reach, ReachFirst, Topological, VisitFirst;
      ReachUnfold(g, id);
      if id in visited {
        ghost var i :| 0 <= i < |allNodes| && allNodes[i] == id;
        ReachListed(g, allNodes, i);
        return;
      }
      AnalyzeOperands(g, id);
      if id in visited {
        ghost var j := ReachedThrough(g, id, |Children(g[id])|, id);
        ReachRank(g, Children(g[id])[j], id);
        assert false;
      }
      AppendListed(g, allNodes, id);
      allNodes := allNodes + [id];
      visited := visited + {id};
    }

    method AnalyzeOperands(g: Graph, id: nat)
      requires Acyclic(g) && id < |g| && Valid(g)
      modifies this
      ensures Valid(g)
      ensures old(allNodes) <= allNodes
      ensures visited == old(visited) + ReachFirst(g, id, |Children(g[id])|)
      ensures allNodes == VisitFirst(g, id, |Children(g[id])|, old(allNodes))
      ensures forall k | 0 <= k < |Children(g[id])| :: Children(g[id])[k] in visited
      decreases Rank(g)[id], 0
    {
      hide Reach, ReachFirst, Visit, VisitFirst, Topological, Elements, Children, Valid, Acyclic, Rank;
      ReachUnfold(g, id);
      VisitNone(g, id, allNodes);
      var kids := Children(g[id]);
      for k := 0 to |kids|
        invariant Valid(g) && old(allNodes) <= allNodes
        invariant visited == old(visited) + ReachFirst(g, id, k)
        invariant allNodes == VisitFirst(g, id, k, old(allNodes))
        invariant forall j | 0 <= j < k :: kids[j] in visited
      {
        ReachFirstStep(g, id, k);
        VisitStep(g, id, k, old(allNodes));
        ReachSelf(g, kids[k]);
        Analyze(g, kids[k]);
      }
    }
  }
}
