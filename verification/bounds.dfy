/**
 Small expressions always fit: bounds on the fields, scratchpad words and carry registers they need.
 */
module Bounds {
  import opened Ir
  import opened Correctness
  import opened Analysis
  import opened Allocation
  import opened Compiler

  /** Distinct indices below n are at most n. */
  lemma {:induction false} AtMost(order: seq<nat>, n: nat)
    requires (forall i | 0 <= i < |order| :: order[i] < n) && forall i, j | 0 <= i < j < |order| :: order[i] != order[j]
    ensures |order| <= n
  {
    FirstsSize(n);
    SeqSet(order);
    forall x <- Elements(order) ensures x in Firsts(n) {
      InFirsts(x, n);
    }
    SubsetSize(Elements(order), Firsts(n));
  }

  /** The numbers below n. */
  ghost function Firsts(n: nat): set<nat> {
    if n == 0 then {} else Firsts(n - 1) + {n - 1}
  }

  lemma {:induction false} InFirsts(x: nat, n: nat)
    ensures x in Firsts(n) <==> x < n
  {
    if n > 0 {
      InFirsts(x, n - 1);
    }
  }

  lemma {:induction false} FirstsSize(n: nat)
    ensures |Firsts(n)| == n
  {
    if n > 0 {
      FirstsSize(n - 1);
      InFirsts(n - 1, n - 1);
    }
  }

  lemma {:induction false} SeqSet(order: seq<nat>)
    requires forall i, j | 0 <= i < j < |order| :: order[i] != order[j]
    ensures |Elements(order)| == |order|
  {
    if order != [] {
      var k := |order| - 1;
      SeqSet(order[..k]);
      assert Elements(order) == Elements(order[..k]) + {order[k]};
    }
  }

  /** So many nodes need at most so many names, blocks and slots. */
  lemma {:induction false} CountsBounded(g: Graph, order: seq<nat>, k: nat)
    requires k <= |order| && forall i | 0 <= i < |order| :: order[i] < |g|
    ensures |Names(g, order, k)| <= k && Blocks(g, order, k) <= k && Singles(g, order, k) <= 2 * k
  {
    if k > 0 {
      CountsBounded(g, order, k - 1);
    }
  }

  /** With every node emitted, the carry registers suffice for six adders and no more. */
  lemma {:induction false} SixAdders(g: Graph, order: seq<nat>)
    requires forall i | 0 <= i < |order| :: order[i] < |g|
    ensures CarriesSuffice(g, order, {}) <==> Adders(g, order, |order|) <= 6
  {
    hide Adders;
    if Adders(g, order, |order|) <= 6 {
      forall i | 0 <= i < |order| && IsAdder(g[order[i]]) ensures Adders(g, order, i) < 6 {
        AddersStep(g, order, i);
        AddersGrow(g, order, i + 1, |order|);
      }
    } else {
      var i := SeventhAdder(g, order, |order|);
    }
  }

  lemma AddersStep(g: Graph, order: seq<nat>, i: nat)
    requires i < |order| && forall i | 0 <= i < |order| :: order[i] < |g|
    ensures Adders(g, order, i + 1) == Adders(g, order, i) + if IsAdder(g[order[i]]) then 1 else 0
  {
  }

  lemma {:induction false} AddersGrow(g: Graph, order: seq<nat>, i: nat, k: nat)
    requires i <= k <= |order| && forall i | 0 <= i < |order| :: order[i] < |g|
    ensures Adders(g, order, i) <= Adders(g, order, k)
  {
    if i < k {
      AddersGrow(g, order, i, k - 1);
    }
  }

  lemma {:induction false} SeventhAdder(g: Graph, order: seq<nat>, k: nat) returns (i: nat)
    requires k <= |order| && (forall i | 0 <= i < |order| :: order[i] < |g|) && Adders(g, order, k) > 6
    ensures i < k && IsAdder(g[order[i]]) && Adders(g, order, i) >= 6
  {
    if IsAdder(g[order[k - 1]]) {
      i := k - 1;
    } else {
      i := SeventhAdder(g, order, k - 1);
    }
  }

  /** An expression of at most 128 nodes without emitted adders always compiles. */
  lemma {:induction false} SmallCompiles(g: Graph, order: seq<nat>, skip: set<nat>)
    requires |g| <= 128 && Topological(g, order) && forall id: nat | id < |g| && id !in skip :: !IsAdder(g[id])
    ensures |Names(g, order, |order|)| <= MAX_FIELDS
    ensures Needed(Blocks(g, order, |order|), Singles(g, order, |order|)) <= CHUNKS
    ensures CarriesSuffice(g, order, skip)
  {
    hide Names, Blocks, Singles, Adders;
    AtMost(order, |g|);
    CountsBounded(g, order, |order|);
  }
}
