/**
 Numbering of fields and placement of results: which field index a load reads, which scratchpad
 words and which carry register each node gets.
 */
module Allocation {
  import opened Words
  import opened Ir
  import opened Emission
  import opened Correctness

  // --- Fields ---------------------------------------------------------------------------------

  const MAX_FIELDS: nat := 128

  /** Field names loaded by the first k nodes of the order. */
  ghost function Names(g: Graph, order: seq<nat>, k: nat): set<string>
    requires k <= |order| && forall i | 0 <= i < |order| :: order[i] < |g|
  {
    if k == 0 then {} else
      Names(g, order, k - 1) + if g[order[k - 1]].Load? then {g[order[k - 1]].name} else {}
  }

  lemma {:induction false} NamesGrow(g: Graph, order: seq<nat>, k: nat, n: nat)
    requires k <= n <= |order| && forall i | 0 <= i < |order| :: order[i] < |g|
    ensures Names(g, order, k) <= Names(g, order, n)
    decreases n - k
  {
    if k < n {
      NamesGrow(g, order, k + 1, n);
    }
  }

  /** The names, each once; a name's position is its field index. */
  ghost predicate Numbers(names: seq<string>, idx: map<string, nat>) {
    && (forall v | 0 <= v < |names| :: names[v] in idx && idx[names[v]] == v)
    && (forall n | n in idx :: idx[n] < |names| && names[idx[n]] == n)
  }

  lemma {:induction false} NumbersSize(names: seq<string>, idx: map<string, nat>)
    requires Numbers(names, idx)
    ensures |idx.Keys| == |names|
  {
    if names == [] {
      assert idx.Keys == {};
    } else {
      var k := |names| - 1;
      var rest := idx - {names[k]};
      assert Numbers(names[..k], rest);
      NumbersSize(names[..k], rest);
      assert idx.Keys == rest.Keys + {names[k]};
    }
  }

  lemma NamesStep(g: Graph, order: seq<nat>, k: nat)
    requires k <= |order| && forall i | 0 <= i < |order| :: order[i] < |g|
    ensures Names(g, order, 0) == {}
    ensures k < |order| ==>
              Names(g, order, k + 1) == Names(g, order, k) + if g[order[k]].Load? then {g[order[k]].name} else {}
  {
  }

  lemma NumbersNone()
    ensures Numbers([], map[])
  {
  }

  lemma NumbersAppend(names: seq<string>, idx: map<string, nat>, name: string)
    requires Numbers(names, idx) && name !in idx
    ensures Numbers(names + [name], idx[name := |names|])
  {
  }

  lemma TooMany(g: Graph, order: seq<nat>, k: nat, names: seq<string>, idx: map<string, nat>)
    requires k < |order| && forall i | 0 <= i < |order| :: order[i] < |g|
    requires Numbers(names, idx) && idx.Keys == Names(g, order, k)
    requires g[order[k]].Load? && g[order[k]].name !in idx
    ensures |Names(g, order, |order|)| > |names|
  {
    hide Names, Numbers;
    NumbersSize(names, idx);
    NamesStep(g, order, k);
    NamesGrow(g, order, k + 1, |order|);
    SubsetSize(Names(g, order, k + 1), Names(g, order, |order|));
  }

  /** Loads get equal indices exactly when their names are equal, densely from 0 in order of appearance. */
  method NumberFields(g: Graph, order: seq<nat>) returns (ok: bool, names: seq<string>, idx: map<string, nat>)
    requires forall i | 0 <= i < |order| :: order[i] < |g|
    ensures ok == (|Names(g, order, |order|)| <= MAX_FIELDS)
    ensures ok ==> |names| <= MAX_FIELDS && Numbers(names, idx) && idx.Keys == Names(g, order, |order|)
  {
    hide Numbers, Names;
    names, idx := [], map[];
    NamesStep(g, order, 0);
    NumbersNone();
    for k := 0 to |order|
      invariant Numbers(names, idx) && idx.Keys == Names(g, order, k)
      invariant |names| <= MAX_FIELDS
    {
      NamesStep(g, order, k);
      if g[order[k]].Load? {
        var name := g[order[k]].name;
        if name !in idx {
          if |names| >= MAX_FIELDS {
            TooMany(g, order, k, names, idx);
            return false, names, idx;
          }
          NumbersAppend(names, idx, name);
          idx := idx[name := |names|];
          names := names + [name];
        }
      }
    }
    NumbersSize(names, idx);
    ok := true;
  }

  lemma {:induction false} SubsetSize<T>(a: set<T>, b: set<T>)
    requires a <= b
    ensures |a| <= |b|
  {
    if a != {} {
      var n :| n in a;
      SubsetSize(a - {n}, b - {n});
    }
  }

  // --- Scratchpad -----------------------------------------------------------------------------

  const CHUNKS: nat := 512

  /** Chunks that hold so many blocks and single slots. */
  function Needed(blocks: nat, singles: nat): nat {
    blocks + (singles + 63) / 64
  }

  /**
   First-fit allocation without frees has a closed form: chunks of 64 words are opened in order,
   and at most one of them, `open`, is partly filled with single slots.
   */
  class ScratchpadManager {
    var used: array<bool>
    ghost var chunks: nat
    ghost var open: nat
    ghost var fill: nat
    ghost var blocks: nat
    ghost var singles: nat

    ghost predicate Valid()
      reads this, used
    {
      && used.Length == SLOTS && chunks <= CHUNKS && fill <= 64
      && (fill < 64 ==> 0 < fill && open < chunks)
      && (forall i | 0 <= i < SLOTS :: used[i] == Taken(i))
      && chunks == Needed(blocks, singles)
      && fill == if singles % 64 == 0 then 64 else singles % 64
    }

    ghost predicate Taken(i: nat)
      reads this
    {
      i < 64 * chunks && !(fill < 64 && 64 * open + fill <= i < 64 * open + 64)
    }

    ghost function Words(): set<int>
      reads this
    {
      set w: int | 0 <= w < SLOTS && Taken(w)
    }

    /** Exactly the n words from `id` on were free and are now taken. */
    twostate predicate Grows(id: int, n: nat)
      reads this
    {
      && 0 <= id && id + n <= SLOTS
      && (forall w: nat | id <= w < id + n :: !old(Taken(w)))
      && (forall w: nat :: Taken(w) <==> old(Taken(w)) || id <= w < id + n)
    }

    constructor ()
      ensures Valid() && fresh(used) && blocks == singles == 0
    {
      hide Valid;
      used := new bool[SLOTS](i => false);
      chunks, open, fill, blocks, singles := 0, 0, 64, 0, 0;
      new;
      ValidWhenEmpty();
    }

    lemma ValidWhenEmpty()
      requires used.Length == SLOTS && forall i | 0 <= i < SLOTS :: !used[i]
      requires chunks == blocks == singles == 0 && fill == 64
      ensures Valid()
    {
    }

    /** The lowest free slot: the next one of the partly filled chunk, or the first of a new chunk. */
    method AllocSlot() returns (id: int)
      requires Valid()
      modifies this, used
      ensures Valid() && used == old(used) && blocks == old(blocks)
      ensures id >= 0 <==> Needed(old(blocks), old(singles) + 1) <= CHUNKS
      ensures id >= 0 ==> singles == old(singles) + 1 && Grows(id, 1)
      ensures id >= 0 ==> forall w | 0 <= w < id :: old(Taken(w))
      ensures id < 0 ==> id == -1 && unchanged(this) && unchanged(used)
    {
      id := FirstFree();
      if id < 0 {
        AllUsed();
      } else {
        FirstFreeIs(id);
        TakeSlot(id);
      }
    }

    method TakeSlot(i: nat)
      requires Valid() && i < SLOTS && !used[i] && i == if fill < 64 then 64 * open + fill else 64 * chunks
      modifies this, used
      ensures Valid() && used == old(used) && blocks == old(blocks) && singles == old(singles) + 1 && Grows(i, 1)
    {
      used[i] := true;
      if fill < 64 {
        FillOpen(i);
      } else {
        OpenChunk(i);
      }
    }

    /** Word i was just marked and is not yet accounted for. */
    ghost predicate Marked(i: nat)
      reads this, used
    {
      && used.Length == SLOTS && chunks <= CHUNKS && fill <= 64 && i < SLOTS && !Taken(i)
      && (fill < 64 ==> 0 < fill && open < chunks)
      && (forall j | 0 <= j < SLOTS :: used[j] == (Taken(j) || j == i))
      && chunks == Needed(blocks, singles)
      && fill == if singles % 64 == 0 then 64 else singles % 64
    }

    /** It is the next slot of the partly filled chunk. */
    ghost method FillOpen(i: nat)
      requires Marked(i) && fill < 64 && i == 64 * open + fill
      modifies this`fill, this`singles
      ensures Valid() && singles == old(singles) + 1 && Grows(i, 1)
    {
      fill, singles := fill + 1, singles + 1;
    }

    /** It is the first slot of a new chunk. */
    ghost method OpenChunk(i: nat)
      requires Marked(i) && fill == 64 && i == 64 * chunks
      modifies this`open, this`fill, this`chunks, this`singles
      ensures Valid() && singles == old(singles) + 1 && Grows(i, 1)
    {
      open, fill, chunks, singles := chunks, 1, chunks + 1, singles + 1;
    }

    lemma Room()
      requires Valid()
      ensures Needed(blocks, singles) <= CHUNKS
    {
    }

    lemma NothingTaken()
      requires Valid() && blocks == singles == 0
      ensures forall w: nat :: !Taken(w)
    {
    }

    method FirstFree() returns (id: int)
      requires Valid()
      ensures id == -1 || 0 <= id < SLOTS
      ensures id == -1 ==> forall j | 0 <= j < SLOTS :: used[j]
      ensures id >= 0 ==> !used[id] && forall j | 0 <= j < id :: used[j]
    {
      for i := 0 to SLOTS
        invariant forall j | 0 <= j < i :: used[j]
      {
        if !used[i] {
          return i;
        }
      }
      id := -1;
    }

    lemma FirstFreeIs(i: nat)
      requires Valid() && i < SLOTS && !used[i] && forall j | 0 <= j < i :: used[j]
      ensures i == if fill < 64 then 64 * open + fill else 64 * chunks
      ensures forall j: nat | j < i :: Taken(j)
    {
      assert !Taken(i) && forall j: nat | j < i :: used[j] == Taken(j);
      var w := if fill < 64 then 64 * open + fill else 64 * chunks;
      assert !Taken(w);
    }

    lemma AllUsed()
      requires Valid() && forall j | 0 <= j < SLOTS :: used[j]
      ensures fill == 64 && chunks == CHUNKS
    {
      assert Taken(SLOTS - 1);
      var w := 64 * open + fill;
      assert w < SLOTS ==> used[w] && Taken(w);
    }

    /** The lowest free aligned block: the first unopened chunk. */
    method AllocBlock() returns (id: int)
      requires Valid()
      modifies this, used
      ensures Valid() && used == old(used) && singles == old(singles)
      ensures id >= 0 <==> Needed(old(blocks) + 1, old(singles)) <= CHUNKS
      ensures id >= 0 ==> id % 64 == 0 && blocks == old(blocks) + 1 && Grows(id, 64)
      ensures id < 0 ==> id == -1
    {
      var i := 0;
      while i <= SLOTS - 64
        invariant 0 <= i <= SLOTS && i % 64 == 0 && i <= 64 * chunks
        invariant Valid() && unchanged(this) && unchanged(used)
      {
        var free, j := true, 0;
        while j < 64 && free
          invariant 0 <= j <= 64
          invariant free ==> forall t | i <= t < i + j :: !used[t]
          invariant !free ==> exists t :: i <= t < i + 64 && used[t]
          decreases 64 - j, free
        {
          if used[i + j] {
            free := false;
          } else {
            j := j + 1;
          }
        }
        if free {
          FreeChunk(i);
          TakeBlock(i);
          return i;
        }
        TakenChunk(i);
        i := i + 64;
      }
      id := -1;
    }

    lemma FreeChunk(i: nat)
      requires Valid() && i % 64 == 0 && i + 64 <= SLOTS && i <= 64 * chunks
      requires forall t | i <= t < i + 64 :: !used[t]
      ensures i == 64 * chunks
    {
      assert !used[i] && !Taken(i);
    }

    lemma TakenChunk(i: nat)
      requires Valid() && i % 64 == 0 && i + 64 <= SLOTS && i <= 64 * chunks
      requires exists t :: i <= t < i + 64 && used[t]
      ensures i + 64 <= 64 * chunks
    {
      var t :| i <= t < i + 64 && used[t];
      assert Taken(t);
    }

    method TakeBlock(i: nat)
      requires Valid() && i == 64 * chunks && i + 64 <= SLOTS
      modifies this, used
      ensures Valid() && used == old(used) && singles == old(singles) && blocks == old(blocks) + 1 && Grows(i, 64)
    {
      for j := 0 to 64
        invariant unchanged(this)
        invariant forall t | 0 <= t < SLOTS :: used[t] == (Taken(t) || i <= t < i + j)
      {
        used[i + j] := true;
      }
      chunks, blocks := chunks + 1, blocks + 1;
    }
  }

  // --- Placement ------------------------------------------------------------------------------

  ghost function Blocks(g: Graph, order: seq<nat>, k: nat): nat
    requires k <= |order| && forall i | 0 <= i < |order| :: order[i] < |g|
  {
    if k == 0 then 0 else Blocks(g, order, k - 1) + BlocksOf(g[order[k - 1]])
  }

  ghost function Singles(g: Graph, order: seq<nat>, k: nat): nat
    requires k <= |order| && forall i | 0 <= i < |order| :: order[i] < |g|
  {
    if k == 0 then 0 else Singles(g, order, k - 1) + SinglesOf(g[order[k - 1]])
  }

  ghost function Adders(g: Graph, order: seq<nat>, k: nat): nat
    requires k <= |order| && forall i | 0 <= i < |order| :: order[i] < |g|
  {
    if k == 0 then 0 else Adders(g, order, k - 1) + Bit(IsAdder(g[order[k - 1]]))
  }

  function BlocksOf(n: Node): nat {
    if IsLeaf(n) || IsMask(n) then 0 else 1
  }

  function SinglesOf(n: Node): nat {
    if n.Compare? then 2 else if IsMask(n) then 1 else 0
  }

  lemma {:induction false} CountsGrow(g: Graph, order: seq<nat>, k: nat, n: nat)
    requires k <= n <= |order| && forall i | 0 <= i < |order| :: order[i] < |g|
    ensures Blocks(g, order, k) <= Blocks(g, order, n) && Singles(g, order, k) <= Singles(g, order, n)
    decreases n - k
  {
    if k < n {
      CountsGrow(g, order, k + 1, n);
    }
  }

  /** Metadata of a node before its scratchpad words are known. */
  function Unplaced(n: Node, idx: map<string, nat>, adders: nat): Meta {
    Meta(-1, -1,
         if n.Load? && n.name in idx then idx[n.name] else if n.Const? then -2 else -1,
         if IsAdder(n) && adders < 6 then adders else -1)
  }

  /** Scratchpad words for one node; fails exactly when they do not fit. */
  method PlaceNode(mgr: ScratchpadManager, n: Node, m: Meta) returns (ok: bool, m': Meta)
    requires mgr.Valid() && !IsLeaf(n) && m.slot == m.eqSlot == -1
    modifies mgr, mgr.used
    ensures mgr.Valid() && mgr.used == old(mgr.used)
    ensures ok == (Needed(old(mgr.blocks) + BlocksOf(n), old(mgr.singles) + SinglesOf(n)) <= CHUNKS)
    ensures ok ==> mgr.blocks == old(mgr.blocks) + BlocksOf(n) && mgr.singles == old(mgr.singles) + SinglesOf(n)
    ensures ok ==> PlacedAlone(n, m') && m'.field == m.field && m'.carry == m.carry
    ensures ok && IsMask(n) && old(mgr.blocks) == old(mgr.singles) == 0 ==> m'.slot == 0
    ensures ok ==> (forall w | Owns(n, m', w) :: w !in old(mgr.Words()))
    ensures ok ==> (forall w | w in old(mgr.Words()) || Owns(n, m', w) :: w in mgr.Words())
  {
    if !IsMask(n) {
      var id := mgr.AllocBlock();
      m' := m.(slot := id);
      ok := id >= 0;
    } else {
      ok, m' := PlaceMask(mgr, n, m);
    }
  }

  method PlaceMask(mgr: ScratchpadManager, n: Node, m: Meta) returns (ok: bool, m': Meta)
    requires mgr.Valid() && IsMask(n) && m.slot == m.eqSlot == -1
    modifies mgr, mgr.used
    ensures mgr.Valid() && mgr.used == old(mgr.used)
    ensures ok == (Needed(old(mgr.blocks), old(mgr.singles) + SinglesOf(n)) <= CHUNKS)
    ensures ok ==> mgr.blocks == old(mgr.blocks) && mgr.singles == old(mgr.singles) + SinglesOf(n)
    ensures ok ==> PlacedAlone(n, m') && m'.field == m.field && m'.carry == m.carry
    ensures ok && old(mgr.blocks) == old(mgr.singles) == 0 ==> m'.slot == 0
    ensures ok ==> (forall w | Owns(n, m', w) :: w !in old(mgr.Words()))
    ensures ok ==> (forall w | w in old(mgr.Words()) || Owns(n, m', w) :: w in mgr.Words())
  {
    hide ScratchpadManager.Valid, Needed, ScratchpadManager.Taken;
    NeededGrows(mgr.blocks, mgr.singles + 1, mgr.blocks, mgr.singles + 2);
    if mgr.blocks == 0 && mgr.singles == 0 {
      mgr.NothingTaken();
    }
    var id := mgr.AllocSlot();
    assert id > 0 ==> old(mgr.Taken(0));
    m' := m.(slot := id);
    ok := id >= 0;
    if ok && n.Compare? {
      assert mgr.Taken(id);
      var eq := mgr.AllocSlot();
      m' := m'.(eqSlot := eq);
      ok := eq >= 0;
    }
  }

  /** The first k nodes are placed, apart from each other and on words the manager counts as taken. */
  ghost predicate PlacedSoFar(g: Graph, idx: map<string, nat>, order: seq<nat>, k: nat, lay: Layout)
    requires k <= |order| && |lay| == |g| && forall i | 0 <= i < |order| :: order[i] < |g|
  {
    OwnedOnce(g, order, k, lay) && forall i | 0 <= i < k :: NodePlaced(g, idx, order, i, lay[order[i]])
  }

  ghost predicate NodePlaced(g: Graph, idx: map<string, nat>, order: seq<nat>, i: nat, m: Meta)
    requires i < |order| && forall i | 0 <= i < |order| :: order[i] < |g|
  {
    && PlacedAlone(g[order[i]], m)
    && m.field == Unplaced(g[order[i]], idx, 0).field
    && m.carry == Unplaced(g[order[i]], idx, Adders(g, order, i)).carry
  }

  ghost predicate AllTaken(g: Graph, order: seq<nat>, k: nat, lay: Layout, words: set<int>)
    requires k <= |order| && |lay| == |g| && forall i | 0 <= i < |order| :: order[i] < |g|
  {
    forall i, w | 0 <= i < k && Owns(g[order[i]], lay[order[i]], w) :: w in words
  }

  /** The first k nodes own no word twice. */
  ghost predicate OwnedOnce(g: Graph, order: seq<nat>, k: nat, lay: Layout)
    requires k <= |order| && |lay| == |g| && forall i | 0 <= i < |order| :: order[i] < |g|
  {
    forall i, j, w | 0 <= i < j < k && Owns(g[order[i]], lay[order[i]], w) :: !Owns(g[order[j]], lay[order[j]], w)
  }

  lemma OwnedOnceStep(g: Graph, order: seq<nat>, k: nat, lay: Layout, m: Meta, words: set<int>)
    requires k < |order| && |lay| == |g| && forall i | 0 <= i < |order| :: order[i] < |g|
    requires forall i | 0 <= i < k :: order[i] != order[k]
    requires OwnedOnce(g, order, k, lay) && AllTaken(g, order, k, lay, words)
    requires forall w | Owns(g[order[k]], m, w) :: w !in words
    ensures OwnedOnce(g, order, k + 1, lay[order[k] := m])
  {
    hide Owns;
    var lay' := lay[order[k] := m];
    forall i, j, w | 0 <= i < j < k + 1 && Owns(g[order[i]], lay'[order[i]], w)
      ensures !Owns(g[order[j]], lay'[order[j]], w)
    {
      assert lay'[order[i]] == lay[order[i]];
      if j < k {
        assert lay'[order[j]] == lay[order[j]];
      }
    }
  }

  lemma TakenStep(g: Graph, order: seq<nat>, k: nat, lay: Layout, m: Meta, words: set<int>, words': set<int>)
    requires k < |order| && |lay| == |g| && forall i | 0 <= i < |order| :: order[i] < |g|
    requires forall i | 0 <= i < k :: order[i] != order[k]
    requires AllTaken(g, order, k, lay, words)
    requires forall w | w in words || Owns(g[order[k]], m, w) :: w in words'
    ensures AllTaken(g, order, k + 1, lay[order[k] := m], words')
  {
    hide Owns;
    var lay' := lay[order[k] := m];
    forall i, w | 0 <= i < k + 1 && Owns(g[order[i]], lay'[order[i]], w) ensures w in words' {
      if i < k {
        assert lay'[order[i]] == lay[order[i]];
      }
    }
  }

  /** One more node placed on words not taken before. */
  lemma PlacedStep(g: Graph, idx: map<string, nat>, order: seq<nat>, k: nat, lay: Layout, m: Meta, words: set<int>,
                   words': set<int>)
    requires k < |order| && |lay| == |g| && forall i | 0 <= i < |order| :: order[i] < |g|
    requires forall i | 0 <= i < k :: order[i] != order[k]
    requires PlacedSoFar(g, idx, order, k, lay) && NodePlaced(g, idx, order, k, m)
    requires AllTaken(g, order, k, lay, words)
    requires forall w | Owns(g[order[k]], m, w) :: w !in words
    requires forall w | w in words || Owns(g[order[k]], m, w) :: w in words'
    ensures PlacedSoFar(g, idx, order, k + 1, lay[order[k] := m])
    ensures AllTaken(g, order, k + 1, lay[order[k] := m], words')
  {
    hide Owns, NodePlaced, OwnedOnce, AllTaken;
    OwnedOnceStep(g, order, k, lay, m, words);
    var lay' := lay[order[k] := m];
    forall i | 0 <= i < k + 1 ensures NodePlaced(g, idx, order, i, lay'[order[i]]) {
      if i < k {
        assert lay'[order[i]] == lay[order[i]];
      }
    }
    TakenStep(g, order, k, lay, m, words, words');
  }

  lemma PlacedNone(g: Graph, idx: map<string, nat>, order: seq<nat>, lay: Layout, words: set<int>)
    requires |lay| == |g| && forall i | 0 <= i < |order| :: order[i] < |g|
    ensures PlacedSoFar(g, idx, order, 0, lay) && AllTaken(g, order, 0, lay, words)
  {
  }

  /** If the first node that needs words is a mask, it is in word 0. */
  ghost predicate FirstMaskLow(g: Graph, order: seq<nat>, k: nat, lay: Layout)
    requires k <= |order| && |lay| == |g| && forall i | 0 <= i < |order| :: order[i] < |g|
  {
    forall i | 0 <= i < k && IsMask(g[order[i]]) && OnlyLeaves(g, order, i) :: lay[order[i]].slot == 0
  }

  ghost predicate OnlyLeaves(g: Graph, order: seq<nat>, k: nat)
    requires k <= |order| && forall i | 0 <= i < |order| :: order[i] < |g|
  {
    forall i | 0 <= i < k :: IsLeaf(g[order[i]])
  }

  lemma {:induction false} LeavesNeedNothing(g: Graph, order: seq<nat>, k: nat)
    requires k <= |order| && forall i | 0 <= i < |order| :: order[i] < |g|
    ensures OnlyLeaves(g, order, k) ==> Blocks(g, order, k) == Singles(g, order, k) == 0
  {
    if k > 0 && OnlyLeaves(g, order, k) {
      LeavesNeedNothing(g, order, k - 1);
    }
  }

  lemma FirstMaskStep(g: Graph, order: seq<nat>, k: nat, lay: Layout, lay': Layout)
    requires k <= |order| && |lay| == |lay'| == |g| && forall i | 0 <= i < |order| :: order[i] < |g|
    requires k > 0 ==> FirstMaskLow(g, order, k - 1, lay) && lay' == lay[order[k - 1] := lay'[order[k - 1]]]
    requires k > 0 ==> forall i | 0 <= i < k - 1 :: order[i] != order[k - 1]
    requires k > 0 && IsMask(g[order[k - 1]]) && OnlyLeaves(g, order, k - 1) ==> lay'[order[k - 1]].slot == 0
    ensures FirstMaskLow(g, order, k, lay')
  {
  }

  lemma PlacedLeaf(n: Node, idx: map<string, nat>, adders: nat)
    requires IsLeaf(n) && (n.Load? ==> n.name in idx)
    ensures PlacedAlone(n, Unplaced(n, idx, adders))
    ensures forall w :: !Owns(n, Unplaced(n, idx, adders), w)
  {
  }

  /**
   Every node's field index, scratchpad words and carry register. The words of distinct nodes are
   disjoint; the first six adders get a carry register; placement fails exactly when the blocks and
   single slots need more chunks than the scratchpad has.
   */
  method PlaceNodes(g: Graph, idx: map<string, nat>, order: seq<nat>) returns (ok: bool, lay: Layout)
    requires forall i | 0 <= i < |order| :: order[i] < |g|
    requires forall i, j | 0 <= i < j < |order| :: order[i] != order[j]
    requires forall i | 0 <= i < |order| && g[order[i]].Load? :: g[order[i]].name in idx
    ensures |lay| == |g|
    ensures ok == (Needed(Blocks(g, order, |order|), Singles(g, order, |order|)) <= CHUNKS)
    ensures ok ==> PlacedSoFar(g, idx, order, |order|, lay) && FirstMaskLow(g, order, |order|, lay)
  {
    hide PlacedAlone, Owns, Needed, PlacedSoFar, AllTaken, FirstMaskLow, OnlyLeaves, ScratchpadManager.Valid,
         ScratchpadManager.Taken;
    lay := seq(|g|, i => Meta(-1, -1, -1, -1));
    var mgr := new ScratchpadManager();
    var adders := 0;
    PlacedNone(g, idx, order, lay, mgr.Words());
    FirstMaskStep(g, order, 0, lay, lay);
    for k := 0 to |order|
      invariant |lay| == |g| && mgr.Valid() && fresh(mgr) && fresh(mgr.used)
      invariant adders == Adders(g, order, k)
      invariant mgr.blocks == Blocks(g, order, k) && mgr.singles == Singles(g, order, k)
      invariant PlacedSoFar(g, idx, order, k, lay) && AllTaken(g, order, k, lay, mgr.Words())
      invariant FirstMaskLow(g, order, k, lay)
    {
      var n := g[order[k]];
      var m := Unplaced(n, idx, adders);
      ghost var words := mgr.Words();
      if IsLeaf(n) {
        PlacedLeaf(n, idx, adders);
      } else {
        ok, m := PlaceNode(mgr, n, m);
        if !ok {
          CountsGrow(g, order, k + 1, |order|);
          NeededGrows(Blocks(g, order, k + 1), Singles(g, order, k + 1), Blocks(g, order, |order|), Singles(g, order, |order|));
          return;
        }
      }
      PlacedStep(g, idx, order, k, lay, m, words, mgr.Words());
      LeavesNeedNothing(g, order, k);
      FirstMaskStep(g, order, k + 1, lay, lay[order[k] := m]);
      adders := adders + Bit(IsAdder(n));
      lay := lay[order[k] := m];
    }
    mgr.Room();
    ok := true;
  }

  lemma NeededGrows(b: nat, s: nat, b': nat, s': nat)
    requires b <= b' && s <= s'
    ensures Needed(b, s) <= Needed(b', s')
  {
  }
}
