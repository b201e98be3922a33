/**
 Division of rows and blocks among threads: every way of splitting the work gives every row or block
 to exactly one thread.
 */
module Partition {
  import opened Words

  datatype Range = Range(begin: nat, end: nat)

  /** Consecutive ranges that start at 0 and end at `total`. */
  ghost predicate Tiles(ranges: seq<Range>, total: nat) {
    && (forall i | 0 <= i < |ranges| :: ranges[i].begin <= ranges[i].end)
    && (forall i | 0 < i < |ranges| :: ranges[i - 1].end == ranges[i].begin)
    && (if ranges == [] then total == 0 else ranges[0].begin == 0 && ranges[|ranges| - 1].end == total)
  }

  predicate In(x: nat, r: Range) {
    r.begin <= x < r.end
  }

  lemma {:induction false} TilesOrdered(ranges: seq<Range>, total: nat, i: nat, j: nat)
    requires Tiles(ranges, total) && i < j < |ranges|
    ensures ranges[i].end <= ranges[j].begin
    decreases j
  {
    if i < j - 1 {
      TilesOrdered(ranges, total, i, j - 1);
    }
  }

  lemma {:induction false} TilesFind(ranges: seq<Range>, total: nat, x: nat, k: nat) returns (i: nat)
    requires Tiles(ranges, total) && 0 < k <= |ranges| && x < ranges[k - 1].end
    ensures i < k && In(x, ranges[i])
    decreases k
  {
    if ranges[k - 1].begin <= x {
      i := k - 1;
    } else {
      i := TilesFind(ranges, total, x, k - 1);
    }
  }

  /** Everything below the total lies in exactly one range, and nothing else lies in any. */
  lemma {:induction false} TilesOnce(ranges: seq<Range>, total: nat, x: nat)
    requires Tiles(ranges, total)
    ensures x < total <==> exists i :: 0 <= i < |ranges| && In(x, ranges[i])
    ensures forall i, j | 0 <= i < |ranges| && 0 <= j < |ranges| && In(x, ranges[i]) && In(x, ranges[j]) :: i == j
  {
    if x < total {
      var i := TilesFind(ranges, total, x, |ranges|);
    }
    forall i, j | 0 <= i < j < |ranges| && In(x, ranges[i]) ensures !In(x, ranges[j]) {
      TilesOrdered(ranges, total, i, j);
    }
    if i :| 0 <= i < |ranges| && In(x, ranges[i]) {
      if i < |ranges| - 1 {
        TilesOrdered(ranges, total, i, |ranges| - 1);
      }
    }
  }

  /** Where share t begins when shares have `each` elements. */
  function Start(t: nat, each: nat): nat {
    t * each
  }

  lemma StartSteps(t: nat, each: nat)
    ensures Start(0, each) == 0 && Start(t + 1, each) == Start(t, each) + each
  {
  }

  lemma StartAligned(t: nat, blocks: nat)
    ensures Start(t, blocks * 64) % 64 == 0
  {
    assert t * (blocks * 64) == (t * blocks) * 64;
  }

  /** Share t of `total` elements: `each` of them, but no more than are left, and all that is left for the last. */
  function EqualShare(total: nat, each: nat, parts: nat, t: nat): Range {
    Range(Start(t, each), if Start(t, each) + each > total || t + 1 == parts then total else Start(t, each) + each)
  }

  /** Shares taken until nothing is left, or until the last, tile the total. */
  lemma {:induction false} SharesTile(total: nat, each: nat, parts: nat, ranges: seq<Range>)
    requires 0 < |ranges| <= parts && (|ranges| == parts || Start(|ranges|, each) >= total)
    requires forall i | 0 <= i < |ranges| :: ranges[i] == EqualShare(total, each, parts, i) && Start(i, each) <= total
    ensures Tiles(ranges, total)
  {
    hide Start;
    forall i | 0 < i < |ranges| ensures ranges[i - 1].end == ranges[i].begin {
      StartSteps(i - 1, each);
    }
    StartSteps(|ranges| - 1, each);
  }

  /** Whole blocks per thread, at least one. */
  function BlocksEach(total: nat, workers: nat): (blocks: nat)
    requires workers > 0
    ensures blocks > 0
  {
    if Each(total, workers) / 64 == 0 then 1 else Each(total, workers) / 64
  }

  /** A worker's rows are the most whole blocks that all workers can have alike, or one block when that is none. */
  lemma {:induction false} BlocksMost(total: nat, workers: nat)
    requires workers > 0
    ensures var each := BlocksEach(total, workers) * 64;
            if total < Start(workers, 64) then each == 64
            else Start(workers, each) <= total < Start(workers, each + 64)
  {
    hide Start, Each;
    var rows := Each(total, workers);
    var whole := rows / 64 * 64;
    EachMost(total, workers);
    StartGrows(workers, 64, rows);
    StartGrows(workers, rows + 1, 64);
    StartGrows(workers, whole, rows);
    StartGrows(workers, rows + 1, whole + 64);
  }

  lemma StartGrows(t: nat, each: nat, more: nat)
    ensures each <= more ==> Start(t, each) <= Start(t, more)
  {
    if each <= more {
      assert t * more == t * each + t * (more - each);
    }
  }

  /**
   Splits rows among at most `threads` workers, one worker if the number is not positive. No range is
   empty and every range starts on a block boundary.
   */
  method SplitRows(total: nat, threads: int) returns (ranges: seq<Range>)
    ensures Tiles(ranges, total) && |ranges| <= if threads <= 0 then 1 else threads
    ensures forall i | 0 <= i < |ranges| :: ranges[i].begin < ranges[i].end <= total && ranges[i].begin % 64 == 0
    ensures forall i | 0 <= i < |ranges| ::
              ranges[i].begin == Start(i, BlocksEach(total, if threads <= 0 then 1 else threads) * 64)
  {
    hide Start, BlocksEach, Tiles;
    var workers := if threads <= 0 then 1 else threads;
    ranges := [];
    if total == 0 {
      NothingTiles();
      return;
    }
    var blocks := BlocksEach(total, workers);
    var each := blocks * 64;
    var t := 0;
    StartSteps(0, each);
    while t < workers
      invariant t == |ranges| <= workers && (t == 0 ==> Start(t, each) < total)
      invariant forall i | 0 <= i < t :: ranges[i] == EqualShare(total, each, workers, i) && Start(i, each) < total
      invariant forall i | 0 <= i < t :: ranges[i].begin % 64 == 0
    {
      var start := Start(t, each);
      StartAligned(t, blocks);
      var end := start + each;
      if end > total || t == workers - 1 {
        end := total;
      }
      if start >= total {
        break;
      }
      ranges := ranges + [Range(start, end)];
      t := t + 1;
    }
    SharesTile(total, each, workers, ranges);
  }

  lemma NothingTiles()
    ensures Tiles([], 0)
  {
  }

  /** Splits blocks into equal runs, the last thread taking the rest. */
  method SplitEven(blocks: nat, threads: nat) returns (ranges: seq<Range>)
    requires threads > 0
    ensures |ranges| == threads && Tiles(ranges, blocks)
    ensures forall i | 0 <= i < threads :: ranges[i].begin == Start(i, Each(blocks, threads))
  {
    hide Start, Each, Tiles;
    ranges := [];
    var each := Each(blocks, threads);
    EachMost(blocks, threads);
    for t := 0 to threads
      invariant |ranges| == t
      invariant forall i | 0 <= i < t :: ranges[i] == EqualShare(blocks, each, threads, i) && Start(i, each) <= blocks
    {
      var start := Start(t, each);
      StartSteps(t, each);
      StartMonotone(t, threads, each);
      StartMonotone(t + 1, threads, each);
      var end := if t == threads - 1 then blocks else start + each;
      ranges := ranges + [Range(start, end)];
    }
    SharesTile(blocks, each, threads, ranges);
  }

  function Each(n: nat, parts: nat): nat
    requires parts > 0
  {
    n / parts
  }

  /** A share is the most that all parts can have alike. */
  lemma EachMost(n: nat, parts: nat)
    requires parts > 0
    ensures Start(parts, Each(n, parts)) <= n < Start(parts, Each(n, parts) + 1)
  {
    assert n == parts * (n / parts) + n % parts;
  }

  lemma StartMonotone(t: nat, u: nat, each: nat)
    requires t <= u
    ensures Start(t, each) <= Start(u, each)
  {
    assert u * each == t * each + (u - t) * each;
  }

  /** Where part w ends when n is cut into `parts` parts. */
  function Cut(n: nat, parts: nat, w: nat): nat
    requires parts > 0
  {
    (n * w) / parts
  }

  /** Splits blocks proportionally. */
  method SplitProportional(blocks: nat, workers: nat) returns (ranges: seq<Range>)
    requires workers > 0
    ensures |ranges| == workers && Tiles(ranges, blocks)
    ensures forall i | 0 <= i < workers :: 0 <= ranges[i].end - ranges[i].begin - Each(blocks, workers) <= 1
  {
    hide Cut, Each, Tiles;
    ranges := [];
    for w := 0 to workers
      invariant |ranges| == w
      invariant forall i | 0 <= i < w :: ranges[i] == Slice(blocks, workers, i)
      invariant forall i | 0 <= i < w :: 0 <= ranges[i].end - ranges[i].begin - Each(blocks, workers) <= 1
    {
      CutGrows(blocks, workers, w);
      ranges := ranges + [Range(Cut(blocks, workers, w), Cut(blocks, workers, w + 1))];
    }
    PartsTile(blocks, workers, ranges);
  }

  function Slice(n: nat, parts: nat, w: nat): Range
    requires parts > 0
  {
    Range(Cut(n, parts, w), Cut(n, parts, w + 1))
  }

  lemma {:induction false} PartsTile(n: nat, parts: nat, ranges: seq<Range>)
    requires parts > 0 && |ranges| == parts && forall i | 0 <= i < parts :: ranges[i] == Slice(n, parts, i)
    ensures Tiles(ranges, n)
  {
    hide Cut, Each;
    CutEnds(n, parts);
    forall i | 0 <= i < parts ensures ranges[i].begin <= ranges[i].end {
      CutGrows(n, parts, i);
    }
  }

  lemma CutEnds(n: nat, parts: nat)
    requires parts > 0
    ensures Cut(n, parts, 0) == 0 && Cut(n, parts, parts) == n
  {
    ModOf(0, n, parts);
    var d := (n * parts) / parts - n;
    assert parts * d == 0 by {
      assert n * parts == parts * ((n * parts) / parts) + (n * parts) % parts;
    }
    MulMagnitude(parts, d);
    assert n * 0 == 0;
  }

  /** Each part has the floor of the average, or one more. */
  lemma CutGrows(n: nat, parts: nat, w: nat)
    requires parts > 0
    ensures 0 <= Cut(n, parts, w + 1) - Cut(n, parts, w) - Each(n, parts) <= 1
  {
    assert n * (w + 1) == n * w + n;
    DivideSum(n * w, n, parts);
  }

  lemma DivideSum(a: nat, d: nat, m: nat)
    requires m > 0
    ensures 0 <= (a + d) / m - a / m - d / m <= 1
  {
    var q := (a + d) / m - a / m - d / m;
    assert m * q == a % m + d % m - (a + d) % m by {
      assert a == m * (a / m) + a % m;
      assert d == m * (d / m) + d % m;
      assert a + d == m * ((a + d) / m) + (a + d) % m;
      assert m * q == m * ((a + d) / m) - m * (a / m) - m * (d / m);
    }
    MulMagnitude(m, q);
    MulMagnitude(m, q - 1);
  }
}
