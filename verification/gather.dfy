/**
 Filling the column buffers of a block: row-major cells are copied into one buffer per field and
 each buffer is bit-sliced in place, unless the kernel works on raw columns.
 */
module Gather {
  import opened Words
  import opened Transpose
  import opened Engine

  /** Buffers of 64 words that do not overlap. */
  ghost predicate Columns(buffers: seq<array<Word>>) {
    && (forall v | 0 <= v < |buffers| :: buffers[v].Length == 64)
    && forall v, w | 0 <= v < w < |buffers| :: buffers[v] != buffers[w]
  }

  /** Every row has a cell at every offset. */
  ghost predicate Fits(offsets: seq<nat>, rows: seq<Cells>) {
    forall v, i | 0 <= v < |offsets| && 0 <= i < |rows| :: offsets[v] < |rows[i]|
  }

  /** The first five fields are the first five cells of a row. */
  predicate Consecutive(offsets: seq<nat>) {
    |offsets| >= 5 && forall v | 0 <= v < 5 :: offsets[v] == v
  }

  /** Gathers one field four rows at a time and clears the rest of the buffer. */
  method GatherField(rows: seq<Cells>, start: nat, count: nat, offset: nat, out: array<Word>)
    requires out.Length == 64
    requires start + (if count < 64 then count else 64) <= |rows|
    requires forall i | 0 <= i < |rows| :: offset < |rows[i]|
    modifies out
    ensures forall i | 0 <= i < 64 :: out[i] == if i < count then rows[start + i][offset] else Zero()
  {
    var n := if count < 64 then count else 64;
    var i := 0;
    while i + 4 <= n
      invariant i <= n && forall j | 0 <= j < i :: out[j] == rows[start + j][offset]
    {
      var v0, v1, v2, v3 :=
        rows[start + i][offset], rows[start + i + 1][offset], rows[start + i + 2][offset], rows[start + i + 3][offset];
      out[i], out[i + 1], out[i + 2], out[i + 3] := v0, v1, v2, v3;
      i := i + 4;
    }
    while i < n
      invariant i <= n && forall j | 0 <= j < i :: out[j] == rows[start + j][offset]
    {
      out[i] := rows[start + i][offset];
      i := i + 1;
    }
    while i < 64
      invariant n <= i <= 64
      invariant forall j | 0 <= j < i :: out[j] == if j < n then rows[start + j][offset] else Zero()
    {
      out[i] := Zero();
      i := i + 1;
    }
  }

  /** What five-field gathering leaves in a buffer: lanes from n up keep what they held. */
  ghost predicate Refilled(rows: seq<Cells>, start: nat, n: nat, offset: nat, before: seq<Word>, after: seq<Word>)
    requires start + n <= |rows|
  {
    && |before| == |after| == 64 && n <= 64
    && forall r | 0 <= r < 64 ::
         if r < n then offset < |rows[start + r]| && after[r] == rows[start + r][offset] else after[r] == before[r]
  }

  /** Gathers the first five cells of every row; lanes from n up are not touched. */
  method GatherFive(rows: seq<Cells>, start: nat, n: nat, b0: array<Word>, b1: array<Word>, b2: array<Word>,
                    b3: array<Word>, b4: array<Word>)
    requires b0.Length == b1.Length == b2.Length == b3.Length == b4.Length == 64
    requires b0 != b1 && b0 != b2 && b0 != b3 && b0 != b4 && b1 != b2 && b1 != b3 && b1 != b4
    requires b2 != b3 && b2 != b4 && b3 != b4
    requires n <= 64 && start + n <= |rows| && forall i | 0 <= i < |rows| :: 5 <= |rows[i]|
    modifies b0, b1, b2, b3, b4
    ensures Refilled(rows, start, n, 0, old(b0[..]), b0[..]) && Refilled(rows, start, n, 1, old(b1[..]), b1[..])
    ensures Refilled(rows, start, n, 2, old(b2[..]), b2[..]) && Refilled(rows, start, n, 3, old(b3[..]), b3[..])
    ensures Refilled(rows, start, n, 4, old(b4[..]), b4[..])
  {
    for r := 0 to n
      invariant forall j | 0 <= j < 64 :: b0[j] == if j < r then rows[start + j][0] else old(b0[j])
      invariant forall j | 0 <= j < 64 :: b1[j] == if j < r then rows[start + j][1] else old(b1[j])
      invariant forall j | 0 <= j < 64 :: b2[j] == if j < r then rows[start + j][2] else old(b2[j])
      invariant forall j | 0 <= j < 64 :: b3[j] == if j < r then rows[start + j][3] else old(b3[j])
      invariant forall j | 0 <= j < 64 :: b4[j] == if j < r then rows[start + j][4] else old(b4[j])
    {
      var row := rows[start + r];
      b0[r], b1[r], b2[r], b3[r], b4[r] := row[0], row[1], row[2], row[3], row[4];
    }
  }

  /** The first n lanes of a column hold a field of rows start.. . */
  ghost predicate Holding(rows: seq<Cells>, start: nat, n: nat, offset: nat, col: Block)
    requires n <= 64 && start + n <= |rows|
  {
    forall r | 0 <= r < n :: offset < |rows[start + r]| && col[r] == rows[start + r][offset]
  }

  /** What the kernel is given for a column: its planes, or for the scalar kernel the column itself. */
  function Prepared(col: Block, sliced: bool): Block {
    if sliced then Sliced(col, 64) else col
  }

  /** The first |cols| buffers hold those columns, prepared. */
  ghost predicate Filled(buffers: seq<array<Word>>, cols: seq<Block>, sliced: bool)
    requires Columns(buffers) && |cols| <= |buffers|
    reads buffers
  {
    forall v | 0 <= v < |cols| :: buffers[v][..] == Prepared(cols[v], sliced)
  }

  lemma FilledMore(buffers: seq<array<Word>>, cols: seq<Block>, col: Block, sliced: bool)
    requires Columns(buffers) && |cols| < |buffers| && Filled(buffers, cols, sliced)
    requires buffers[|cols|][..] == Prepared(col, sliced)
    ensures Filled(buffers, cols + [col], sliced)
  {
    hide Prepared;
  }

  /** Slices a buffer in place, unless the kernel works on raw columns. */
  method Prepare(buffer: array<Word>, sliced: bool)
    requires buffer.Length == 64
    modifies buffer
    ensures buffer[..] == Prepared(old(buffer[..]), sliced)
  {
    hide Sliced;
    if sliced {
      SliceN(buffer, buffer, 64);
    }
  }

  /** Prepares the first five buffers. */
  method PrepareFive(buffers: seq<array<Word>>, ghost cols: seq<Block>, sliced: bool)
    requires Columns(buffers) && |cols| == 5 <= |buffers|
    requires forall v | 0 <= v < 5 :: buffers[v][..] == cols[v]
    modifies buffers
    ensures Filled(buffers, cols, sliced)
  {
    hide Prepared;
    for k := 0 to 5
      invariant Filled(buffers, cols[..k], sliced)
      invariant forall v | k <= v < 5 :: buffers[v][..] == cols[v]
    {
      Prepare(buffers[k], sliced);
      assert cols[..k + 1] == cols[..k] + [cols[k]];
      FilledMore(buffers, cols[..k], cols[k], sliced);
    }
    assert cols[..5] == cols;
  }

  /** Gathers one field row by row and clears the rest of the buffer. */
  method GatherPlain(rows: seq<Cells>, start: nat, n: nat, offset: nat, out: array<Word>)
    requires out.Length == 64 && n <= 64 && start + n <= |rows|
    requires forall i | 0 <= i < |rows| :: offset < |rows[i]|
    modifies out
    ensures forall i | 0 <= i < 64 :: out[i] == if i < n then rows[start + i][offset] else Zero()
  {
    for r := 0 to n
      invariant forall j | 0 <= j < r :: out[j] == rows[start + j][offset]
    {
      out[r] := rows[start + r][offset];
    }
    for r := n to 64
      invariant forall j | 0 <= j < r :: out[j] == if j < n then rows[start + j][offset] else Zero()
    {
      out[r] := Zero();
    }
  }

  /** Gathers and prepares one field after another, from field `begin` on. */
  method GatherRest(rows: seq<Cells>, start: nat, n: nat, offsets: seq<nat>, buffers: seq<array<Word>>,
                    unrolled: bool, sliced: bool, begin: nat, ghost first: seq<Block>)
    returns (ghost cols: seq<Block>)
    requires Columns(buffers) && Fits(offsets, rows) && n <= 64 && start + n <= |rows|
    requires begin == |first| <= |offsets| <= |buffers| && Filled(buffers, first, sliced)
    requires forall v | 0 <= v < |first| :: Holding(rows, start, n, offsets[v], first[v])
    modifies buffers
    ensures |cols| == |offsets| && first <= cols && Filled(buffers, cols, sliced)
    ensures forall v | 0 <= v < |cols| :: Holding(rows, start, n, offsets[v], cols[v])
    ensures forall v, r | begin <= v < |cols| && n <= r < 64 :: cols[v][r] == Zero()
  {
    hide Prepared, Zero, Holding;
    cols := first;
    for v := begin to |offsets|
      invariant |cols| == v && first <= cols && Filled(buffers, cols, sliced)
      invariant forall w | 0 <= w < v :: Holding(rows, start, n, offsets[w], cols[w])
      invariant forall w, r | begin <= w < v && n <= r < 64 :: cols[w][r] == Zero()
    {
      if unrolled {
        GatherField(rows, start, n, offsets[v], buffers[v]);
      } else {
        GatherPlain(rows, start, n, offsets[v], buffers[v]);
      }
      ghost var col := buffers[v][..];
      GatheredHolds(rows, start, n, offsets[v], col);
      Prepare(buffers[v], sliced);
      FilledMore(buffers, cols, col, sliced);
      cols := cols + [col];
    }
  }

  lemma GatheredHolds(rows: seq<Cells>, start: nat, n: nat, offset: nat, col: Block)
    requires n <= 64 && start + n <= |rows| && forall i | 0 <= i < |rows| :: offset < |rows[i]|
    requires forall i | 0 <= i < n :: col[i] == rows[start + i][offset]
    ensures Holding(rows, start, n, offset, col)
  {
  }

  /** Clears the lanes from n up of the first five buffers. */
  method PadFive(n: nat, buffers: seq<array<Word>>)
    requires Columns(buffers) && 5 <= |buffers| && n <= 64
    modifies buffers
    ensures forall v, r | 0 <= v < 5 && 0 <= r < 64 :: buffers[v][r] == if r < n then old(buffers[v][r]) else Zero()
  {
    hide Zero;
    for r := n to 64
      invariant forall v, j | 0 <= v < 5 && 0 <= j < 64 :: buffers[v][j] == if n <= j < r then Zero() else old(buffers[v][j])
    {
      for f := 0 to 5
        invariant forall v, j | 0 <= v < 5 && 0 <= j < 64 ::
                    buffers[v][j] == if n <= j < r || (j == r && v < f) then Zero() else old(buffers[v][j])
      {
        buffers[f][r] := Zero();
      }
    }
  }

  /** Gathers and prepares the five leading fields. */
  method GatherLeading(rows: seq<Cells>, start: nat, n: nat, buffers: seq<array<Word>>, worker: bool, sliced: bool)
    returns (ghost cols: seq<Block>)
    requires Columns(buffers) && 5 <= |buffers| && n <= 64 && start + n <= |rows|
    requires forall i | 0 <= i < |rows| :: 5 <= |rows[i]|
    modifies buffers
    ensures |cols| == 5 && Filled(buffers, cols, sliced)
    ensures forall v | 0 <= v < 5 :: Holding(rows, start, n, v, cols[v])
    ensures forall v, r | 0 <= v < 5 && n <= r < 64 :: cols[v][r] == if worker then Zero() else old(buffers[v][r])
  {
    hide Prepared, Zero;
    GatherFive(rows, start, n, buffers[0], buffers[1], buffers[2], buffers[3], buffers[4]);
    assert forall v, r | 0 <= v < 5 && 0 <= r < 64 ::
        buffers[v][r] == buffers[v][..][r] && old(buffers[v][r]) == old(buffers[v][..])[r];
    assert forall v | 0 <= v < 5 :: Refilled(rows, start, n, v, old(buffers[v][..]), buffers[v][..]);
    if worker {
      PadFive(n, buffers);
    }
    cols := [buffers[0][..], buffers[1][..], buffers[2][..], buffers[3][..], buffers[4][..]];
    PrepareFive(buffers, cols, sliced);
  }

  lemma ConsecutiveMeans(offsets: seq<nat>)
    ensures Consecutive(offsets) <==> |offsets| >= 5 && offsets[..5] == [0, 1, 2, 3, 4]
  {
    if |offsets| >= 5 {
      assert forall v | 0 <= v < 5 :: offsets[v] == offsets[..5][v];
    }
  }

  lemma FiveCells(offsets: seq<nat>, rows: seq<Cells>)
    requires Consecutive(offsets) && Fits(offsets, rows)
    ensures forall i | 0 <= i < |rows| :: 5 <= |rows[i]|
  {
    assert offsets[4] == 4;
  }

  /**
   Gathers and prepares every field of a block of n rows. Lanes from n up are zero, except that a serial
   run leaves old data there in the five leading fields.
   */
  method GatherBlock(rows: seq<Cells>, start: nat, n: nat, offsets: seq<nat>, buffers: seq<array<Word>>,
                     worker: bool, sliced: bool) returns (planes: seq<Block>, ghost cols: seq<Block>)
    requires Columns(buffers) && Fits(offsets, rows) && n <= 64 && start + n <= |rows| && |offsets| <= |buffers|
    modifies buffers
    ensures |cols| == |offsets| && planes == if sliced then Planes(cols) else cols
    ensures forall v | 0 <= v < |cols| :: Holding(rows, start, n, offsets[v], cols[v])
    ensures forall v, r | 0 <= v < |cols| && n <= r < 64 ::
              cols[v][r] == if |offsets| >= 5 && offsets[..5] == [0, 1, 2, 3, 4] && v < 5 && !worker
                            then old(buffers[v][r]) else Zero()
  {
    hide Sliced, Zero, Holding;
    ConsecutiveMeans(offsets);
    ghost var first := [];
    var begin := 0;
    if Consecutive(offsets) {
      FiveCells(offsets, rows);
      first := GatherLeading(rows, start, n, buffers, worker, sliced);
      begin := 5;
    }
    cols := GatherRest(rows, start, n, offsets, buffers, !worker, sliced, begin, first);
    assert forall v | 0 <= v < |first| :: cols[v] == first[v];
    planes := ReadPlanes(buffers, |offsets|);
    assert planes == if sliced then Planes(cols) else cols;
  }

  method ReadPlanes(buffers: seq<array<Word>>, k: nat) returns (planes: seq<Block>)
    requires Columns(buffers) && k <= |buffers|
    ensures |planes| == k && forall v | 0 <= v < k :: planes[v] == buffers[v][..]
  {
    planes := [];
    for v := 0 to k
      invariant |planes| == v && forall w | 0 <= w < v :: planes[w] == buffers[w][..]
    {
      planes := planes + [buffers[v][..]];
    }
  }
}
