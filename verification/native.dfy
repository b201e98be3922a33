/**
 Running installed logic over planes that the caller sliced beforehand, by one thread or several, and
 evaluating it row by row.
 */
module Native {
  import opened Words
  import opened Ir
  import opened Machine
  import opened Correctness
  import opened Compiler
  import opened Transpose
  import opened Sums
  import opened Engine
  import opened Gather
  import opened Partition
  import opened Drivers

  /** Where the planes of a field of a block begin. */
  function PlaneAt(block: nat, field: nat, fields: nat): nat {
    block * fields * 64 + field * 64
  }

  /** Field `offset` of 64 rows. */
  function ColumnOf(rows: seq<Cells>, start: nat, offset: nat): Block
    requires start + 64 <= |rows| && forall i | 0 <= i < |rows| :: offset < |rows[i]|
  {
    seq(64, r requires 0 <= r < 64 => rows[start + r][offset])
  }

  /** Whole blocks of rows, each holding every field of the schema, listed in some order. */
  ghost predicate Packable(fields: seq<string>, schema: Schema, rows: seq<Cells>, blocks: nat) {
    && |rows| == blocks * 64
    && (forall name <- schema :: name in fields)
    && (forall f | 0 <= f < |fields| :: fields[f] in schema)
    && forall f, i | 0 <= f < |fields| && 0 <= i < |rows| :: schema[fields[f]] < |rows[i]|
  }

  /** The sliced columns of the first k fields of a block, one after another. */
  ghost function BlockWords(fields: seq<string>, schema: Schema, rows: seq<Cells>, blocks: nat, b: nat, k: nat): (w: seq<Word>)
    requires Packable(fields, schema, rows, blocks) && b < blocks && k <= |fields|
    ensures |w| == k * 64
  {
    if k == 0 then [] else
      BlockWords(fields, schema, rows, blocks, b, k - 1) + Sliced(ColumnOf(rows, b * 64, schema[fields[k - 1]]), 64)
  }

  /** The first k blocks, one after another. */
  ghost function PackedWords(fields: seq<string>, schema: Schema, rows: seq<Cells>, blocks: nat, k: nat): (w: seq<Word>)
    requires Packable(fields, schema, rows, blocks) && k <= blocks
    ensures |w| == k * |fields| * 64
  {
    if k == 0 then [] else
      PackedWords(fields, schema, rows, blocks, k - 1) + BlockWords(fields, schema, rows, blocks, k - 1, |fields|)
  }

  /** The planes begin with whole blocks of rows, block by block and field by field. */
  ghost predicate Packed(planes: seq<Word>, fields: seq<string>, schema: Schema, rows: seq<Cells>, blocks: nat) {
    Packable(fields, schema, rows, blocks) && PackedWords(fields, schema, rows, blocks, blocks) <= planes
  }

  lemma {:induction false} WordsOfField(fields: seq<string>, schema: Schema, rows: seq<Cells>, blocks: nat, b: nat, k: nat, f: nat)
    requires Packable(fields, schema, rows, blocks) && b < blocks && f < k <= |fields|
    ensures BlockWords(fields, schema, rows, blocks, b, k)[f * 64..f * 64 + 64]
         == Sliced(ColumnOf(rows, b * 64, schema[fields[f]]), 64)
    decreases k
  {
    hide Sliced, ColumnOf;
    var before := BlockWords(fields, schema, rows, blocks, b, k - 1);
    var last := Sliced(ColumnOf(rows, b * 64, schema[fields[k - 1]]), 64);
    Appended(before, last, f * 64, 64);
    if f < k - 1 {
      WordsOfField(fields, schema, rows, blocks, b, k - 1, f);
    }
  }

  lemma Appended<T>(before: seq<T>, last: seq<T>, i: nat, n: nat)
    ensures i + n <= |before| ==> (before + last)[i..i + n] == before[i..i + n]
    ensures i == |before| && n == |last| ==> (before + last)[i..i + n] == last
  {
  }

  lemma {:induction false} WordsOfBlock(fields: seq<string>, schema: Schema, rows: seq<Cells>, blocks: nat, k: nat, b: nat)
    requires Packable(fields, schema, rows, blocks) && b < k <= blocks
    ensures var at := b * |fields| * 64;
            && at + |fields| * 64 <= k * |fields| * 64
            && PackedWords(fields, schema, rows, blocks, k)[at..at + |fields| * 64]
               == BlockWords(fields, schema, rows, blocks, b, |fields|)
    decreases k
  {
    hide BlockWords, Packable;
    var before := PackedWords(fields, schema, rows, blocks, k - 1);
    var last := BlockWords(fields, schema, rows, blocks, k - 1, |fields|);
    Appended(before, last, b * |fields| * 64, |fields| * 64);
    if b < k - 1 {
      WordsOfBlock(fields, schema, rows, blocks, k - 1, b);
    }
  }

  /** Where the planes of a field of a block are found. */
  lemma {:induction false} FieldFound(planes: seq<Word>, fields: seq<string>, schema: Schema, rows: seq<Cells>, blocks: nat,
                                      b: nat, f: nat)
    requires Packed(planes, fields, schema, rows, blocks) && b < blocks && f < |fields|
    ensures PlaneAt(b, f, |fields|) + 64 <= |planes|
    ensures planes[PlaneAt(b, f, |fields|)..PlaneAt(b, f, |fields|) + 64] == Sliced(ColumnOf(rows, b * 64, schema[fields[f]]), 64)
  {
    hide BlockWords, PackedWords, Packable, Sliced, ColumnOf;
    WordsOfBlock(fields, schema, rows, blocks, blocks, b);
    WordsOfField(fields, schema, rows, blocks, b, |fields|, f);
    var all, at := PackedWords(fields, schema, rows, blocks, blocks), b * |fields| * 64;
    SliceOfSlice(planes, all, at, |fields| * 64, f * 64);
  }

  lemma SliceOfSlice<T>(planes: seq<T>, all: seq<T>, at: nat, n: nat, i: nat)
    requires all <= planes && at + n <= |all| && i + 64 <= n
    ensures planes[at + i..at + i + 64] == all[at..at + n][i..i + 64]
  {
    var p, q := planes[at + i..at + i + 64], all[at..at + n][i..i + 64];
    forall k | 0 <= k < 64 ensures p[k] == q[k] {
      assert planes[at + i + k] == all[at + i + k];
    }
  }

  /** Position of every field of the logic among the schema's fields, by name. */
  method MapFields(names: seq<string>, fields: seq<string>) returns (index: seq<nat>)
    ensures |index| == |names|
    ensures forall i | 0 <= i < |names| && names[i] in fields :: index[i] < |fields| && fields[index[i]] == names[i]
  {
    index := [];
    for i := 0 to |names|
      invariant |index| == i
      invariant forall j | 0 <= j < i && names[j] in fields :: index[j] < |fields| && fields[index[j]] == names[j]
    {
      var found := 0;
      for f := 0 to |fields|
        invariant names[i] !in fields[..f]
      {
        if fields[f] == names[i] {
          found := f;
          break;
        }
        assert fields[..f + 1] == fields[..f] + [fields[f]];
      }
      assert fields[..|fields|] == fields;
      index := index + [found];
    }
  }

  lemma FullMask(w: Word)
    ensures BitAnd(w, RowsMask(64)) == w
  {
  }

  /** Aggregates a whole block without masking rows, the weights sixteen at a time. */
  method AggregateFull(lg: Logic, result: Word, mem: seq<Word>) returns (sum: nat)
    requires MasksInside(lg, mem)
    ensures Same(sum, Aggregate(lg, result, mem, 64))
  {
    hide Same, Total, Pop, Pow2, RowsMask, BitAnd;
    match lg.kind
    case MaskCount =>
      FullMask(result);
      sum := Pop(result);
      SameRefl(sum);
    case WeightedCount =>
      sum := WeighFull(lg, mem);
    case PlaneSum =>
      sum := 0;
      ghost var f := (i: nat) => PlaneCount(mem, 64, i);
      TotalNone(f);
      SameRefl(0);
      for i := 0 to 64
        invariant Same(sum, Total(i, f))
      {
        var pop := Pop(mem[i]);
        FullMask(mem[i]);
        PlaneAdded(mem, 64, i, pop, sum, f);
        sum := Wrap(sum + pop * Pow2(i));
      }
      SumEqual(64, f, (i: nat) => PlaneCount(mem, 64, i));
  }

  method WeighFull(lg: Logic, mem: seq<Word>) returns (sum: nat)
    requires MasksInside(lg, mem) && lg.kind.WeightedCount?
    ensures forall result: Word :: Same(sum, Aggregate(lg, result, mem, 64))
  {
    hide Same, Wrap, Total, Pop, Pow2, RowsMask, BitAnd;
    ghost var f := (k: nat) => if MasksInside(lg, mem) then Weighed(lg, mem, 64, k) else 0;
    sum := Wrap(lg.base * 64);
    TotalNone(f);
    WrapSame(lg.base * 64);
    var i := 0;
    while i + 16 <= |lg.weights|
      invariant i <= |lg.weights| && Same(sum, lg.base * 64 + Total(i, f))
      decreases |lg.weights| - i
    {
      for j := 0 to 16
        invariant Same(sum, lg.base * 64 + Total(i + j, f))
      {
        var pop := Pop(mem[lg.masks[i + j]]);
        FullMask(mem[lg.masks[i + j]]);
        MaskAdded(lg, mem, 64, i + j, pop, sum, f);
        sum := Wrap(sum + pop * lg.weights[i + j]);
      }
      i := i + 16;
    }
    while i < |lg.weights|
      invariant i <= |lg.weights| && Same(sum, lg.base * 64 + Total(i, f))
    {
      var pop := Pop(mem[lg.masks[i]]);
      FullMask(mem[lg.masks[i]]);
      MaskAdded(lg, mem, 64, i, pop, sum, f);
      sum := Wrap(sum + pop * lg.weights[i]);
      i := i + 1;
    }
    SumEqual(|lg.weights|, f, (k: nat) => Weighed(lg, mem, 64, k));
  }

  /** Every field of the logic was found, at the planes of its name. */
  ghost predicate Mapped(lg: Logic, fields: seq<string>, schema: Schema, index: seq<nat>) {
    && |index| == |lg.offsets| == |lg.kernel.names|
    && forall i | 0 <= i < |index| ::
         index[i] < |fields| && fields[index[i]] in schema && schema[fields[index[i]]] == lg.offsets[i]
  }

  /** The kernel's view of a block of packed planes. */
  method BlockPlanes(lg: Logic, planes: seq<Word>, fields: seq<string>, index: seq<nat>, b: nat,
                     ghost schema: Schema, ghost rows: seq<Cells>, ghost blocks: nat) returns (view: seq<Block>,
                     ghost cols: seq<Block>)
    requires Packed(planes, fields, schema, rows, blocks) && Mapped(lg, fields, schema, index) && b < blocks
    ensures |cols| == |lg.offsets| && view == Planes(cols) && Gathered(lg.offsets, rows, b * 64, 64, cols)
  {
    hide Sliced, PlaneAt, Holding;
    view, cols := [], [];
    for i := 0 to |index|
      invariant |view| == |cols| == i
      invariant forall j | 0 <= j < i :: view[j] == Sliced(cols[j], 64)
      invariant forall j | 0 <= j < i :: Holding(rows, b * 64, 64, lg.offsets[j], cols[j])
    {
      var at := PlaneAt(b, index[i], |fields|);
      FieldFound(planes, fields, schema, rows, blocks, b, index[i]);
      ColumnHolds(rows, b * 64, lg.offsets[i]);
      view := view + [planes[at..at + 64]];
      cols := cols + [ColumnOf(rows, b * 64, lg.offsets[i])];
    }
    assert view == Planes(cols);
    HoldingGathered(lg.offsets, rows, b * 64, 64, cols);
  }

  lemma ColumnHolds(rows: seq<Cells>, start: nat, offset: nat)
    requires start + 64 <= |rows| && forall i | 0 <= i < |rows| :: offset < |rows[i]|
    ensures Holding(rows, start, 64, offset, ColumnOf(rows, start, offset))
  {
  }

  /** Runs blocks begin..end with one scratchpad. */
  method RunBlocks(lg: Logic, planes: seq<Word>, fields: seq<string>, index: seq<nat>, begin: nat, end: nat,
                   ghost g: Graph, ghost root: nat, ghost schema: Schema, ghost rows: seq<Cells>, ghost blocks: nat)
    returns (total: nat)
    requires Installed(lg, g, root, schema) && Packed(planes, fields, schema, rows, blocks)
    requires Mapped(lg, fields, schema, index) && begin <= end <= blocks
    ensures Acyclic(g) && root < |g| && total == Wrap(Part(g, root, schema, rows, begin * 64, (end - begin) * 64))
  {
    hide Installed, Same, Ran, Part, ValueAt, Gathered, Pow2, Wrap, Acyclic, Packed, Mapped, Planes, Exec,
         RunKernel, Aggregate;
    InstalledShape(lg, g, root, schema);
    var scratch := Cleared(SCRATCH);
    total := 0;
    PartNone(g, root, schema, rows, begin * 64);
    SameRefl(0);
    PowPositive();
    for b := begin to end
      invariant total < Pow2(64) && |scratch| >= SLOTS
      invariant Same(total, Part(g, root, schema, rows, begin * 64, (b - begin) * 64))
    {
      var sum;
      sum, scratch := RunNative(lg, planes, fields, index, b, scratch, g, root, schema, rows, blocks);
      AddPart(g, root, schema, rows, begin * 64, (b - begin) * 64, 64, total, sum);
      WrapRange(total + sum);
      total := Wrap(total + sum);
    }
    SameIsWrap(total, Part(g, root, schema, rows, begin * 64, (end - begin) * 64));
  }

  method RunNative(lg: Logic, planes: seq<Word>, fields: seq<string>, index: seq<nat>, b: nat, scratch: seq<Word>,
                   ghost g: Graph, ghost root: nat, ghost schema: Schema, ghost rows: seq<Cells>, ghost blocks: nat)
    returns (sum: nat, mem: seq<Word>)
    requires Installed(lg, g, root, schema) && Packed(planes, fields, schema, rows, blocks)
    requires Mapped(lg, fields, schema, index) && b < blocks && |scratch| >= SLOTS
    ensures Acyclic(g) && root < |g| && Same(sum, Part(g, root, schema, rows, b * 64, 64)) && |mem| >= SLOTS
  {
    hide Installed, Same, Ran, ValueAt, Total, Gathered, Acyclic, Packed, Mapped, Planes, Exec, RunKernel,
         Aggregate, MasksInside;
    InstalledShape(lg, g, root, schema);
    var view, cols := BlockPlanes(lg, planes, fields, index, b, schema, rows, blocks);
    KernelRan(lg, g, root, schema, cols, scratch);
    var s := RunKernel(lg, view, scratch);
    BlockCorrect(lg, g, root, schema, rows, b * 64, 64, cols, s);
    sum := AggregateFull(lg, s.regs[Result0].w, s.mem);
    mem := s.mem;
    SameTrans(sum, Aggregate(lg, s.regs[Result0].w, s.mem, 64), Part(g, root, schema, rows, b * 64, 64));
  }

  lemma NamesMapped(lg: Logic, g: Graph, root: nat, fields: seq<string>, schema: Schema, index: seq<nat>)
    requires Installed(lg, g, root, schema) && |index| == |lg.kernel.names|
    requires forall name <- schema :: name in fields
    requires forall i | 0 <= i < |index| && lg.kernel.names[i] in fields ::
               index[i] < |fields| && fields[index[i]] == lg.kernel.names[i]
    ensures Mapped(lg, fields, schema, index)
  {
    hide KernelFor, SkipClosed, ForestData;
  }

  /** One thread over all blocks. */
  method ExecuteNative(lg: Logic, planes: seq<Word>, fields: seq<string>, blocks: nat, ghost g: Graph,
                       ghost root: nat, ghost schema: Schema, ghost rows: seq<Cells>) returns (total: nat)
    requires Installed(lg, g, root, schema) && Packed(planes, fields, schema, rows, blocks) && |lg.offsets| <= 8
    ensures Acyclic(g) && root < |g| && total == Wrap(Reference(g, root, schema, rows))
  {
    hide Installed, Part, ValueAt, Acyclic, Wrap, Mapped, PackedWords;
    InstalledShape(lg, g, root, schema);
    var index := MapFields(lg.kernel.names, fields);
    NamesMapped(lg, g, root, fields, schema, index);
    total := RunBlocks(lg, planes, fields, index, 0, blocks, g, root, schema, rows, blocks);
    WholePart(g, root, schema, rows);
  }

  /**
   Equal runs of blocks for several threads, the last one taking the rest, and their counts added up.
   A number that is not positive stands for the engine's own setting; no threads at all count nothing.
   */
  method ExecuteNativeParallel(lg: Logic, planes: seq<Word>, fields: seq<string>, blocks: nat, wanted: int,
                               setting: nat, ghost g: Graph, ghost root: nat, ghost schema: Schema,
                               ghost rows: seq<Cells>)
    returns (total: nat)
    requires Installed(lg, g, root, schema) && Packed(planes, fields, schema, rows, blocks) && |lg.offsets| <= 8
    ensures Acyclic(g) && root < |g|
    ensures total == if wanted <= 0 && setting == 0 then 0 else Wrap(Reference(g, root, schema, rows))
  {
    hide Installed, Part, ValueAt, Acyclic, Wrap, Mapped, PackedWords, Same, Pow2;
    InstalledShape(lg, g, root, schema);
    var threads := if wanted <= 0 then setting else wanted;
    if threads == 0 {
      return 0;
    }
    var index := MapFields(lg.kernel.names, fields);
    NamesMapped(lg, g, root, fields, schema, index);
    var ranges := SplitEven(blocks, threads);
    var results := [];
    for t := 0 to threads
      invariant |results| == t
      invariant forall i | 0 <= i < t ::
                  results[i] == Wrap(Part(g, root, schema, rows, ranges[i].begin * 64, (ranges[i].end - ranges[i].begin) * 64))
    {
      TilesEnd(ranges, blocks, t);
      var count := RunBlocks(lg, planes, fields, index, ranges[t].begin, ranges[t].end, g, root, schema, rows, blocks);
      results := results + [count];
    }
    total := 0;
    PowPositive();
    PartNone(g, root, schema, rows, 0);
    SameRefl(0);
    for t := 0 to threads
      invariant total < Pow2(64)
      invariant Same(total, Part(g, root, schema, rows, 0, if t == 0 then 0 else ranges[t - 1].end * 64))
    {
      ghost var begin, n := ranges[t].begin * 64, (ranges[t].end - ranges[t].begin) * 64;
      WrapSame(Part(g, root, schema, rows, begin, n));
      AddPart(g, root, schema, rows, 0, begin, n, total, results[t]);
      WrapRange(total + results[t]);
      total := Wrap(total + results[t]);
    }
    WholePart(g, root, schema, rows);
    SameIsWrap(total, Reference(g, root, schema, rows));
  }

  lemma {:induction false} TilesEnd(ranges: seq<Range>, total: nat, i: nat)
    requires Tiles(ranges, total) && i < |ranges|
    ensures ranges[i].end <= total
  {
    if i < |ranges| - 1 {
      TilesOrdered(ranges, total, i, |ranges| - 1);
    }
  }
}
