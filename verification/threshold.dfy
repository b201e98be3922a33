/**
 The kernel that compares one field with a constant, specialised bit by bit, and the row count built on it.
 */
module Threshold {
  import opened Words
  import opened Circuits
  import opened Transpose
  import opened Sums
  import opened Engine
  import opened Gather

  /** The instructions used: two masks, a temporary, the plane last loaded and a pointer that walks down. */
  datatype Op =
    | ZeroGt                 // orr gt, xzr, xzr
    | OnesEq                 // mov eq, -1
    | PointTop               // add walker, planes, 63*8
    | LoadDown               // ldr plane, [walker], -8
    | AndTmp                 // and tmp, eq, plane
    | OrGt                   // orr gt, gt, tmp
    | ClearEq                // bic eq, eq, plane
    | AndEq                  // and eq, eq, plane

  datatype Machine = Fault | Machine(gt: Word, eq: Word, tmp: Word, plane: Word, at: int)

  function Do(op: Op, planes: seq<Word>, s: Machine): Machine {
    if s.Fault? then Fault else
      match op
      case ZeroGt => s.(gt := Zero())
      case OnesEq => s.(eq := Ones())
      case PointTop => s.(at := 63)
      case LoadDown => if 0 <= s.at < |planes| then s.(plane := planes[s.at], at := s.at - 1) else Fault
      case AndTmp => s.(tmp := BitAnd(s.eq, s.plane))
      case OrGt => s.(gt := BitOr(s.gt, s.tmp))
      case ClearEq => s.(eq := BitClear(s.eq, s.plane))
      case AndEq => s.(eq := BitAnd(s.eq, s.plane))
  }

  function Exec(code: seq<Op>, planes: seq<Word>, s: Machine): Machine {
    if code == [] then s else Exec(code[1..], planes, Do(code[0], planes, s))
  }

  lemma {:induction false} ExecAppend(a: seq<Op>, b: seq<Op>, planes: seq<Word>, s: Machine)
    ensures Exec(a + b, planes, s) == Exec(b, planes, Exec(a, planes, s))
  {
    if a == [] {
      assert a + b == b;
    } else {
      ExecAppend(a[1..], b, planes, Do(a[0], planes, s));
      assert (a + b)[1..] == a[1..] + b;
    }
  }

  function BitCode(bit: bool): seq<Op> {
    if bit then [LoadDown, AndEq] else [LoadDown, AndTmp, OrGt, ClearEq]
  }

  /** Code for the given low bits of the threshold, the top one first. */
  function BitsCode(t: seq<bool>): seq<Op> {
    if t == [] then [] else BitCode(t[|t| - 1]) + BitsCode(t[..|t| - 1])
  }

  /** Emits the kernel, one block per bit from 63 down. */
  method CompileComparison(threshold: Word) returns (code: seq<Op>)
    ensures code == [ZeroGt, OnesEq, PointTop] + BitsCode(threshold)
  {
    hide BitsCode;
    code := [ZeroGt, OnesEq, PointTop];
    var bit := 64;
    assert threshold[..64] == threshold;
    while bit > 0
      invariant 0 <= bit <= 64 && code + BitsCode(threshold[..bit]) == [ZeroGt, OnesEq, PointTop] + BitsCode(threshold)
    {
      bit := bit - 1;
      BitsCodeNext(threshold, bit);
      ghost var before := code;
      if !threshold[bit] {
        code := code + [LoadDown, AndTmp, OrGt, ClearEq];
      } else {
        code := code + [LoadDown, AndEq];
      }
      assert code + BitsCode(threshold[..bit]) == before + (BitCode(threshold[bit]) + BitsCode(threshold[..bit]));
    }
    BitsCodeNone(threshold[..0]);
  }

  lemma BitsCodeNext(t: Word, bit: nat)
    requires bit < 64
    ensures BitsCode(t[..bit + 1]) == BitCode(t[bit]) + BitsCode(t[..bit])
  {
    assert t[..bit + 1][..bit] == t[..bit];
  }

  lemma BitsCodeNone(t: seq<bool>)
    requires t == []
    ensures BitsCode(t) == []
  {
  }

  /** One block does to the masks what the general comparator does with a constant plane. */
  lemma BitIsCompare(a: Word, bit: bool, gt: Word, eq: Word)
    ensures var b := if bit then Ones() else Zero();
            && BitOr(gt, BitAnd(BitClear(a, b), eq)) == (if bit then gt else BitOr(gt, BitAnd(eq, a)))
            && BitClear(eq, BitXor(a, b)) == (if bit then BitAnd(eq, a) else BitClear(eq, a))
  {
  }

  lemma {:induction false} BitRuns(bit: bool, planes: seq<Word>, s: Machine)
    requires s.Machine? && 0 <= s.at < |planes|
    ensures var e := Exec(BitCode(bit), planes, s);
            var b := if bit then Ones() else Zero();
            && e.Machine? && e.at == s.at - 1
            && e.gt == BitOr(s.gt, BitAnd(BitClear(planes[s.at], b), s.eq))
            && e.eq == BitClear(s.eq, BitXor(planes[s.at], b))
  {
    hide BitOr, BitAnd, BitClear, BitXor, Ones, Zero;
    BitIsCompare(planes[s.at], bit, s.gt, s.eq);
    var s1 := Do(LoadDown, planes, s);
    if bit {
      assert BitCode(bit)[1..] == [AndEq];
      assert Exec([AndEq], planes, s1) == Do(AndEq, planes, s1);
    } else {
      assert BitCode(bit)[1..] == [AndTmp, OrGt, ClearEq];
      var s2 := Do(AndTmp, planes, s1);
      var s3 := Do(OrGt, planes, s2);
      assert [AndTmp, OrGt, ClearEq][1..] == [OrGt, ClearEq] && [OrGt, ClearEq][1..] == [ClearEq];
      assert Exec([ClearEq], planes, s3) == Do(ClearEq, planes, s3);
      assert Exec([OrGt, ClearEq], planes, s2) == Exec([ClearEq], planes, s3);
      assert Exec([AndTmp, OrGt, ClearEq], planes, s1) == Exec([OrGt, ClearEq], planes, s2);
    }
  }

  /** The specialised code is the general comparator run on the planes of a constant. */
  lemma {:induction false} BitsScan(t: seq<bool>, planes: seq<Word>, s: Machine)
    requires s.Machine? && |t| <= |planes| && s.at == |t| - 1
    ensures var e := Exec(BitsCode(t), planes, s);
            e.Machine? && (e.gt, e.eq) == Scan(planes[..|t|], ConstPlanes(t), s.gt, s.eq)
    decreases |t|
  {
    hide BitOr, BitAnd, BitClear, BitXor, Exec, BitCode;
    if t == [] {
      EmptyExec(planes, s);
    } else {
      var k := |t| - 1;
      ExecAppend(BitCode(t[k]), BitsCode(t[..k]), planes, s);
      BitRuns(t[k], planes, s);
      BitsScan(t[..k], planes, Exec(BitCode(t[k]), planes, s));
      assert planes[..|t|][..k] == planes[..k];
      assert ConstPlanes(t)[..k] == ConstPlanes(t[..k]);
    }
  }

  lemma EmptyExec(planes: seq<Word>, s: Machine)
    ensures Exec([], planes, s) == s
  {
  }

  /** The whole kernel marks, in any machine, exactly the rows whose field exceeds the threshold. */
  lemma {:induction false} ComparisonKernel(threshold: Word, col: Block, s: Machine, r: nat)
    requires s.Machine? && r < 64
    ensures var e := Exec([ZeroGt, OnesEq, PointTop] + BitsCode(threshold), Sliced(col, 64), s);
            e.Machine? && e.gt[r] == (Val(col[r]) > Val(threshold))
  {
    hide Val, Sliced, BitsCode, Scan, ConstPlanes;
    var planes := Sliced(col, 64);
    ExecAppend([ZeroGt, OnesEq, PointTop], BitsCode(threshold), planes, s);
    var s3 := Entered(planes, s);
    BitsScan(threshold, planes, s3);
    assert planes[..64] == planes;
    ScanCompares(planes, ConstPlanes(threshold), Zero(), Ones(), r);
    ConstPlanesValue(threshold, r);
    SlicedLane(col, 64, r);
    assert col[r][..64] == col[r];
  }

  lemma Entered(planes: seq<Word>, s: Machine) returns (s3: Machine)
    requires s.Machine?
    ensures s3 == Exec([ZeroGt, OnesEq, PointTop], planes, s) && s3.Machine?
    ensures s3.gt == Zero() && s3.eq == Ones() && s3.at == 63
  {
    var s1 := Do(ZeroGt, planes, s);
    var s2 := Do(OnesEq, planes, s1);
    s3 := Do(PointTop, planes, s2);
    assert [ZeroGt, OnesEq, PointTop][1..] == [OnesEq, PointTop] && [OnesEq, PointTop][1..] == [PointTop];
    assert Exec([PointTop], planes, s2) == s3;
  }

  // --- Counting rows --------------------------------------------------------------------------

  /** One per row whose field exceeds the threshold. */
  ghost function Exceeds(rows: seq<Cells>, offset: nat, threshold: Word, start: nat): nat -> int {
    (i: nat) => if start + i < |rows| && offset < |rows[start + i]|
                then Bit(Val(rows[start + i][offset]) > Val(threshold)) else 0
  }

  /** Padding lanes are zero and never exceed anything, so a block needs no row mask. */
  lemma {:induction false} BlockCount(rows: seq<Cells>, offset: nat, threshold: Word, start: nat, n: nat,
                                      col: Block, mask: Word)
    requires n <= 64 && start + n <= |rows| && forall i | 0 <= i < |rows| :: offset < |rows[i]|
    requires forall r | 0 <= r < 64 :: col[r] == if r < n then rows[start + r][offset] else Zero()
    requires forall r | 0 <= r < 64 :: mask[r] == (Val(col[r]) > Val(threshold))
    ensures Pop(mask) == Total(n, Exceeds(rows, offset, threshold, start))
  {
    hide Val, Pop, Total, Zero;
    ValAllClearZero();
    var f := (r: nat) => if r < 64 then Bit(mask[r]) else 0;
    PopIsSum(mask, f);
    var z := (r: nat) => 0;
    SumSplit(64, n, f, z);
    SumConstant(64 - n, 0, z);
    SumEqual(n, f, Exceeds(rows, offset, threshold, start));
  }

  lemma ValAllClearZero()
    ensures Val(Zero()) == 0
  {
    ValAllClear(Zero());
  }

  /** Counts the rows above the threshold, block by block. */
  method ExecuteThreshold(rows: seq<Cells>, offset: nat, threshold: Word, buffer: array<Word>) returns (total: nat)
    requires buffer.Length == 64 && forall i | 0 <= i < |rows| :: offset < |rows[i]|
    modifies buffer
    ensures total == Total(|rows|, Exceeds(rows, offset, threshold, 0))
  {
    hide Val, Pop, Total, Sliced, Exec, BitsCode, Zero, Exceeds;
    var code := CompileComparison(threshold);
    total := 0;
    TotalNone(Exceeds(rows, offset, threshold, 0));
    var chunk := 0;
    while chunk * 64 < |rows|
      invariant chunk * 64 < |rows| + 64
      invariant total == Total(Least(chunk * 64, |rows|), Exceeds(rows, offset, threshold, 0))
      decreases |rows| - chunk * 64
    {
      var start := chunk * 64;
      var n := Least(64, |rows| - start);
      GatherField(rows, start, n, offset, buffer);
      ghost var col := buffer[..];
      SliceN(buffer, buffer, 64);
      var s := Exec(code, buffer[..], Machine(Zero(), Zero(), Zero(), Zero(), 0));
      forall r | 0 <= r < 64 ensures s.Machine? && s.gt[r] == (Val(col[r]) > Val(threshold)) {
        ComparisonKernel(threshold, col, Machine(Zero(), Zero(), Zero(), Zero(), 0), r);
      }
      assert s.Machine? by {
        ComparisonKernel(threshold, col, Machine(Zero(), Zero(), Zero(), Zero(), 0), 0);
      }
      BlockCount(rows, offset, threshold, start, n, col, s.gt);
      CountSplit(rows, offset, threshold, start, n);
      total := total + Pop(s.gt);
      chunk := chunk + 1;
    }
  }

  lemma ExceedsShift(rows: seq<Cells>, offset: nat, threshold: Word, start: nat, i: nat)
    ensures Exceeds(rows, offset, threshold, start)(i) == Exceeds(rows, offset, threshold, 0)(start + i)
  {
    hide Val;
  }

  lemma {:induction false} CountSplit(rows: seq<Cells>, offset: nat, threshold: Word, start: nat, n: nat)
    ensures Total(start + n, Exceeds(rows, offset, threshold, 0))
            == Total(start, Exceeds(rows, offset, threshold, 0)) + Total(n, Exceeds(rows, offset, threshold, start))
  {
    hide Val, Total, Exceeds;
    var f, h := Exceeds(rows, offset, threshold, 0), Exceeds(rows, offset, threshold, start);
    forall i: nat | i < n ensures h(i) == f(start + i) {
      ExceedsShift(rows, offset, threshold, start, i);
    }
    SumSplit(start + n, start, f, h);
  }
}
