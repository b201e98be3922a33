/**
 The carry-lookahead adder of the generated shader. Sixty-four threads, one per bit-plane, run in
 lockstep as two SIMD groups of 32 lanes: five shuffle rounds scan each group, a shared word joins
 the groups, and every thread then adds its carry-in.
 */
module KoggeStone {
  import opened Words
  import opened Circuits

  /** Generate and propagate words of a window of planes. */
  datatype Pair = Pair(g: Word, p: Word)

  type Threads = t: seq<Pair> | |t| == 64 witness seq(64, i => Pair(seq(64, j => false), seq(64, j => false)))

  /** The window `hi` stacked on the window `lo`. */
  function Join(hi: Pair, lo: Pair): Pair {
    Pair(BitOr(hi.g, BitAnd(hi.p, lo.g)), BitAnd(hi.p, lo.p))
  }

  /** The lane of thread i within its group. */
  function LaneId(i: nat): nat {
    if i < 32 then i else i - 32
  }

  /** One round: lanes d and up combine with the lane d below, in the same group. */
  function Round(t: Threads, d: nat): Threads
    requires d > 0
  {
    seq(64, i requires 0 <= i < 64 => if LaneId(i) >= d then Join(t[i], t[i - d]) else t[i])
  }

  function GroupScan(t: Threads): Threads {
    Round(Round(Round(Round(Round(t, 1), 2), 4), 8), 16)
  }

  /** The upper group absorbs the carry that leaves lane 31 of the lower one. */
  function JoinGroups(t: Threads): (g: Block) {
    seq(64, i requires 0 <= i < 64 => if i < 32 then t[i].g else BitOr(t[i].g, BitAnd(t[31].g, t[i].p)))
  }

  /** The word entering plane i: `first` at plane 0, the shared carry at plane 32, else the lane below. */
  function CarryIn(t: Threads, first: Word, i: nat): Word
    requires i < 64
  {
    if i == 0 then first else if i == 32 then t[31].g else JoinGroups(t)[i - 1]
  }

  function AddThreads(a: Block, b: Block): Threads {
    seq(64, i requires 0 <= i < 64 => Pair(BitAnd(a[i], b[i]), BitXor(a[i], b[i])))
  }

  function ShaderAdd(a: Block, b: Block): (s: Block) {
    var t := GroupScan(AddThreads(a, b));
    seq(64, i requires 0 <= i < 64 => BitXor(BitXor(a[i], b[i]), CarryIn(t, Zero(), i)))
  }

  /** Subtraction adds the complement; thread 0 folds a carry-in of one into its generate word. */
  function ShaderSub(a: Block, b: Block): (s: Block) {
    var t := GroupScan(SubThreads(a, b));
    seq(64, i requires 0 <= i < 64 => BitXor(BitXor(a[i], BitNot(b[i])), CarryIn(t, One(), i)))
  }

  function SubThreads(a: Block, b: Block): Threads {
    seq(64, i requires 0 <= i < 64 => SubPair(a[i], b[i], i == 0))
  }

  function SubPair(a: Word, b: Word, first: bool): Pair {
    var g, p := BitAnd(a, BitNot(b)), BitXor(a, BitNot(b));
    Pair(if first then BitOr(g, p) else g, p)
  }

  // --- Windows --------------------------------------------------------------------------------

  /** Planes lo..hi combined one by one. */
  function Span(t: Threads, lo: nat, hi: nat): Pair
    requires lo <= hi < 64
    decreases hi - lo
  {
    if lo == hi then t[lo] else Join(t[hi], Span(t, lo, hi - 1))
  }

  lemma JoinAssociative(x: Pair, y: Pair, z: Pair)
    ensures Join(Join(x, y), z) == Join(x, Join(y, z))
  {
    assert Join(Join(x, y), z).g == Join(x, Join(y, z)).g;
    assert Join(Join(x, y), z).p == Join(x, Join(y, z)).p;
  }

  /** Adjacent windows join. */
  lemma {:induction false} SpanSplit(t: Threads, lo: nat, mid: nat, hi: nat)
    requires lo < mid <= hi < 64
    ensures Join(Span(t, mid, hi), Span(t, lo, mid - 1)) == Span(t, lo, hi)
    decreases hi
  {
    hide Join;
    if mid < hi {
      SpanSplit(t, lo, mid, hi - 1);
      JoinAssociative(t[hi], Span(t, mid, hi - 1), Span(t, lo, mid - 1));
    }
  }

  /** The window of the last w planes of its group that thread i sees. */
  function WindowStart(i: nat, w: nat): nat {
    if LaneId(i) + 1 <= w then i - LaneId(i) else i + 1 - w
  }

  ghost predicate Summarises(t: Threads, cur: Threads, w: nat)
    requires w > 0
  {
    forall i | 0 <= i < 64 :: cur[i] == Span(t, WindowStart(i, w), i)
  }

  /** A round of distance d doubles a window of d planes. */
  lemma {:induction false} RoundDoubles(t: Threads, cur: Threads, d: nat)
    requires 0 < d <= 16 && Summarises(t, cur, d)
    ensures Summarises(t, Round(cur, d), 2 * d)
  {
    hide Join, Span;
    forall i | 0 <= i < 64 ensures Round(cur, d)[i] == Span(t, WindowStart(i, 2 * d), i) {
      if LaneId(i) >= d {
        SpanSplit(t, WindowStart(i, 2 * d), i + 1 - d, i);
      }
    }
  }

  /** After the five rounds each thread summarises its group from the bottom. */
  lemma {:induction false} GroupScanSpans(t: Threads)
    ensures forall i | 0 <= i < 64 :: GroupScan(t)[i] == Span(t, i - LaneId(i), i)
  {
    hide Round, Join;
    assert Summarises(t, t, 1);
    RoundDoubles(t, t, 1);
    RoundDoubles(t, Round(t, 1), 2);
    RoundDoubles(t, Round(Round(t, 1), 2), 4);
    RoundDoubles(t, Round(Round(Round(t, 1), 2), 4), 8);
    RoundDoubles(t, Round(Round(Round(Round(t, 1), 2), 4), 8), 16);
  }

  // --- Carries --------------------------------------------------------------------------------

  /** Once the groups are joined, thread i generates exactly when planes 0..i do. */
  lemma {:induction false} JoinedSpans(t: Threads, i: nat)
    requires i < 64
    ensures JoinGroups(GroupScan(t))[i] == Span(t, 0, i).g
    ensures GroupScan(t)[31].g == Span(t, 0, 31).g
  {
    hide GroupScan, Span;
    GroupScanSpans(t);
    if i >= 32 {
      SpanSplit(t, 0, 32, i);
      assert BitAnd(Span(t, 0, 31).g, Span(t, 32, i).p) == BitAnd(Span(t, 32, i).p, Span(t, 0, 31).g);
    }
  }

  lemma {:induction false} CarryInSpans(t: Threads, first: Word, i: nat)
    requires 0 < i < 64
    ensures CarryIn(GroupScan(t), first, i) == Span(t, 0, i - 1).g
  {
    hide GroupScan, Span, JoinGroups;
    JoinedSpans(t, i - 1);
  }

  /** Carry word entering plane i of the ripple adder. */
  function RippleIn(a: seq<Word>, b: seq<Word>, c: Word, i: nat): Word
    requires |a| == |b| && i <= |a|
  {
    if i == 0 then c else CarryOut(a[i - 1], b[i - 1], RippleIn(a, b, c, i - 1))
  }

  lemma {:induction false} RippleInTail(a: seq<Word>, b: seq<Word>, c: Word, i: nat)
    requires |a| == |b| && i < |a|
    ensures RippleIn(a, b, c, i + 1) == RippleIn(a[1..], b[1..], CarryOut(a[0], b[0], c), i)
  {
    hide CarryOut;
    if i > 0 {
      RippleInTail(a, b, c, i - 1);
    } else {
      assert RippleIn(a, b, c, 1) == CarryOut(a[0], b[0], RippleIn(a, b, c, 0));
    }
  }

  lemma {:induction false} RippleAt(a: seq<Word>, b: seq<Word>, c: Word, i: nat)
    requires |a| == |b| && i < |a|
    ensures Ripple(a, b, c)[i] == BitXor(BitXor(a[i], b[i]), RippleIn(a, b, c, i))
  {
    hide CarryOut, BitXor;
    if i > 0 {
      RippleAt(a[1..], b[1..], CarryOut(a[0], b[0], c), i - 1);
      RippleInTail(a, b, c, i - 1);
    }
  }

  /** Threads prepared for the sum of a and b, whose lowest thread already counts the carry-in c. */
  ghost predicate Prepared(t: Threads, a: Block, b: Block, c: Word) {
    && t[0].g == CarryOut(a[0], b[0], c)
    && forall i | 0 < i < 64 :: t[i].g == BitAnd(a[i], b[i]) && t[i].p == BitXor(a[i], b[i])
  }

  /** The window of planes 0..i generates the carry that the ripple adder hands to plane i + 1. */
  lemma {:induction false} SpanIsCarry(t: Threads, a: Block, b: Block, c: Word, i: nat)
    requires i < 64 && Prepared(t, a, b, c)
    ensures Span(t, 0, i).g == RippleIn(a, b, c, i + 1)
  {
    hide BitAnd, BitOr, BitXor;
    if i > 0 {
      SpanIsCarry(t, a, b, c, i - 1);
    } else {
      assert RippleIn(a, b, c, 1) == CarryOut(a[0], b[0], RippleIn(a, b, c, 0));
    }
  }

  /** Every plane above the lowest gets the ripple adder's carry, whatever plane 0 is given. */
  lemma {:induction false} CarryInIsRipple(t: Threads, a: Block, b: Block, c: Word, first: Word, i: nat)
    requires 0 < i < 64 && Prepared(t, a, b, c)
    ensures CarryIn(GroupScan(t), first, i) == RippleIn(a, b, c, i)
  {
    hide GroupScan, Span, CarryIn, Prepared, RippleIn;
    CarryInSpans(t, first, i);
    SpanIsCarry(t, a, b, c, i - 1);
  }

  /** The shader's sum planes are those of the ripple adder. */
  lemma {:induction false} ShaderAddIsRipple(a: Block, b: Block)
    ensures ShaderAdd(a, b) == Ripple(a, b, Zero())
  {
    hide GroupScan, CarryIn, Ripple, RippleIn;
    var t := AddThreads(a, b);
    assert t[0].g == CarryOut(a[0], b[0], Zero());
    forall i | 0 <= i < 64 ensures ShaderAdd(a, b)[i] == Ripple(a, b, Zero())[i] {
      RippleAt(a, b, Zero(), i);
      CarryInLowest(t, a, b, Zero());
      if i > 0 {
        CarryInIsRipple(t, a, b, Zero(), Zero(), i);
      }
    }
  }

  lemma CarryInLowest(t: Threads, a: Block, b: Block, c: Word)
    ensures CarryIn(GroupScan(t), c, 0) == c == RippleIn(a, b, c, 0)
  {
  }

  /** Above plane 0 the shader's difference is that of a ripple adder entered with all carries set. */
  lemma {:induction false} ShaderSubPlanes(a: Block, b: Block, i: nat)
    requires 0 < i < 64
    ensures ShaderSub(a, b)[i] == Ripple(a, Inverted(b), Ones())[i]
  {
    hide GroupScan, CarryIn, Ripple, RippleIn;
    var t := SubThreads(a, b);
    assert t[0].g == CarryOut(a[0], BitNot(b[0]), Ones());
    RippleAt(a, Inverted(b), Ones(), i);
    CarryInIsRipple(t, a, Inverted(b), Ones(), One(), i);
  }

  /** At plane 0 the carry-in word is set in lane 0 only, so every other row has that bit complemented. */
  lemma {:induction false} ShaderSubLowest(a: Block, b: Block, r: nat)
    requires r < 64
    ensures ShaderSub(a, b)[0][r] == (Ripple(a, Inverted(b), Ones())[0][r] == (r == 0))
  {
    hide GroupScan, Ripple;
    RippleAt(a, Inverted(b), Ones(), 0);
  }

  /**
   The shader subtracts exactly in row 0; in every other row the lowest bit of the difference
   is flipped.
   */
  lemma {:induction false} ShaderSubValue(a: Block, b: Block, r: nat)
    requires r < 64
    ensures var d := (Val(Lane(a, r)) - Val(Lane(b, r))) % Pow2(64);
            Val(Lane(ShaderSub(a, b), r)) == if r == 0 then d else if d % 2 == 0 then d + 1 else d - 1
  {
    hide Val, Pow2, Ripple, ShaderSub;
    var q, s := Ripple(a, Inverted(b), Ones()), ShaderSub(a, b);
    RippleSubtracts(a, b, Ones(), r);
    ShaderSubLowest(a, b, r);
    LaneTail(q, r);
    LaneTail(s, r);
    forall i | 1 <= i < 64 ensures s[i] == q[i] {
      ShaderSubPlanes(a, b, i);
    }
    assert s[1..] == q[1..];
  }

  /** Shader and compiled kernel agree on a subtraction exactly in row 0 and where the difference is odd. */
  lemma {:induction false} SubtractionsAgree(a: Block, b: Block, r: nat)
    requires r < 64
    ensures Val(Lane(ShaderSub(a, b), r)) == Val(Lane(Ripple(a, Inverted(b), One()), r))
            <==> r == 0 || (Val(Lane(a, r)) - Val(Lane(b, r))) % 2 == 1
  {
    hide Val, Pow2, Ripple, ShaderSub;
    var x := Val(Lane(a, r)) - Val(Lane(b, r));
    ShaderSubValue(a, b, r);
    RippleSubtracts(a, b, One(), r);
    EvenModulus(x);
    Decrement(x, Pow2(64));
  }

  lemma {:induction false} EvenModulus(x: int)
    ensures Pow2(64) > 2 && x % Pow2(64) % 2 == x % 2
  {
    hide Pow2;
    var m := Pow2(63);
    assert Pow2(64) == 2 * m && m > 1 by { HalfModulus(); }
    ModDouble(x % 2, x / 2, m);
    assert x == x % 2 + 2 * (x / 2);
  }

  lemma {:induction false} HalfModulus()
    ensures Pow2(64) == 2 * Pow2(63) && Pow2(63) > 1
  {
    assert Pow2(63) == 2 * Pow2(62);
  }

  /** Stepping down by one wraps only at zero. */
  lemma Decrement(x: int, m: nat)
    requires m > 1
    ensures (x - 1) % m == if x % m == 0 then m - 1 else x % m - 1
  {
    var q, t := x / m, x % m;
    assert x == t + m * q;
    if t == 0 {
      assert x - 1 == (m - 1) + m * (q - 1);
      ModOf(m - 1, q - 1, m);
    } else {
      ModOf(t - 1, q, m);
    }
  }
}
