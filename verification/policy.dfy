/**
 The sandbox policy: classification of traced events, the compiled violation expression, and its
 agreement with the hand-written check.
 */
module Policy {
  import opened Words
  import opened Ir
  import opened Analysis
  import opened Allocation
  import opened Correctness
  import opened Compiler
  import opened Sums
  import opened Engine
  import opened Gather
  import opened Drivers
  import opened ProcessTree

  /** A traced event with its classification; flags are 0 or 1. */
  datatype Record = Record(pid: nat, ppid: nat, kind: nat, preinstall: nat, sensitive: nat, unauthorized: nat)

  /** A flagged process opens a sensitive file or connects without authorisation. */
  predicate Violation(r: Record) {
    r.preinstall == 1 && ((r.sensitive == 1 && r.kind == EVENT_OPEN) || (r.unauthorized == 1 && r.kind == EVENT_CONNECT))
  }

  // --- The compiled expression ----------------------------------------------------------------

  /** Index of the policy's root. */
  const ROOT: nat := 17

  /** preinstall and ((open and sensitive) or (connect and unauthorized)), fields compared with constants. */
  function PolicyGraph(): Graph {
    [ Load("is_preinstall"), Load("event_type"), Load("is_sensitive"), Load("is_unauthorized"),
      Const(ToWord(1)), Compare(EQ, 0, 4),
      Const(ToWord(1)), Compare(EQ, 2, 6),
      Const(ToWord(1)), Compare(EQ, 3, 8),
      Const(ToWord(EVENT_OPEN)), Compare(EQ, 1, 10), And(11, 7),
      Const(ToWord(EVENT_CONNECT)), Compare(EQ, 1, 13), And(14, 9),
      Or(12, 15), And(5, 16) ]
  }

  function TraceSchema(): Schema {
    map["pid" := 0, "ppid" := 1, "event_type" := 2, "is_preinstall" := 3, "is_sensitive" := 4, "is_unauthorized" := 5]
  }

  /** A record as a row of eight words. */
  function RecordCells(r: Record): (row: Cells)
    ensures |row| == 8
  {
    [ ToWord(r.pid), ToWord(r.ppid), ToWord(r.kind), ToWord(r.preinstall),
      ToWord(r.sensitive), ToWord(r.unauthorized), Zero(), Zero() ]
  }

  function RecordRows(records: seq<Record>): (rows: seq<Cells>)
    ensures |rows| == |records| && forall i | 0 <= i < |records| :: rows[i] == RecordCells(records[i])
  {
    seq(|records|, i requires 0 <= i < |records| => RecordCells(records[i]))
  }

  /** Every field fits 64 bits. */
  predicate Machine64(r: Record) {
    && r.pid < Pow2(64) && r.ppid < Pow2(64) && r.kind < Pow2(64)
    && r.preinstall < Pow2(64) && r.sensitive < Pow2(64) && r.unauthorized < Pow2(64)
  }

  lemma PolicyShape()
    ensures |PolicyGraph()| == 18 && Closed(PolicyGraph())
    ensures Ranked(PolicyGraph(), seq(18, i => i))
  {
    hide ToWord;
  }

  lemma PolicyValid()
    ensures Valid(PolicyGraph()) && |PolicyGraph()| == 18
  {
    hide ToWord, Ranked;
    PolicyShape();
  }

  lemma {:induction false} WordOf(n: nat)
    requires n < Pow2(64)
    ensures Val(ToWord(n)) == n && Val(ToWord(n)) % Pow2(64) == n
  {
    hide Pow2, Val, Bits;
    ValOfBits(n, 64);
    ModOf(n, 0, Pow2(64));
  }

  lemma SmallWords()
    ensures 3 < Pow2(64)
  {
    assert Pow2(64) == 2 * Pow2(63) && Pow2(63) == 2 * Pow2(62);
  }

  /** A field compared with a constant. */
  lemma {:induction false} EqualsConstant(g: Graph, id: nat, l: nat, r: nat, name: string, c: nat, env: Env, b: nat)
    requires Acyclic(g) && id < |g| && l < |g| && r < |g|
    requires g[id] == Compare(EQ, l, r) && g[l] == Load(name) && g[r] == Const(ToWord(c))
    requires c < Pow2(64) && env(name) < Pow2(64)
    ensures Eval(g, id, env, Pow2(64), b) == Bit(env(name) == c)
  {
    hide Pow2, Val, ToWord;
    WordOf(c);
    ModOf(env(name), 0, Pow2(64));
  }

  lemma {:induction false} BothHold(g: Graph, id: nat, l: nat, r: nat, env: Env, b: nat)
    requires Acyclic(g) && id < |g| && l < |g| && r < |g| && (g[id] == And(l, r) || g[id] == Or(l, r))
    ensures var x, y := Eval(g, l, env, Pow2(64), b) != 0, Eval(g, r, env, Pow2(64), b) != 0;
            Eval(g, id, env, Pow2(64), b) == Bit(if g[id].And? then x && y else x || y)
  {
    hide Pow2, Val;
  }

  lemma PolicyLeaves()
    ensures var g := PolicyGraph();
            && |g| == 18
            && g[0] == Load("is_preinstall") && g[1] == Load("event_type")
            && g[2] == Load("is_sensitive") && g[3] == Load("is_unauthorized")
            && g[4] == g[6] == g[8] == Const(ToWord(1))
            && g[10] == Const(ToWord(EVENT_OPEN)) && g[13] == Const(ToWord(EVENT_CONNECT))
  {
    hide ToWord;
  }

  lemma PolicyInner()
    ensures var g := PolicyGraph();
            && |g| == 18
            && g[5] == Compare(EQ, 0, 4) && g[7] == Compare(EQ, 2, 6) && g[9] == Compare(EQ, 3, 8)
            && g[11] == Compare(EQ, 1, 10) && g[14] == Compare(EQ, 1, 13)
            && g[12] == And(11, 7) && g[15] == And(14, 9) && g[16] == Or(12, 15) && g[17] == And(5, 16)
  {
    hide ToWord;
  }

  /** Node `id` says that field `x` is `c` and field `y` is 1. */
  lemma {:induction false} TwoFields(g: Graph, id: nat, l: nat, r: nat, x: string, c: nat, xl: nat, xr: nat,
                                     y: string, yl: nat, yr: nat, env: Env, b: nat)
    requires Acyclic(g) && id < |g| && l < |g| && r < |g| && xl < |g| && xr < |g| && yl < |g| && yr < |g|
    requires g[id] == And(l, r) && g[l] == Compare(EQ, xl, xr) && g[r] == Compare(EQ, yl, yr)
    requires g[xl] == Load(x) && g[xr] == Const(ToWord(c)) && g[yl] == Load(y) && g[yr] == Const(ToWord(1))
    requires 1 < Pow2(64) && c < Pow2(64) && env(x) < Pow2(64) && env(y) < Pow2(64)
    ensures Eval(g, id, env, Pow2(64), b) == Bit(env(x) == c && env(y) == 1)
  {
    hide Pow2, Val, ToWord, Eval, Acyclic;
    EqualsConstant(g, l, xl, xr, x, c, env, b);
    EqualsConstant(g, r, yl, yr, y, 1, env, b);
    BothHold(g, id, l, r, env, b);
  }

  /** The compiled expression is the hand-written check. */
  lemma {:induction false} PolicyValue(g: Graph, env: Env, r: Record, b: nat)
    requires g == PolicyGraph() && Valid(g) && Machine64(r)
    requires env("is_preinstall") == r.preinstall && env("event_type") == r.kind
    requires env("is_sensitive") == r.sensitive && env("is_unauthorized") == r.unauthorized
    ensures Eval(g, ROOT, env, Pow2(64), b) == Bit(Violation(r))
  {
    hide Pow2, Val, ToWord, Eval, Valid, Acyclic, PolicyGraph;
    ValidAcyclic(g);
    PolicyLeaves();
    PolicyInner();
    SmallWords();
    EqualsConstant(g, 5, 0, 4, "is_preinstall", 1, env, b);
    TwoFields(g, 12, 11, 7, "event_type", EVENT_OPEN, 1, 10, "is_sensitive", 2, 6, env, b);
    TwoFields(g, 15, 14, 9, "event_type", EVENT_CONNECT, 1, 13, "is_unauthorized", 3, 8, env, b);
    BothHold(g, 16, 12, 15, env, b);
    BothHold(g, 17, 5, 16, env, b);
  }

  lemma ValidAcyclic(g: Graph)
    requires Valid(g)
    ensures Acyclic(g)
  {
  }

  lemma {:induction false} RecordEnv(r: Record)
    requires Machine64(r)
    ensures var env := RowEnv(TraceSchema(), RecordCells(r));
            && env("is_preinstall") == r.preinstall && env("event_type") == r.kind
            && env("is_sensitive") == r.sensitive && env("is_unauthorized") == r.unauthorized
  {
    hide Pow2, Val, ToWord;
    WordOf(r.preinstall);
    WordOf(r.kind);
    WordOf(r.sensitive);
    WordOf(r.unauthorized);
  }

  /** One per violating record. */
  ghost function Violates(records: seq<Record>): nat -> int {
    (i: nat) => if i < |records| then Bit(Violation(records[i])) else 0
  }

  /** The reference of the policy over records is the number of violations. */
  lemma {:induction false} PolicyReference(records: seq<Record>)
    requires forall i | 0 <= i < |records| :: Machine64(records[i])
    ensures Valid(PolicyGraph()) && |PolicyGraph()| == 18
    ensures Reference(PolicyGraph(), ROOT, TraceSchema(), RecordRows(records)) == Total(|records|, Violates(records))
  {
    hide Pow2, Valid, Acyclic, PolicyGraph, TraceSchema, RecordCells, Violation, Machine64, Total;
    PolicyValid();
    var g := PolicyGraph();
    ValidAcyclic(g);
    var rows := RecordRows(records);
    forall i: nat | i < |records| ensures ValueAt(g, ROOT, TraceSchema(), rows, 0)(i) == Violates(records)(i) {
      RecordEnv(records[i]);
      PolicyValue(g, RowEnv(TraceSchema(), rows[i]), records[i], Borrow(i % 64));
    }
    SumEqual(|records|, ValueAt(g, ROOT, TraceSchema(), rows, 0), Violates(records));
  }

  // --- Classification -------------------------------------------------------------------------

  predicate At(s: string, p: string, i: nat) {
    i + |p| <= |s| && s[i..i + |p|] == p
  }

  predicate Contains(s: string, p: string) {
    exists i :: 0 <= i <= |s| && At(s, p, i)
  }

  /** Paths of credentials and configuration. */
  predicate Sensitive(path: string) {
    || Contains(path, ".ssh/") || Contains(path, ".aws/") || Contains(path, "aws/credentials") || Contains(path, ".env")
    || Contains(path, ".npmrc") || Contains(path, ".gitconfig") || Contains(path, "/etc/passwd") || Contains(path, "/etc/shadow")
    || Contains(path, "/proc/self/environ") || Contains(path, "id_rsa") || Contains(path, "id_ed25519")
    || Contains(path, "authorized_keys")
  }

  /** A path contains a pattern exactly when it is the pattern with something before and after it. */
  lemma {:induction false} ContainsMeans(s: string, p: string)
    ensures Contains(s, p) <==> exists a: string, b: string :: s == a + p + b
  {
    if Contains(s, p) {
      var i :| 0 <= i <= |s| && At(s, p, i);
      assert s == s[..i] + p + s[i + |p|..];
    }
    if a: string, b: string :| s == a + p + b {
      assert At(s, p, |a|);
    }
  }

  /** What makes a path sensitive. */
  function Patterns(): seq<string> {
    [".ssh/", ".aws/", "aws/credentials", ".env", ".npmrc", ".gitconfig", "/etc/passwd", "/etc/shadow",
     "/proc/self/environ", "id_rsa", "id_ed25519", "authorized_keys"]
  }

  /** The sensitive paths are those with one of twelve patterns somewhere in them. */
  lemma {:induction false} SensitiveMeans(path: string)
    ensures Sensitive(path) <==> exists a: string, p: string, b: string :: p in Patterns() && path == a + p + b
  {
    hide Contains, Patterns;
    forall p ensures Contains(path, p) <==> exists a: string, b: string :: path == a + p + b {
      ContainsMeans(path, p);
    }
    AnyPattern(path);
  }

  lemma {:induction false} AnyPattern(path: string)
    ensures Sensitive(path) <==> exists p :: p in Patterns() && Contains(path, p)
  {
    hide Contains;
    AnyOfTwelve(path, Patterns());
  }

  lemma AnyOfTwelve(path: string, ps: seq<string>)
    requires |ps| == 12
    ensures (|| Contains(path, ps[0]) || Contains(path, ps[1]) || Contains(path, ps[2]) || Contains(path, ps[3])
             || Contains(path, ps[4]) || Contains(path, ps[5]) || Contains(path, ps[6]) || Contains(path, ps[7])
             || Contains(path, ps[8]) || Contains(path, ps[9]) || Contains(path, ps[10]) || Contains(path, ps[11]))
            <==> exists p :: p in ps && Contains(path, p)
  {
    hide Contains;
  }

  /** A record made from an event violates the policy exactly when a flagged process opens a sensitive path or connects. */
  predicate Forbidden(flagged: bool, e: Event) {
    flagged && ((e.kind == 2 && Sensitive(e.arg)) || e.kind == 3)
  }

  lemma ForbiddenRecord(rec: Record, e: Event)
    requires rec.kind == e.kind && rec.sensitive == Bit(e.kind == EVENT_OPEN && Sensitive(e.arg))
    requires rec.unauthorized == Bit(e.kind == EVENT_CONNECT)
    ensures Violation(rec) <==> Forbidden(rec.preinstall == 1, e)
  {
    hide Sensitive;
  }

  /** Number of violating records. */
  function Violations(records: seq<Record>): (n: nat)
    ensures n <= |records|
  {
    if records == [] then 0 else Violations(records[..|records| - 1]) + Bit(Violation(records[|records| - 1]))
  }

  lemma {:induction false} TotalViolations(records: seq<Record>, f: nat -> int)
    requires forall i: nat | i < |records| :: f(i) == Bit(Violation(records[i]))
    ensures Total(|records|, f) == Violations(records)
  {
    hide Violation;
    if records != [] {
      TotalViolations(records[..|records| - 1], f);
      SumLast(|records|, f);
    }
  }

  lemma PolicyNames(id: nat)
    requires id < |PolicyGraph()| && PolicyGraph()[id].Load?
    ensures PolicyGraph()[id].name in TraceSchema()
  {
    hide ToWord;
  }

  lemma {:induction false} PolicyRegistered(order: seq<nat>, skip: set<nat>)
    requires Topological(PolicyGraph(), order) && Closed(PolicyGraph())
    ensures Known(PolicyGraph(), order, skip, TraceSchema())
  {
    hide PolicyGraph, TraceSchema, OperandsListed;
    forall i | 0 <= i < |order| ensures NodeKnown(PolicyGraph(), order[i], TraceSchema()) {
      forall c <- Children(PolicyGraph()[order[i]]) | c < |PolicyGraph()| && PolicyGraph()[c].Load?
        ensures PolicyGraph()[c].name in TraceSchema()
      {
        PolicyNames(c);
      }
    }
  }

  lemma PolicyMasks()
    ensures forall n <- PolicyGraph() :: IsLeaf(n) || IsMask(n)
    ensures |PolicyGraph()| == 18 && IsMask(PolicyGraph()[ROOT])
  {
    hide ToWord;
  }

  /** The process tree with the compiled policy. */
  class PolicyEngine {
    var tree: Tree
    const logic: Logic
    const buffers: seq<array<Word>>
    ghost var history: seq<Op>

    ghost predicate Valid()
      reads this
    {
      && Installed(logic, PolicyGraph(), ROOT, TraceSchema()) && Columns(buffers) && |buffers| == 128
      && tree == TreeAfter(history)
    }

    /** Builds and compiles the policy, which always succeeds. */
    constructor ()
      ensures Valid() && history == [] && fresh(buffers)
    {
      var lg, b := Build();
      logic := lg;
      buffers := b;
      tree := map[];
      history := [];
    }

    static method Build() returns (lg: Logic, b: seq<array<Word>>)
      ensures Installed(lg, PolicyGraph(), ROOT, TraceSchema()) && Columns(b) && |b| == 128 && fresh(b)
    {
      hide PolicyGraph, TraceSchema, Ir.Valid, Acyclic, Installed, Reach, Topological, Names, Blocks, Singles,
           Needed, CarriesSuffice,
           SkipClosed, SkipOf, Elements;
      var g := PolicyGraph();
      PolicyValid();
      PolicyMasks();
      ValidAcyclic(g);
      LeafNotSkipped(g, ROOT);
      var out, order := SetExpression(g, ROOT, TraceSchema());
      LogicInstalls(g, ROOT, order);
      PolicyRegistered(order, SkipOf(g, ROOT));
      lg := out.logic;
      b := NewBuffers(128);
    }

    /** Updates the tree and classifies the event. */
    method ProcessEvent(e: Event) returns (rec: Record)
      requires Valid()
      modifies this`tree, this`history
      ensures Valid() && history == old(history) + [Seen(e)]
      ensures rec.pid == e.pid && rec.ppid == e.ppid && rec.kind == e.kind
      ensures rec.preinstall == Bit(Flagged(tree, if e.kind == EVENT_EXEC || e.pid in tree then e.pid else e.ppid))
      ensures rec.sensitive == Bit(e.kind == EVENT_OPEN && Sensitive(e.arg))
      ensures rec.unauthorized == Bit(e.kind == EVENT_CONNECT)
      ensures Violation(rec) <==> Forbidden(rec.preinstall == 1, e)
    {
      hide Installed, Sensitive, EntryRule, Violation, Forbidden, TreeAfter;
      var preinstall := false;
      var parentFlagged := e.ppid in tree && tree[e.ppid].flagged;
      if e.kind == EVENT_EXEC {
        var untrusted := parentFlagged;
        if !untrusted && EntryRule(e) {
          untrusted := true;
        }
        tree := tree[e.pid := Process(e.ppid, e.comm, untrusted)];
        preinstall := untrusted;
      } else if e.pid in tree {
        preinstall := tree[e.pid].flagged;
      } else {
        preinstall := parentFlagged;
      }
      var sensitive, unauthorized := 0, 0;
      if e.kind == EVENT_OPEN {
        sensitive := if Sensitive(e.arg) then 1 else 0;
      } else if e.kind == EVENT_CONNECT {
        unauthorized := 1;
      }
      rec := Record(e.pid, e.ppid, e.kind, if preinstall then 1 else 0, sensitive, unauthorized);
      ForbiddenRecord(rec, e);
      Extend(history, Seen(e));
      history := history + [Seen(e)];
    }

    method RegisterProcess(pid: nat, ppid: nat, comm: string, force: bool)
      requires Valid()
      modifies this`tree, this`history
      ensures Valid() && history == old(history) + [Registered(pid, ppid, comm, force)]
      ensures Flagged(tree, pid) == force && forall p | p != pid :: Flagged(tree, p) == old(Flagged(tree, p))
    {
      hide Installed;
      tree := tree[pid := Process(ppid, comm, force)];
      Extend(history, Registered(pid, ppid, comm, force));
      history := history + [Registered(pid, ppid, comm, force)];
    }

    method UnregisterProcess(pid: nat)
      requires Valid()
      modifies this`tree, this`history
      ensures Valid() && history == old(history) + [Removed(pid)]
      ensures pid !in tree && forall p | p != pid :: Flagged(tree, p) == old(Flagged(tree, p))
    {
      hide Installed;
      tree := tree - {pid};
      Extend(history, Removed(pid));
      history := history + [Removed(pid)];
    }

    /** The number of violations among the records, by the compiled expression. */
    method EvaluateBatch(records: seq<Record>) returns (count: nat)
      requires Valid() && |records| < Pow2(64) && forall i | 0 <= i < |records| :: Machine64(records[i])
      modifies buffers
      ensures Valid() && count == Violations(records)
    {
      hide Installed, Machine64, Pow2, PolicyGraph, TraceSchema, Violations, Ir.Valid, Columns, Fits, Total, TreeAfter;
      if |records| == 0 {
        count := 0;
      } else {
        var rows := RecordRows(records);
        RowsFit(logic, records);
        count := Execute(logic, rows, buffers, PolicyGraph(), ROOT, TraceSchema());
        PolicyReference(records);
        TotalViolations(records, Violates(records));
        ModOf(Violations(records), 0, Pow2(64));
      }
    }
  }

  lemma Extend(history: seq<Op>, op: Op)
    ensures TreeAfter(history + [op]) == Apply(TreeAfter(history), op)
  {
    assert (history + [op])[..|history|] == history;
  }

  lemma RowsFit(lg: Logic, records: seq<Record>)
    requires Installed(lg, PolicyGraph(), ROOT, TraceSchema())
    ensures Fits(lg.offsets, RecordRows(records))
  {
    hide PolicyGraph, KernelFor, SkipClosed, ForestData, RecordCells;
    SchemaOffsets();
  }

  lemma SchemaOffsets()
    ensures forall name <- TraceSchema() :: TraceSchema()[name] < 8
  {
  }
}
