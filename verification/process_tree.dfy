/**
 Which processes of the sandbox count as started by an install script: a map from process to flag that
 every exec updates, and what that flag means over a whole history.
 */
module ProcessTree {

  const EVENT_EXEC: nat := 1
  const EVENT_OPEN: nat := 2
  const EVENT_CONNECT: nat := 3

  datatype Event = Event(pid: nat, ppid: nat, kind: nat, comm: string, arg: string)

  datatype Process = Process(ppid: nat, comm: string, flagged: bool)

  type Tree = map<nat, Process>

  /** What reaches the tree: a traced event, or a process registered or removed by hand. */
  datatype Op = Seen(event: Event) | Registered(pid: nat, ppid: nat, comm: string, force: bool) | Removed(pid: nat)

  predicate Flagged(tree: Tree, pid: nat) {
    pid in tree && tree[pid].flagged
  }

  /** A shell or interpreter whose parent is not the first process. */
  predicate EntryRule(e: Event) {
    (e.comm == "sh" || e.comm == "bash" || e.comm == "node" || e.comm == "python") && e.ppid > 1
  }

  function Exec(tree: Tree, e: Event): Tree {
    tree[e.pid := Process(e.ppid, e.comm, Flagged(tree, e.ppid) || EntryRule(e))]
  }

  function Apply(tree: Tree, op: Op): Tree {
    match op
    case Seen(e) => if e.kind == EVENT_EXEC then Exec(tree, e) else tree
    case Registered(pid, ppid, comm, force) => tree[pid := Process(ppid, comm, force)]
    case Removed(pid) => tree - {pid}
  }

  /** The tree after a history. */
  function TreeAfter(trace: seq<Op>): Tree {
    if trace == [] then map[] else Apply(TreeAfter(trace[..|trace| - 1]), trace[|trace| - 1])
  }

  // --- Meaning of the flag --------------------------------------------------------------------

  predicate IsExec(op: Op) {
    op.Seen? && op.event.kind == EVENT_EXEC
  }

  /** The step decides what the tree says about a process. */
  predicate Decides(op: Op, pid: nat) {
    match op
    case Seen(e) => e.kind == EVENT_EXEC && e.pid == pid
    case Registered(p, _, _, _) => p == pid
    case Removed(p) => p == pid
  }

  /** Step j is the last of the first n that decides about the process. */
  ghost predicate Latest(trace: seq<Op>, n: nat, pid: nat, j: nat)
    requires n <= |trace|
  {
    j < n && Decides(trace[j], pid) && forall k | j < k < n :: !Decides(trace[k], pid)
  }

  /** Where a flag comes from: the entry rule, or a registration that forces it. */
  predicate Origin(op: Op) {
    (IsExec(op) && EntryRule(op.event)) || (op.Registered? && op.force)
  }

  /** The process descends from an origin: each link is the exec in force when its child's exec happened. */
  ghost predicate Descends(trace: seq<Op>, n: nat, pid: nat, chain: seq<nat>)
    requires n <= |trace|
    decreases |chain|
  {
    && chain != [] && Latest(trace, n, pid, chain[0])
    && (if |chain| == 1 then Origin(trace[chain[0]])
        else IsExec(trace[chain[0]]) && Descends(trace, chain[0], trace[chain[0]].event.ppid, chain[1..]))
  }

  lemma {:induction false} PrefixTree(trace: seq<Op>, n: nat)
    requires 0 < n <= |trace|
    ensures TreeAfter(trace[..n]) == Apply(TreeAfter(trace[..n - 1]), trace[n - 1])
  {
    assert trace[..n][..n - 1] == trace[..n - 1];
  }

  /** Steps that do not decide about a process leave its entry alone. */
  lemma {:induction false} EntryStays(trace: seq<Op>, j: nat, n: nat, pid: nat)
    requires j <= n <= |trace| && forall k | j <= k < n :: !Decides(trace[k], pid)
    ensures pid in TreeAfter(trace[..n]) <==> pid in TreeAfter(trace[..j])
    ensures pid in TreeAfter(trace[..n]) ==> TreeAfter(trace[..n])[pid] == TreeAfter(trace[..j])[pid]
    decreases n - j
  {
    hide TreeAfter;
    if j < n {
      EntryStays(trace, j, n - 1, pid);
      PrefixTree(trace, n);
    }
  }

  lemma {:induction false} FindLatest(trace: seq<Op>, n: nat, pid: nat) returns (found: bool, j: nat)
    requires n <= |trace|
    ensures found ==> Latest(trace, n, pid, j)
    ensures !found ==> forall k | 0 <= k < n :: !Decides(trace[k], pid)
  {
    if n == 0 {
      found, j := false, 0;
    } else if Decides(trace[n - 1], pid) {
      found, j := true, n - 1;
    } else {
      found, j := FindLatest(trace, n - 1, pid);
    }
  }

  /** The flag after n steps is the one its latest decision gave it. */
  lemma {:induction false} LatestFlag(trace: seq<Op>, n: nat, pid: nat, j: nat)
    requires n <= |trace| && Latest(trace, n, pid, j)
    ensures Flagged(TreeAfter(trace[..n]), pid)
            <==> Origin(trace[j]) || (IsExec(trace[j]) && Flagged(TreeAfter(trace[..j]), trace[j].event.ppid))
  {
    hide TreeAfter;
    PrefixTree(trace, j + 1);
    EntryStays(trace, j + 1, n, pid);
  }

  lemma {:induction false} DescentFlags(trace: seq<Op>, n: nat, pid: nat, chain: seq<nat>)
    requires n <= |trace| && Descends(trace, n, pid, chain)
    ensures Flagged(TreeAfter(trace[..n]), pid)
    decreases |chain|
  {
    hide TreeAfter;
    LatestFlag(trace, n, pid, chain[0]);
    if |chain| > 1 {
      DescentFlags(trace, chain[0], trace[chain[0]].event.ppid, chain[1..]);
    }
  }

  lemma {:induction false} FlagDescends(trace: seq<Op>, n: nat, pid: nat) returns (chain: seq<nat>)
    requires n <= |trace| && Flagged(TreeAfter(trace[..n]), pid)
    ensures Descends(trace, n, pid, chain)
    decreases n
  {
    hide TreeAfter, Origin;
    var found, j := FindLatest(trace, n, pid);
    if !found {
      EntryStays(trace, 0, n, pid);
      EmptyTree(trace);
      assert false;
    }
    LatestFlag(trace, n, pid, j);
    if Origin(trace[j]) {
      chain := [j];
    } else {
      var rest := FlagDescends(trace, j, trace[j].event.ppid);
      chain := [j] + rest;
      assert chain[1..] == rest;
    }
  }

  lemma EmptyTree(trace: seq<Op>)
    ensures TreeAfter(trace[..0]) == map[]
  {
  }

  /**
   In every history, an exec flags its process exactly when the parent is flagged, or a shell or interpreter is
   started by any process but the first; the flags of all others stand, and other events change no flag.
   */
  lemma {:induction false} ExecFlags(trace: seq<Op>, e: Event, pid: nat)
    ensures var before, after := TreeAfter(trace), TreeAfter(trace + [Seen(e)]);
            Flagged(after, pid) <==>
              if e.kind == 1 && e.pid == pid
              then Flagged(before, e.ppid) || (e.ppid >= 2 && e.comm in ["sh", "bash", "node", "python"])
              else Flagged(before, pid)
  {
    assert (trace + [Seen(e)])[..|trace|] == trace;
  }

  /** A process is flagged exactly when it descends from an origin, in every history. */
  lemma {:induction false} FlagMeansDescent(trace: seq<Op>, pid: nat)
    ensures Flagged(TreeAfter(trace), pid) <==> exists chain :: Descends(trace, |trace|, pid, chain)
  {
    hide TreeAfter, Descends;
    assert trace[..|trace|] == trace;
    if Flagged(TreeAfter(trace), pid) {
      var chain := FlagDescends(trace, |trace|, pid);
    }
    forall chain | Descends(trace, |trace|, pid, chain) ensures Flagged(TreeAfter(trace), pid) {
      DescentFlags(trace, |trace|, pid, chain);
    }
  }

  // --- Histories in which a process execs once ------------------------------------------------

  /** Only traced events, and no process execs twice. */
  ghost predicate ExecOnce(trace: seq<Op>) {
    && (forall i | 0 <= i < |trace| :: trace[i].Seen?)
    && forall i, j | 0 <= i < j < |trace| && IsExec(trace[i]) && IsExec(trace[j]) :: trace[i].event.pid != trace[j].event.pid
  }

  /** A line of recorded ancestors, the process itself first, each recorded before its child, the last met the entry rule. */
  ghost predicate Ancestry(trace: seq<Op>, n: nat, pid: nat, line: seq<nat>)
    requires n <= |trace|
    decreases |line|
  {
    && line != [] && line[0] < n && IsExec(trace[line[0]]) && trace[line[0]].event.pid == pid
    && (if |line| == 1 then EntryRule(trace[line[0]].event)
        else Ancestry(trace, line[0], trace[line[0]].event.ppid, line[1..]))
  }

  lemma {:induction false} AncestryDescends(trace: seq<Op>, n: nat, pid: nat, line: seq<nat>)
    requires n <= |trace| && ExecOnce(trace)
    ensures Ancestry(trace, n, pid, line) <==> Descends(trace, n, pid, line)
    decreases |line|
  {
    if line != [] && line[0] < n && IsExec(trace[line[0]]) && |line| > 1 {
      AncestryDescends(trace, line[0], trace[line[0]].event.ppid, line[1..]);
    }
  }

  /** When no process execs twice, a flag means that the process or a recorded ancestor met the entry rule. */
  lemma {:induction false} FlagMeansAncestry(trace: seq<Op>, pid: nat)
    requires ExecOnce(trace)
    ensures Flagged(TreeAfter(trace), pid) <==> exists line :: Ancestry(trace, |trace|, pid, line)
  {
    hide TreeAfter, Descends, Ancestry, ExecOnce;
    FlagMeansDescent(trace, pid);
    if line :| Ancestry(trace, |trace|, pid, line) {
      AncestryDescends(trace, |trace|, pid, line);
    }
    if chain :| Descends(trace, |trace|, pid, chain) {
      AncestryDescends(trace, |trace|, pid, chain);
    }
  }
}
