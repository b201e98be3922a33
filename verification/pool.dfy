/**
 The shared thread pool as a step system: a locked queue, a count of busy workers, one condition
 variable that wakes workers and one that wakes whoever waits for all tasks.
 */
module ThreadPool {

  /** A worker looks at the queue, sleeps, holds a task not yet run, holds a task already run, or is gone. */
  datatype Phase = Ready | Asleep | Working(task: nat) | Finishing(task: nat) | Exited

  /** A client is elsewhere, asleep, about to check again, or back from its wait. */
  datatype Client = Away | Blocked | Checking | Returned

  /** `signals` are notifications of a new task that no worker has received yet; any number of clients share the pool. */
  datatype Pool = Pool(queue: seq<nat>, workers: seq<Phase>, active: int, stop: bool, signals: nat, clients: seq<Client>,
                       submitted: seq<nat>, finished: multiset<nat>, results: map<nat, nat>)

  datatype Step =
    | Enqueue(task: nat)
    | Wait(c: nat)
    | Stop
    | Signal(w: nat)
    | LostSignal
    | Spurious(w: nat)
    | SpuriousClient(c: nat)
    | Rest(w: nat)
    | Take(w: nat)
    | Run(w: nat)
    | Release(w: nat)
    | Exit(w: nat)
    | Check(c: nat)

  predicate Idle(s: Pool) {
    s.queue == [] && s.active == 0
  }

  predicate Enabled(s: Pool, step: Step) {
    match step
    case Enqueue(t) => !s.stop && t !in s.submitted
    case Wait(c) => c < |s.clients| && (s.clients[c].Away? || s.clients[c].Returned?)
    case Stop => !s.stop
    case Signal(w) => s.signals > 0 && w < |s.workers| && s.workers[w].Asleep?
    case LostSignal => s.signals > 0 && forall w | 0 <= w < |s.workers| :: !s.workers[w].Asleep?
    case Spurious(w) => w < |s.workers| && s.workers[w].Asleep?
    case SpuriousClient(c) => c < |s.clients| && s.clients[c].Blocked?
    case Rest(w) => w < |s.workers| && s.workers[w].Ready? && !s.stop && s.queue == []
    case Take(w) => w < |s.workers| && s.workers[w].Ready? && s.queue != []
    case Run(w) => w < |s.workers| && s.workers[w].Working?
    case Release(w) => w < |s.workers| && s.workers[w].Finishing?
    case Exit(w) => w < |s.workers| && s.workers[w].Ready? && s.stop && s.queue == []
    case Check(c) => c < |s.clients| && s.clients[c].Checking?
  }

  /** What a step does; task t computes work(t) and writes result slot t only. */
  function After(s: Pool, step: Step, work: nat -> nat): Pool
    requires Enabled(s, step)
  {
    match step
    case Enqueue(t) => s.(queue := s.queue + [t], submitted := s.submitted + [t], signals := s.signals + 1)
    case Wait(c) => s.(clients := s.clients[c := Looked(s)])
    case Stop => s.(stop := true, workers := Woken(s.workers))
    case Signal(w) => s.(signals := s.signals - 1, workers := s.workers[w := Ready])
    case LostSignal => s.(signals := s.signals - 1)
    case Spurious(w) => s.(workers := s.workers[w := Ready])
    case SpuriousClient(c) => s.(clients := s.clients[c := Checking])
    case Rest(w) => s.(workers := s.workers[w := Asleep])
    case Take(w) => s.(queue := s.queue[1..], active := s.active + 1, workers := s.workers[w := Working(s.queue[0])])
    case Run(w) =>
      var t := s.workers[w].task;
      s.(results := s.results[t := work(t)], workers := s.workers[w := Finishing(t)])
    case Release(w) =>
      s.(active := s.active - 1, finished := s.finished + multiset{s.workers[w].task}, workers := s.workers[w := Ready],
         clients := Notified(s.clients, s.queue == [] && s.active - 1 == 0))
    case Exit(w) => s.(workers := s.workers[w := Exited])
    case Check(c) => s.(clients := s.clients[c := Looked(s)])
  }

  /** A client that looks returns if nothing is queued or running, and sleeps otherwise. */
  function Looked(s: Pool): Client {
    if Idle(s) then Returned else Blocked
  }

  /** The last worker to finish wakes every sleeping client. */
  function Notified(clients: seq<Client>, idle: bool): (r: seq<Client>)
    ensures |r| == |clients|
    ensures forall i | 0 <= i < |clients| :: r[i] == if idle && clients[i].Blocked? then Checking else clients[i]
  {
    seq(|clients|, i requires 0 <= i < |clients| => if idle && clients[i].Blocked? then Checking else clients[i])
  }

  function Woken(workers: seq<Phase>): (r: seq<Phase>)
    ensures |r| == |workers|
    ensures forall i | 0 <= i < |workers| :: r[i] == if workers[i].Asleep? then Ready else workers[i]
  {
    seq(|workers|, i requires 0 <= i < |workers| => if workers[i].Asleep? then Ready else workers[i])
  }

  // --- Bookkeeping ----------------------------------------------------------------------------

  predicate Busy(p: Phase) {
    p.Working? || p.Finishing?
  }

  /** Number of workers holding a task. */
  function BusyCount(workers: seq<Phase>): nat {
    if workers == [] then 0 else BusyCount(workers[..|workers| - 1]) + if Busy(workers[|workers| - 1]) then 1 else 0
  }

  /** The tasks that workers hold. */
  function Held(workers: seq<Phase>): multiset<nat> {
    if workers == [] then multiset{} else Held(workers[..|workers| - 1]) + HeldBy(workers[|workers| - 1])
  }

  function HeldBy(p: Phase): multiset<nat> {
    if Busy(p) then multiset{p.task} else multiset{}
  }

  /** A worker without a task takes on a phase. */
  lemma {:induction false} Gains(workers: seq<Phase>, w: nat, p: Phase)
    requires w < |workers| && !Busy(workers[w])
    ensures BusyCount(workers[w := p]) == BusyCount(workers) + if Busy(p) then 1 else 0
    ensures Held(workers[w := p]) == Held(workers) + HeldBy(p)
    decreases |workers|
  {
    hide HeldBy;
    var k := |workers| - 1;
    NothingHeld(workers[w]);
    if w == k {
      assert workers[w := p][..k] == workers[..k];
    } else {
      Gains(workers[..k], w, p);
      assert workers[w := p][..k] == workers[..k][w := p];
      Reorder(Held(workers[..k]), HeldBy(p), HeldBy(workers[k]));
    }
  }

  lemma NothingHeld(p: Phase)
    requires !Busy(p)
    ensures HeldBy(p) == multiset{}
  {
  }

  lemma Reorder(a: multiset<nat>, b: multiset<nat>, c: multiset<nat>)
    ensures a + b + c == a + c + b
  {
  }

  /** A worker gives up its task. */
  lemma {:induction false} Loses(workers: seq<Phase>, w: nat, p: Phase)
    requires w < |workers| && Busy(workers[w]) && !Busy(p)
    ensures BusyCount(workers[w := p]) == BusyCount(workers) - 1
    ensures Held(workers) == Held(workers[w := p]) + multiset{workers[w].task}
  {
    hide BusyCount, Held;
    Gains(workers[w := p], w, workers[w]);
    assert workers[w := p][w := workers[w]] == workers;
  }

  /** Workers that hold the same tasks. */
  lemma {:induction false} SameHolders(a: seq<Phase>, b: seq<Phase>)
    requires |a| == |b| && forall i | 0 <= i < |a| :: Busy(a[i]) == Busy(b[i]) && (Busy(a[i]) ==> a[i].task == b[i].task)
    ensures BusyCount(a) == BusyCount(b) && Held(a) == Held(b)
  {
    if a != [] {
      SameHolders(a[..|a| - 1], b[..|b| - 1]);
    }
  }

  lemma {:induction false} NoneHeld(workers: seq<Phase>)
    requires BusyCount(workers) == 0
    ensures Held(workers) == multiset{} && forall i | 0 <= i < |workers| :: !Busy(workers[i])
  {
    if workers != [] {
      NoneHeld(workers[..|workers| - 1]);
    }
  }

  lemma {:induction false} SomeHeld(workers: seq<Phase>) returns (w: nat)
    requires BusyCount(workers) > 0
    ensures w < |workers| && Busy(workers[w])
  {
    if Busy(workers[|workers| - 1]) {
      w := |workers| - 1;
    } else {
      w := SomeHeld(workers[..|workers| - 1]);
    }
  }

  // --- Safety ---------------------------------------------------------------------------------

  predicate Balanced(queued: multiset<nat>, held: multiset<nat>, finished: multiset<nat>, submitted: multiset<nat>) {
    queued + held + finished == submitted
  }

  lemma BalancedMoves(q: multiset<nat>, h: multiset<nat>, f: multiset<nat>, all: multiset<nat>, t: multiset<nat>)
    ensures Balanced(q, h, f, all) ==> Balanced(q + t, h, f, all + t)
    ensures Balanced(q + t, h, f, all) ==> Balanced(q, h + t, f, all)
    ensures Balanced(q, h + t, f, all) ==> Balanced(q, h, f + t, all)
  {
  }

  /** Every submitted task is in exactly one place, and the busy count counts the workers holding one. */
  predicate Accounted(s: Pool) {
    && Balanced(multiset(s.queue), Held(s.workers), s.finished, multiset(s.submitted))
    && s.active == BusyCount(s.workers)
    && forall i, j | 0 <= i < j < |s.submitted| :: s.submitted[i] != s.submitted[j]
  }

  /** Tasks that ran left their result. */
  ghost predicate Computed(s: Pool, work: nat -> nat) {
    && (forall t | t in s.finished :: t in s.results && s.results[t] == work(t))
    && forall w | 0 <= w < |s.workers| && s.workers[w].Finishing? ::
         s.workers[w].task in s.results && s.results[s.workers[w].task] == work(s.workers[w].task)
  }

  /** A blocked client still has something to wait for. */
  predicate WaiterSound(s: Pool) {
    forall c | 0 <= c < |s.clients| :: ClientSound(s, s.clients[c])
  }

  predicate ClientSound(s: Pool, client: Client) {
    client.Blocked? ==> !Idle(s)
  }

  /** Queued work has a worker that will look at the queue, or a signal under way to a sleeper. */
  ghost predicate Attended(s: Pool) {
    && (s.queue != [] ==> s.signals > 0 || exists w :: 0 <= w < |s.workers| && Awake(s.workers[w]))
    && (forall w | 0 <= w < |s.workers| && s.workers[w].Exited? :: s.stop && s.queue == [])
    && (s.stop ==> forall w | 0 <= w < |s.workers| :: !s.workers[w].Asleep?)
  }

  predicate Awake(p: Phase) {
    p.Ready? || Busy(p)
  }

  ghost predicate Inv(s: Pool, work: nat -> nat) {
    |s.workers| > 0 && Accounted(s) && Computed(s, work) && WaiterSound(s) && Attended(s)
  }

  /** A pool of n workers and m clients with nothing submitted. */
  function Start(n: nat, m: nat): Pool {
    Pool([], seq(n, i => Ready), 0, false, 0, seq(m, i => Away), [], multiset{}, map[])
  }

  lemma {:induction false} StartInv(n: nat, m: nat, work: nat -> nat)
    requires n > 0
    ensures Inv(Start(n, m), work)
  {
    AllIdle(Start(n, m).workers);
  }

  lemma {:induction false} AllIdle(workers: seq<Phase>)
    requires forall i | 0 <= i < |workers| :: !Busy(workers[i])
    ensures BusyCount(workers) == 0 && Held(workers) == multiset{}
  {
    if workers != [] {
      AllIdle(workers[..|workers| - 1]);
    }
  }

  lemma {:induction false} AccountedStep(s: Pool, step: Step, work: nat -> nat)
    requires Accounted(s) && Enabled(s, step)
    ensures Accounted(After(s, step, work))
  {
    hide Accounted, BusyCount, Held;
    match step
    case Enqueue(t) => AccountedEnqueue(s, t, work);
    case Take(w) => AccountedTake(s, w, work);
    case Release(w) => AccountedRelease(s, w, work);
    case Run(w) => AccountedQuiet(s, step, work);
    case Stop => AccountedQuiet(s, step, work);
    case Signal(w) => AccountedQuiet(s, step, work);
    case Spurious(w) => AccountedQuiet(s, step, work);
    case Rest(w) => AccountedQuiet(s, step, work);
    case Exit(w) => AccountedQuiet(s, step, work);
    case Wait(c) => AccountedQuiet(s, step, work);
    case LostSignal => AccountedQuiet(s, step, work);
    case SpuriousClient(c) => AccountedQuiet(s, step, work);
    case Check(c) => AccountedQuiet(s, step, work);
  }

  lemma {:induction false} AccountedQuiet(s: Pool, step: Step, work: nat -> nat)
    requires Accounted(s) && Enabled(s, step) && !step.Enqueue? && !step.Take? && !step.Release?
    ensures Accounted(After(s, step, work))
  {
    hide BusyCount, Held, Balanced;
    SameHolders(s.workers, After(s, step, work).workers);
  }

  lemma {:induction false} AccountedEnqueue(s: Pool, t: nat, work: nat -> nat)
    requires Accounted(s) && Enabled(s, Enqueue(t))
    ensures Accounted(After(s, Enqueue(t), work))
  {
    hide BusyCount, Held, Balanced;
    assert forall i | 0 <= i < |s.submitted| :: s.submitted[i] in s.submitted;
    assert multiset(s.queue + [t]) == multiset(s.queue) + multiset{t};
    BalancedMoves(multiset(s.queue), Held(s.workers), s.finished, multiset(s.submitted), multiset{t});
  }

  lemma QueueHead(queue: seq<nat>)
    requires queue != []
    ensures multiset(queue) == multiset(queue[1..]) + multiset{queue[0]}
  {
    assert queue == [queue[0]] + queue[1..];
  }

  lemma {:induction false} AccountedTake(s: Pool, w: nat, work: nat -> nat)
    requires Accounted(s) && Enabled(s, Take(w))
    ensures Accounted(After(s, Take(w), work))
  {
    hide BusyCount, Held, Balanced, Woken, Notified, Idle;
    var t := s.queue[0];
    Gains(s.workers, w, Working(t));
    QueueHead(s.queue);
    BalancedMoves(multiset(s.queue[1..]), Held(s.workers), s.finished, multiset(s.submitted), multiset{t});
  }

  lemma {:induction false} AccountedRelease(s: Pool, w: nat, work: nat -> nat)
    requires Accounted(s) && Enabled(s, Release(w))
    ensures Accounted(After(s, Release(w), work))
  {
    hide BusyCount, Held, Balanced;
    var t := s.workers[w].task;
    Loses(s.workers, w, Ready);
    BalancedMoves(multiset(s.queue), Held(s.workers[w := Ready]), s.finished, multiset(s.submitted), multiset{t});
  }

  lemma {:induction false} ComputedStep(s: Pool, step: Step, work: nat -> nat)
    requires Computed(s, work) && Enabled(s, step)
    ensures Computed(After(s, step, work), work)
  {
    if step.Run? {
      ComputedRun(s, step.w, work);
    } else if step.Release? {
      ComputedRelease(s, step.w, work);
    } else {
      hide Idle, Notified;
      var s' := After(s, step, work);
      assert s'.finished == s.finished && s'.results == s.results;
      forall w | 0 <= w < |s'.workers| && s'.workers[w].Finishing? ensures s'.workers[w] == s.workers[w] {
      }
    }
  }

  lemma ComputedRun(s: Pool, w: nat, work: nat -> nat)
    requires Computed(s, work) && Enabled(s, Run(w))
    ensures Computed(After(s, Run(w), work), work)
  {
  }

  lemma ComputedRelease(s: Pool, w: nat, work: nat -> nat)
    requires Computed(s, work) && Enabled(s, Release(w))
    ensures Computed(After(s, Release(w), work), work)
  {
    hide Notified;
    var t := s.workers[w].task;
    assert forall u | u in s.finished + multiset{t} :: u in s.finished || u == t;
  }

  lemma {:induction false} WaiterStep(s: Pool, step: Step, work: nat -> nat)
    requires Accounted(s) && WaiterSound(s) && Enabled(s, step)
    ensures WaiterSound(After(s, step, work))
  {
    hide After, Enabled, Accounted, ClientSound, BusyCount, Held;
    SameClients(s, step, work);
    forall c | 0 <= c < |s.clients| ensures ClientSound(After(s, step, work), After(s, step, work).clients[c]) {
      if step.Release? {
        ReleaseClient(s, step.w, work, c);
      } else if step.Wait? || step.Check? {
        LookClient(s, step, work, c);
      } else {
        OtherClient(s, step, work, c);
      }
    }
  }

  lemma SameClients(s: Pool, step: Step, work: nat -> nat)
    requires Enabled(s, step)
    ensures |After(s, step, work).clients| == |s.clients|
  {
    hide Idle, Woken;
  }

  lemma ReleaseClient(s: Pool, w: nat, work: nat -> nat, c: nat)
    requires Enabled(s, Release(w)) && c < |s.clients| && ClientSound(s, s.clients[c])
    ensures |After(s, Release(w), work).clients| == |s.clients|
    ensures ClientSound(After(s, Release(w), work), After(s, Release(w), work).clients[c])
  {
  }

  lemma LookClient(s: Pool, step: Step, work: nat -> nat, c: nat)
    requires Enabled(s, step) && (step.Wait? || step.Check?)
    requires c < |s.clients| && ClientSound(s, s.clients[c])
    ensures |After(s, step, work).clients| == |s.clients|
    ensures ClientSound(After(s, step, work), After(s, step, work).clients[c])
  {
  }

  lemma {:induction false} OtherClient(s: Pool, step: Step, work: nat -> nat, c: nat)
    requires Accounted(s) && Enabled(s, step) && !step.Release? && !step.Wait? && !step.Check?
    requires c < |s.clients| && ClientSound(s, s.clients[c])
    ensures |After(s, step, work).clients| == |s.clients|
    ensures ClientSound(After(s, step, work), After(s, step, work).clients[c])
  {
    hide BusyCount, Held, Balanced, Woken, Notified;
  }

  /** With an empty queue and no busy worker, exactly the submitted tasks are finished. */
  lemma {:induction false} IdleFinished(s: Pool)
    requires Accounted(s) && Idle(s)
    ensures s.finished == multiset(s.submitted)
  {
    hide BusyCount, Held;
    NoneHeld(s.workers);
  }

  /** A worker that finishes wakes every sleeping client if it leaves the pool idle, and none otherwise. */
  lemma WokenWhenIdle(s: Pool, w: nat, work: nat -> nat, c: nat)
    requires Enabled(s, Release(w)) && c < |s.clients|
    ensures var s' := After(s, Release(w), work);
            && |s'.clients| == |s.clients|
            && s'.clients[c] == if s.clients[c].Blocked? && s'.queue == [] && s'.active == 0 then Checking else s.clients[c]
  {
  }

  lemma {:induction false} AttendedStep(s: Pool, step: Step, work: nat -> nat)
    requires |s.workers| > 0 && Attended(s) && Enabled(s, step)
    ensures Attended(After(s, step, work))
  {
    hide Idle, Notified;
    var s' := After(s, step, work);
    match step
    case Enqueue(t) =>
    case Wait(c) =>
    case Stop =>
      if w :| 0 <= w < |s.workers| && Awake(s.workers[w]) {
        assert Awake(s'.workers[w]);
      }
    case Signal(w) => assert Awake(s'.workers[w]);
    case LostSignal =>
      if s.queue != [] {
        assert Awake(s.workers[0]);
      }
    case Spurious(w) => assert Awake(s'.workers[w]);
    case SpuriousClient(c) =>
    case Rest(w) =>
    case Take(w) => assert Awake(s'.workers[w]);
    case Run(w) => assert Awake(s'.workers[w]);
    case Release(w) => assert Awake(s'.workers[w]);
    case Exit(w) =>
    case Check(c) =>
  }

  lemma {:induction false} InvStep(s: Pool, step: Step, work: nat -> nat)
    requires Inv(s, work) && Enabled(s, step)
    ensures Inv(After(s, step, work), work)
  {
    hide Accounted, Computed, WaiterSound, Attended, Enabled;
    AccountedStep(s, step, work);
    ComputedStep(s, step, work);
    WaiterStep(s, step, work);
    AttendedStep(s, step, work);
    SameWorkers(s, step, work);
  }

  lemma SameWorkers(s: Pool, step: Step, work: nat -> nat)
    requires Enabled(s, step)
    ensures |After(s, step, work).workers| == |s.workers|
  {
  }

  // --- Whole runs -----------------------------------------------------------------------------

  /** The steps can be taken one after another. */
  predicate Runs(s: Pool, steps: seq<Step>, work: nat -> nat)
    decreases |steps|
  {
    steps == [] || (Enabled(s, steps[0]) && Runs(After(s, steps[0], work), steps[1..], work))
  }

  /** The pool after the first k steps. */
  function At(s: Pool, steps: seq<Step>, work: nat -> nat, k: nat): Pool
    requires Runs(s, steps, work) && k <= |steps|
    decreases k
  {
    if k == 0 then s else At(After(s, steps[0], work), steps[1..], work, k - 1)
  }

  function End(s: Pool, steps: seq<Step>, work: nat -> nat): Pool
    requires Runs(s, steps, work)
  {
    At(s, steps, work, |steps|)
  }

  lemma {:induction false} AtStep(s: Pool, steps: seq<Step>, work: nat -> nat, k: nat)
    requires Runs(s, steps, work) && k < |steps|
    ensures Enabled(At(s, steps, work, k), steps[k])
    ensures At(s, steps, work, k + 1) == After(At(s, steps, work, k), steps[k], work)
    decreases k
  {
    hide Enabled, After;
    if k > 0 {
      AtStep(After(s, steps[0], work), steps[1..], work, k - 1);
    }
  }

  lemma {:induction false} InvAt(s: Pool, steps: seq<Step>, work: nat -> nat, k: nat)
    requires Inv(s, work) && Runs(s, steps, work) && k <= |steps|
    ensures Inv(At(s, steps, work, k), work)
    decreases k
  {
    hide Inv, Enabled, After;
    if k > 0 {
      InvStep(s, steps[0], work);
      InvAt(After(s, steps[0], work), steps[1..], work, k - 1);
    }
  }

  lemma {:induction false} InvRun(s: Pool, steps: seq<Step>, work: nat -> nat)
    requires Inv(s, work) && Runs(s, steps, work)
    ensures Inv(End(s, steps, work), work)
  {
    hide Inv, Runs;
    InvAt(s, steps, work, |steps|);
  }

  /** What has been submitted is what the steps taken have enqueued. */
  lemma {:induction false} SubmittedAt(s: Pool, steps: seq<Step>, work: nat -> nat, k: nat, t: nat)
    requires Runs(s, steps, work) && k <= |steps|
    ensures t in At(s, steps, work, k).submitted <==> t in s.submitted || Enqueue(t) in steps[..k]
    decreases k
  {
    hide Enabled, Idle;
    if k > 0 {
      SubmittedAt(After(s, steps[0], work), steps[1..], work, k - 1, t);
      assert steps[..k] == [steps[0]] + steps[1..][..k - 1];
    }
  }

  lemma {:induction false} FinishedStays(s: Pool, steps: seq<Step>, work: nat -> nat, j: nat, k: nat, t: nat)
    requires Runs(s, steps, work) && j <= k <= |steps| && t in At(s, steps, work, j).finished
    ensures t in At(s, steps, work, k).finished
    decreases k - j
  {
    hide Enabled, Idle, Runs, At;
    if j < k {
      AtStep(s, steps, work, j);
      FinishedStays(s, steps, work, j + 1, k, t);
    }
  }

  /** In every run, every submitted task is queued, held by one worker or finished, and only one of these. */
  lemma {:induction false} TasksConserved(n: nat, m: nat, steps: seq<Step>, work: nat -> nat, t: nat)
    requires n > 0 && Runs(Start(n, m), steps, work)
    ensures var s := End(Start(n, m), steps, work);
            multiset(s.queue)[t] + Held(s.workers)[t] + s.finished[t] == if Enqueue(t) in steps then 1 else 0
  {
    hide Held, After, Enabled, BusyCount, Runs, At;
    StartInv(n, m, work);
    InvRun(Start(n, m), steps, work);
    var s := End(Start(n, m), steps, work);
    OnceEach(s.submitted, t);
    SubmittedAt(Start(n, m), steps, work, |steps|, t);
    assert steps[..|steps|] == steps;
    assert (multiset(s.queue) + Held(s.workers) + s.finished)[t] == multiset(s.submitted)[t];
  }

  lemma {:induction false} OnceEach(q: seq<nat>, t: nat)
    requires forall i, j | 0 <= i < j < |q| :: q[i] != q[j]
    ensures multiset(q)[t] == if t in q then 1 else 0
  {
    if q != [] {
      var k := |q| - 1;
      assert q == q[..k] + [q[k]];
      OnceEach(q[..k], t);
    }
  }

  /** A client's look at the pool. */
  predicate LooksFor(step: Step, c: nat) {
    step == Wait(c) || step == Check(c)
  }

  /** A look that lets its client return sees every submitted task finished. */
  lemma {:induction false} BackWhenDone(s: Pool, step: Step, work: nat -> nat, c: nat)
    requires Inv(s, work) && LooksFor(step, c) && Enabled(s, step)
    requires c < |After(s, step, work).clients| && After(s, step, work).clients[c].Returned?
    ensures After(s, step, work).finished == multiset(After(s, step, work).submitted)
  {
    hide BusyCount, Held, Computed, WaiterSound, Attended;
    IdleFinished(s);
  }

  /**
   In every run, waiting ends only with every task enqueued by then run: if `Enqueue(t)` comes before the
   look that lets client c return, t has run once from then on, and its result is in place.
   */
  lemma {:induction false} WaitReturnsDone(n: nat, m: nat, steps: seq<Step>, work: nat -> nat, j: nat, c: nat, t: nat)
    requires n > 0 && Runs(Start(n, m), steps, work) && j < |steps| && LooksFor(steps[j], c) && Enqueue(t) in steps[..j]
    requires var s := At(Start(n, m), steps, work, j + 1); c < |s.clients| && s.clients[c].Returned?
    ensures var s := End(Start(n, m), steps, work); s.finished[t] == 1 && t in s.results && s.results[t] == work(t)
  {
    hide Held, After, Enabled, BusyCount, Runs, At, LooksFor, Accounted, WaiterSound, Attended;
    StartInv(n, m, work);
    InvAt(Start(n, m), steps, work, j);
    AtStep(Start(n, m), steps, work, j);
    BackWhenDone(At(Start(n, m), steps, work, j), steps[j], work, c);
    SubmittedAt(Start(n, m), steps, work, j + 1, t);
    assert Enqueue(t) in steps[..j + 1];
    FinishedStays(Start(n, m), steps, work, j + 1, |steps|, t);
    InvRun(Start(n, m), steps, work);
    TasksConserved(n, m, steps, work, t);
  }

  /** Shutting down drains the queue: when all workers are gone every enqueued task has run. */
  lemma {:induction false} ShutdownDrains(n: nat, m: nat, steps: seq<Step>, work: nat -> nat, t: nat)
    requires n > 0 && Runs(Start(n, m), steps, work) && Enqueue(t) in steps
    requires forall w | 0 <= w < |End(Start(n, m), steps, work).workers| :: End(Start(n, m), steps, work).workers[w].Exited?
    ensures var s := End(Start(n, m), steps, work); s.finished[t] == 1 && t in s.results && s.results[t] == work(t)
  {
    hide After, Enabled, Inv, At, Runs, Held;
    StartInv(n, m, work);
    InvRun(Start(n, m), steps, work);
    SubmittedAt(Start(n, m), steps, work, |steps|, t);
    assert steps[..|steps|] == steps;
    LeftDrained(End(Start(n, m), steps, work), work);
    TasksConserved(n, m, steps, work, t);
  }

  // --- Progress -------------------------------------------------------------------------------

  /** Steps the pool takes by itself, leaving out wake-ups for no reason. */
  predicate Internal(step: Step) {
    step.Signal? || step.LostSignal? || step.Rest? || step.Take? || step.Run? || step.Release? || step.Exit? || step.Check?
  }

  /** Steps a worker can still cause, when finishing may wake m clients. */
  function Weight(p: Phase, m: nat): nat {
    match p
    case Ready => 1
    case Asleep => 0
    case Working(_) => m + 3
    case Finishing(_) => m + 2
    case Exited => 0
  }

  function Weights(workers: seq<Phase>, m: nat): nat {
    if workers == [] then 0 else Weights(workers[..|workers| - 1], m) + Weight(workers[|workers| - 1], m)
  }

  /** Clients about to look again. */
  function Looking(clients: seq<Client>): (n: nat)
    ensures n <= |clients|
  {
    if clients == [] then 0
    else Looking(clients[..|clients| - 1]) + if clients[|clients| - 1].Checking? then 1 else 0
  }

  /** Queued tasks, each with the steps it can cause. */
  function QueueWeight(queue: seq<nat>, m: nat): nat {
    if queue == [] then 0 else QueueWeight(queue[1..], m) + m + 3
  }

  /** Bounds the steps left until the pool rests. */
  function Measure(s: Pool): nat {
    QueueWeight(s.queue, |s.clients|) + 2 * s.signals + Weights(s.workers, |s.clients|) + Looking(s.clients)
  }

  lemma {:induction false} WeightChange(workers: seq<Phase>, m: nat, w: nat, p: Phase)
    requires w < |workers|
    ensures Weights(workers[w := p], m) == Weights(workers, m) - Weight(workers[w], m) + Weight(p, m)
    decreases |workers|
  {
    var k := |workers| - 1;
    if w == k {
      assert workers[w := p][..k] == workers[..k];
    } else {
      WeightChange(workers[..k], m, w, p);
      assert workers[w := p][..k] == workers[..k][w := p];
    }
  }

  lemma {:induction false} LookingLess(clients: seq<Client>, c: nat, client: Client)
    requires c < |clients| && clients[c].Checking? && !client.Checking?
    ensures Looking(clients[c := client]) == Looking(clients) - 1
    decreases |clients|
  {
    var k := |clients| - 1;
    if c == k {
      assert clients[c := client][..k] == clients[..k];
    } else {
      LookingLess(clients[..k], c, client);
      assert clients[c := client][..k] == clients[..k][c := client];
    }
  }

  lemma {:induction false} MeasureFalls(s: Pool, step: Step, work: nat -> nat)
    requires Enabled(s, step) && Internal(step)
    ensures Measure(After(s, step, work)) < Measure(s)
  {
    hide Weights, Looking;
    var s' := After(s, step, work);
    if step.Check? {
      LookingLess(s.clients, step.c, Looked(s));
    } else if !step.LostSignal? {
      WeightChange(s.workers, |s.clients|, step.w, s'.workers[step.w]);
    }
  }

  /** Left to itself, the pool comes to rest within a known number of steps. */
  lemma {:induction false} InternalRunsEnd(s: Pool, steps: seq<Step>, work: nat -> nat)
    requires Runs(s, steps, work) && forall i | 0 <= i < |steps| :: Internal(steps[i])
    ensures |steps| + Measure(End(s, steps, work)) <= Measure(s)
    decreases |steps|
  {
    hide Enabled, After, Measure;
    if steps != [] {
      MeasureFalls(s, steps[0], work);
      InternalRunsEnd(After(s, steps[0], work), steps[1..], work);
    }
  }

  /** While some client waits, the pool can move: no wake-up is ever missed. */
  lemma {:induction false} WaitingMoves(s: Pool, work: nat -> nat, c: nat) returns (step: Step)
    requires Inv(s, work) && c < |s.clients| && (s.clients[c].Blocked? || s.clients[c].Checking?)
    ensures Internal(step) && Enabled(s, step)
  {
    hide Held, Balanced, Computed, BusyCount;
    assert ClientSound(s, s.clients[c]);
    if s.clients[c].Checking? {
      step := Check(c);
    } else if s.active != 0 {
      var w := SomeHeld(s.workers);
      step := if s.workers[w].Working? then Run(w) else Release(w);
    } else {
      NoneHeld(s.workers);
      step := QueueMoves(s);
    }
  }

  lemma {:induction false} QueueMoves(s: Pool) returns (step: Step)
    requires |s.workers| > 0 && Attended(s) && s.queue != [] && forall w | 0 <= w < |s.workers| :: !Busy(s.workers[w])
    ensures Internal(step) && Enabled(s, step)
  {
    if w :| 0 <= w < |s.workers| && Awake(s.workers[w]) {
      step := Take(w);
    } else {
      assert !s.workers[0].Exited?;
      step := Signal(0);
    }
  }

  lemma {:induction false} StillWaiting(s: Pool, steps: seq<Step>, work: nat -> nat, c: nat)
    requires Runs(s, steps, work) && forall i | 0 <= i < |steps| :: Internal(steps[i])
    requires c < |s.clients| && !s.clients[c].Away?
    ensures c < |End(s, steps, work).clients| && !End(s, steps, work).clients[c].Away?
    decreases |steps|
  {
    if steps != [] {
      StillWaiting(After(s, steps[0], work), steps[1..], work, c);
    }
  }

  /** Waiting for all tasks ends: a run that cannot go on by itself has let every client that waits, asleep or not, return. */
  lemma {:induction false} WaitEnds(s: Pool, steps: seq<Step>, work: nat -> nat, c: nat)
    requires Inv(s, work) && c < |s.clients| && !s.clients[c].Away?
    requires Runs(s, steps, work) && forall i | 0 <= i < |steps| :: Internal(steps[i])
    requires forall step | Internal(step) :: !Enabled(End(s, steps, work), step)
    ensures |steps| <= Measure(s) && c < |End(s, steps, work).clients| && End(s, steps, work).clients[c].Returned?
  {
    hide Inv, Enabled, After, Measure, Internal;
    InvRun(s, steps, work);
    InternalRunsEnd(s, steps, work);
    StillWaiting(s, steps, work, c);
    if !End(s, steps, work).clients[c].Returned? {
      var step := WaitingMoves(End(s, steps, work), work, c);
    }
  }

  // --- Shutdown -------------------------------------------------------------------------------

  lemma {:induction false} StillStopped(s: Pool, steps: seq<Step>, work: nat -> nat)
    requires Runs(s, steps, work) && s.stop
    ensures End(s, steps, work).stop
    decreases |steps|
  {
    if steps != [] {
      StillStopped(After(s, steps[0], work), steps[1..], work);
    }
  }

  /** A stopped pool that cannot go on by itself has lost all its workers. */
  lemma {:induction false} StoppedAllLeave(s: Pool, work: nat -> nat, w: nat)
    requires Inv(s, work) && s.stop && w < |s.workers|
    requires forall step | Internal(step) :: !Enabled(s, step)
    ensures s.workers[w].Exited?
  {
    hide Accounted, Computed, WaiterSound;
    assert !Enabled(s, Run(w)) && !Enabled(s, Release(w)) && !Enabled(s, Take(w)) && !Enabled(s, Exit(w));
  }

  /**
   Shutting down ends and drains: from any reachable state in which the pool was told to stop, a run
   that cannot go on by itself took a bounded number of steps, every worker has left and every
   submitted task has run once.
   */
  lemma {:induction false} ShutdownEnds(s: Pool, steps: seq<Step>, work: nat -> nat)
    requires Inv(s, work) && s.stop
    requires Runs(s, steps, work) && forall i | 0 <= i < |steps| :: Internal(steps[i])
    requires forall step | Internal(step) :: !Enabled(End(s, steps, work), step)
    ensures |steps| <= Measure(s)
    ensures var e := End(s, steps, work);
            && (forall w | 0 <= w < |e.workers| :: e.workers[w].Exited?)
            && e.finished == multiset(e.submitted) && forall t <- e.submitted :: t in e.results && e.results[t] == work(t)
  {
    hide Enabled, After, Measure, Internal, Inv;
    InvRun(s, steps, work);
    InternalRunsEnd(s, steps, work);
    StillStopped(s, steps, work);
    var e := End(s, steps, work);
    forall w | 0 <= w < |e.workers| ensures e.workers[w].Exited? {
      StoppedAllLeave(e, work, w);
    }
    LeftDrained(e, work);
  }

  /** With every worker gone, nothing is queued or held. */
  lemma {:induction false} LeftDrained(s: Pool, work: nat -> nat)
    requires Inv(s, work) && forall w | 0 <= w < |s.workers| :: s.workers[w].Exited?
    ensures s.finished == multiset(s.submitted) && forall t <- s.submitted :: t in s.results && s.results[t] == work(t)
  {
    hide Held, BusyCount, Balanced;
    AllIdle(s.workers);
    assert s.workers[0].Exited?;
    IdleFinished(s);
    assert forall t <- s.submitted :: t in multiset(s.submitted);
  }
}
