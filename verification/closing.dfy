/**
 How the collector's worker sleeps and wakes, as a step system. Queueing a record notifies the worker
 under the queue's lock. Closing stores the stop flag and notifies without that lock, so that both can
 fall between the worker's look at the queue and its going to sleep.
 */
module Closing {
  import opened Collector

  /**
   The worker is at the head of its loop, about to lock the queue, holding the lock after a look that
   found nothing or something, asleep, notified, evaluating a batch, or gone.
   */
  datatype Worker = AtLoop | Entering | Looked | Found | Asleep | Woken | Evaluating | Exited

  /** The closing thread has not begun, stored the flag, notified, or joined the worker. */
  datatype Closer = Open | Stored | Notified | Joined

  datatype State = State(worker: Worker, pending: nat, stop: bool, closer: Closer)

  datatype Step = Push | Begin | Look | Sleep | Spurious | Proceed | Evaluate(violation: bool) | Store | Notify | Join

  /** The worker holds the queue's lock. */
  predicate Holding(s: State) {
    s.worker.Looked? || s.worker.Found?
  }

  predicate Enabled(s: State, step: Step) {
    match step
    case Push => s.closer.Open? && !Holding(s)
    case Begin => s.worker.AtLoop?
    case Look => s.worker.Entering? || s.worker.Woken?
    case Sleep => s.worker.Looked?
    case Spurious => s.worker.Asleep?
    case Proceed => s.worker.Found?
    case Evaluate(_) => s.worker.Evaluating?
    case Store => s.closer.Open?
    case Notify => s.closer.Stored?
    case Join => s.closer.Notified? && s.worker.Exited?
  }

  function After(s: State, step: Step): State
    requires Enabled(s, step)
  {
    match step
    case Push => s.(pending := s.pending + 1, worker := if s.pending + 1 >= BATCH then Roused(s.worker) else s.worker)
    case Begin => s.(worker := if s.stop then Exited else Entering)
    case Look => s.(worker := if s.pending >= BATCH || s.stop then Found else Looked)
    case Sleep => s.(worker := Asleep)
    case Spurious => s.(worker := Woken)
    case Proceed =>
      if s.stop then s.(worker := Exited)
      else s.(worker := Evaluating, pending := if s.pending < BATCH then 0 else s.pending - BATCH)
    case Evaluate(violation) => s.(worker := if violation then Exited else AtLoop)
    case Store => s.(stop := true, closer := Stored)
    case Notify => s.(closer := Notified, worker := Roused(s.worker))
    case Join => s.(closer := Joined)
  }

  /** A notification reaches a worker that sleeps, and no other. */
  function Roused(w: Worker): Worker {
    if w.Asleep? then Woken else w
  }

  function Start(): State {
    State(AtLoop, 0, false, Open)
  }

  predicate Runs(s: State, steps: seq<Step>)
    decreases |steps|
  {
    steps == [] || (Enabled(s, steps[0]) && Runs(After(s, steps[0]), steps[1..]))
  }

  function End(s: State, steps: seq<Step>): State
    requires Runs(s, steps)
    decreases |steps|
  {
    if steps == [] then s else End(After(s, steps[0]), steps[1..])
  }

  // --- Batches --------------------------------------------------------------------------------

  /** A worker that sleeps or is about to has less than a batch before it; a find is real. */
  predicate Inv(s: State) {
    && (s.worker.Asleep? || s.worker.Looked? ==> s.pending < BATCH)
    && (s.worker.Found? ==> s.pending >= BATCH || s.stop)
    && s.stop == !s.closer.Open?
    && (s.closer.Joined? ==> s.worker.Exited?)
  }

  lemma {:induction false} InvRun(s: State, steps: seq<Step>)
    requires Inv(s) && Runs(s, steps)
    ensures Inv(End(s, steps))
    decreases |steps|
  {
    if steps != [] {
      InvRun(After(s, steps[0]), steps[1..]);
    }
  }

  /** In every run a full batch is noticed: with 64 records pending the worker is not asleep nor about to be. */
  lemma {:induction false} BatchNoticed(steps: seq<Step>)
    requires Runs(Start(), steps) && End(Start(), steps).pending >= 64
    ensures !End(Start(), steps).worker.Asleep? && !End(Start(), steps).worker.Looked?
  {
    InvRun(Start(), steps);
  }

  /** How many of the steps queue a record. */
  function Pushes(steps: seq<Step>): nat {
    if steps == [] then 0 else Pushes(steps[1..]) + if steps[0].Push? then 1 else 0
  }

  /** How many of the steps finish a batch. */
  function Batches(steps: seq<Step>): nat {
    if steps == [] then 0 else Batches(steps[1..]) + if steps[0].Evaluate? then 1 else 0
  }

  function InHand(s: State): nat {
    s.pending + if s.worker.Evaluating? then 64 else 0
  }

  /** In every run the records queued are those pending, in the batch in hand, and in batches of 64 already evaluated. */
  lemma {:induction false} RecordsCounted(s: State, steps: seq<Step>)
    requires Inv(s) && Runs(s, steps)
    ensures InHand(s) + Pushes(steps) == InHand(End(s, steps)) + 64 * Batches(steps)
    decreases |steps|
  {
    if steps != [] {
      InvRun(s, [steps[0]]);
      RecordsCounted(After(s, steps[0]), steps[1..]);
    }
  }

  /** In every run the worker is gone after a batch with a violation, and otherwise only once told to stop. */
  lemma {:induction false} ViolationEnds(s: State, steps: seq<Step>)
    requires Runs(s, steps)
    ensures s.worker.Exited? || Evaluate(true) in steps ==> End(s, steps).worker.Exited?
    ensures End(s, steps).worker.Exited? ==> s.worker.Exited? || Evaluate(true) in steps || End(s, steps).stop
    decreases |steps|
  {
    if steps != [] {
      ViolationEnds(After(s, steps[0]), steps[1..]);
      assert steps == [steps[0]] + steps[1..];
      StopStays(After(s, steps[0]), steps[1..]);
    }
  }

  lemma {:induction false} StopStays(s: State, steps: seq<Step>)
    requires Runs(s, steps)
    ensures s.stop ==> End(s, steps).stop
    decreases |steps|
  {
    if steps != [] {
      StopStays(After(s, steps[0]), steps[1..]);
    }
  }

  // --- Closing --------------------------------------------------------------------------------

  /** Steps that happen by themselves once closing has begun; waking for no reason is not relied on. */
  predicate Internal(step: Step) {
    step.Begin? || step.Look? || step.Sleep? || step.Proceed? || step.Evaluate? || step.Notify? || step.Join?
  }

  /** Bounds the steps left after the flag is stored. */
  function Measure(s: State): nat {
    (match s.closer case Open => 9 case Stored => 8 case Notified => 1 case Joined => 0)
    + match s.worker
      case AtLoop => 1
      case Entering => 2
      case Looked => 1
      case Found => 1
      case Asleep => 0
      case Woken => 2
      case Evaluating => 2
      case Exited => 0
  }

  lemma {:induction false} StoppedRunsEnd(s: State, steps: seq<Step>)
    requires Inv(s) && s.stop && Runs(s, steps) && forall i | 0 <= i < |steps| :: Internal(steps[i])
    ensures |steps| + Measure(End(s, steps)) <= Measure(s) && End(s, steps).stop
    decreases |steps|
  {
    if steps != [] {
      assert Internal(steps[0]);
      StoppedRunsEnd(After(s, steps[0]), steps[1..]);
    }
  }

  /** The notification missed the worker: it is asleep, or will be, and nobody will notify it again. */
  predicate Missed(s: State) {
    s.closer.Notified? && (s.worker.Looked? || s.worker.Asleep?)
  }

  predicate Told(s: State) {
    s.stop && (s.closer.Notified? || s.closer.Joined?)
  }

  lemma {:induction false} FateStays(s: State, steps: seq<Step>)
    requires Told(s) && Runs(s, steps) && forall i | 0 <= i < |steps| :: Internal(steps[i])
    ensures Told(End(s, steps)) && Missed(End(s, steps)) == Missed(s)
    decreases |steps|
  {
    if steps != [] {
      assert Internal(steps[0]);
      FateStays(After(s, steps[0]), steps[1..]);
    }
  }

  ghost predicate AtRest(s: State) {
    forall step | Internal(step) :: !Enabled(s, step)
  }

  lemma RestDecides(s: State)
    requires Inv(s) && Told(s) && AtRest(s)
    ensures s.closer.Joined? <==> !Missed(s)
    ensures Missed(s) ==> s.worker.Asleep?
  {
    assert !Enabled(s, Begin) && !Enabled(s, Look) && !Enabled(s, Sleep) && !Enabled(s, Proceed) && !Enabled(s, Join);
    assert !Enabled(s, Evaluate(true));
  }

  /**
   Closing ends exactly when the notification does not come between the worker's look and its sleep:
   every run that goes on until nothing can happen by itself is bounded, and has joined the worker if
   and only if the worker was not there when notified. Otherwise it sleeps on.
   */
  lemma {:induction false} ClosingEnds(before: seq<Step>, after: seq<Step>)
    requires Runs(Start(), before) && End(Start(), before).closer.Stored?
    requires Runs(After(End(Start(), before), Notify), after) && forall i | 0 <= i < |after| :: Internal(after[i])
    requires AtRest(End(After(End(Start(), before), Notify), after))
    ensures var s := End(Start(), before);
            var e := End(After(s, Notify), after);
            && |after| <= Measure(After(s, Notify))
            && (e.closer.Joined? <==> !s.worker.Looked?)
            && (s.worker.Looked? ==> e.worker.Asleep?)
  {
    hide Runs, End, AtRest, Measure;
    var s := End(Start(), before);
    InvRun(Start(), before);
    var s1 := After(s, Notify);
    StoppedRunsEnd(s1, after);
    FateStays(s1, after);
    InvRun(s1, after);
    RestDecides(End(s1, after));
  }

  /** A run in which the notification is lost. */
  lemma {:induction false} WakeUpLost()
    ensures var before := [Begin, Look, Store];
            && Runs(Start(), before) && End(Start(), before).closer.Stored? && End(Start(), before).worker.Looked?
            && var s := After(End(Start(), before), Notify);
               Runs(s, [Sleep]) && AtRest(End(s, [Sleep])) && !End(s, [Sleep]).closer.Joined?
  {
    var s1 := After(Start(), Begin);
    var s2 := After(s1, Look);
    var s3 := After(s2, Store);
    EndStep(Start(), Begin, [Look, Store]);
    EndStep(s1, Look, [Store]);
    EndStep(s2, Store, []);
    EndStep(After(s3, Notify), Sleep, []);
  }

  lemma EndStep(s: State, step: Step, rest: seq<Step>)
    requires Enabled(s, step)
    ensures Runs(s, [step] + rest) == Runs(After(s, step), rest)
    ensures Runs(After(s, step), rest) ==> End(s, [step] + rest) == End(After(s, step), rest)
    ensures Runs(After(s, step), []) && End(After(s, step), []) == After(s, step)
  {
    assert ([step] + rest)[0] == step && ([step] + rest)[1..] == rest;
  }

  /** A flag stored while the worker does not hold the lock, as storing it under the lock would ensure, is not missed. */
  lemma {:induction false} StoredApart(s: State, steps: seq<Step>)
    requires Enabled(s, Store) && !Holding(s) && Runs(After(s, Store), steps)
    ensures !End(After(s, Store), steps).worker.Looked?
  {
    NeverLooks(After(s, Store), steps);
  }

  lemma {:induction false} NeverLooks(s: State, steps: seq<Step>)
    requires s.stop && !s.worker.Looked? && Runs(s, steps)
    ensures !End(s, steps).worker.Looked?
    decreases |steps|
  {
    if steps != [] {
      NeverLooks(After(s, steps[0]), steps[1..]);
    }
  }
}
