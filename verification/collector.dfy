/**
 The collector between the event reader and the policy engine: a queue of records that one worker
 evaluates 64 at a time. Each method but AddEvent is one critical section or one read of a shared flag, so
 any order of calls is an interleaving of any number of readers, the worker and the stopping thread.
 */
module Collector {
  import opened Words
  import opened ProcessTree
  import opened Policy
  import opened Transpose

  const BATCH: nat := 64

  predicate Event64(e: Event) {
    e.pid < Pow2(64) && e.ppid < Pow2(64) && e.kind < Pow2(64)
  }

  lemma {:induction false} NoViolations(records: seq<Record>)
    ensures Violations(records) == 0 <==> forall i | 0 <= i < |records| :: !Violation(records[i])
  {
    hide Violation;
    if records != [] {
      NoViolations(records[..|records| - 1]);
    }
  }

  /** Evaluated records, the batch in flight and pending records, in order; whole batches. */
  ghost predicate Ordered(accepted: seq<Record>, evaluated: seq<Record>, batch: seq<Record>, pending: seq<Record>) {
    accepted == evaluated + batch + pending && |evaluated| % BATCH == 0 && (batch == [] || |batch| == BATCH)
  }

  lemma OrderedSteps(accepted: seq<Record>, evaluated: seq<Record>, batch: seq<Record>, pending: seq<Record>)
    requires Ordered(accepted, evaluated, batch, pending)
    ensures forall r: Record :: Ordered(accepted + [r], evaluated, batch, pending + [r])
    ensures batch == [] && |pending| >= BATCH ==> Ordered(accepted, evaluated, pending[..BATCH], pending[BATCH..])
    ensures batch != [] ==> Ordered(accepted, evaluated + batch, [], pending)
  {
    assert forall r: Record :: accepted + [r] == evaluated + batch + (pending + [r]);
    if batch == [] && |pending| >= BATCH {
      assert pending == pending[..BATCH] + pending[BATCH..];
      assert accepted == evaluated + pending[..BATCH] + pending[BATCH..];
    } else {
      assert accepted == evaluated + batch + [] + pending;
    }
  }

  lemma InFlight(accepted: seq<Record>, evaluated: seq<Record>, batch: seq<Record>, pending: seq<Record>, i: nat)
    requires Ordered(accepted, evaluated, batch, pending) && i < |batch|
    ensures |evaluated| + i < |accepted| && accepted[|evaluated| + i] == batch[i]
  {
  }

  lemma BatchSize(accepted: seq<Record>, evaluated: seq<Record>, batch: seq<Record>, pending: seq<Record>)
    requires Ordered(accepted, evaluated, batch, pending)
    ensures |batch| <= BATCH && |evaluated| + |batch| <= |accepted|
  {
  }

  lemma BatchFits()
    ensures BATCH < Pow2(64)
  {
    hide Pow2;
    Pow2Values();
  }

  /** Violating records were accepted only while the machine was not running. */
  ghost predicate LateOnly(accepted: seq<Record>, live: seq<bool>) {
    |live| == |accepted| && forall i | 0 <= i < |accepted| && Violation(accepted[i]) :: !live[i]
  }

  /** Some violating record in this stretch was accepted while the machine was not running. */
  ghost predicate SomeLate(accepted: seq<Record>, live: seq<bool>, lo: nat, hi: nat) {
    exists i :: lo <= i < hi <= |accepted| == |live| && !live[i] && Violation(accepted[i])
  }

  lemma {:induction false} AlarmIsLate(accepted: seq<Record>, live: seq<bool>, evaluated: seq<Record>,
                                       batch: seq<Record>, pending: seq<Record>)
    requires Ordered(accepted, evaluated, batch, pending) && LateOnly(accepted, live) && Violations(batch) > 0
    ensures SomeLate(accepted, live, |evaluated|, |evaluated| + |batch|)
  {
    hide Violation, Violations;
    NoViolations(batch);
    var i :| 0 <= i < |batch| && Violation(batch[i]);
    InFlight(accepted, evaluated, batch, pending, i);
    assert Violation(accepted[|evaluated| + i]);
  }

  lemma {:induction false} BatchRecords(accepted: seq<Record>, evaluated: seq<Record>, batch: seq<Record>,
                                        pending: seq<Record>)
    requires Ordered(accepted, evaluated, batch, pending) && forall i | 0 <= i < |accepted| :: Machine64(accepted[i])
    ensures forall i | 0 <= i < |batch| :: Machine64(batch[i])
  {
    hide Machine64;
    forall i | 0 <= i < |batch| ensures Machine64(batch[i]) {
      InFlight(accepted, evaluated, batch, pending, i);
    }
  }

  /** A reader has no event, holds a classified record, or holds one that may be queued. */
  datatype Reader = Resting | Classified(rec: Record) | Cleared(rec: Record, live: bool)

  /** What a reader holds fits the machine, and a violation was cleared only while the machine was not running. */
  predicate ReaderSound(r: Reader) {
    r.Resting? || (Machine64(r.rec) && (r.Cleared? && Violation(r.rec) ==> !r.live))
  }

  class SyscallBatchCollector {
    const policy: PolicyEngine
    var readers: seq<Reader>
    var pending: seq<Record>      // queued under the lock
    var batch: seq<Record>        // taken by the worker, not yet evaluated
    var vmRunning: bool
    var vmStopping: bool          // a thread is about to stop the machine
    var shutdown: bool
    var stop: bool
    var exited: bool              // the worker has left its loop
    ghost var accepted: seq<Record>
    ghost var live: seq<bool>     // was the machine running when the record was accepted
    ghost var evaluated: seq<Record>

    /**
     What was evaluated, is being evaluated and is pending are the accepted records in order, in
     batches of 64; a violating record was accepted only while the machine was not running.
     */
    ghost predicate Valid()
      reads this, policy
    {
      && policy.Valid()
      && Ordered(accepted, evaluated, batch, pending)
      && LateOnly(accepted, live)
      && (forall i | 0 <= i < |accepted| :: Machine64(accepted[i]))
      && forall r | 0 <= r < |readers| :: ReaderSound(readers[r])
    }

    constructor (policy: PolicyEngine, running: bool, count: nat)
      requires policy.Valid()
      ensures Valid() && accepted == [] && this.policy == policy && vmRunning == running
      ensures !vmStopping && !shutdown && !stop && !exited
      ensures |readers| == count && forall r | 0 <= r < count :: readers[r].Resting?
    {
      hide Violation, Machine64, PolicyEngine.Valid;
      this.policy := policy;
      readers := seq(count, i => Resting);
      pending, batch := [], [];
      vmRunning, vmStopping, shutdown, stop, exited := running, false, false, false, false;
      accepted, live, evaluated := [], [], [];
    }

    /** Nothing but the readers, the queue and the stop in progress changes. */
    twostate predicate Aside()
      reads this
    {
      && evaluated == old(evaluated) && batch == old(batch) && vmRunning == old(vmRunning) && exited == old(exited)
      && stop == old(stop) && shutdown == old(shutdown) && |readers| == old(|readers|)
    }

    /** Under the tree's lock: a reader classifies its event. */
    method Classify(r: nat, e: Event)
      requires Valid() && Event64(e) && r < |readers| && readers[r].Resting?
      modifies this`readers, policy
      ensures Valid() && Aside() && policy.history == old(policy.history) + [Seen(e)]
      ensures readers[r].Classified? && readers == old(readers)[r := readers[r]]
      ensures var rec := readers[r].rec;
              && rec.pid == e.pid && rec.ppid == e.ppid && rec.kind == e.kind
              && rec.preinstall == Bit(Flagged(policy.tree, if e.kind == EVENT_EXEC || e.pid in policy.tree then e.pid else e.ppid))
              && rec.sensitive == Bit(e.kind == EVENT_OPEN && Sensitive(e.arg))
              && rec.unauthorized == Bit(e.kind == EVENT_CONNECT)
              && (Violation(rec) <==> Forbidden(rec.preinstall == 1, e))
    {
      hide Sensitive, PolicyEngine.Valid, Violation, Ordered, LateOnly;
      var rec := policy.ProcessEvent(e);
      assert Machine64(rec) by {
        SmallWords();
      }
      readers := readers[r := Classified(rec)];
    }

    /** A reader looks at the machine: a violation while it runs has it stopped and is dropped. */
    method Decide(r: nat)
      requires Valid() && r < |readers| && readers[r].Classified?
      modifies this`readers, this`vmStopping
      ensures Valid() && Aside()
      ensures var rec := old(readers)[r].rec;
              && readers == old(readers)[r := if Violation(rec) && vmRunning then Resting else Cleared(rec, vmRunning)]
              && vmStopping == (old(vmStopping) || (Violation(rec) && vmRunning))
    {
      hide PolicyEngine.Valid, Ordered, LateOnly, Machine64, Violation;
      var rec := readers[r].rec;
      if Violation(rec) && vmRunning {
        vmStopping := true;
        readers := readers[r := Resting];
      } else {
        readers := readers[r := Cleared(rec, vmRunning)];
      }
    }

    /** Under the queue's lock: a reader queues its record. */
    method Push(r: nat)
      requires Valid() && r < |readers| && readers[r].Cleared?
      modifies this`readers, this`pending, this`accepted, this`live
      ensures Valid() && Aside() && readers == old(readers)[r := Resting]
      ensures accepted == old(accepted) + [old(readers)[r].rec] && live == old(live) + [old(readers)[r].live]
    {
      hide PolicyEngine.Valid, Ordered, Machine64, Violation;
      assert ReaderSound(readers[r]);
      OrderedSteps(accepted, evaluated, batch, pending);
      pending := pending + [readers[r].rec];
      accepted := accepted + [readers[r].rec];
      live := live + [readers[r].live];
      readers := readers[r := Resting];
    }

    /** The three steps of a reader in a row. */
    method AddEvent(r: nat, e: Event) returns (rec: Record, queued: bool)
      requires Valid() && Event64(e) && r < |readers| && readers[r].Resting?
      modifies this, policy
      ensures Valid() && Aside() && policy.history == old(policy.history) + [Seen(e)] && readers == old(readers)
      ensures rec.pid == e.pid && rec.ppid == e.ppid && rec.kind == e.kind
      ensures rec.preinstall == Bit(Flagged(policy.tree, if e.kind == EVENT_EXEC || e.pid in policy.tree then e.pid else e.ppid))
      ensures rec.sensitive == Bit(e.kind == EVENT_OPEN && Sensitive(e.arg))
      ensures rec.unauthorized == Bit(e.kind == EVENT_CONNECT)
      ensures Violation(rec) <==> Forbidden(rec.preinstall == 1, e)
      ensures queued <==> !(Violation(rec) && vmRunning)
      ensures accepted == old(accepted) + if queued then [rec] else []
      ensures live == old(live) + if queued then [vmRunning] else []
      ensures vmStopping == (old(vmStopping) || !queued)
    {
      hide Sensitive, PolicyEngine.Valid, Violation, Ordered, LateOnly, Machine64;
      Classify(r, e);
      rec := readers[r].rec;
      Decide(r);
      queued := readers[r].Cleared?;
      if queued {
        Push(r);
      }
    }

    /** The detached thread stops the machine. */
    method FinishStop()
      requires Valid() && vmStopping
      modifies this`vmRunning, this`vmStopping, this`shutdown
      ensures Valid() && !vmRunning && !vmStopping && shutdown
      ensures accepted == old(accepted) && live == old(live) && evaluated == old(evaluated) && pending == old(pending)
    {
      hide Violation, Machine64, PolicyEngine.Valid, Ordered, ReaderSound;
      vmRunning, vmStopping, shutdown := false, false, true;
    }

    /** The worker, awake, sees a full batch or the stop flag; it takes exactly the 64 oldest records, or leaves. */
    method TakeBatch()
      requires Valid() && !exited && batch == [] && (|pending| >= 64 || stop)
      modifies this`batch, this`pending, this`exited
      ensures Valid() && exited == stop == old(stop)
      ensures accepted == old(accepted) && live == old(live) && evaluated == old(evaluated)
      ensures if stop then batch == [] && pending == old(pending)
              else batch == old(pending)[..64] && pending == old(pending)[64..]
    {
      hide Violation, Machine64, PolicyEngine.Valid, Ordered, ReaderSound;
      OrderedSteps(accepted, evaluated, batch, pending);
      if stop {
        exited := true;
        return;
      }
      batch, pending := pending[..BATCH], pending[BATCH..];
    }

    /**
     Evaluates the batch in flight, which no other thread can see, and so counts as happening at the
     moment it stops the machine, if it does. Any violation in it ends the worker too, and was accepted
     when the machine was not running.
     */
    method CheckBatch() returns (violations: nat)
      requires Valid() && !exited && batch != []
      modifies this`vmRunning, this`shutdown, this`exited, this`evaluated, this`batch, policy.buffers
      ensures Valid() && batch == [] && evaluated == old(evaluated) + old(batch)
      ensures accepted == old(accepted) && live == old(live) && pending == old(pending)
      ensures violations == Violations(old(batch))
      ensures exited <==> violations > 0
      ensures violations > 0 ==> !vmRunning && shutdown
      ensures violations > 0 ==> SomeLate(accepted, live, |old(evaluated)|, |evaluated|)
      ensures violations == 0 ==> vmRunning == old(vmRunning) && shutdown == old(shutdown)
    {
      hide Machine64, PolicyEngine.Valid, Violations, Ordered, LateOnly, SomeLate, Pow2, ReaderSound;
      BatchFits();
      OrderedSteps(accepted, evaluated, batch, pending);
      BatchSize(accepted, evaluated, batch, pending);
      BatchRecords(accepted, evaluated, batch, pending);
      violations := policy.EvaluateBatch(batch);
      if violations > 0 {
        AlarmIsLate(accepted, live, evaluated, batch, pending);
        vmRunning, shutdown, exited := false, true, true;
      }
      evaluated := evaluated + batch;
      batch := [];
    }

    /** Asks the worker to leave. */
    method Close()
      requires Valid()
      modifies this`stop
      ensures Valid() && stop
    {
      hide Violation, Machine64, PolicyEngine.Valid, Ordered, ReaderSound;
      stop := true;
    }
  }
}
