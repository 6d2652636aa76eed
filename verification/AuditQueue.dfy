/** The bounded queue between a request and the audit table. */
module AuditQueue {
  import opened Wrappers

  /** `occurredAt` is stamped on submission when absent. The payload is never looked at. */
  datatype AuditRecord = AuditRecord(requestId: string, payload: string, occurredAt: Option<int>)

  datatype Worker = NoWorker | Idle | Writing(record: AuditRecord)

  datatype Counts = Counts(enqueued: nat, written: nat, failed: nat, rejected: nat, dropped: nat)

  datatype Reason = Shutdown | QueueFull | Degraded

  /** How a submission ends: normally, with the record enqueued or dropped, or by raising
      AuditUnavailableError. */
  datatype Submission = Accepted | Dropped(reason: Reason) | Raised(reason: Reason)

  datatype Config = Config(failClosed: bool, maxQueueSize: nat)

  /** What became of a record the worker took. */
  datatype Fate = Written | Failed | Lost

  datatype Handled = Handled(record: AuditRecord, fate: Fate)

  /** The service, with the history of everything enqueued and everything handled. */
  datatype State = State(
    queue: seq<AuditRecord>, worker: Worker, degraded: bool, stopped: bool, counts: Counts,
    enqueued: seq<AuditRecord>, handled: seq<Handled>)

  const INITIAL := State([], NoWorker, false, false, Counts(0, 0, 0, 0, 0), [], [])

  function Stamped(r: AuditRecord, now: int): AuditRecord {
    if r.occurredAt.Some? then r else r.(occurredAt := Some(now))
  }

  // ---------------------------------------------------------------------------
  // Steps
  // ---------------------------------------------------------------------------

  function Refused(c: Config, s: State, reason: Reason): (State, Submission) {
    if c.failClosed then (s.(counts := s.counts.(rejected := s.counts.rejected + 1)), Raised(reason))
    else (s.(counts := s.counts.(dropped := s.counts.dropped + 1)), Dropped(reason))
  }

  /** Never waits: the record is enqueued, or refused at once. While degraded and failing closed it is
      enqueued, for the writer to retry, and the caller fails all the same. */
  function Submitted(c: Config, s: State, r: AuditRecord, now: int): (State, Submission) {
    if s.stopped then Refused(c, s, Shutdown)
    else if |s.queue| >= c.maxQueueSize then Refused(c, s, QueueFull)
    else
      var stamped := Stamped(r, now);
      var after := s.(queue := s.queue + [stamped], enqueued := s.enqueued + [stamped],
                      counts := s.counts.(enqueued := s.counts.enqueued + 1));
      if s.degraded && c.failClosed then
        (after.(counts := after.counts.(rejected := after.counts.rejected + 1)), Raised(Degraded))
      else (after, Accepted)
  }

  datatype Op =
    | Start
    | Submit(record: AuditRecord, now: int)
    | Take
    | Finish(ok: bool)
    | BeginStop
    | Cancel

  predicate Enabled(s: State, op: Op) {
    match op
    case Take => s.worker.Idle? && s.queue != []
    case Finish(_) => s.worker.Writing?
    case Cancel => !s.worker.NoWorker? && s.stopped
    case _ => true
  }

  function Next(c: Config, s: State, op: Op): State
    requires Enabled(s, op)
  {
    match op
    case Start => if s.worker.NoWorker? then s.(worker := Idle, stopped := false) else s
    case Submit(r, now) => Submitted(c, s, r, now).0
    case Take => s.(worker := Writing(s.queue[0]), queue := s.queue[1..])
    case Finish(ok) =>
      var done := s.(worker := Idle, degraded := !ok,
                     handled := s.handled + [Handled(s.worker.record, if ok then Written else Failed)]);
      if ok then done.(counts := s.counts.(written := s.counts.written + 1))
      else done.(counts := s.counts.(failed := s.counts.failed + 1))
    case BeginStop => s.(stopped := true)
    case Cancel =>
      s.(worker := NoWorker, counts := s.counts.(dropped := s.counts.dropped + |s.queue|),
         handled := s.handled + if s.worker.Writing? then [Handled(s.worker.record, Lost)] else [])
  }

  // ---------------------------------------------------------------------------
  // The service
  // ---------------------------------------------------------------------------

  class AuditService {
    const config: Config
    var queue: seq<AuditRecord>
    var worker: Worker
    var degraded: bool
    var stopped: bool
    var counts: Counts
    ghost var enqueued: seq<AuditRecord>
    ghost var handled: seq<Handled>

    ghost function View(): State
      reads this
    {
      State(queue, worker, degraded, stopped, counts, enqueued, handled)
    }

    constructor (config: Config)
      requires config.maxQueueSize >= 1
      ensures View() == INITIAL && this.config == config
    {
      this.config := config;
      queue, worker, degraded, stopped := [], NoWorker, false, false;
      counts := Counts(0, 0, 0, 0, 0);
      enqueued, handled := [], [];
    }

    method StartWorker()
      modifies this
      ensures View() == Next(config, old(View()), Start)
    {
      if worker.NoWorker? {
        stopped := false;
        worker := Idle;
      }
    }

    method Refuse(reason: Reason) returns (r: Submission)
      modifies this`counts
      ensures (View(), r) == Refused(config, old(View()), reason)
    {
      if config.failClosed {
        counts := counts.(rejected := counts.rejected + 1);
        return Raised(reason);
      }
      counts := counts.(dropped := counts.dropped + 1);
      return Dropped(reason);
    }

    method SubmitRecord(record: AuditRecord, now: int) returns (r: Submission)
      modifies this
      ensures (View(), r) == Submitted(config, old(View()), record, now)
    {
      var stamped := Stamped(record, now);
      if stopped {
        r := Refuse(Shutdown);
        return;
      }
      if |queue| >= config.maxQueueSize {
        r := Refuse(QueueFull);
        return;
      }
      queue := queue + [stamped];
      enqueued := enqueued + [stamped];
      counts := counts.(enqueued := counts.enqueued + 1);
      if degraded && config.failClosed {
        counts := counts.(rejected := counts.rejected + 1);
        return Raised(Degraded);
      }
      return Accepted;
    }

    /** The writer loop, up to its await of the sink. */
    method TakeNext()
      requires worker.Idle? && queue != []
      modifies this
      ensures View() == Next(config, old(View()), Take)
    {
      worker := Writing(queue[0]);
      queue := queue[1..];
    }

    /** The writer loop, from the sink's answer on. A failure is contained. */
    method FinishWrite(ok: bool)
      requires worker.Writing?
      modifies this
      ensures View() == Next(config, old(View()), Finish(ok))
    {
      handled := handled + [Handled(worker.record, if ok then Written else Failed)];
      if ok {
        degraded := false;
        counts := counts.(written := counts.written + 1);
      } else {
        degraded := true;
        counts := counts.(failed := counts.failed + 1);
      }
      worker := Idle;
    }

    method StopAccepting()
      modifies this
      ensures View() == Next(config, old(View()), BeginStop)
    {
      stopped := true;
    }

    /** After the drain, finished or timed out. */
    method CancelWorker()
      requires !worker.NoWorker? && stopped
      modifies this
      ensures View() == Next(config, old(View()), Cancel)
    {
      handled := handled + if worker.Writing? then [Handled(worker.record, Lost)] else [];
      worker := NoWorker;
      var undelivered := |queue|;
      counts := counts.(dropped := counts.dropped + undelivered);
    }
  }

  // ---------------------------------------------------------------------------
  // Whole runs
  // ---------------------------------------------------------------------------

  ghost predicate Behavior(c: Config, trace: seq<State>, ops: seq<Op>) {
    && |trace| == |ops| + 1 && trace[0] == INITIAL
    && forall k :: 0 <= k < |ops| ==> Enabled(trace[k], ops[k]) && trace[k + 1] == Next(c, trace[k], ops[k])
  }

  function RecordsOf(handled: seq<Handled>): (r: seq<AuditRecord>)
    ensures |r| == |handled| && forall i :: 0 <= i < |r| ==> r[i] == handled[i].record
  {
    seq(|handled|, i requires 0 <= i < |handled| => handled[i].record)
  }

  function InFlight(s: State): seq<AuditRecord> {
    if s.worker.Writing? then [s.worker.record] else []
  }

  function CountFate(handled: seq<Handled>, fate: Fate): nat {
    if handled == [] then 0
    else CountFate(handled[..|handled| - 1], fate) + if handled[|handled| - 1].fate == fate then 1 else 0
  }

  /** Nothing enqueued is duplicated, reordered or forgotten: it has been handled, is in flight, or is
      still queued, in that order. */
  predicate InOrder(s: State) {
    s.enqueued == RecordsOf(s.handled) + InFlight(s) + s.queue
  }

  predicate CountersMatch(s: State) {
    && s.counts.enqueued == |s.enqueued|
    && s.counts.written == CountFate(s.handled, Written)
    && s.counts.failed == CountFate(s.handled, Failed)
  }

  /** Records carry the time they were handed over, whatever the lag of the queue. */
  predicate AllStamped(s: State) {
    forall i :: 0 <= i < |s.enqueued| ==> s.enqueued[i].occurredAt.Some?
  }

  predicate Conserved(c: Config, s: State) {
    |s.queue| <= c.maxQueueSize && InOrder(s) && CountersMatch(s) && AllStamped(s)
  }

  lemma CountFateSnoc(handled: seq<Handled>, h: Handled, fate: Fate)
    ensures CountFate(handled + [h], fate) == CountFate(handled, fate) + if h.fate == fate then 1 else 0
  {
    assert (handled + [h])[..|handled|] == handled;
  }

  lemma SubmitConserves(c: Config, s: State, r: AuditRecord, now: int)
    requires Conserved(c, s)
    ensures Conserved(c, Submitted(c, s, r, now).0)
  {
    hide RecordsOf, CountFate;
  }

  lemma TakeConserves(c: Config, s: State)
    requires Conserved(c, s) && Enabled(s, Take)
    ensures Conserved(c, Next(c, s, Take))
  {
    hide RecordsOf, CountFate;
    assert s.queue == [s.queue[0]] + s.queue[1..];
  }

  /** Handling the record in flight, whichever way. */
  lemma HandledInOrder(s: State, fate: Fate)
    requires s.worker.Writing? && InOrder(s)
    ensures s.enqueued == RecordsOf(s.handled + [Handled(s.worker.record, fate)]) + s.queue
  {
    assert RecordsOf(s.handled + [Handled(s.worker.record, fate)]) == RecordsOf(s.handled) + [s.worker.record];
  }

  lemma EndConserves(c: Config, s: State, op: Op)
    requires Conserved(c, s) && Enabled(s, op) && (op.Finish? || op.Cancel?)
    ensures Conserved(c, Next(c, s, op))
  {
    hide RecordsOf, CountFate;
    if s.worker.Writing? {
      var fate := if op.Cancel? then Lost else if op.ok then Written else Failed;
      var h := Handled(s.worker.record, fate);
      HandledInOrder(s, fate);
      CountFateSnoc(s.handled, h, Written);
      CountFateSnoc(s.handled, h, Failed);
    } else {
      assert s.handled + [] == s.handled;
    }
  }

  lemma StepConserves(c: Config, s: State, op: Op)
    requires Conserved(c, s) && Enabled(s, op)
    ensures Conserved(c, Next(c, s, op))
  {
    hide RecordsOf, CountFate, Submitted;
    match op
    case Submit(r, now) => SubmitConserves(c, s, r, now);
    case Take => TakeConserves(c, s);
    case Finish(_) => EndConserves(c, s, op);
    case Cancel => EndConserves(c, s, op);
    case _ =>
  }

  lemma {:induction false} AlwaysConserved(c: Config, trace: seq<State>, ops: seq<Op>, i: nat)
    requires Behavior(c, trace, ops) && i < |trace|
    ensures Conserved(c, trace[i])
  {
    if i > 0 {
      AlwaysConserved(c, trace, ops, i - 1);
      StepConserves(c, trace[i - 1], ops[i - 1]);
    }
  }

  lemma {:induction false} FatesPartition(handled: seq<Handled>)
    ensures CountFate(handled, Written) + CountFate(handled, Failed) + CountFate(handled, Lost) == |handled|
  {
    if handled != [] {
      FatesPartition(handled[..|handled| - 1]);
    }
  }

  ghost predicate NoCancelBefore(ops: seq<Op>, i: nat)
    requires i <= |ops|
  {
    forall k :: 0 <= k < i ==> !ops[k].Cancel?
  }

  lemma {:induction false} NothingLost(c: Config, trace: seq<State>, ops: seq<Op>, i: nat)
    requires Behavior(c, trace, ops) && i < |trace| && NoCancelBefore(ops, i)
    ensures CountFate(trace[i].handled, Lost) == 0
  {
    if i > 0 {
      NothingLost(c, trace, ops, i - 1);
      var s, after := trace[i - 1], trace[i];
      assert after == Next(c, s, ops[i - 1]);
      if ops[i - 1].Finish? {
        CountFateSnoc(s.handled, after.handled[|s.handled|], Lost);
      }
    }
  }

  /** The accounting law: until a worker is cancelled, everything enqueued has been written, has
      failed, is in flight or is queued; and the queue never exceeds its bound. */
  lemma EnqueuedIsAccountedFor(c: Config, trace: seq<State>, ops: seq<Op>, i: nat)
    requires Behavior(c, trace, ops) && i < |trace|
    ensures var s := trace[i];
            |s.queue| <= c.maxQueueSize
            && s.enqueued == RecordsOf(s.handled) + InFlight(s) + s.queue
            && s.counts.enqueued
            == s.counts.written + s.counts.failed + CountFate(s.handled, Lost) + |InFlight(s)| + |s.queue|
    ensures var s := trace[i];
            NoCancelBefore(ops, i) ==>
              s.counts.enqueued == s.counts.written + s.counts.failed + |InFlight(s)| + |s.queue|
  {
    hide CountFate, Next;
    AlwaysConserved(c, trace, ops, i);
    FatesPartition(trace[i].handled);
    if NoCancelBefore(ops, i) {
      NothingLost(c, trace, ops, i);
    }
  }

  /** The last write to end before moment `i`, if any, failed. */
  predicate LastWriteFailed(ops: seq<Op>, i: nat)
    requires i <= |ops|
  {
    i > 0 && if ops[i - 1].Finish? then !ops[i - 1].ok else LastWriteFailed(ops, i - 1)
  }

  lemma {:induction false} DegradedIffLastFailed(c: Config, trace: seq<State>, ops: seq<Op>, i: nat)
    requires Behavior(c, trace, ops) && i < |trace|
    ensures trace[i].degraded <==> LastWriteFailed(ops, i)
  {
    if i > 0 {
      DegradedIffLastFailed(c, trace, ops, i - 1);
      assert trace[i] == Next(c, trace[i - 1], ops[i - 1]);
    }
  }

  /** Exactly when a submission raises: failing closed, and stopped, saturated, or with no successful
      write since the last failed one. Failing open, never. */
  lemma RaisesIff(c: Config, trace: seq<State>, ops: seq<Op>, i: nat)
    requires Behavior(c, trace, ops) && i < |ops| && ops[i].Submit?
    ensures Submitted(c, trace[i], ops[i].record, ops[i].now).1.Raised? <==>
            c.failClosed
            && (trace[i].stopped || |trace[i].queue| >= c.maxQueueSize || LastWriteFailed(ops, i))
    ensures !c.failClosed ==> !Submitted(c, trace[i], ops[i].record, ops[i].now).1.Raised?
  {
    DegradedIffLastFailed(c, trace, ops, i);
  }

  /** The records that callers handed over in the first `i` operations and that were taken, in order: each
      with its caller's request id and payload, and its caller's time or else the moment of submission. */
  function TakenIn(c: Config, trace: seq<State>, ops: seq<Op>, i: nat): seq<AuditRecord>
    requires i <= |ops| < |trace|
  {
    if i == 0 then []
    else
      TakenIn(c, trace, ops, i - 1)
      + match ops[i - 1]
        case Submit(r, now) =>
          var answer := Submitted(c, trace[i - 1], r, now).1;
          if answer == Accepted || answer == Raised(Degraded) then
            [AuditRecord(r.requestId, r.payload, Some(if r.occurredAt.Some? then r.occurredAt.value else now))]
          else []
        case _ => []
  }

  /** What was enqueued is exactly what callers handed over and were not refused. */
  lemma {:induction false} EnqueuedIsWhatWasTaken(c: Config, trace: seq<State>, ops: seq<Op>, i: nat)
    requires Behavior(c, trace, ops) && i < |trace|
    ensures trace[i].enqueued == TakenIn(c, trace, ops, i)
  {
    if i > 0 {
      EnqueuedIsWhatWasTaken(c, trace, ops, i - 1);
      assert trace[i] == Next(c, trace[i - 1], ops[i - 1]);
    }
  }

  /** Stop was called, and no start since has found the worker gone. */
  predicate StoppedBy(trace: seq<State>, ops: seq<Op>, i: nat)
    requires i <= |ops| < |trace|
  {
    i > 0 && (ops[i - 1].BeginStop?
              || (StoppedBy(trace, ops, i - 1) && !(ops[i - 1].Start? && trace[i - 1].worker.NoWorker?)))
  }

  lemma {:induction false} StoppedIffStopped(c: Config, trace: seq<State>, ops: seq<Op>, i: nat)
    requires Behavior(c, trace, ops) && i < |trace|
    ensures trace[i].stopped <==> StoppedBy(trace, ops, i)
  {
    if i > 0 {
      StoppedIffStopped(c, trace, ops, i - 1);
      assert trace[i] == Next(c, trace[i - 1], ops[i - 1]);
    }
  }

  /** How every submission ends: refused when stopped or saturated, raising or dropping as configured;
      raised all the same after a failed write when failing closed; accepted otherwise. */
  lemma AnswerExact(c: Config, trace: seq<State>, ops: seq<Op>, i: nat)
    requires Behavior(c, trace, ops) && i < |ops| && ops[i].Submit?
    ensures Submitted(c, trace[i], ops[i].record, ops[i].now).1 ==
            if StoppedBy(trace, ops, i) then (if c.failClosed then Raised(Shutdown) else Dropped(Shutdown))
            else if |trace[i].queue| >= c.maxQueueSize then
              (if c.failClosed then Raised(QueueFull) else Dropped(QueueFull))
            else if c.failClosed && LastWriteFailed(ops, i) then Raised(Degraded)
            else Accepted
  {
    DegradedIffLastFailed(c, trace, ops, i);
    StoppedIffStopped(c, trace, ops, i);
  }

  /** Which of the first `i` operations were writes that ended so. */
  function Writes(ops: seq<Op>, i: nat, ok: bool): set<nat>
    requires i <= |ops|
  {
    set k: nat | k < i && ops[k] == Finish(ok)
  }

  /** Which of them were submissions that raised, or were dropped. */
  function Refusals(c: Config, trace: seq<State>, ops: seq<Op>, i: nat, raised: bool): set<nat>
    requires i <= |ops| < |trace|
  {
    set k: nat | k < i && ops[k].Submit?
                 && var answer := Submitted(c, trace[k], ops[k].record, ops[k].now).1;
                    if raised then answer.Raised? else answer.Dropped?
  }

  /** How many records were still queued when a worker was cancelled. */
  function Undelivered(trace: seq<State>, ops: seq<Op>, i: nat): nat
    requires i <= |ops| < |trace|
  {
    if i == 0 then 0
    else Undelivered(trace, ops, i - 1) + if ops[i - 1].Cancel? then |trace[i - 1].queue| else 0
  }

  lemma TalliesStep(c: Config, trace: seq<State>, ops: seq<Op>, i: nat)
    requires i < |ops| < |trace|
    ensures forall ok :: |Writes(ops, i + 1, ok)| == |Writes(ops, i, ok)| + if ops[i] == Finish(ok) then 1 else 0
    ensures forall raised ::
              |Refusals(c, trace, ops, i + 1, raised)| == |Refusals(c, trace, ops, i, raised)|
              + if ops[i].Submit?
                   && (var answer := Submitted(c, trace[i], ops[i].record, ops[i].now).1;
                       if raised then answer.Raised? else answer.Dropped?) then 1 else 0
  {
    hide Submitted;
    forall ok
      ensures |Writes(ops, i + 1, ok)| == |Writes(ops, i, ok)| + if ops[i] == Finish(ok) then 1 else 0
    {
      assert Writes(ops, i + 1, ok) == Writes(ops, i, ok) + if ops[i] == Finish(ok) then {i} else {};
    }
    forall raised
      ensures var more := ops[i].Submit?
                          && (var answer := Submitted(c, trace[i], ops[i].record, ops[i].now).1;
                              if raised then answer.Raised? else answer.Dropped?);
              |Refusals(c, trace, ops, i + 1, raised)| == |Refusals(c, trace, ops, i, raised)| + if more then 1 else 0
    {
      var more := ops[i].Submit?
                  && (var answer := Submitted(c, trace[i], ops[i].record, ops[i].now).1;
                      if raised then answer.Raised? else answer.Dropped?);
      assert Refusals(c, trace, ops, i + 1, raised)
          == Refusals(c, trace, ops, i, raised) + if more then {i} else {};
    }
  }

  lemma StepCounts(c: Config, s: State, op: Op)
    requires Enabled(s, op)
    ensures var answer := if op.Submit? then Submitted(c, s, op.record, op.now).1 else Accepted;
            Next(c, s, op).counts == Counts(
              s.counts.enqueued + (if op.Submit? && (answer == Accepted || answer == Raised(Degraded)) then 1 else 0),
              s.counts.written + (if op == Finish(true) then 1 else 0),
              s.counts.failed + (if op == Finish(false) then 1 else 0),
              s.counts.rejected + (if answer.Raised? then 1 else 0),
              s.counts.dropped + (if answer.Dropped? then 1 else if op.Cancel? then |s.queue| else 0))
  {
  }

  /** The counters count what they are named after. */
  lemma {:induction false} CountersExact(c: Config, trace: seq<State>, ops: seq<Op>, i: nat)
    requires Behavior(c, trace, ops) && i < |trace|
    ensures trace[i].counts == Counts(
              |TakenIn(c, trace, ops, i)|, |Writes(ops, i, true)|, |Writes(ops, i, false)|,
              |Refusals(c, trace, ops, i, true)|, |Refusals(c, trace, ops, i, false)| + Undelivered(trace, ops, i))
  {
    if i > 0 {
      hide Writes, Refusals, Submitted, Next;
      CountersExact(c, trace, ops, i - 1);
      TalliesStep(c, trace, ops, i - 1);
      assert trace[i] == Next(c, trace[i - 1], ops[i - 1]);
      StepCounts(c, trace[i - 1], ops[i - 1]);
    }
  }

  lemma {:induction false} FailureLasts(ops: seq<Op>, f: nat, i: nat)
    requires f < i <= |ops| && ops[f] == Finish(false)
    requires forall k :: f < k < i ==> ops[k] != Finish(true)
    ensures LastWriteFailed(ops, i)
    decreases i - f
  {
    if i > f + 1 {
      FailureLasts(ops, f, i - 1);
    }
  }

  /** Failing closed, every submission between a failed write and the next successful one raises, across
      restarts too. */
  lemma RefusedUntilWritten(c: Config, trace: seq<State>, ops: seq<Op>, f: nat, i: nat)
    requires Behavior(c, trace, ops) && c.failClosed && f < i < |ops|
    requires ops[f] == Finish(false) && ops[i].Submit? && forall k :: f < k < i ==> ops[k] != Finish(true)
    ensures Submitted(c, trace[i], ops[i].record, ops[i].now).1.Raised?
  {
    FailureLasts(ops, f, i);
    RaisesIff(c, trace, ops, i);
  }
}
