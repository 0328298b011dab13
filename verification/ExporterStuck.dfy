/**
 What the exporter of ExporterMachine may never do: give up a batch when the budget of retries is
 the largest 32-bit number, and send a batch whose retry could not be built.
 */
module ExporterStuck {
  import opened Common
  import opened Retry
  import opened ExporterMachine
  import opened ExporterPolicy
  import opened ExporterRuns
  import opened ExporterTimed

  // ---------------------------------------------------------------- when a request is started

  /** A signal that is due, has a batch and whose request can be built. */
  predicate Startable(c: Config, e: Exporter, i: Inputs, s: nat)
    requires Shaped(e)
  {
    s < N_SIGNALS && Ready(c, e, i, s)
  }

  lemma {:induction false} StartIff(c: Config, e: Exporter, i: Inputs, s: nat)
    requires Shaped(e) && e.inFlight.None?
    ensures var r := StartStep(c, e, i, s);
      if !e.backoffArmed && exists k :: s <= k < N_SIGNALS && Startable(c, e, i, k) then
        r.inFlight.Some? && s <= r.inFlightSignal && Startable(c, e, i, r.inFlightSignal) &&
        r == TryStart(e, r.inFlightSignal, true) &&
        forall k :: s <= k < r.inFlightSignal ==> !Startable(c, e, i, k)
      else r == e
    decreases N_SIGNALS - s
  {
    if s < N_SIGNALS && !e.backoffArmed && !Startable(c, e, i, s) {
      StartIff(c, e, i, s + 1);
    }
  }

  /** The state in which a tick looks at the backoff. */
  function BeforeBackoff(c: Config, e: Exporter, i: Inputs): (r: Exporter)
    requires Shaped(e)
    ensures Shaped(r)
  {
    RequestStep(c, StartStep(c, e, i, 0), i)
  }

  /** A tick over HTTP starts a request, for the first time or again. */
  predicate Starts(c: Config, e: Exporter, i: Inputs)
    requires Shaped(e)
  {
    (e.inFlight.None? && StartStep(c, e, i, 0).inFlight.Some?) ||
    (BeforeBackoff(c, e, i).inFlight.None? && Act(c, e, i).inFlight.Some?)
  }

  /**
   A tick starts a request exactly when, without a request and a backoff, a signal with a batch
   is due and its request can be built, or when a backoff is over, its own or that of the outcome
   it has just recorded, and the request of that batch can be built again.
   */
  lemma ActStartsIff(c: Config, e: Exporter, i: Inputs)
    requires Shaped(e) && !c.nullTransport
    ensures var b := BeforeBackoff(c, e, i);
      Starts(c, e, i) <==>
        (e.inFlight.None? && !e.backoffArmed &&
         exists k :: 0 <= k < N_SIGNALS && Startable(c, e, i, k)) ||
        (b.inFlight.None? && b.backoffArmed && i.backoffNow >= b.deadline && i.rebuilt &&
         b.sig[b.inFlightSignal].pending != [])
  {
    hide StartStep, RequestStep;
    if e.inFlight.None? { StartIff(c, e, i, 0); }
  }

  // ---------------------------------------------------------------- batch timers

  /**
   While a request is in flight or its retry awaited, its batch begins with the items that it
   carried, and the timer runs exactly when something was drained behind them.
   */
  ghost predicate TimerOk(c: Config, e: Exporter)
    requires Shaped(e)
  {
    !c.nullTransport && e.tick != Freed && (e.inFlight.Some? || e.backoffArmed) ==>
      var g := e.sig[e.inFlightSignal];
      e.carried != [] && e.carried <= g.pending && (g.firstSet <==> g.pending != e.carried) &&
      (e.inFlight.Some? ==> e.inFlight.value == e.carried)
  }

  lemma {:induction false} StartTimer(c: Config, e: Exporter, i: Inputs)
    requires Shaped(e) && TimerOk(c, e)
    ensures TimerOk(c, StartStep(c, e, i, 0))
  {
    hide StartStep;
    if e.inFlight.None? {
      StartIff(c, e, i, 0);
    } else {
      StartNothing(c, e, i);
    }
  }

  lemma StartNothing(c: Config, e: Exporter, i: Inputs)
    requires Shaped(e) && (e.inFlight.Some? || e.backoffArmed)
    ensures StartStep(c, e, i, 0) == e
  {
  }

  lemma ActTimer(c: Config, e: Exporter, i: Inputs)
    requires Shaped(e) && TimerOk(c, e) && RequestOk(c, e) && e.tick != Freed && !c.nullTransport
    ensures TimerOk(c, Act(c, e, i)) && TimerOk(c, BeforeBackoff(c, e, i))
    ensures Act(c, e, i).tick == e.tick
  {
    hide StartStep, RecordOutcome;
    StartTimer(c, e, i);
    var e1 := StartStep(c, e, i, 0);
    StartKeeps(c, e, i);
    if e1.inFlight.Some? && i.request.Some? {
      OutcomeEffect(c, e1, i.request.value, i.requestNow);
      RecordKeepsCarried(c, e1, i.request.value, i.requestNow);
    }
  }

  lemma StartKeeps(c: Config, e: Exporter, i: Inputs)
    requires Shaped(e) && RequestOk(c, e)
    ensures var r := StartStep(c, e, i, 0);
      r.tick == e.tick && (r.inFlight.Some? ==> !r.backoffArmed || e.inFlight.Some?)
  {
    hide StartStep;
    if e.inFlight.None? { StartIff(c, e, i, 0); } else { StartNothing(c, e, i); }
  }

  lemma RecordKeepsCarried(c: Config, e: Exporter, o: Outcome, now: nat)
    requires Shaped(e)
    ensures var r := RecordOutcome(c, e, o, now);
      r.carried == e.carried && r.inFlightSignal == e.inFlightSignal && r.tick == e.tick
  {
    hide RetryDelay;
  }

  lemma DrainTimer(c: Config, e: Exporter, s: nat, now: nat)
    requires Shaped(e) && s < N_SIGNALS && e.sig[s].queue != [] && TimerOk(c, e)
    ensures TimerOk(c, Drain(e, s, now))
  {
  }

  /** Producers touch neither batches nor timers. */
  lemma ProducerTimer(c: Config, e: Exporter, step: Step)
    requires Shaped(e) && ProducersOk(e) && TimerOk(c, e) && Enabled(c, e, step)
    requires step.EmitCheck? || step.EmitPush? || step.EmitCount?
    ensures TimerOk(c, Next(c, e, step))
  {
  }

  lemma SameTimer(c: Config, e: Exporter, r: Exporter)
    requires Shaped(e) && TimerOk(c, e) && e.tick != Freed
    requires r == e.(tick := r.tick, shutdown := r.shutdown)
    ensures TimerOk(c, r)
  {
  }

  lemma FreedTimer(c: Config, e: Exporter)
    requires Shaped(e) && e.tick == Freed
    ensures TimerOk(c, e)
  {
  }

  lemma NextTimer(c: Config, e: Exporter, step: Step)
    requires Inv(c, e) && TimerOk(c, e) && Enabled(c, e, step)
    ensures TimerOk(c, Next(c, e, step))
  {
    assert Shaped(e) && ProducersOk(e) && (e.tick != Freed ==> RequestOk(c, e));
    hide Inv, Act, BeforeBackoff, Drain, Check, Push, Tally, FreeSignal, TimerOk, RequestOk;
    match step {
      case ActNow(i) => ActNowTimer(c, e, i);
      case DrainOne(now) => DrainTimer(c, e, e.tick.s, now);
      case EmitCheck(_, _, _) => ProducerTimer(c, e, step);
      case EmitPush(_) => ProducerTimer(c, e, step);
      case EmitCount(_) => ProducerTimer(c, e, step);
      case Free => FreedTimer(c, Next(c, e, step));
      case _ => SameTimer(c, e, Next(c, e, step));
    }
  }

  lemma ActNowTimer(c: Config, e: Exporter, i: Inputs)
    requires Shaped(e) && TimerOk(c, e) && RequestOk(c, e) && e.tick == Acting
    ensures TimerOk(c, Act(c, e, i).(tick := Idle))
  {
    hide Act, BeforeBackoff;
    if !c.nullTransport { ActTimer(c, e, i); }
  }

  lemma {:induction false} RunsTimer(c: Config, e: Exporter, steps: seq<Step>, e': Exporter)
    requires Inv(c, e) && TimerOk(c, e) && Runs(c, e, steps, e')
    ensures Shaped(e') && TimerOk(c, e')
    decreases |steps|
  {
    assert Shaped(e) && ProducersOk(e);
    if steps != [] {
      NextTimer(c, e, steps[0]);
      NextInv(c, e, steps[0]);
      hide Next, Inv, TimerOk;
      RunsTimer(c, Next(c, e, steps[0]), steps[1..], e');
    }
  }

  lemma ReachableTimer(c: Config, e: Exporter)
    requires Reachable(c, e)
    ensures Inv(c, e) && TimerOk(c, e)
  {
    ReachableInv(c, e);
    var jitter: uint64, steps :| jitter != 0 && Runs(c, Created(jitter), steps, e);
    CreatedInv(c, jitter);
    RunsTimer(c, Created(jitter), steps, e);
  }

  /** Something was drained into the batch in flight exactly when its timer runs: the guard by
      which a caller could tell that the outcome will lose items. */
  lemma ExcessIffTimer(c: Config, e: Exporter)
    requires Reachable(c, e) && e.inFlight.Some?
    ensures |e.sig[e.inFlightSignal].pending| > e.inFlightCount <==>
      e.sig[e.inFlightSignal].firstSet
  {
    ReachableTimer(c, e);
  }

  // ---------------------------------------------------------------- batches without a timer

  /** There is a batch, but neither a request, a backoff nor a timer for it, and it is not full. */
  predicate Timerless(c: Config, e: Exporter, k: nat)
    requires Shaped(e) && k < N_SIGNALS
  {
    e.inFlight.None? && !e.backoffArmed && !e.sig[k].firstSet && e.sig[k].pending != [] &&
    |e.sig[k].pending| < c.batchSize
  }

  /**
   A retry whose request cannot be built leaves its batch without a timer exactly when the batch
   is not full and nothing was drained into it since its request was started: all that is pending
   is what the request carried. The retry may have been awaited before the step or fall due in the
   step that recorded the outcome.
   */
  lemma FailedRebuildLeavesNoTimerIff(c: Config, e: Exporter, i: Inputs)
    requires Reachable(c, e) && e.tick == Acting && !c.nullTransport
    requires var b := BeforeBackoff(c, e, i);
      b.inFlight.None? && b.backoffArmed && i.backoffNow >= b.deadline && !i.rebuilt
    ensures var b, r := BeforeBackoff(c, e, i), Act(c, e, i);
      var k := b.inFlightSignal;
      r == b.(backoffArmed := false) &&
      (Timerless(c, r, k) <==>
        b.sig[k].pending == b.carried && |b.sig[k].pending| < c.batchSize)
  {
    ReachableTimer(c, e);
    ActTimer(c, e, i);
    hide StartStep, NullStep, RecordOutcome, RequestStep;
  }

  /** The step leaves the batches and the last request as they are, but for what is drained. */
  predicate KeepsBatches(c: Config, e: Exporter, step: Step)
    requires Shaped(e) && ProducersOk(e) && Enabled(c, e, step)
  {
    !step.Free? &&
    (step.ActNow? ==>
      var r := Next(c, e, step);
      r.sig == e.sig && r.carried == e.carried && r.inFlightSignal == e.inFlightSignal)
  }

  ghost predicate KeepBatches(c: Config, e: Exporter, steps: seq<Step>)
    requires Shaped(e)
    decreases |steps|
  {
    steps == [] ||
    (ProducersOk(e) && Enabled(c, e, steps[0]) && KeepsBatches(c, e, steps[0]) &&
     KeepBatches(c, Next(c, e, steps[0]), steps[1..]))
  }

  /** As long as no request starts or is given up, what is pending beyond `carried` is what was
      drained; a failed request and its backoff do not change that. */
  lemma {:induction false} DrainedSince(c: Config, e: Exporter, steps: seq<Step>, e': Exporter)
    requires Inv(c, e) && Runs(c, e, steps, e') && KeepBatches(c, e, steps)
    ensures var k := e.inFlightSignal;
      Shaped(e') && e'.inFlightSignal == k && e'.carried == e.carried &&
      e.sig[k].pending <= e'.sig[k].pending &&
      |e'.sig[k].pending| == |e.sig[k].pending| + Drains(c, e, steps, k)
    decreases |steps|
  {
    assert Shaped(e) && ProducersOk(e);
    if steps != [] {
      NextInv(c, e, steps[0]);
      PendingGrowth(c, e, steps[0]);
      hide Next, Inv, Enabled, KeepsBatches;
      DrainedSince(c, Next(c, e, steps[0]), steps[1..], e');
    }
  }

  lemma PendingGrowth(c: Config, e: Exporter, step: Step)
    requires Inv(c, e) && Enabled(c, e, step) && KeepsBatches(c, e, step)
    ensures var k, r := e.inFlightSignal, Next(c, e, step);
      r.inFlightSignal == k && r.carried == e.carried && e.sig[k].pending <= r.sig[k].pending &&
      |r.sig[k].pending| ==
        |e.sig[k].pending| + if step.DrainOne? && e.tick == Draining(k) then 1 else 0
  {
    hide Act;
  }

  /** A batch of the signal k that nothing but its own producers or the shutdown can move. */
  predicate Stuck(c: Config, e: Exporter, k: nat)
    requires Shaped(e) && k < N_SIGNALS
  {
    e.tick != Freed && !c.nullTransport && !e.shutdown && e.sig[k].queue == [] &&
    e.sig[k].pending != [] && |e.sig[k].pending| < c.batchSize && !e.sig[k].firstSet &&
    (e.inFlight.Some? || e.backoffArmed ==> e.inFlightSignal != k)
  }

  /** Not a push of the signal, not the shutdown, not the end. */
  predicate Spares(e: Exporter, step: Step, k: nat) {
    !step.Shutdown? && !step.Free? &&
    (step.EmitPush? ==> step.p in e.producers && e.producers[step.p].kind != k)
  }

  ghost predicate AllSpare(c: Config, e: Exporter, steps: seq<Step>, k: nat)
    requires Shaped(e)
    decreases |steps|
  {
    steps == [] ||
    (ProducersOk(e) && Enabled(c, e, steps[0]) && Spares(e, steps[0], k) &&
     AllSpare(c, Next(c, e, steps[0]), steps[1..], k))
  }

  lemma StuckAct(c: Config, e: Exporter, i: Inputs, k: nat)
    requires Shaped(e) && k < N_SIGNALS && Stuck(c, e, k)
    ensures var r := Act(c, e, i);
      Stuck(c, r, k) && r.sig[k] == e.sig[k] && r.hist[k] == e.hist[k]
  {
    hide StartStep, RecordOutcome, NullStep;
    var e1 := StartStep(c, e, i, 0);
    if e.inFlight.None? { StartIff(c, e, i, 0); } else { StartNothing(c, e, i); }
    assert Stuck(c, e1, k) && e1.sig[k] == e.sig[k] && e1.hist[k] == e.hist[k];
    if e1.inFlight.Some? && i.request.Some? {
      OutcomeEffect(c, e1, i.request.value, i.requestNow);
      RecordKeepsCarried(c, e1, i.request.value, i.requestNow);
      RecordKeepsOthers(c, e1, i.request.value, i.requestNow, k);
    }
  }

  lemma RecordKeepsOthers(c: Config, e: Exporter, o: Outcome, now: nat, k: nat)
    requires Shaped(e) && k < N_SIGNALS && k != e.inFlightSignal
    ensures var r := RecordOutcome(c, e, o, now);
      r.sig[k] == e.sig[k] && r.hist[k] == e.hist[k] && r.shutdown == e.shutdown
  {
    hide RetryDelay, NextAttempt, Success, Retryable;
  }

  lemma StuckNext(c: Config, e: Exporter, step: Step, k: nat)
    requires Shaped(e) && ProducersOk(e) && k < N_SIGNALS && Stuck(c, e, k)
    requires Enabled(c, e, step) && Spares(e, step, k)
    ensures var r := Next(c, e, step);
      Stuck(c, r, k) && r.sig[k].pending == e.sig[k].pending && r.hist[k].freed == e.hist[k].freed
  {
    hide Act;
    if step.ActNow? { StuckAct(c, e, step.i, k); }
  }

  /**
   A batch without a timer stays where it is in every run, however long and whatever the clock,
   the builder, the server and the other signals do, until something is pushed for its signal, the
   shutdown is asked for or the exporter is freed.
   */
  lemma {:induction false} NoTimerNoPost(c: Config, e: Exporter, steps: seq<Step>, e': Exporter,
      k: nat)
    requires Shaped(e) && k < N_SIGNALS && Stuck(c, e, k)
    requires Runs(c, e, steps, e') && AllSpare(c, e, steps, k)
    ensures Shaped(e') && Stuck(c, e', k)
    ensures e'.sig[k].pending == e.sig[k].pending && e'.hist[k].freed == e.hist[k].freed
    decreases |steps|
  {
    if steps != [] {
      StuckNext(c, e, steps[0], k);
      hide Next, Enabled, Spares, Stuck;
      NoTimerNoPost(c, Next(c, e, steps[0]), steps[1..], e', k);
    }
  }

  const STRANDING := Config(2, 100, 5, RetryCfg(1000, 30000), 2, false)
  const STARTS := Instant(100, None, {0}, false)
  const FAILS := Instant(100, Some(Outcome(500, 0, 0)), {}, false)
  const GIVES_UP := Instant(30100, None, {}, false)

  /** The first item is in flight. */
  predicate Posted(e: Exporter) {
    Quiet(e) && !e.shutdown && e.inFlight == Some([7]) && e.inFlightSignal == 0 &&
    !e.backoffArmed && e.attempt == 0 && !e.sig[0].firstSet && e.sig[0].pending == [7] &&
    !e.sig[1].firstSet && !e.sig[2].firstSet && e.sig[1].pending == e.sig[2].pending == []
  }

  /** Its request has failed. */
  predicate Failed(e: Exporter) {
    Quiet(e) && !e.shutdown && e.inFlight.None? && e.inFlightSignal == 0 &&
    (e.backoffArmed ==> e.deadline <= 30100) && !e.sig[0].firstSet && e.sig[0].pending == [7] &&
    !e.sig[1].firstSet && !e.sig[2].firstSet && e.sig[1].pending == e.sig[2].pending == []
  }

  /** The item is drained; a batch interval later its request starts and is stepped once. */
  lemma StrandingStart() returns (steps: seq<Step>, e: Exporter)
    ensures Posted(e) && Timed(STRANDING, Created(1), START, steps, e, Moment(100, 1))
  {
    var e0 := Created(1);
    var e1 := Emitted(e0, 7);
    assert e1.sig[0].queue == [7];
    StartsOnTime(e1);
    e := AfterAct(STRANDING, Drained(e1, 0), STARTS);
    hide Timed, Act, AfterAct, Emitted, Drained;
    steps := EmitTimed(STRANDING, e0, START, 7);
    var s2 := TickTimed(STRANDING, e1, START, 0, STARTS);
    TimedConcat(STRANDING, e0, START, steps, e1, START, s2, e, Moment(100, 1));
    steps := steps + s2;
  }

  lemma StartsOnTime(e: Exporter)
    requires e == Emitted(Created(1), 7)
    ensures var e1 := Drained(e, 0);
      Posted(AfterAct(STRANDING, e1, STARTS)) && Possible(STRANDING, e1, ActNow(STARTS), START) &&
      Later(STRANDING, e1, ActNow(STARTS), START) == Moment(100, 1)
  {
    hide StartStep;
    var e1 := Drained(e, 0);
    assert e1.sig[0].pending == [7];
    assert Startable(STRANDING, e1, STARTS, 0);
    StartIff(STRANDING, e1, STARTS, 0);
    assert StartStep(STRANDING, e1, STARTS, 0) == TryStart(e1, 0, true);
  }

  /** In its third step the request fails; the retry may fall due at once. */
  lemma StrandingFailure(e: Exporter)
    requires Posted(e)
    ensures Failed(QuietTick(STRANDING, e, FAILS))
    ensures Possible(STRANDING, e.(tick := Acting), ActNow(FAILS), Moment(100, 2))
    ensures Later(STRANDING, e.(tick := Acting), ActNow(FAILS), Moment(100, 2)) == Moment(100, 0)
  {
    hide StartStep, RetryDelay;
    var e1 := e.(tick := Acting);
    StartNothing(STRANDING, e1, FAILS);
    DelayRespectsFloorIff(1, 0, STRANDING.retry);
    OutcomeEffect(STRANDING, e1, Outcome(500, 0, 0), 100);
    DisposesIff(STRANDING, e1, Outcome(500, 0, 0), 100);
    var e2 := RecordOutcome(STRANDING, e1, Outcome(500, 0, 0), 100);
    assert e2.backoffArmed && e2.deadline <= 30100 && e2.sig == e1.sig;
  }

  /** After the deadline its request cannot be built again. */
  lemma StrandingRetry(e: Exporter)
    requires Failed(e)
    ensures var r := QuietTick(STRANDING, e, GIVES_UP);
      Quiet(r) && r.sig[0].pending == [7] && Timerless(STRANDING, r, 0) && Stuck(STRANDING, r, 0)
    ensures Possible(STRANDING, e.(tick := Acting), ActNow(GIVES_UP), Moment(100, 0))
    ensures Later(STRANDING, e.(tick := Acting), ActNow(GIVES_UP), Moment(100, 0)).clock == 30100
  {
    hide StartStep;
    StartIff(STRANDING, e.(tick := Acting), GIVES_UP, 0);
  }

  /**
   A run over HTTP to a batch that is stuck: one item, one failing request, and no second one, in
   any continuation without a push of the signal or the shutdown.
   */
  lemma RetryMayStrand() returns (c: Config, e: Exporter)
    ensures ConfigOk(c) && Happens(c, e) && e.tick == Idle && e.producers == map[]
    ensures e.sig[0].pending == [7] && Timerless(c, e, 0) && Stuck(c, e, 0)
    ensures forall steps: seq<Step>, e': Exporter ::
      Runs(c, e, steps, e') && AllSpare(c, e, steps, 0) ==>
        Shaped(e') && e'.sig[0].pending == [7]
  {
    c := STRANDING;
    e := StrandingRun();
    hide Runs, AllSpare, Stuck;
    forall steps: seq<Step>, e': Exporter | Runs(c, e, steps, e') && AllSpare(c, e, steps, 0)
      ensures Shaped(e') && e'.sig[0].pending == [7]
    {
      NoTimerNoPost(c, e, steps, e', 0);
    }
  }

  lemma StrandingRun() returns (e: Exporter)
    ensures Happens(STRANDING, e) && Quiet(e)
    ensures e.sig[0].pending == [7] && Timerless(STRANDING, e, 0) && Stuck(STRANDING, e, 0)
  {
    hide Timed, Act, QuietTick, Later, Possible, Timerless, Stuck;
    var s1, e1 := StrandingStart();
    StillWaiting(STRANDING, e1, Moment(100, 1), STARTS);
    WaitPossible(STRANDING, e1.(tick := Acting), Moment(100, 1), STARTS);
    var s2 := QuietTimed(STRANDING, e1, Moment(100, 1), STARTS);
    StrandingFailure(e1);
    var s3 := QuietTimed(STRANDING, e1, Moment(100, 2), FAILS);
    var e3 := QuietTick(STRANDING, e1, FAILS);
    StrandingRetry(e3);
    var s4 := QuietTimed(STRANDING, e3, Moment(100, 0), GIVES_UP);
    e := QuietTick(STRANDING, e3, GIVES_UP);
    var last := Later(STRANDING, e3.(tick := Acting), ActNow(GIVES_UP), Moment(100, 0));
    TimedConcat(STRANDING, Created(1), START, s1, e1, Moment(100, 1), s2, e1, Moment(100, 2));
    TimedConcat(STRANDING, Created(1), START, s1 + s2, e1, Moment(100, 2), s3, e3, Moment(100, 0));
    TimedConcat(STRANDING, Created(1), START, s1 + s2 + s3, e3, Moment(100, 0), s4, e, last);
  }

  // ---------------------------------------------------------------- retries without end

  /** With the largest budget no failing outcome disposes, in any state. */
  lemma NeverGivesUp(c: Config, e: Exporter, o: Outcome, now: nat)
    requires Shaped(e) && c.maxRetries == UINT32_RANGE - 1 && Retryable(o.status)
    ensures !Disposed(e, RecordOutcome(c, e, o, now))
    ensures RecordOutcome(c, e, o, now).outcomes == e.outcomes + [false]
  {
    OutcomeEffect(c, e, o, now);
    DisposesIff(c, e, o, now);
  }

  /** An answer with the status 500 at `t`, and the end of the longest backoff after it. */
  function Failing(c: Config, t: nat): Inputs {
    Instant(t, Some(Outcome(500, 0, 0)), {0}, true).(backoffNow := t + c.retry.maxMs)
  }

  function Waiting(t: nat): Inputs { Instant(t, None, {0}, true) }

  /** Between ticks the first batch is not given up: its request is in flight, or its retry, which
      is due after the longest backoff at the latest, is awaited. */
  predicate Between(c: Config, e: Exporter, m: Moment) {
    Quiet(e) && !e.shutdown && e.sig[0].pending != [] && e.inFlightSignal == 0 &&
    if c.nullTransport then
      e.inFlight.None? && e.backoffArmed && e.deadline <= m.clock + c.retry.maxMs
    else e.inFlight.Some? && !e.backoffArmed
  }

  /** What a failing outcome of the first batch leaves behind. */
  lemma FailedOutcome(c: Config, e: Exporter, now: nat)
    requires Shaped(e) && c.maxRetries == UINT32_RANGE - 1
    ensures var r := RecordOutcome(c, e, Outcome(500, 0, 0), now);
      r == e.(outcomes := e.outcomes + [false], backoffArmed := true, attempt := r.attempt,
              jitter := r.jitter, deadline := r.deadline, http5xx := r.http5xx) &&
      r.deadline <= now + c.retry.maxMs
  {
    NeverGivesUp(c, e, Outcome(500, 0, 0), now);
    DelayRespectsFloorIff(NextAttempt(e.attempt), 0, c.retry);
    hide RetryDelay;
  }

  /** Over HTTP a tick records a failing outcome and, a backoff later, posts the batch again. */
  lemma FailsOverHttp(c: Config, e: Exporter, m: Moment)
    requires Between(c, e, m) && c.maxRetries == UINT32_RANGE - 1 && !c.nullTransport
    requires m.stepped >= 2
    ensures var i := Failing(c, m.clock);
      var r, n := QuietTick(c, e, i), Later(c, e.(tick := Acting), ActNow(i), m);
      Possible(c, e.(tick := Acting), ActNow(i), m) && n == Moment(m.clock + c.retry.maxMs, 0) &&
      Between(c, r, n) && r.outcomes == e.outcomes + [false]
  {
    hide StartStep, RecordOutcome;
    var e1 := e.(tick := Acting);
    StartNothing(c, e1, Failing(c, m.clock));
    FailedOutcome(c, e1, m.clock);
  }

  /** Before that its request is stepped twice. */
  lemma WaitsTwice(c: Config, e: Exporter, m: Moment) returns (steps: seq<Step>)
    requires Between(c, e, m) && !c.nullTransport
    ensures Timed(c, e, m, steps, e, Moment(m.clock, m.stepped + 2))
    ensures Between(c, e, Moment(m.clock, m.stepped + 2))
  {
    var i, n, l := Waiting(m.clock), Moment(m.clock, m.stepped + 1), Moment(m.clock, m.stepped + 2);
    WaitPossible(c, e.(tick := Acting), m, i);
    WaitPossible(c, e.(tick := Acting), n, i);
    StillWaiting(c, e, m, i);
    StillWaiting(c, e, n, i);
    hide Timed, QuietTick, Later, Possible;
    var s1 := QuietTimed(c, e, m, i);
    var s2 := QuietTimed(c, e, n, i);
    TimedConcat(c, e, m, s1, e, n, s2, e, l);
    steps := s1 + s2;
  }

  lemma OneMoreOverHttp(c: Config, e: Exporter, m: Moment)
    returns (steps: seq<Step>, r: Exporter, n: Moment)
    requires Between(c, e, m) && c.maxRetries == UINT32_RANGE - 1 && !c.nullTransport
    ensures Timed(c, e, m, steps, r, n) && Between(c, r, n) && n.clock == m.clock + c.retry.maxMs
    ensures r.outcomes == e.outcomes + [false]
  {
    var l := Moment(m.clock, m.stepped + 2);
    var i := Failing(c, m.clock);
    var s1 := WaitsTwice(c, e, m);
    FailsOverHttp(c, e, l);
    hide Timed, QuietTick, Later, Possible, Failing;
    r, n := QuietTick(c, e, i), Later(c, e.(tick := Acting), ActNow(i), l);
    var s2 := QuietTimed(c, e, l, i);
    TimedConcat(c, e, m, s1, e, l, s2, r, n);
    steps := s1 + s2;
  }

  /** Under the null transport a tick ends the backoff, the next one records the outcome. */
  lemma FailsUnderNull(c: Config, e: Exporter, m: Moment)
    requires Between(c, e, m) && c.maxRetries == UINT32_RANGE - 1 && c.nullTransport
    ensures var t := m.clock + c.retry.maxMs;
      var i := Waiting(t);
      var e1, n := QuietTick(c, e, i), Moment(t, 0);
      var e2 := QuietTick(c, e1, i);
      Possible(c, e.(tick := Acting), ActNow(i), m) && Quiet(e1) &&
      Later(c, e.(tick := Acting), ActNow(i), m) == n &&
      Possible(c, e1.(tick := Acting), ActNow(i), n) &&
      Later(c, e1.(tick := Acting), ActNow(i), n) == n &&
      Between(c, e2, n) && e2.outcomes == e.outcomes + [false]
  {
    var t := m.clock + c.retry.maxMs;
    var i := Waiting(t);
    StartNothing(c, e.(tick := Acting), i);
    var e1 := QuietTick(c, e, i);
    EndsBackoff(c, e, i);
    NullFails(c, e1.(tick := Acting), i, t);
  }

  lemma EndsBackoff(c: Config, e: Exporter, i: Inputs)
    requires Resting(e) && c.nullTransport && e.backoffArmed && e.inFlight.None?
    requires e.deadline <= i.backoffNow
    ensures QuietTick(c, e, i) == e.(backoffArmed := false)
  {
    hide NullStep, RecordOutcome;
  }

  lemma NullFails(c: Config, e: Exporter, i: Inputs, t: nat)
    requires Shaped(e) && c.nullTransport && !e.backoffArmed && e.sig[0].pending != []
    requires c.maxRetries == UINT32_RANGE - 1 && i == Waiting(t)
    ensures var e1 := e.(inFlightSignal := 0, inFlightCount := |e.sig[0].pending|);
      var r := AfterAct(c, e, i);
      r == e1.(tick := Idle, outcomes := e.outcomes + [false], backoffArmed := true,
               attempt := r.attempt, jitter := r.jitter, deadline := r.deadline,
               http5xx := r.http5xx) &&
      r.deadline <= t + c.retry.maxMs
  {
    hide StartStep, RecordOutcome;
    var e1 := e.(inFlightSignal := 0, inFlightCount := |e.sig[0].pending|);
    FailedOutcome(c, e1, t);
    assert NullStep(c, e, i, 0) == Some(RecordOutcome(c, e1, Outcome(500, 0, 0), t));
  }

  lemma OneMoreUnderNull(c: Config, e: Exporter, m: Moment)
    returns (steps: seq<Step>, r: Exporter, n: Moment)
    requires Between(c, e, m) && c.maxRetries == UINT32_RANGE - 1 && c.nullTransport
    ensures Timed(c, e, m, steps, r, n) && Between(c, r, n) && n.clock == m.clock + c.retry.maxMs
    ensures r.outcomes == e.outcomes + [false]
  {
    var i := Waiting(m.clock + c.retry.maxMs);
    FailsUnderNull(c, e, m);
    hide Timed, QuietTick, Later, Possible, Waiting;
    n := Moment(m.clock + c.retry.maxMs, 0);
    var e1 := QuietTick(c, e, i);
    r := QuietTick(c, e1, i);
    var s1 := QuietTimed(c, e, m, i);
    var s2 := QuietTimed(c, e1, n, i);
    TimedConcat(c, e, m, s1, e1, n, s2, r, n);
    steps := s1 + s2;
  }

  /** One item is emitted and, over HTTP, posted; under the null transport a first outcome fails. */
  lemma FirstBatch(c: Config) returns (steps: seq<Step>, e: Exporter, m: Moment)
    requires c.maxRetries == UINT32_RANGE - 1 && QueueOk(c) && c.batchSize >= 1
    ensures Timed(c, Created(1), START, steps, e, m) && Between(c, e, m) && m.clock == c.batchMs
    ensures e.outcomes == if c.nullTransport then [false] else []
  {
    var e0 := Created(1);
    var e1 := Emitted(e0, 7);
    assert e1.sig[0].queue == [7];
    var i := Waiting(c.batchMs);
    FirstBatchTick(c, e1);
    hide Timed, Act, AfterAct, Emitted, Drained, Later, Possible;
    steps := EmitTimed(c, e0, START, 7);
    var s2 := TickTimed(c, e1, START, 0, i);
    e, m := AfterAct(c, Drained(e1, 0), i), Later(c, Drained(e1, 0), ActNow(i), START);
    TimedConcat(c, e0, START, steps, e1, START, s2, e, m);
    steps := steps + s2;
  }

  /** The item is drained, the signals are otherwise empty, and nothing is under way. */
  predicate OneDrained(e: Exporter) {
    Shaped(e) && e.tick == Acting && e.producers == map[] && !e.shutdown && e.inFlight.None? &&
    !e.backoffArmed && e.inFlightSignal == 0 && e.outcomes == [] && e.sig[0].pending == [7] &&
    e.sig[0].queue == e.sig[1].queue == e.sig[2].queue == [] && e.sig[0].firstSet &&
    e.sig[0].firstMono == 0
  }

  lemma FirstBatchTick(c: Config, e: Exporter)
    requires c.maxRetries == UINT32_RANGE - 1 && c.batchSize >= 1 && e == Emitted(Created(1), 7)
    ensures var i, e1 := Waiting(c.batchMs), Drained(e, 0);
      var r, m := AfterAct(c, e1, i), Later(c, e1, ActNow(i), START);
      Possible(c, e1, ActNow(i), START.(clock := 0)) && m.clock == c.batchMs &&
      Between(c, r, m) && r.outcomes == if c.nullTransport then [false] else []
  {
    var e1 := Drained(e, 0);
    assert OneDrained(e1);
    hide AfterAct, Drained, OneDrained, Between;
    if c.nullTransport { FirstFails(c, e1); } else { FirstStarts(c, e1); }
  }

  lemma FirstFails(c: Config, e: Exporter)
    requires c.maxRetries == UINT32_RANGE - 1 && OneDrained(e) && c.nullTransport
    ensures var i := Waiting(c.batchMs);
      var r := AfterAct(c, e, i);
      Between(c, r, Later(c, e, ActNow(i), START)) && r.outcomes == [false]
  {
    NullFails(c, e, Waiting(c.batchMs), c.batchMs);
    hide AfterAct, StartStep;
  }

  lemma FirstStarts(c: Config, e: Exporter)
    requires OneDrained(e) && c.batchSize >= 1 && !c.nullTransport
    ensures var i := Waiting(c.batchMs);
      var r := AfterAct(c, e, i);
      Between(c, r, Later(c, e, ActNow(i), START)) && r.outcomes == []
  {
    hide StartStep, RecordOutcome, NullStep;
    var i := Waiting(c.batchMs);
    assert Startable(c, e, i, 0);
    StartIff(c, e, i, 0);
    assert StartStep(c, e, i, 0) == TryStart(e, 0, true);
  }

  lemma {:induction false} ManyFailures(c: Config, n: nat)
    returns (steps: seq<Step>, e: Exporter, m: Moment)
    requires c.maxRetries == UINT32_RANGE - 1 && QueueOk(c) && c.batchSize >= 1
    ensures Timed(c, Created(1), START, steps, e, m) && Between(c, e, m)
    ensures m.clock == c.batchMs + n * c.retry.maxMs
    ensures |e.outcomes| >= n && forall k :: 0 <= k < |e.outcomes| ==> !e.outcomes[k]
  {
    if n == 0 {
      steps, e, m := FirstBatch(c);
    } else {
      var d, l, more;
      steps, d, l := ManyFailures(c, n - 1);
      BetweenShaped(c, d, l);
      hide Timed, Between;
      if c.nullTransport {
        more, e, m := OneMoreUnderNull(c, d, l);
      } else {
        more, e, m := OneMoreOverHttp(c, d, l);
      }
      BetweenShaped(c, e, m);
      TimedConcat(c, Created(1), START, steps, d, l, more, e, m);
      steps := steps + more;
      assert (n - 1) * c.retry.maxMs + c.retry.maxMs == n * c.retry.maxMs;
    }
  }

  lemma BetweenShaped(c: Config, e: Exporter, m: Moment)
    requires Between(c, e, m)
    ensures Shaped(e)
  {
  }

  /**
   For every n there is a run, at the pace of the code, whose last n outcomes all failed without
   disposing of anything. Its clock shows no more than a batch interval and n longest backoffs.
   */
  lemma RetriesForever(c: Config, n: nat) returns (steps: seq<Step>, e: Exporter, m: Moment)
    requires c.maxRetries == UINT32_RANGE - 1 && QueueOk(c) && c.batchSize >= 1
    ensures Timed(c, Created(1), START, steps, e, m) && m.clock == c.batchMs + n * c.retry.maxMs
    ensures Shaped(e) && Reachable(c, e) && |e.outcomes| >= n
    ensures forall k :: |e.outcomes| - n <= k < |e.outcomes| ==> !e.outcomes[k]
  {
    hide Timed, Between;
    steps, e, m := ManyFailures(c, n);
    BetweenShaped(c, e, m);
    TimedRuns(c, Created(1), START, steps, e, m);
  }

  /**
   Among any max_retries + 1 consecutive outcomes one disposes of a batch, in every run and in
   every run at the pace of the code, exactly when max_retries is not the largest 32-bit number;
   for that one the attempt counter wraps around before it exceeds the budget.
   */
  lemma RetriesEndIff(c: Config)
    requires QueueOk(c) && c.batchSize >= 1
    ensures (forall e :: Reachable(c, e) ==> Disposing(e.outcomes, c.maxRetries + 1)) <==>
      c.maxRetries < UINT32_RANGE - 1
    ensures (forall e :: Happens(c, e) ==> Disposing(e.outcomes, c.maxRetries + 1)) <==>
      c.maxRetries < UINT32_RANGE - 1
  {
    hide Happens, Reachable, Disposing;
    if c.maxRetries < UINT32_RANGE - 1 {
      forall e | Reachable(c, e) ensures Disposing(e.outcomes, c.maxRetries + 1) {
        RetriesEnd(c, e);
      }
      forall e | Happens(c, e) ensures Disposing(e.outcomes, c.maxRetries + 1) {
        HappensReachable(c, e);
      }
    } else {
      var e := NeverDisposing(c);
      HappensReachable(c, e);
    }
  }

  lemma NeverDisposing(c: Config) returns (e: Exporter)
    requires QueueOk(c) && c.batchSize >= 1 && c.maxRetries == UINT32_RANGE - 1
    ensures Happens(c, e) && !Disposing(e.outcomes, c.maxRetries + 1)
  {
    hide Timed, Reachable;
    var n := c.maxRetries + 1;
    var steps, m;
    steps, e, m := RetriesForever(c, n);
    assert m.clock < UINT64_RANGE;
    var k := |e.outcomes|;
    assert true !in e.outcomes[k - n..k];
  }
}
