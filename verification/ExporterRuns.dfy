/**
 What holds on every run of the exporter of ExporterMachine: the item ledger and the items it
 loses, the request in flight, retries and backoff, and the outcome counters.
 */
module ExporterRuns {
  import opened Common
  import opened Retry
  import opened ExporterMachine

  // ---------------------------------------------------------------- runs

  ghost predicate Runs(c: Config, e: Exporter, steps: seq<Step>, e': Exporter)
    requires Shaped(e)
    decreases |steps|
  {
    if steps == [] then e' == e
    else
      ProducersOk(e) && Enabled(c, e, steps[0]) && Runs(c, Next(c, e, steps[0]), steps[1..], e')
  }

  /** A run leads from a new exporter, whose queues have two slots at least, to `e`. */
  ghost predicate Reachable(c: Config, e: Exporter) {
    QueueOk(c) && Shaped(e) &&
    exists jitter: uint64, steps :: jitter != 0 && Runs(c, Created(jitter), steps, e)
  }

  lemma {:induction false} RunsInv(c: Config, e: Exporter, steps: seq<Step>, e': Exporter)
    requires Inv(c, e) && Runs(c, e, steps, e')
    ensures Inv(c, e')
    decreases |steps|
  {
    assert Shaped(e) && ProducersOk(e);
    hide Next, Inv;
    if steps != [] {
      NextInv(c, e, steps[0]);
      RunsInv(c, Next(c, e, steps[0]), steps[1..], e');
    }
  }

  lemma {:induction false} RunsConcat(c: Config, a: Exporter, s: seq<Step>, b: Exporter,
      t: seq<Step>, d: Exporter)
    requires Shaped(a) && Shaped(b) && Runs(c, a, s, b) && Runs(c, b, t, d)
    ensures Runs(c, a, s + t, d)
    decreases |s|
  {
    hide Next;
    if s == [] {
      assert s + t == t;
    } else {
      RunsConcat(c, Next(c, a, s[0]), s[1..], b, t, d);
      assert (s + t)[1..] == s[1..] + t;
    }
  }

  lemma ReachableInv(c: Config, e: Exporter)
    requires Reachable(c, e)
    ensures Inv(c, e)
  {
    var jitter: uint64, steps :| jitter != 0 && Runs(c, Created(jitter), steps, e);
    CreatedInv(c, jitter);
    RunsInv(c, Created(jitter), steps, e);
  }

  // ---------------------------------------------------------------- rounds

  /** The run has an acting step; between idle states it is the end of a whole round. */
  predicate Acted(steps: seq<Step>) { exists k :: 0 <= k < |steps| && steps[k].ActNow? }

  lemma ActedBefore(a: seq<Step>, b: seq<Step>)
    ensures Acted(a) ==> Acted(a + b)
  {
    if k :| 0 <= k < |a| && a[k].ActNow? { assert (a + b)[k].ActNow?; }
  }

  lemma ActedLater(a: seq<Step>, b: seq<Step>)
    ensures Acted(b) ==> Acted(a + b)
  {
    if k :| 0 <= k < |b| && b[k].ActNow? { assert (a + b)[|a| + k].ActNow?; }
  }

  function Begins(steps: seq<Step>): nat {
    if steps == [] then 0 else (if steps[0].TickBegin? then 1 else 0) + Begins(steps[1..])
  }

  function DrainEnds(steps: seq<Step>): nat {
    if steps == [] then 0 else (if steps[0].DrainEnd? then 1 else 0) + DrainEnds(steps[1..])
  }

  /** Before the first acting step of a run the tick was begun once and the queues of all three
      signals, or those that were left, were drained to their end. */
  lemma {:induction false} ActsAfterDrains(c: Config, e: Exporter, steps: seq<Step>, e': Exporter,
      k: nat)
    requires Shaped(e) && Runs(c, e, steps, e') && k < |steps| && steps[k].ActNow?
    requires forall j :: 0 <= j < k ==> !steps[j].ActNow?
    ensures match e.tick
      case Idle => Begins(steps[..k]) == 1 && DrainEnds(steps[..k]) == N_SIGNALS
      case Draining(s) => Begins(steps[..k]) == 0 && s + DrainEnds(steps[..k]) == N_SIGNALS
      case Acting => Begins(steps[..k]) == DrainEnds(steps[..k]) == 0
      case Freed => false
    decreases k
  {
    if k > 0 {
      var m := Next(c, e, steps[0]);
      assert steps[1..][k - 1] == steps[k];
      assert steps[..k][1..] == steps[1..][..k - 1] && steps[..k][0] == steps[0];
      TickMoves(c, e, steps[0]);
      hide Next, Enabled;
      ActsAfterDrains(c, m, steps[1..], e', k - 1);
    }
  }

  lemma TickMoves(c: Config, e: Exporter, step: Step)
    requires Shaped(e) && ProducersOk(e) && Enabled(c, e, step) && !step.ActNow?
    ensures var t := Next(c, e, step).tick;
      match step
      case TickBegin => e.tick == Idle && t == Draining(0)
      case DrainEnd =>
        e.tick.Draining? && e.tick.s < N_SIGNALS &&
        t == if e.tick.s + 1 < N_SIGNALS then Draining(e.tick.s + 1) else Acting
      case Free => t == Freed
      case _ => t == e.tick
  {
  }

  // ---------------------------------------------------------------- the item ledger

  /**
   No item is lost or freed twice, in any interleaving: in the order in which the queue accepted
   them the items are freed, pending or queued. At the end each was freed once.
   */
  lemma EveryItemOnce(c: Config, e: Exporter, k: nat)
    requires Reachable(c, e) && k < N_SIGNALS
    ensures e.tick != Freed ==>
      e.hist[k].accepted == e.hist[k].freed + e.sig[k].pending + e.sig[k].queue
    ensures e.tick == Freed ==> multiset(e.hist[k].freed) == multiset(e.hist[k].accepted)
  {
    ReachableInv(c, e);
    if e.tick != Freed { assert LedgerOk(c, e.sig[k], e.hist[k]); }
  }

  /** The counters of a signal, while the exporter lives. */
  lemma CounterLedger(c: Config, e: Exporter, k: nat)
    requires Reachable(c, e) && e.tick != Freed && k < N_SIGNALS
    ensures var g, h := e.sig[k], e.hist[k];
      |h.accepted| == g.sent + g.droppedErr + |g.pending| + |g.queue| + h.lost && h.lost >= 0
    ensures c.nullTransport ==> e.hist[k].lost == 0
    ensures e.sig[k].emitted + |CountingIn(e.producers, k)| == |e.hist[k].accepted|
    ensures e.sig[k].droppedFull + |CountingFullIn(e.producers, k)| == |e.hist[k].refusedFull|
    ensures |e.sig[k].pending| <= 2 * c.batchSize && |e.sig[k].queue| <= c.queueCap
  {
    ReachableInv(c, e);
    assert LedgerOk(c, e.sig[k], e.hist[k]) && LagOk(e, k);
  }

  /** What otlp_exporter_flush finds when it returns OK. */
  predicate Flushed(e: Exporter)
    requires Shaped(e)
  {
    e.inFlight.None? && forall k :: 0 <= k < N_SIGNALS ==> e.sig[k].pending == [] == e.sig[k].queue
  }

  /** A flush that succeeds under the null transport has accounted for every emitted item. */
  lemma FlushAccounts(c: Config, e: Exporter, k: nat)
    requires Reachable(c, e) && e.tick != Freed && c.nullTransport && Shaped(e) && Flushed(e)
    requires k < N_SIGNALS && CountingIn(e.producers, k) == {}
    ensures e.sig[k].emitted == e.sig[k].sent + e.sig[k].droppedErr
  {
    CounterLedger(c, e, k);
  }

  // ---------------------------------------------------------------- the items that are lost

  predicate Disposed(e: Exporter, r: Exporter) { r.outcomes == e.outcomes + [true] }

  /** An outcome is recorded once, and a batch that is not disposed of is left as it is. */
  lemma OutcomeEffect(c: Config, e: Exporter, o: Outcome, now: nat)
    requires Shaped(e)
    ensures var k, r := e.inFlightSignal, RecordOutcome(c, e, o, now);
      if Disposed(e, r) then
        r.sig[k].pending == [] && r.sig[k].queue == e.sig[k].queue && !r.backoffArmed &&
        r.attempt == 0 && r.hist[k].freed == e.hist[k].freed + e.sig[k].pending &&
        r.hist[k].lost == e.hist[k].lost + |e.sig[k].pending| - e.inFlightCount &&
        (forall j :: 0 <= j < N_SIGNALS && j != k ==> r.hist[j] == e.hist[j])
      else
        r.outcomes == e.outcomes + [false] && r.sig == e.sig && r.hist == e.hist &&
        r.backoffArmed && r.attempt == NextAttempt(e.attempt)
  {
    hide RetryDelay;
    assert |e.outcomes + [true]| == |e.outcomes| + 1;
    assert (e.outcomes + [true])[|e.outcomes|] && !(e.outcomes + [false])[|e.outcomes|];
  }

  /** The outcome that disposes: success, a permanent failure, or the budget is used up. */
  lemma DisposesIff(c: Config, e: Exporter, o: Outcome, now: nat)
    requires Shaped(e)
    ensures Disposed(e, RecordOutcome(c, e, o, now)) <==>
      !Retryable(o.status) || NextAttempt(e.attempt) > c.maxRetries
  {
    OutcomeEffect(c, e, o, now);
    assert (e.outcomes + [true])[|e.outcomes|] && !(e.outcomes + [false])[|e.outcomes|];
  }

  /**
   The items that are freed without being counted are exactly those that were drained into the
   batch while its request was in flight; the difference grows at no other step.
   */
  lemma LostGrows(c: Config, e: Exporter, step: Step, k: nat)
    requires Inv(c, e) && Enabled(c, e, step) && k < N_SIGNALS
    ensures var r := Next(c, e, step);
      r.hist[k].lost ==
        if step.ActNow? && e.inFlight.Some? && step.i.request.Some? && k == e.inFlightSignal
          && (!Retryable(step.i.request.value.status) || NextAttempt(e.attempt) > c.maxRetries)
        then e.hist[k].lost + |e.sig[k].pending| - e.inFlightCount
        else e.hist[k].lost
  {
    hide Act, RecordOutcome, Disposed;
    if step.ActNow? {
      if e.inFlight.Some? {
        InFlightAct(c, e, step.i);
        if step.i.request.Some? {
          var o := step.i.request.value;
          OutcomeEffect(c, e, o, step.i.requestNow);
          DisposesIff(c, e, o, step.i.requestNow);
          BackoffKeepsHistory(c, RequestStep(c, e, step.i), step.i);
        }
      } else {
        NoRequestNoLoss(c, e, step.i, k);
      }
    }
  }

  /** With a request in flight a tick only steps it, and may then retry. */
  lemma InFlightAct(c: Config, e: Exporter, i: Inputs)
    requires Shaped(e) && RequestOk(c, e) && e.inFlight.Some?
    ensures Act(c, e, i) == BackoffStep(c, RequestStep(c, e, i), i)
    ensures i.request.None? ==> Act(c, e, i) == e
  {
    hide RecordOutcome, NullStep, TryStart;
  }

  lemma BackoffKeepsHistory(c: Config, e: Exporter, i: Inputs)
    requires Shaped(e)
    ensures BackoffStep(c, e, i).hist == e.hist && BackoffStep(c, e, i).outcomes == e.outcomes
  {
  }

  /** A request that starts and ends within one tick carries the whole batch. */
  lemma NoRequestNoLoss(c: Config, e: Exporter, i: Inputs, k: nat)
    requires Inv(c, e) && e.tick != Freed && e.inFlight.None? && k < N_SIGNALS
    ensures Act(c, e, i).hist[k].lost == e.hist[k].lost
  {
    assert Shaped(e);
    hide RecordOutcome, NullStep, StartStep, BackoffStep, Inv;
    if c.nullTransport && !e.backoffArmed {
      NullNoLoss(c, e, i, 0, k);
      if NullStep(c, e, i, 0).Some? { return; }
    }
    StartCarriesAll(c, e, i, 0);
    var e1 := StartStep(c, e, i, 0);
    if e1.inFlight.Some? && i.request.Some? {
      OutcomeEffect(c, e1, i.request.value, i.requestNow);
    }
    BackoffKeepsHistory(c, RequestStep(c, e1, i), i);
  }

  lemma NullNoLoss(c: Config, e: Exporter, i: Inputs, s: nat, k: nat)
    requires Shaped(e) && k < N_SIGNALS
    ensures NullStep(c, e, i, s).Some? ==>
      NullStep(c, e, i, s).value.hist[k].lost == e.hist[k].lost
    decreases N_SIGNALS - s
  {
    hide RecordOutcome;
    if s < N_SIGNALS {
      if e.sig[s].pending != [] {
        var e1 := e.(inFlightSignal := s, inFlightCount := |e.sig[s].pending|);
        OutcomeEffect(c, e1, Outcome(i.nullOutcome.status, 0, 0), i.nullNow);
      } else {
        NullNoLoss(c, e, i, s + 1, k);
      }
    }
  }

  lemma StartCarriesAll(c: Config, e: Exporter, i: Inputs, s: nat)
    requires Shaped(e)
    requires e.inFlight.Some? ==> e.inFlightCount == |e.sig[e.inFlightSignal].pending|
    ensures var r := StartStep(c, e, i, s);
      r.hist == e.hist && r.outcomes == e.outcomes &&
      (r.inFlight.Some? ==> r.inFlightCount == |r.sig[r.inFlightSignal].pending|)
    decreases N_SIGNALS - s
  {
    if s < N_SIGNALS && e.inFlight.None? && !e.backoffArmed {
      var e1 := if Due(c, e, s, i.startNow) then TryStart(e, s, s in i.built) else e;
      StartCarriesAll(c, e1, i, s + 1);
    }
  }

  // ---------------------------------------------------------------- when nothing is lost

  /**
   The step records an outcome that disposes of a batch of the signal, into which something was
   drained since its request was started: more is pending than the request carried.
   */
  predicate Loses(c: Config, e: Exporter, step: Step, k: nat)
    requires Shaped(e)
  {
    step.ActNow? && e.inFlight.Some? && step.i.request.Some? && k == e.inFlightSignal &&
    (!Retryable(step.i.request.value.status) || NextAttempt(e.attempt) > c.maxRetries) &&
    |e.sig[k].pending| > e.inFlightCount
  }

  /** No step of the run does. */
  predicate LossFree(c: Config, e: Exporter, steps: seq<Step>, k: nat)
    requires Shaped(e)
    decreases |steps|
  {
    steps == [] ||
    (ProducersOk(e) && Enabled(c, e, steps[0]) && !Loses(c, e, steps[0], k) &&
     LossFree(c, Next(c, e, steps[0]), steps[1..], k))
  }

  lemma {:induction false} LostIff(c: Config, e: Exporter, steps: seq<Step>, e': Exporter, k: nat)
    requires Inv(c, e) && Runs(c, e, steps, e') && k < N_SIGNALS
    ensures Shaped(e') && e'.hist[k].lost >= e.hist[k].lost
    ensures e'.hist[k].lost == e.hist[k].lost <==> LossFree(c, e, steps, k)
    decreases |steps|
  {
    assert Shaped(e) && ProducersOk(e);
    if steps != [] {
      var m := Next(c, e, steps[0]);
      NextInv(c, e, steps[0]);
      LostStep(c, e, steps[0], k);
      hide Next, Inv, Loses, Enabled;
      LostIff(c, m, steps[1..], e', k);
    }
  }

  lemma LostStep(c: Config, e: Exporter, step: Step, k: nat)
    requires Inv(c, e) && Enabled(c, e, step) && k < N_SIGNALS
    ensures var r := Next(c, e, step);
      r.hist[k].lost >= e.hist[k].lost &&
      (r.hist[k].lost > e.hist[k].lost <==> Loses(c, e, step, k))
  {
    hide Next;
    LostGrows(c, e, step, k);
  }

  /**
   When flush succeeds with producers quiet, every emitted item is counted as sent or as dropped
   exactly when no outcome of the run disposed of a batch of the signal into which something had
   been drained since its request was started.
   */
  lemma FlushAccountsIff(c: Config, jitter: uint64, steps: seq<Step>, e: Exporter, k: nat)
    requires QueueOk(c) && jitter != 0 && Runs(c, Created(jitter), steps, e) && Shaped(e)
    requires e.tick != Freed && Flushed(e) && k < N_SIGNALS && CountingIn(e.producers, k) == {}
    ensures e.sig[k].emitted == e.sig[k].sent + e.sig[k].droppedErr <==>
      LossFree(c, Created(jitter), steps, k)
  {
    hide LossFree, Runs;
    CreatedInv(c, jitter);
    LostIff(c, Created(jitter), steps, e, k);
    CounterLedger(c, e, k);
  }

  /** How many items a run drains into the batch of a signal. */
  function Drains(c: Config, e: Exporter, steps: seq<Step>, k: nat): nat
    requires Shaped(e)
    decreases |steps|
  {
    if steps == [] || !(ProducersOk(e) && Enabled(c, e, steps[0])) then 0
    else
      (if steps[0].DrainOne? && e.tick == Draining(k) then 1 else 0) +
        Drains(c, Next(c, e, steps[0]), steps[1..], k)
  }

  /** The request is not done in the step. */
  predicate StillInFlight(step: Step) { !step.Free? && (step.ActNow? ==> step.i.request.None?) }

  /**
   While a request stays in flight its batch grows by what is drained into it and by nothing else.
   From the start of the request, when all that is pending is carried, the excess over
   in_flight_count is the number of items that were drained since.
   */
  lemma {:induction false} DrainedInFlight(c: Config, e: Exporter, steps: seq<Step>, e': Exporter)
    requires Inv(c, e) && e.inFlight.Some? && Runs(c, e, steps, e')
    requires forall i :: 0 <= i < |steps| ==> StillInFlight(steps[i])
    ensures var k := e.inFlightSignal;
      Shaped(e') && e'.inFlight == e.inFlight && e'.inFlightSignal == k &&
      e'.inFlightCount == e.inFlightCount &&
      |e'.sig[k].pending| == |e.sig[k].pending| + Drains(c, e, steps, k)
    decreases |steps|
  {
    assert Shaped(e) && ProducersOk(e);
    if steps != [] {
      var m := Next(c, e, steps[0]);
      assert StillInFlight(steps[0]);
      NextInv(c, e, steps[0]);
      BatchStays(c, e, steps[0]);
      BatchGrowth(c, e, steps[0]);
      assert forall i :: 0 <= i < |steps[1..]| ==> steps[1..][i] == steps[i + 1];
      hide Next, Inv, Enabled, StillInFlight;
      DrainedInFlight(c, m, steps[1..], e');
    }
  }

  lemma BatchGrowth(c: Config, e: Exporter, step: Step)
    requires Inv(c, e) && e.inFlight.Some? && Enabled(c, e, step) && StillInFlight(step)
    ensures var k := e.inFlightSignal;
      |Next(c, e, step).sig[k].pending| == |e.sig[k].pending| +
        if step.DrainOne? && e.tick == Draining(k) then 1 else 0
  {
    hide Act;
    if step.ActNow? { InFlightAct(c, e, step.i); }
  }

  lemma RunsNothing(c: Config, e: Exporter)
    requires Shaped(e)
    ensures Runs(c, e, [], e)
  {
  }

  // ---------------------------------------------------------------- the request in flight

  /** There is at most one request, and never together with an armed backoff. */
  lemma OneRequest(c: Config, e: Exporter)
    requires Reachable(c, e)
    ensures e.inFlight.Some? ==>
      !e.backoffArmed && !c.nullTransport && 0 < e.inFlightCount <= 2 * c.batchSize &&
      e.inFlightCount <= |e.sig[e.inFlightSignal].pending| &&
      e.inFlight.value == e.sig[e.inFlightSignal].pending[..e.inFlightCount]
  {
    ReachableInv(c, e);
    if e.inFlight.Some? {
      assert LedgerOk(c, e.sig[e.inFlightSignal], e.hist[e.inFlightSignal]);
    }
  }

  /** Until its outcome the items of a request are neither freed nor moved. */
  lemma {:induction false} BatchStays(c: Config, e: Exporter, step: Step)
    requires Inv(c, e) && e.inFlight.Some? && Enabled(c, e, step)
    requires !step.Free? && (step.ActNow? ==> step.i.request.None?)
    ensures var k, r := e.inFlightSignal, Next(c, e, step);
      r.inFlight == e.inFlight && r.inFlightSignal == k && r.inFlightCount == e.inFlightCount &&
      r.hist[k].freed == e.hist[k].freed && e.sig[k].pending <= r.sig[k].pending
  {
    hide Act;
    if step.ActNow? { InFlightAct(c, e, step.i); }
  }

  // ---------------------------------------------------------------- retries

  /** Among any max_retries + 1 consecutive outcomes at least one disposes of a batch. */
  lemma RetriesEnd(c: Config, e: Exporter)
    requires Reachable(c, e) && c.maxRetries < UINT32_RANGE - 1
    ensures Disposing(e.outcomes, c.maxRetries + 1) && e.attempt <= c.maxRetries
  {
    ReachableInv(c, e);
  }

  /** Before the deadline of the backoff a tick starts nothing, records nothing, frees nothing. */
  lemma BackoffHolds(c: Config, e: Exporter, i: Inputs)
    requires Reachable(c, e) && e.tick != Freed && e.backoffArmed && i.backoffNow < e.deadline
    ensures Shaped(e) && Act(c, e, i) == e
  {
    ReachableInv(c, e);
    hide NullStep, RecordOutcome, TryStart;
  }

  /** A backoff is armed for the delay of the retry policy after the outcome. */
  lemma BackoffDelay(c: Config, e: Exporter, o: Outcome, now: nat)
    requires Shaped(e) && ConfigOk(c) && !Disposed(e, RecordOutcome(c, e, o, now))
    ensures var r := RecordOutcome(c, e, o, now);
      now <= r.deadline <= now + c.retry.maxMs &&
      (o.status != 0 ==> r.deadline >= now + Min(o.retryAfterMs, c.retry.maxMs))
  {
    OutcomeEffect(c, e, o, now);
    assert (e.outcomes + [true])[|e.outcomes|] && !(e.outcomes + [false])[|e.outcomes|];
    var attempt := NextAttempt(e.attempt);
    BaseZeroIff(attempt, c.retry);
    DelayRespectsFloorIff(attempt, if o.status == 0 then 0 else o.retryAfterMs, c.retry);
  }

  // ---------------------------------------------------------------- outcome counters

  /** Every recorded outcome is counted in exactly one class. */
  predicate OutcomesCounted(e: Exporter) {
    |e.outcomes| == e.http2xx + e.http4xx + e.http5xx + e.networkErr
  }

  lemma RecordCounts(c: Config, e: Exporter, o: Outcome, now: nat)
    requires Shaped(e) && OutcomesCounted(e)
    ensures OutcomesCounted(RecordOutcome(c, e, o, now))
  {
    hide RetryDelay;
  }

  lemma NullStepCounts(c: Config, e: Exporter, i: Inputs, s: nat)
    requires Shaped(e) && OutcomesCounted(e)
    ensures NullStep(c, e, i, s).Some? ==> OutcomesCounted(NullStep(c, e, i, s).value)
    decreases N_SIGNALS - s
  {
    hide RecordOutcome;
    if s < N_SIGNALS {
      if e.sig[s].pending != [] {
        var e1 := e.(inFlightSignal := s, inFlightCount := |e.sig[s].pending|);
        RecordCounts(c, e1, Outcome(i.nullOutcome.status, 0, 0), i.nullNow);
      } else {
        NullStepCounts(c, e, i, s + 1);
      }
    }
  }

  lemma StartStepCounts(c: Config, e: Exporter, i: Inputs, s: nat)
    requires Shaped(e) && OutcomesCounted(e)
    ensures OutcomesCounted(StartStep(c, e, i, s))
    decreases N_SIGNALS - s
  {
    if s < N_SIGNALS && e.inFlight.None? && !e.backoffArmed {
      var e1 := if Due(c, e, s, i.startNow) then TryStart(e, s, s in i.built) else e;
      StartStepCounts(c, e1, i, s + 1);
    }
  }

  lemma ActCounts(c: Config, e: Exporter, i: Inputs)
    requires Shaped(e) && OutcomesCounted(e)
    ensures OutcomesCounted(Act(c, e, i))
  {
    hide RecordOutcome, NullStep, StartStep;
    NullStepCounts(c, e, i, 0);
    StartStepCounts(c, e, i, 0);
    var e1 := StartStep(c, e, i, 0);
    if e1.inFlight.Some? && i.request.Some? {
      RecordCounts(c, e1, i.request.value, i.requestNow);
    }
  }

  lemma NextCounts(c: Config, e: Exporter, step: Step)
    requires Shaped(e) && ProducersOk(e) && Enabled(c, e, step) && OutcomesCounted(e)
    ensures OutcomesCounted(Next(c, e, step))
  {
    hide Act;
    if step.ActNow? { ActCounts(c, e, step.i); }
  }

  lemma {:induction false} RunsCount(c: Config, e: Exporter, steps: seq<Step>, e': Exporter)
    requires Shaped(e) && Runs(c, e, steps, e') && OutcomesCounted(e)
    ensures OutcomesCounted(e')
    decreases |steps|
  {
    hide Next;
    if steps != [] {
      NextCounts(c, e, steps[0]);
      RunsCount(c, Next(c, e, steps[0]), steps[1..], e');
    }
  }

  /** In every run, each outcome was counted once: as 2xx, 4xx, 5xx or network error. */
  lemma EveryOutcomeCounted(c: Config, e: Exporter)
    requires Reachable(c, e)
    ensures OutcomesCounted(e)
  {
    var jitter: uint64, steps :| jitter != 0 && Runs(c, Created(jitter), steps, e);
    RunsCount(c, Created(jitter), steps, e);
  }
}
