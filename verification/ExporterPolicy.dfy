/**
 What the exporter decides, in its own terms: which counter each HTTP status moves, what a full
 queue and the shutdown refuse, when a batch is posted and which one, and how far a tick drains.
 The statements name the statuses and the fields, so that they stand beside the functions of
 ExporterMachine and not on them.
 */
module ExporterPolicy {
  import opened Common
  import opened Retry
  import opened ExporterMachine
  import opened ExporterRuns

  // ---------------------------------------------------------------- one outcome

  /** An outcome touches its own signal only, and no queue. */
  predicate TouchesOnly(e: Exporter, r: Exporter, k: nat)
    requires Shaped(e) && Shaped(r)
  {
    (forall j :: 0 <= j < N_SIGNALS && j != k ==> r.sig[j] == e.sig[j]) &&
    (k < N_SIGNALS ==>
      r.sig[k].queue == e.sig[k].queue && r.sig[k].emitted == e.sig[k].emitted &&
      r.sig[k].droppedFull == e.sig[k].droppedFull) &&
    r.shutdown == e.shutdown && r.producers == e.producers
  }

  /** The four classes of outcomes, each with what it has grown by. */
  predicate Classes(e: Exporter, r: Exporter, ok: nat, client: nat, server: nat, network: nat) {
    r.http2xx == e.http2xx + ok && r.http4xx == e.http4xx + client &&
    r.http5xx == e.http5xx + server && r.networkErr == e.networkErr + network
  }

  /** The batch is gone and the next one starts afresh. */
  predicate Cleared(r: Exporter, k: nat)
    requires Shaped(r) && k < N_SIGNALS
  {
    r.sig[k].pending == [] && !r.sig[k].firstSet && !r.backoffArmed && r.attempt == 0
  }

  /** 2xx: the batch was sent; a positive number of rejected items is added to their counter. */
  lemma SuccessCounts(c: Config, e: Exporter, o: Outcome, now: nat)
    requires Shaped(e) && 200 <= o.status <= 299
    ensures var k, n, r := e.inFlightSignal, e.inFlightCount, RecordOutcome(c, e, o, now);
      r.sig[k].sent == e.sig[k].sent + n && r.sig[k].droppedErr == e.sig[k].droppedErr &&
      r.sig[k].rejected == e.sig[k].rejected + (if o.rejected > 0 then o.rejected else 0) &&
      Cleared(r, k) && Classes(e, r, 1, 0, 0, 0) && TouchesOnly(e, r, k)
  {
  }

  /**
   No response, 429 and 5xx: the batch is retried after the delay of the policy, with the
   server's Retry-After as its floor, unless the attempts exceed max_retries; then it is dropped.
   */
  lemma RetryableCounts(c: Config, e: Exporter, o: Outcome, now: nat)
    requires Shaped(e) && (o.status == 0 || o.status == 429 || 500 <= o.status <= 599)
    ensures var k, n, r := e.inFlightSignal, e.inFlightCount, RecordOutcome(c, e, o, now);
      var attempt: uint32 := (e.attempt + 1) % 0x1_0000_0000;
      r.sig[k].sent == e.sig[k].sent && r.sig[k].rejected == e.sig[k].rejected &&
      Classes(e, r, 0, if o.status == 429 then 1 else 0, if o.status >= 500 then 1 else 0,
              if o.status == 0 then 1 else 0) &&
      TouchesOnly(e, r, k) &&
      if attempt > c.maxRetries then
        r.sig[k].droppedErr == e.sig[k].droppedErr + n && Cleared(r, k)
      else
        var d := RetryDelay(e.jitter, attempt, if o.status == 0 then 0 else o.retryAfterMs, c.retry);
        r.sig == e.sig && r.attempt == attempt && r.backoffArmed && r.deadline == now + d.ms &&
        r.jitter == d.prng
  {
    hide RetryDelay;
  }

  /** Any other status: the batch is dropped at once. */
  lemma RefusedCounts(c: Config, e: Exporter, o: Outcome, now: nat)
    requires Shaped(e) && o.status != 0 && o.status != 429
    requires !(200 <= o.status <= 299) && !(500 <= o.status <= 599)
    ensures var k, n, r := e.inFlightSignal, e.inFlightCount, RecordOutcome(c, e, o, now);
      r.sig[k].droppedErr == e.sig[k].droppedErr + n && r.sig[k].sent == e.sig[k].sent &&
      r.sig[k].rejected == e.sig[k].rejected && Cleared(r, k) && Classes(e, r, 0, 1, 0, 0) &&
      TouchesOnly(e, r, k)
  {
  }

  // ---------------------------------------------------------------- which batch is posted

  /** What the unsigned 64-bit difference of two clock readings is at least. */
  predicate Waited(now: nat, first: nat, ms: nat) {
    (now >= first && now - first >= ms) || (now < first && now + UINT64_RANGE - first >= ms)
  }

  /** The batch of a signal is full, or has waited, or the shutdown is asked for; it is not empty
      and its request can be built. */
  predicate Ready(c: Config, e: Exporter, i: Inputs, s: nat)
    requires Shaped(e) && s < N_SIGNALS
  {
    e.sig[s].pending != [] && s in i.built &&
    (|e.sig[s].pending| >= c.batchSize ||
     (e.sig[s].firstSet && Waited(i.startNow, e.sig[s].firstMono, c.batchMs)) ||
     e.shutdown)
  }

  /** The request of the signal has been started with all that is pending. */
  function Started(e: Exporter, s: nat): (r: Exporter)
    requires Shaped(e) && s < N_SIGNALS
    ensures Shaped(r)
  {
    e.(inFlight := Some(e.sig[s].pending), carried := e.sig[s].pending, inFlightSignal := s,
       inFlightCount := |e.sig[s].pending|, sig := e.sig[s := e.sig[s].(firstSet := false)])
  }

  /** The first signal of those from `s` on that is ready is started. */
  lemma {:induction false} FirstReadyFrom(c: Config, e: Exporter, i: Inputs, s: nat, k: nat)
    requires Shaped(e) && e.inFlight.None? && !e.backoffArmed
    requires s <= k <= N_SIGNALS && forall j :: s <= j < k ==> !Ready(c, e, i, j)
    requires k < N_SIGNALS ==> Ready(c, e, i, k)
    ensures StartStep(c, e, i, s) == if k < N_SIGNALS then Started(e, k) else e
    decreases k - s
  {
    if s < k {
      assert !Ready(c, e, i, s);
      FirstReadyFrom(c, e, i, s + 1, k);
    }
  }

  /**
   Over HTTP, with nothing in flight and no backoff, an acting step starts the first signal that is
   ready; whose outcome may follow at once. Without one it changes nothing.
   */
  lemma FirstReadyIsPosted(c: Config, e: Exporter, i: Inputs, k: nat)
    requires Shaped(e) && !c.nullTransport && e.inFlight.None? && !e.backoffArmed
    requires k <= N_SIGNALS && forall j :: 0 <= j < k ==> !Ready(c, e, i, j)
    requires k < N_SIGNALS ==> Ready(c, e, i, k)
    ensures k == N_SIGNALS ==> Act(c, e, i) == e
    ensures k < N_SIGNALS && i.request.None? ==> Act(c, e, i) == Started(e, k)
    ensures k < N_SIGNALS && i.request.Some? ==>
      Act(c, e, i) == BackoffStep(c,
        RecordOutcome(c, Started(e, k), i.request.value, i.requestNow).(inFlight := None, inFlightCount := 0), i)
  {
    hide Ready, StartStep, RecordOutcome;
    FirstReadyFrom(c, e, i, 0, k);
  }

  /** A batch that is short, has not waited and is not to be shut down is left alone. */
  lemma ShortBatchWaits(c: Config, e: Exporter, i: Inputs, s: nat)
    requires Shaped(e) && !c.nullTransport && e.inFlight.None? && !e.backoffArmed && s < N_SIGNALS
    requires |e.sig[s].pending| < c.batchSize && !e.shutdown
    requires e.sig[s].firstSet ==>
      e.sig[s].firstMono <= i.startNow < e.sig[s].firstMono + c.batchMs
    ensures var r := Act(c, e, i);
      r.sig[s] == e.sig[s] && (r.inFlight.Some? ==> r.inFlightSignal != s)
  {
    assert !Ready(c, e, i, s);
    var k := FirstReady(c, e, i);
    hide Ready, Act, RecordOutcome;
    FirstReadyIsPosted(c, e, i, k);
    if k < N_SIGNALS && i.request.Some? {
      var e1 := Started(e, k);
      OutcomeElsewhere(c, e1, i.request.value, i.requestNow);
    }
  }

  lemma OutcomeElsewhere(c: Config, e: Exporter, o: Outcome, now: nat)
    requires Shaped(e)
    ensures var r := RecordOutcome(c, e, o, now);
      TouchesOnly(e, r, e.inFlightSignal) && r.inFlightSignal == e.inFlightSignal &&
      r.inFlight == e.inFlight
  {
    hide RetryDelay;
  }

  lemma FirstReady(c: Config, e: Exporter, i: Inputs) returns (k: nat)
    requires Shaped(e)
    ensures k <= N_SIGNALS && (forall j :: 0 <= j < k ==> !Ready(c, e, i, j))
    ensures k < N_SIGNALS ==> Ready(c, e, i, k)
  {
    hide Ready;
    k := 0;
    while k < N_SIGNALS && !Ready(c, e, i, k)
      invariant k <= N_SIGNALS && forall j :: 0 <= j < k ==> !Ready(c, e, i, j)
    {
      k := k + 1;
    }
  }

  /** Over HTTP a retry that is due posts the same batch again, with what was drained since. */
  lemma RetryPosts(c: Config, e: Exporter, i: Inputs)
    requires Shaped(e) && !c.nullTransport && e.inFlight.None? && e.backoffArmed
    requires i.backoffNow >= e.deadline && i.rebuilt && e.sig[e.inFlightSignal].pending != []
    ensures Act(c, e, i) == Started(e.(backoffArmed := false), e.inFlightSignal)
  {
    hide RecordOutcome, NullStep;
  }

  /** Under the null transport the first signal with a batch has its outcome recorded. */
  lemma {:induction false} NullAnswersFirst(c: Config, e: Exporter, i: Inputs, s: nat, k: nat)
    requires Shaped(e) && s <= k <= N_SIGNALS
    requires forall j :: s <= j < k ==> e.sig[j].pending == []
    requires k < N_SIGNALS ==> e.sig[k].pending != []
    ensures NullStep(c, e, i, s) ==
      if k < N_SIGNALS then
        Some(RecordOutcome(c, e.(inFlightSignal := k, inFlightCount := |e.sig[k].pending|),
                           Outcome(i.nullOutcome.status, 0, 0), i.nullNow))
      else None
    decreases k - s
  {
    hide RecordOutcome;
    if s < k { NullAnswersFirst(c, e, i, s + 1, k); }
  }

  lemma NullActs(c: Config, e: Exporter, i: Inputs, k: nat)
    requires Shaped(e) && c.nullTransport && !e.backoffArmed && k < N_SIGNALS
    requires e.sig[k].pending != [] && forall j :: 0 <= j < k ==> e.sig[j].pending == []
    ensures Act(c, e, i) ==
      RecordOutcome(c, e.(inFlightSignal := k, inFlightCount := |e.sig[k].pending|),
                    Outcome(i.nullOutcome.status, 0, 0), i.nullNow)
  {
    hide NullStep, RecordOutcome;
    NullAnswersFirst(c, e, i, 0, k);
  }

  // ---------------------------------------------------------------- the outcome of an acting step

  /** The outcome that a step records: of which signal, of how many items, with which status, after
      how many attempts. */
  datatype Recorded =
    | Nothing
    | Recorded(k: nat, n: nat, status: int, rejected: int, attempts: uint32)

  function FirstPending(e: Exporter, s: nat): (k: nat)
    requires Shaped(e) && s <= N_SIGNALS
    ensures s <= k <= N_SIGNALS && (k < N_SIGNALS ==> e.sig[k].pending != [])
    ensures forall j :: s <= j < k ==> e.sig[j].pending == []
    decreases N_SIGNALS - s
  {
    if s == N_SIGNALS || e.sig[s].pending != [] then s else FirstPending(e, s + 1)
  }

  /** Under the null transport the first batch is answered; over HTTP the request in flight, which
      may have been started by this step, is answered when it is done. */
  function OutcomeOf(c: Config, e: Exporter, step: Step): (r: Recorded)
    requires Shaped(e)
    ensures r.Recorded? ==> r.k < N_SIGNALS
  {
    if !step.ActNow? then Nothing
    else if c.nullTransport && !e.backoffArmed && FirstPending(e, 0) < N_SIGNALS then
      var k := FirstPending(e, 0);
      Recorded(k, |e.sig[k].pending|, step.i.nullOutcome.status, 0, e.attempt)
    else
      var e1 := StartStep(c, e, step.i, 0);
      if e1.inFlight.None? || step.i.request.None? then Nothing
      else
        Recorded(e1.inFlightSignal, e1.inFlightCount, step.i.request.value.status,
                 step.i.request.value.rejected, e1.attempt)
  }

  predicate Sent(r: Recorded, k: nat) { r.Recorded? && r.k == k && 200 <= r.status <= 299 }

  /** What an outcome adds to `sent` of the signal k, and to `rejected`. */
  function SentBy(r: Recorded, k: nat): nat { if Sent(r, k) then r.n else 0 }
  function RejectedBy(r: Recorded, k: nat): nat {
    if Sent(r, k) && r.rejected > 0 then r.rejected else 0
  }

  /** No success, and either the status is final or the attempts exceed the budget. */
  predicate GivenUp(c: Config, r: Recorded, k: nat) {
    r.Recorded? && r.k == k && !(200 <= r.status <= 299) &&
    (r.status == 0 || r.status == 429 || 500 <= r.status <= 599 ==>
      (r.attempts + 1) % 0x1_0000_0000 > c.maxRetries)
  }

  function DroppedBy(c: Config, r: Recorded, k: nat): nat { if GivenUp(c, r, k) then r.n else 0 }

  /** The class of a status: 2xx, 5xx, no response, or else 4xx. */
  predicate CountsOnce(e: Exporter, r: Exporter, x: Recorded) {
    if x.Nothing? then Classes(e, r, 0, 0, 0, 0)
    else if 200 <= x.status <= 299 then Classes(e, r, 1, 0, 0, 0)
    else if x.status == 0 then Classes(e, r, 0, 0, 0, 1)
    else if 500 <= x.status <= 599 then Classes(e, r, 0, 0, 1, 0)
    else Classes(e, r, 0, 1, 0, 0)
  }

  lemma StartKeepsCounts(c: Config, e: Exporter, i: Inputs, s: nat, k: nat)
    requires Shaped(e) && k < N_SIGNALS
    ensures var r := StartStep(c, e, i, s);
      r.sig[k].sent == e.sig[k].sent && r.sig[k].droppedErr == e.sig[k].droppedErr &&
      r.sig[k].rejected == e.sig[k].rejected && Classes(e, r, 0, 0, 0, 0)
    decreases N_SIGNALS - s
  {
    if s < N_SIGNALS && e.inFlight.None? && !e.backoffArmed {
      var e1 := if Due(c, e, s, i.startNow) then TryStart(e, s, s in i.built) else e;
      StartKeepsCounts(c, e1, i, s + 1, k);
    }
  }

  lemma BackoffKeepsCounts(c: Config, e: Exporter, i: Inputs, k: nat)
    requires Shaped(e) && k < N_SIGNALS
    ensures var r := BackoffStep(c, e, i);
      r.sig[k].sent == e.sig[k].sent && r.sig[k].droppedErr == e.sig[k].droppedErr &&
      r.sig[k].rejected == e.sig[k].rejected && Classes(e, r, 0, 0, 0, 0)
  {
  }

  /** What a recorded outcome adds to `sent` and `rejected` of every signal. */
  lemma RecordSends(c: Config, e: Exporter, o: Outcome, now: nat, k: nat)
    requires Shaped(e) && k < N_SIGNALS
    ensures var r, x := RecordOutcome(c, e, o, now),
        Recorded(e.inFlightSignal, e.inFlightCount, o.status, o.rejected, e.attempt);
      r.sig[k].sent == e.sig[k].sent + SentBy(x, k) &&
      r.sig[k].rejected == e.sig[k].rejected + RejectedBy(x, k) &&
      r.sig[k].droppedErr == e.sig[k].droppedErr + DroppedBy(c, x, k) && CountsOnce(e, r, x)
  {
    hide RecordOutcome;
    if 200 <= o.status <= 299 {
      SuccessCounts(c, e, o, now);
    } else if o.status == 0 || o.status == 429 || 500 <= o.status <= 599 {
      RetryableCounts(c, e, o, now);
    } else {
      RefusedCounts(c, e, o, now);
    }
  }

  lemma ActSends(c: Config, e: Exporter, i: Inputs, k: nat)
    requires Shaped(e) && k < N_SIGNALS
    ensures var r, x := Act(c, e, i), OutcomeOf(c, e, ActNow(i));
      r.sig[k].sent == e.sig[k].sent + SentBy(x, k) &&
      r.sig[k].rejected == e.sig[k].rejected + RejectedBy(x, k) &&
      r.sig[k].droppedErr == e.sig[k].droppedErr + DroppedBy(c, x, k) && CountsOnce(e, r, x)
  {
    hide RecordOutcome, NullStep, StartStep, BackoffStep, FirstPending;
    var first := FirstPending(e, 0);
    NullAnswersFirst(c, e, i, 0, first);
    if c.nullTransport && !e.backoffArmed && first < N_SIGNALS {
      var e1 := e.(inFlightSignal := first, inFlightCount := |e.sig[first].pending|);
      RecordSends(c, e1, Outcome(i.nullOutcome.status, 0, 0), i.nullNow, k);
    } else {
      var e1 := StartStep(c, e, i, 0);
      StartKeepsCounts(c, e, i, 0, k);
      var e2 := RequestStep(c, e1, i);
      if e1.inFlight.Some? && i.request.Some? {
        RecordSends(c, e1, i.request.value, i.requestNow, k);
      }
      BackoffKeepsCounts(c, e2, i, k);
    }
  }

  // ---------------------------------------------------------------- outcomes over runs

  /** The items of the 2xx outcomes of a signal in a run. */
  function TotalSent(c: Config, e: Exporter, steps: seq<Step>, k: nat): nat
    requires Shaped(e)
    decreases |steps|
  {
    if steps == [] || !(ProducersOk(e) && Enabled(c, e, steps[0])) then 0
    else
      SentBy(OutcomeOf(c, e, steps[0]), k) + TotalSent(c, Next(c, e, steps[0]), steps[1..], k)
  }

  /** What their PartialSuccess reports said to be rejected. */
  function TotalRejected(c: Config, e: Exporter, steps: seq<Step>, k: nat): nat
    requires Shaped(e)
    decreases |steps|
  {
    if steps == [] || !(ProducersOk(e) && Enabled(c, e, steps[0])) then 0
    else
      RejectedBy(OutcomeOf(c, e, steps[0]), k) +
        TotalRejected(c, Next(c, e, steps[0]), steps[1..], k)
  }

  /** The items of the outcomes that gave a batch up. */
  function TotalDropped(c: Config, e: Exporter, steps: seq<Step>, k: nat): nat
    requires Shaped(e)
    decreases |steps|
  {
    if steps == [] || !(ProducersOk(e) && Enabled(c, e, steps[0])) then 0
    else
      DroppedBy(c, OutcomeOf(c, e, steps[0]), k) +
        TotalDropped(c, Next(c, e, steps[0]), steps[1..], k)
  }

  lemma NextSends(c: Config, e: Exporter, step: Step, k: nat)
    requires Shaped(e) && ProducersOk(e) && Enabled(c, e, step) && k < N_SIGNALS
    ensures var r, x := Next(c, e, step), OutcomeOf(c, e, step);
      r.sig[k].sent == e.sig[k].sent + SentBy(x, k) &&
      r.sig[k].rejected == e.sig[k].rejected + RejectedBy(x, k) &&
      r.sig[k].droppedErr == e.sig[k].droppedErr + DroppedBy(c, x, k) && CountsOnce(e, r, x)
  {
    hide Act;
    if step.ActNow? {
      hide OutcomeOf;
      ActSends(c, e, step.i, k);
    }
  }

  /** In every run `sent` grows by the items of the 2xx outcomes and by nothing else, `rejected` by
      what they reported, and `dropped_err` by the items of the outcomes that gave a batch up. */
  lemma {:induction false} RunSends(c: Config, e: Exporter, steps: seq<Step>, e': Exporter, k: nat)
    requires Shaped(e) && Runs(c, e, steps, e') && k < N_SIGNALS
    ensures Shaped(e')
    ensures e'.sig[k].sent == e.sig[k].sent + TotalSent(c, e, steps, k)
    ensures e'.sig[k].rejected == e.sig[k].rejected + TotalRejected(c, e, steps, k)
    ensures e'.sig[k].droppedErr == e.sig[k].droppedErr + TotalDropped(c, e, steps, k)
    decreases |steps|
  {
    if steps != [] {
      hide Next, Enabled, OutcomeOf, SentBy, RejectedBy, DroppedBy, CountsOnce;
      NextSends(c, e, steps[0], k);
      RunSends(c, Next(c, e, steps[0]), steps[1..], e', k);
    }
  }

  /** Of a new exporter, the counters are these sums over the run. */
  lemma SentIsTotal(c: Config, jitter: uint64, steps: seq<Step>, e: Exporter, k: nat)
    requires Runs(c, Created(jitter), steps, e) && k < N_SIGNALS
    ensures Shaped(e) && e.sig[k].sent == TotalSent(c, Created(jitter), steps, k)
    ensures e.sig[k].rejected == TotalRejected(c, Created(jitter), steps, k)
    ensures e.sig[k].droppedErr == TotalDropped(c, Created(jitter), steps, k)
  {
    hide Runs, TotalSent, TotalRejected, TotalDropped;
    RunSends(c, Created(jitter), steps, e, k);
  }

  // ---------------------------------------------------------------- the batch timer

  /** The timer of the signal runs in every state of the run. */
  predicate KeepsTimer(c: Config, e: Exporter, steps: seq<Step>, k: nat)
    requires Shaped(e) && k < N_SIGNALS
    decreases |steps|
  {
    e.sig[k].firstSet &&
    (steps != [] && ProducersOk(e) && Enabled(c, e, steps[0]) ==>
      KeepsTimer(c, Next(c, e, steps[0]), steps[1..], k))
  }

  /** Some step of the run drained an item of the signal at `t` while its timer was cleared, and
      the timer has not been cleared since. */
  predicate TimerSince(c: Config, e: Exporter, steps: seq<Step>, k: nat, t: nat)
    requires Shaped(e) && k < N_SIGNALS
    decreases |steps|
  {
    steps != [] && ProducersOk(e) && Enabled(c, e, steps[0]) &&
    (var m := Next(c, e, steps[0]);
     (steps[0] == DrainOne(t) && e.tick == Draining(k) && !e.sig[k].firstSet &&
      KeepsTimer(c, m, steps[1..], k)) ||
     TimerSince(c, m, steps[1..], k, t))
  }

  /** A timer that is set is neither moved nor started again; only an acting step clears it, when
      it starts the request of the batch or disposes of it. */
  lemma TimerMoves(c: Config, e: Exporter, step: Step, k: nat)
    requires Shaped(e) && ProducersOk(e) && Enabled(c, e, step) && k < N_SIGNALS
    ensures var r := Next(c, e, step);
      (e.sig[k].firstSet && r.sig[k].firstSet ==> r.sig[k].firstMono == e.sig[k].firstMono) &&
      (e.sig[k].firstSet && !r.sig[k].firstSet ==> step.ActNow?) &&
      (!e.sig[k].firstSet && r.sig[k].firstSet ==>
        step.DrainOne? && e.tick == Draining(k) && r.sig[k].firstMono == step.now)
  {
    hide Act;
    if step.ActNow? { ActTimers(c, e, step.i, k); }
  }

  lemma ActTimers(c: Config, e: Exporter, i: Inputs, k: nat)
    requires Shaped(e) && k < N_SIGNALS
    ensures var r := Act(c, e, i);
      (r.sig[k].firstSet ==> e.sig[k].firstSet) && r.sig[k].firstMono == e.sig[k].firstMono
  {
    hide RecordOutcome, NullStep, StartStep;
    var first := FirstPending(e, 0);
    NullAnswersFirst(c, e, i, 0, first);
    if c.nullTransport && !e.backoffArmed && first < N_SIGNALS {
      var e1 := e.(inFlightSignal := first, inFlightCount := |e.sig[first].pending|);
      RecordTimers(c, e1, Outcome(i.nullOutcome.status, 0, 0), i.nullNow, k);
    } else {
      StartTimers(c, e, i, 0, k);
      var e1 := StartStep(c, e, i, 0);
      if e1.inFlight.Some? && i.request.Some? {
        RecordTimers(c, e1, i.request.value, i.requestNow, k);
      }
    }
  }

  lemma RecordTimers(c: Config, e: Exporter, o: Outcome, now: nat, k: nat)
    requires Shaped(e) && k < N_SIGNALS
    ensures var r := RecordOutcome(c, e, o, now);
      (r.sig[k].firstSet ==> e.sig[k].firstSet) && r.sig[k].firstMono == e.sig[k].firstMono
  {
    hide RetryDelay, NextAttempt, Success, Retryable;
  }

  lemma StartTimers(c: Config, e: Exporter, i: Inputs, s: nat, k: nat)
    requires Shaped(e) && k < N_SIGNALS
    ensures var r := StartStep(c, e, i, s);
      (r.sig[k].firstSet ==> e.sig[k].firstSet) && r.sig[k].firstMono == e.sig[k].firstMono
    decreases N_SIGNALS - s
  {
    if s < N_SIGNALS && e.inFlight.None? && !e.backoffArmed {
      var e1 := if Due(c, e, s, i.startNow) then TryStart(e, s, s in i.built) else e;
      StartTimers(c, e1, i, s + 1, k);
    }
  }

  /** Over runs the time of a timer is the clock of the first item drained since it was cleared. */
  lemma {:induction false} FirstMonoIsFirstDrain(c: Config, e: Exporter, steps: seq<Step>,
      e': Exporter, k: nat)
    requires Shaped(e) && Runs(c, e, steps, e') && k < N_SIGNALS
    ensures Shaped(e')
    ensures e'.sig[k].firstSet ==>
      TimerSince(c, e, steps, k, e'.sig[k].firstMono) ||
      (KeepsTimer(c, e, steps, k) && e'.sig[k].firstMono == e.sig[k].firstMono)
    decreases |steps|
  {
    if steps != [] {
      var m := Next(c, e, steps[0]);
      TimerMoves(c, e, steps[0], k);
      hide Next, Enabled;
      FirstMonoIsFirstDrain(c, m, steps[1..], e', k);
    }
  }

  /** Of a new exporter, whose timers are all cleared. */
  lemma TimerOfRun(c: Config, jitter: uint64, steps: seq<Step>, e: Exporter, k: nat)
    requires Runs(c, Created(jitter), steps, e) && k < N_SIGNALS
    ensures Shaped(e)
    ensures e.sig[k].firstSet ==> TimerSince(c, Created(jitter), steps, k, e.sig[k].firstMono)
  {
    hide Runs, TimerSince;
    FirstMonoIsFirstDrain(c, Created(jitter), steps, e, k);
  }

  // ---------------------------------------------------------------- emit and drain

  /** A push is refused exactly when the queue holds as many items as it has slots. */
  lemma PushRefusedIff(c: Config, e: Exporter, p: nat)
    requires Shaped(e) && ProducersOk(e) && Enabled(c, e, EmitPush(p))
    ensures var k, item := e.producers[p].kind, e.producers[p].item;
      var r := Next(c, e, EmitPush(p));
      if |e.sig[k].queue| >= c.queueCap then
        r.sig == e.sig && r.hist[k].refusedFull == e.hist[k].refusedFull + [item] &&
        r.hist[k].accepted == e.hist[k].accepted
      else
        r.sig[k].queue == e.sig[k].queue + [item] && r.hist[k].accepted == e.hist[k].accepted + [item] &&
        r.hist[k].refusedFull == e.hist[k].refusedFull
  {
  }

  /** An item is refused for the shutdown exactly when it was asked for at the check. */
  lemma CheckRefusedIff(c: Config, e: Exporter, p: nat, kind: nat, item: Item)
    requires Shaped(e) && ProducersOk(e) && Enabled(c, e, EmitCheck(p, kind, item))
    ensures var r := Next(c, e, EmitCheck(p, kind, item));
      if e.shutdown then
        r.hist[kind].refusedShutdown == e.hist[kind].refusedShutdown + [item] &&
        r.producers == e.producers && r.sig == e.sig
      else p in r.producers && r.producers[p].item == item && r.hist == e.hist && r.sig == e.sig
  {
  }

  /** The drain of a signal goes on until twice the batch size is pending, the queue is empty or
      its oldest item may still be written by a producer. */
  lemma DrainEndsIff(c: Config, e: Exporter, s: nat, now: nat)
    requires Reachable(c, e) && e.tick == Draining(s) && s < N_SIGNALS
    ensures Enabled(c, e, DrainEnd) <==>
      |e.sig[s].pending| == 2 * c.batchSize || e.sig[s].queue == [] ||
      exists p :: p in e.producers && e.producers[p] == Counting(s)
    ensures Enabled(c, e, DrainOne(now)) <==>
      |e.sig[s].pending| < 2 * c.batchSize && e.sig[s].queue != []
  {
    CounterLedger(c, e, s);
    if p :| p in e.producers && e.producers[p] == Counting(s) {
      assert p in CountingIn(e.producers, s);
    }
    if CountingIn(e.producers, s) != {} {
      var p :| p in CountingIn(e.producers, s);
      assert p in e.producers && e.producers[p] == Counting(s);
    }
  }
}
