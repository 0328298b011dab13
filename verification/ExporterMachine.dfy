/**
 The exporter pipeline of src/exporter.c as a state machine: any number of producers that emit,
 and one thread that ticks: it drains the queues, starts requests, records outcomes, retries or
 drops. The clock, the builder of requests and the server are inputs of the steps. A queue is
 the bounded FIFO that src/mpsc_queue.c implements.
 */
module ExporterMachine {
  import opened Common
  import opened Retry

  /** The handle of a span, a metric or a log record that the library owns. */
  type Item = nat

  const N_SIGNALS: nat := 3

  datatype Config = Config(
    batchSize: nat, batchMs: uint32, maxRetries: uint32, retry: RetryCfg, queueCap: nat,
    nullTransport: bool)

  /** What normalize_opts makes of any options. */
  predicate ConfigOk(c: Config) {
    1 <= c.batchSize <= 1048576 && c.maxRetries >= 1 && c.retry.initialMs >= 1 &&
    c.retry.maxMs >= 1 && c.queueCap >= 1
  }

  /**
   The ring of src/mpsc_queue.c is a bounded FIFO from two slots on
   (MpscRing.DeliversIffCapacityAtLeastTwo). The options can also ask for one slot, and only that
   way does it come about (ExporterModel.CapacityOneIff); a ring of one slot overwrites accepted
   items (MpscRing.CapacityOneOverwrites), so what follows is about the other configurations.
   */
  predicate QueueOk(c: Config) { c.queueCap >= 2 }

  /** struct signal_state: queue, pending batch, batch timer and counters. */
  datatype Signal = Signal(
    queue: seq<Item>, pending: seq<Item>, firstSet: bool, firstMono: nat,
    emitted: nat, droppedFull: nat, droppedErr: nat, sent: nat, rejected: nat)

  /** What became of the items of a signal; `lost` counts those freed without being counted. */
  datatype History = History(
    accepted: seq<Item>, freed: seq<Item>, refusedFull: seq<Item>, refusedShutdown: seq<Item>,
    lost: int)

  /** Inside emit_move_common: past the shutdown check, or before one of the counters. */
  datatype Producer = Checked(kind: nat, item: Item) | Counting(kind: nat) | CountingFull(kind: nat)

  datatype Tick = Idle | Draining(s: nat) | Acting | Freed

  /**
   struct otlp_exporter. `outcomes` and `carried` are history: of each recorded outcome whether it
   disposed of its batch, and the items of the last request that was started.
   */
  datatype Exporter = Exporter(
    sig: seq<Signal>, hist: seq<History>, producers: map<nat, Producer>, tick: Tick,
    shutdown: bool, inFlight: Option<seq<Item>>, inFlightSignal: nat, inFlightCount: nat,
    attempt: uint32, backoffArmed: bool, deadline: nat, jitter: uint64,
    http2xx: nat, http4xx: nat, http5xx: nat, networkErr: nat,
    outcomes: seq<bool>, carried: seq<Item>)

  const NO_SIGNAL := Signal([], [], false, 0, 0, 0, 0, 0, 0)
  const NO_HISTORY := History([], [], [], [], 0)

  function Created(jitter: uint64): Exporter {
    Exporter([NO_SIGNAL, NO_SIGNAL, NO_SIGNAL], [NO_HISTORY, NO_HISTORY, NO_HISTORY], map[], Idle,
             false, None, 0, 0, 0, false, 0, jitter, 0, 0, 0, 0, [], [])
  }

  // ---------------------------------------------------------------- outcome of a request

  /** status 0: no response; `rejected` is what the PartialSuccess of the body reports. */
  datatype Outcome = Outcome(status: int, retryAfterMs: uint32, rejected: int)

  predicate Success(status: int) { 200 <= status < 300 }
  predicate Retryable(status: int) { status == 0 || status == 429 || 500 <= status < 600 }

  predicate Shaped(e: Exporter) {
    |e.sig| == |e.hist| == N_SIGNALS && e.inFlightSignal < N_SIGNALS
  }

  /** clear_in_flight_batch: every pending item is freed, however many the request carried. */
  function Clear(e: Exporter): (r: Exporter)
    requires Shaped(e)
    ensures Shaped(r)
  {
    var k := e.inFlightSignal;
    var g, h := e.sig[k], e.hist[k];
    e.(sig := e.sig[k := g.(pending := [], firstSet := false)],
       hist := e.hist[k := h.(freed := h.freed + g.pending,
                              lost := h.lost + |g.pending| - e.inFlightCount)],
       attempt := 0, backoffArmed := false, outcomes := e.outcomes + [true])
  }

  function Count(e: Exporter, status: int): (r: Exporter)
    ensures r == e.(http2xx := r.http2xx, http4xx := r.http4xx, http5xx := r.http5xx,
                    networkErr := r.networkErr)
  {
    if status == 0 then e.(networkErr := e.networkErr + 1)
    else if Success(status) then e.(http2xx := e.http2xx + 1)
    else if 500 <= status < 600 then e.(http5xx := e.http5xx + 1)
    else e.(http4xx := e.http4xx + 1)
  }

  /** The batch is given up: its count goes to the dropped items. */
  function Drop(e: Exporter): (r: Exporter)
    requires Shaped(e)
    ensures Shaped(r)
  {
    var k := e.inFlightSignal;
    Clear(e.(sig := e.sig[k := e.sig[k].(droppedErr := e.sig[k].droppedErr + e.inFlightCount)]))
  }

  function Deliver(e: Exporter, rejected: int): (r: Exporter)
    requires Shaped(e)
    ensures Shaped(r)
  {
    var k := e.inFlightSignal;
    var g := e.sig[k];
    Clear(e.(sig := e.sig[k := g.(
      sent := g.sent + e.inFlightCount,
      rejected := if rejected > 0 then g.rejected + rejected else g.rejected)]))
  }

  /** The attempt counter is 32 bits wide. */
  function NextAttempt(attempt: uint32): uint32 { (attempt + 1) % UINT32_RANGE }

  function RetryOrDrop(c: Config, e: Exporter, floor: uint32, now: nat): (r: Exporter)
    requires Shaped(e)
    ensures Shaped(r)
  {
    var attempt := NextAttempt(e.attempt);
    if attempt > c.maxRetries then Drop(e.(attempt := attempt))
    else
      var d := RetryDelay(e.jitter, attempt, floor, c.retry);
      e.(attempt := attempt, jitter := d.prng, deadline := now + d.ms, backoffArmed := true,
         outcomes := e.outcomes + [false])
  }

  function RecordOutcome(c: Config, e: Exporter, o: Outcome, now: nat): (r: Exporter)
    requires Shaped(e)
    ensures Shaped(r)
  {
    var e1 := Count(e, o.status);
    if o.status == 0 then RetryOrDrop(c, e1, 0, now)
    else if Success(o.status) then Deliver(e1, o.rejected)
    else if Retryable(o.status) then RetryOrDrop(c, e1, o.retryAfterMs, now)
    else Drop(e1)
  }

  // ---------------------------------------------------------------- one tick, after the drain

  /** try_start_post, when the builder succeeds or fails. */
  function TryStart(e: Exporter, s: nat, built: bool): (r: Exporter)
    requires Shaped(e) && s < N_SIGNALS
    ensures Shaped(r)
  {
    if e.inFlight.Some? || e.sig[s].pending == [] || !built then e
    else
      e.(inFlight := Some(e.sig[s].pending), carried := e.sig[s].pending, inFlightSignal := s,
         inFlightCount := |e.sig[s].pending|, sig := e.sig[s := e.sig[s].(firstSet := false)])
  }

  /** The difference of two 64-bit clock values. */
  function Elapsed(now: nat, since: nat): int {
    if now >= since then now - since else now - since + UINT64_RANGE
  }

  predicate Due(c: Config, e: Exporter, s: nat, now: nat)
    requires Shaped(e) && s < N_SIGNALS
  {
    var g := e.sig[s];
    |g.pending| >= c.batchSize || (g.firstSet && Elapsed(now, g.firstMono) >= c.batchMs) ||
    (e.shutdown && g.pending != [])
  }

  /** What the rest of a tick meets; `built` are the signals whose request can be built. */
  datatype Inputs = Inputs(
    nullOutcome: Outcome, nullNow: nat, startNow: nat, built: set<nat>, request: Option<Outcome>,
    requestNow: nat, backoffNow: nat, rebuilt: bool)

  /** The first signal with a pending batch is answered by the null transport. */
  function NullStep(c: Config, e: Exporter, i: Inputs, s: nat): (r: Option<Exporter>)
    requires Shaped(e)
    ensures r.Some? ==> Shaped(r.value)
    decreases N_SIGNALS - s
  {
    if s >= N_SIGNALS then None
    else if e.sig[s].pending != [] then
      var e1 := e.(inFlightSignal := s, inFlightCount := |e.sig[s].pending|);
      Some(RecordOutcome(c, e1, Outcome(i.nullOutcome.status, 0, 0), i.nullNow))
    else NullStep(c, e, i, s + 1)
  }

  function StartStep(c: Config, e: Exporter, i: Inputs, s: nat): (r: Exporter)
    requires Shaped(e)
    ensures Shaped(r)
    decreases N_SIGNALS - s
  {
    if s >= N_SIGNALS || e.inFlight.Some? || e.backoffArmed then e
    else
      var e1 := if Due(c, e, s, i.startNow) then TryStart(e, s, s in i.built) else e;
      StartStep(c, e1, i, s + 1)
  }

  /** The request in flight is stepped; when it is done or failed its outcome is recorded. */
  function RequestStep(c: Config, e: Exporter, i: Inputs): (r: Exporter)
    requires Shaped(e)
    ensures Shaped(r)
  {
    if e.inFlight.None? || i.request.None? then e
    else
      RecordOutcome(c, e, i.request.value, i.requestNow).(inFlight := None, inFlightCount := 0)
  }

  function BackoffStep(c: Config, e: Exporter, i: Inputs): (r: Exporter)
    requires Shaped(e)
    ensures Shaped(r)
  {
    if e.backoffArmed && e.inFlight.None? && i.backoffNow >= e.deadline then
      var e1 := e.(backoffArmed := false);
      if c.nullTransport then e1 else TryStart(e1, e1.inFlightSignal, i.rebuilt)
    else e
  }

  function Act(c: Config, e: Exporter, i: Inputs): (r: Exporter)
    requires Shaped(e)
    ensures Shaped(r)
  {
    var done := if c.nullTransport && !e.backoffArmed then NullStep(c, e, i, 0) else None;
    if done.Some? then done.value
    else BackoffStep(c, RequestStep(c, StartStep(c, e, i, 0), i), i)
  }

  // ---------------------------------------------------------------- steps

  datatype Step =
    | EmitCheck(p: nat, kind: nat, item: Item)
    | EmitPush(p: nat)
    | EmitCount(p: nat)
    | Shutdown
    | TickBegin
    | DrainOne(now: nat)
    | DrainEnd
    | ActNow(i: Inputs)
    | Free

  /** The producers of a signal that stand before the counter of accepted items. */
  function CountingIn(producers: map<nat, Producer>, k: nat): set<nat> {
    At(producers, Counting(k))
  }

  function CountingFullIn(producers: map<nat, Producer>, k: nat): set<nat> {
    At(producers, CountingFull(k))
  }

  function At(producers: map<nat, Producer>, v: Producer): set<nat> {
    set p | p in producers && producers[p] == v
  }

  predicate ProducersOk(e: Exporter) {
    forall p :: p in e.producers ==> e.producers[p].kind < N_SIGNALS
  }

  /** pop answers NULL on an empty queue, or while the oldest item is not yet published. */
  predicate Enabled(c: Config, e: Exporter, step: Step)
    requires Shaped(e)
  {
    match step
    case EmitCheck(p, kind, _) => e.tick != Freed && p !in e.producers && kind < N_SIGNALS
    case EmitPush(p) => p in e.producers && e.producers[p].Checked?
    case EmitCount(p) => p in e.producers && !e.producers[p].Checked?
    case Shutdown => e.tick != Freed
    case TickBegin => e.tick == Idle
    case DrainOne(_) =>
      e.tick.Draining? && e.tick.s < N_SIGNALS && e.sig[e.tick.s].queue != [] &&
      |e.sig[e.tick.s].pending| < 2 * c.batchSize
    case DrainEnd =>
      e.tick.Draining? && e.tick.s < N_SIGNALS &&
      (|e.sig[e.tick.s].pending| >= 2 * c.batchSize || e.sig[e.tick.s].queue == [] ||
       CountingIn(e.producers, e.tick.s) != {})
    case ActNow(_) => e.tick == Acting
    case Free => e.tick == Idle && e.producers == map[]
  }

  function Push(c: Config, e: Exporter, p: nat): (r: Exporter)
    requires Shaped(e) && p in e.producers && e.producers[p].Checked?
    requires e.producers[p].kind < N_SIGNALS
    ensures Shaped(r)
  {
    var k, item := e.producers[p].kind, e.producers[p].item;
    var g, h := e.sig[k], e.hist[k];
    if |g.queue| >= c.queueCap then
      e.(hist := e.hist[k := h.(refusedFull := h.refusedFull + [item])],
         producers := e.producers[p := CountingFull(k)])
    else
      e.(sig := e.sig[k := g.(queue := g.queue + [item])],
         hist := e.hist[k := h.(accepted := h.accepted + [item])],
         producers := e.producers[p := Counting(k)])
  }

  function Tally(e: Exporter, p: nat): (r: Exporter)
    requires Shaped(e) && p in e.producers && !e.producers[p].Checked?
    requires e.producers[p].kind < N_SIGNALS
    ensures Shaped(r)
  {
    var k := e.producers[p].kind;
    var g := e.sig[k];
    e.(sig := e.sig[k := if e.producers[p].Counting? then g.(emitted := g.emitted + 1)
                         else g.(droppedFull := g.droppedFull + 1)],
       producers := e.producers - {p})
  }

  function Check(e: Exporter, p: nat, kind: nat, item: Item): (r: Exporter)
    requires Shaped(e) && kind < N_SIGNALS
    ensures Shaped(r)
  {
    if e.shutdown then
      var h := e.hist[kind];
      e.(hist := e.hist[kind := h.(refusedShutdown := h.refusedShutdown + [item])])
    else e.(producers := e.producers[p := Checked(kind, item)])
  }

  /** One item moves from the queue to the pending batch; the first one starts the timer. */
  function Drain(e: Exporter, s: nat, now: nat): (r: Exporter)
    requires Shaped(e) && s < N_SIGNALS && e.sig[s].queue != []
    ensures Shaped(r)
  {
    var g := e.sig[s];
    e.(sig := e.sig[s := g.(
      queue := g.queue[1..], pending := g.pending + [g.queue[0]], firstSet := true,
      firstMono := if g.firstSet then g.firstMono else now)])
  }

  /** drain_signal: first what is still in the queue, then the pending batch. */
  function FreeSignal(e: Exporter, s: nat): (r: Exporter)
    requires Shaped(e) && s < N_SIGNALS
    ensures Shaped(r)
  {
    var g, h := e.sig[s], e.hist[s];
    e.(sig := e.sig[s := g.(queue := [], pending := [])],
       hist := e.hist[s := h.(freed := h.freed + g.queue + g.pending)])
  }

  function Next(c: Config, e: Exporter, step: Step): (r: Exporter)
    requires Shaped(e) && ProducersOk(e) && Enabled(c, e, step)
    ensures Shaped(r)
  {
    match step
    case EmitCheck(p, kind, item) => Check(e, p, kind, item)
    case EmitPush(p) => Push(c, e, p)
    case EmitCount(p) => Tally(e, p)
    case Shutdown => e.(shutdown := true)
    case TickBegin => e.(tick := Draining(0))
    case DrainOne(now) => Drain(e, e.tick.s, now)
    case DrainEnd => e.(tick := if e.tick.s + 1 < N_SIGNALS then Draining(e.tick.s + 1) else Acting)
    case ActNow(i) => Act(c, e, i).(tick := Idle)
    case Free =>
      FreeSignal(FreeSignal(FreeSignal(e, 0), 1), 2).(tick := Freed, inFlight := None)
  }

  // ---------------------------------------------------------------- the invariant

  /**
   The ledger of a signal. In order, every item that was accepted is freed, pending or queued,
   and the freed ones are counted as sent, as dropped, or are lost to the counters.
   */
  ghost predicate LedgerOk(c: Config, g: Signal, h: History) {
    h.accepted == h.freed + g.pending + g.queue &&
    |h.freed| == g.sent + g.droppedErr + h.lost &&
    h.lost >= 0 && (c.nullTransport ==> h.lost == 0) &&
    |g.pending| <= 2 * c.batchSize && |g.queue| <= c.queueCap
  }

  /** The counters of the producers lag by the producers that stand before them. */
  ghost predicate LagOk(e: Exporter, k: nat)
    requires Shaped(e) && k < N_SIGNALS
  {
    e.sig[k].emitted + |CountingIn(e.producers, k)| == |e.hist[k].accepted| &&
    e.sig[k].droppedFull + |CountingFullIn(e.producers, k)| == |e.hist[k].refusedFull|
  }

  /** The request in flight carries the first `inFlightCount` pending items of its signal. */
  ghost predicate RequestOk(c: Config, e: Exporter)
    requires Shaped(e)
  {
    e.inFlight.Some? ==>
      !c.nullTransport && !e.backoffArmed && |e.inFlight.value| == e.inFlightCount > 0 &&
      e.inFlight.value <= e.sig[e.inFlightSignal].pending
  }

  /** `outcomes` says of each recorded outcome whether it disposed of its batch. */
  ghost predicate BudgetOk(c: Config, e: Exporter) {
    e.attempt <= c.maxRetries &&
    (c.maxRetries < UINT32_RANGE - 1 ==>
      TrailOk(e.outcomes, e.attempt) && Disposing(e.outcomes, c.maxRetries + 1))
  }

  /** The last `n` outcomes were retried, the one before them was not. */
  predicate TrailOk(outcomes: seq<bool>, n: nat) {
    n <= |outcomes| && (forall i :: |outcomes| - n <= i < |outcomes| ==> !outcomes[i]) &&
    (n < |outcomes| ==> outcomes[|outcomes| - n - 1])
  }

  /** Among any `n` consecutive outcomes at least one disposes of a batch. */
  ghost predicate Disposing(outcomes: seq<bool>, n: nat) {
    forall i, j :: 0 <= i && i + n == j <= |outcomes| ==> true in outcomes[i..j]
  }

  ghost predicate LedgersOk(c: Config, e: Exporter)
    requires Shaped(e)
  {
    forall k :: 0 <= k < N_SIGNALS ==> LedgerOk(c, e.sig[k], e.hist[k])
  }

  ghost predicate LagsOk(e: Exporter)
    requires Shaped(e)
  {
    forall k :: 0 <= k < N_SIGNALS ==> LagOk(e, k)
  }

  /** Once the exporter is freed every accepted item was freed, each once. */
  ghost predicate AllFreed(e: Exporter)
    requires Shaped(e)
  {
    forall k :: 0 <= k < N_SIGNALS ==>
      e.sig[k].queue == [] && e.sig[k].pending == [] &&
      multiset(e.hist[k].freed) == multiset(e.hist[k].accepted)
  }

  ghost predicate Inv(c: Config, e: Exporter) {
    QueueOk(c) && Shaped(e) && ProducersOk(e) && LagsOk(e) && BudgetOk(c, e) &&
    (if e.tick == Freed then AllFreed(e) && e.producers == map[] && e.inFlight.None?
     else LedgersOk(c, e) && RequestOk(c, e))
  }

  lemma CreatedInv(c: Config, jitter: uint64)
    requires QueueOk(c)
    ensures Inv(c, Created(jitter))
  {
    assert forall k :: CountingIn(map[], k) == {} && CountingFullIn(map[], k) == {};
  }

  // ---------------------------------------------------------------- producers

  lemma AtMoves(m: map<nat, Producer>, p: nat, v: Producer, w: Producer)
    requires p in m ==> m[p] != w
    ensures |At(m[p := v], w)| == |At(m, w)| + if v == w then 1 else 0
  {
    if v == w {
      assert At(m[p := v], w) == At(m, w) + {p};
    } else {
      assert At(m[p := v], w) == At(m, w);
    }
  }

  lemma AtLeaves(m: map<nat, Producer>, p: nat, w: Producer)
    requires p in m
    ensures |At(m, w)| == |At(m - {p}, w)| + if m[p] == w then 1 else 0
  {
    if m[p] == w {
      assert At(m, w) == At(m - {p}, w) + {p};
    } else {
      assert At(m, w) == At(m - {p}, w);
    }
  }

  lemma CheckInv(c: Config, e: Exporter, p: nat, kind: nat, item: Item)
    requires Inv(c, e) && kind < N_SIGNALS && p !in e.producers && e.tick != Freed
    ensures Inv(c, Check(e, p, kind, item))
  {
    hide At;
    var r := Check(e, p, kind, item);
    forall k | 0 <= k < N_SIGNALS ensures LagOk(r, k) {
      assert LagOk(e, k);
      AtMoves(e.producers, p, Checked(kind, item), Counting(k));
      AtMoves(e.producers, p, Checked(kind, item), CountingFull(k));
    }
  }

  lemma PushLags(c: Config, e: Exporter, p: nat)
    requires Shaped(e) && LagsOk(e) && p in e.producers && e.producers[p].Checked?
    requires e.producers[p].kind < N_SIGNALS
    ensures LagsOk(Push(c, e, p))
  {
    hide At;
    var r := Push(c, e, p);
    forall k | 0 <= k < N_SIGNALS ensures LagOk(r, k) {
      assert LagOk(e, k);
      AtMoves(e.producers, p, r.producers[p], Counting(k));
      AtMoves(e.producers, p, r.producers[p], CountingFull(k));
    }
  }

  lemma PushInv(c: Config, e: Exporter, p: nat)
    requires Inv(c, e) && p in e.producers && e.producers[p].Checked?
    ensures Inv(c, Push(c, e, p))
  {
    hide At, LagsOk;
    PushLags(c, e, p);
    var kind, item := e.producers[p].kind, e.producers[p].item;
    var g, h := e.sig[kind], e.hist[kind];
    assert LedgerOk(c, g, h);
    assert h.freed + g.pending + g.queue + [item] == h.freed + g.pending + (g.queue + [item]);
  }

  lemma TallyInv(c: Config, e: Exporter, p: nat)
    requires Inv(c, e) && p in e.producers && !e.producers[p].Checked?
    ensures Inv(c, Tally(e, p))
  {
    hide At;
    var r := Tally(e, p);
    forall k | 0 <= k < N_SIGNALS ensures LagOk(r, k) {
      assert LagOk(e, k);
      AtLeaves(e.producers, p, Counting(k));
      AtLeaves(e.producers, p, CountingFull(k));
    }
    assert LedgerOk(c, e.sig[e.producers[p].kind], e.hist[e.producers[p].kind]);
  }

  // ---------------------------------------------------------------- the ticking thread

  /** Nothing that the producers use changed. */
  predicate SameForProducers(e: Exporter, r: Exporter)
    requires Shaped(e) && Shaped(r)
  {
    r.producers == e.producers && r.shutdown == e.shutdown && r.tick == e.tick &&
    forall k :: 0 <= k < N_SIGNALS ==>
      r.sig[k].emitted == e.sig[k].emitted && r.sig[k].droppedFull == e.sig[k].droppedFull &&
      r.hist[k].accepted == e.hist[k].accepted && r.hist[k].refusedFull == e.hist[k].refusedFull
      && r.hist[k].refusedShutdown == e.hist[k].refusedShutdown
  }

  lemma SameLags(e: Exporter, r: Exporter)
    requires Shaped(e) && Shaped(r) && SameForProducers(e, r) && LagsOk(e)
    ensures LagsOk(r)
  {
    forall k | 0 <= k < N_SIGNALS ensures LagOk(r, k) {
      assert LagOk(e, k);
    }
  }

  lemma DrainInv(c: Config, e: Exporter, s: nat, now: nat)
    requires Inv(c, e) && e.tick != Freed && s < N_SIGNALS && e.sig[s].queue != []
    requires |e.sig[s].pending| < 2 * c.batchSize
    ensures Inv(c, Drain(e, s, now)) && SameForProducers(e, Drain(e, s, now))
  {
    var r := Drain(e, s, now);
    SameLags(e, r);
    var g, h := e.sig[s], e.hist[s];
    assert LedgerOk(c, g, h);
    assert g.queue == [g.queue[0]] + g.queue[1..];
    assert h.freed + g.pending + g.queue == h.freed + (g.pending + [g.queue[0]]) + g.queue[1..];
  }

  /** A new outcome after the last ones keeps the retry budget. */
  lemma OutcomeKeepsBudget(outcomes: seq<bool>, attempt: nat, max: nat, disposed: bool)
    requires TrailOk(outcomes, attempt) && Disposing(outcomes, max + 1)
    requires disposed || attempt < max
    ensures var outcomes' := outcomes + [disposed];
      TrailOk(outcomes', if disposed then 0 else attempt + 1) && Disposing(outcomes', max + 1)
  {
    var outcomes' := outcomes + [disposed];
    forall i, j | 0 <= i && i + max + 1 == j <= |outcomes'| ensures true in outcomes'[i..j] {
      if j <= |outcomes| {
        assert outcomes'[i..j] == outcomes[i..j];
      } else if disposed {
        assert outcomes'[i..j][j - i - 1];
      } else {
        var k := |outcomes| - attempt - 1;
        assert outcomes'[i..j][k - i] == outcomes[k];
      }
    }
  }

  /** What is required of a state whose outcome is recorded. */
  ghost predicate Recordable(c: Config, e: Exporter) {
    Shaped(e) && ProducersOk(e) && LagsOk(e) && BudgetOk(c, e) && LedgersOk(c, e) &&
    e.tick != Freed && e.inFlightCount <= |e.sig[e.inFlightSignal].pending| &&
    (c.nullTransport ==> e.inFlightCount == |e.sig[e.inFlightSignal].pending|)
  }

  /** What recording an outcome keeps, whatever it was. */
  ghost predicate Recorded(c: Config, e: Exporter, r: Exporter)
    requires Shaped(e)
  {
    Shaped(r) && ProducersOk(r) && LagsOk(r) && BudgetOk(c, r) && LedgersOk(c, r) &&
    SameForProducers(e, r) && r.inFlight == e.inFlight && r.inFlightSignal == e.inFlightSignal &&
    forall k :: 0 <= k < N_SIGNALS && k != e.inFlightSignal ==> r.sig[k] == e.sig[k]
  }

  lemma DisposeKeeps(c: Config, e: Exporter, sent: nat, dropped: nat, rejected: nat, attempt: uint32)
    requires Recordable(c, e) && sent + dropped == e.inFlightCount
    ensures var k := e.inFlightSignal;
      var g := e.sig[k].(sent := e.sig[k].sent + sent, droppedErr := e.sig[k].droppedErr + dropped,
                         rejected := rejected);
      Recorded(c, e, Clear(e.(sig := e.sig[k := g], attempt := attempt)))
  {
    var k := e.inFlightSignal;
    var g := e.sig[k].(sent := e.sig[k].sent + sent, droppedErr := e.sig[k].droppedErr + dropped,
                       rejected := rejected);
    var r := Clear(e.(sig := e.sig[k := g], attempt := attempt));
    SameLags(e, r);
    assert LedgerOk(c, e.sig[k], e.hist[k]);
    assert LedgerOk(c, r.sig[k], r.hist[k]) by {
      assert e.hist[k].freed + g.pending + [] + g.queue == e.hist[k].freed + g.pending + g.queue;
    }
    if c.maxRetries < UINT32_RANGE - 1 {
      OutcomeKeepsBudget(e.outcomes, e.attempt, c.maxRetries, true);
    }
  }

  lemma DropKeeps(c: Config, e: Exporter, attempt: uint32)
    requires Recordable(c, e)
    ensures Recorded(c, e, Drop(e.(attempt := attempt)))
  {
    var k := e.inFlightSignal;
    var g := e.sig[k];
    DisposeKeeps(c, e, 0, e.inFlightCount, g.rejected, attempt);
    assert g.(sent := g.sent + 0, droppedErr := g.droppedErr + e.inFlightCount,
              rejected := g.rejected) == g.(droppedErr := g.droppedErr + e.inFlightCount);
  }

  lemma DeliverKeeps(c: Config, e: Exporter, rejected: int)
    requires Recordable(c, e)
    ensures Recorded(c, e, Deliver(e, rejected))
  {
    var k := e.inFlightSignal;
    var g := e.sig[k];
    var rejected' := if rejected > 0 then g.rejected + rejected else g.rejected;
    DisposeKeeps(c, e, e.inFlightCount, 0, rejected', e.attempt);
    assert g.(sent := g.sent + e.inFlightCount, droppedErr := g.droppedErr + 0,
              rejected := rejected') == g.(sent := g.sent + e.inFlightCount, rejected := rejected');
    assert e.(sig := e.sig[k := g], attempt := e.attempt) == e.(sig := e.sig[k := g]);
  }

  lemma RetryKeeps(c: Config, e: Exporter, floor: uint32, now: nat)
    requires Recordable(c, e)
    ensures Recorded(c, e, RetryOrDrop(c, e, floor, now))
  {
    hide Drop, RetryDelay;
    var attempt := NextAttempt(e.attempt);
    if attempt > c.maxRetries {
      DropKeeps(c, e, attempt);
    } else {
      var r := RetryOrDrop(c, e, floor, now);
      SameLags(e, r);
      if c.maxRetries < UINT32_RANGE - 1 {
        OutcomeKeepsBudget(e.outcomes, e.attempt, c.maxRetries, false);
      }
    }
  }

  lemma RecordKeeps(c: Config, e: Exporter, o: Outcome, now: nat)
    requires Recordable(c, e)
    ensures Recorded(c, e, RecordOutcome(c, e, o, now))
  {
    assert Shaped(e);
    hide Drop, Deliver, RetryOrDrop, Recorded, Recordable;
    var e1 := Count(e, o.status);
    CountKeeps(c, e, e1, RecordOutcome(c, e, o, now));
    if o.status == 0 {
      RetryKeeps(c, e1, 0, now);
    } else if Success(o.status) {
      DeliverKeeps(c, e1, o.rejected);
    } else if Retryable(o.status) {
      RetryKeeps(c, e1, o.retryAfterMs, now);
    } else {
      DropKeeps(c, e1, e1.attempt);
      assert e1.(attempt := e1.attempt) == e1;
    }
  }

  lemma CountKeeps(c: Config, e: Exporter, e1: Exporter, r: Exporter)
    requires Recordable(c, e)
    requires e1 == e.(http2xx := e1.http2xx, http4xx := e1.http4xx, http5xx := e1.http5xx,
                      networkErr := e1.networkErr)
    ensures Recordable(c, e1) && (Recorded(c, e1, r) ==> Recorded(c, e, r))
  {
    SameLags(e, e1);
  }

  lemma NullStepInv(c: Config, e: Exporter, i: Inputs, s: nat)
    requires Inv(c, e) && e.tick != Freed && c.nullTransport
    ensures var r := NullStep(c, e, i, s);
      r.Some? ==> Inv(c, r.value) && SameForProducers(e, r.value)
    ensures NullStep(c, e, i, s).None? ==> forall k :: s <= k < N_SIGNALS ==> e.sig[k].pending == []
    decreases N_SIGNALS - s
  {
    hide RecordOutcome;
    if s < N_SIGNALS {
      if e.sig[s].pending != [] {
        var e1 := e.(inFlightSignal := s, inFlightCount := |e.sig[s].pending|);
        SameLags(e, e1);
        RecordKeeps(c, e1, Outcome(i.nullOutcome.status, 0, 0), i.nullNow);
      } else {
        NullStepInv(c, e, i, s + 1);
      }
    }
  }

  lemma TryStartInv(c: Config, e: Exporter, s: nat, built: bool)
    requires Inv(c, e) && e.tick != Freed && s < N_SIGNALS && !e.backoffArmed
    requires c.nullTransport ==> e.sig[s].pending == []
    ensures Inv(c, TryStart(e, s, built)) && SameForProducers(e, TryStart(e, s, built))
    ensures !TryStart(e, s, built).backoffArmed
    ensures forall k :: 0 <= k < N_SIGNALS ==>
      TryStart(e, s, built).sig[k].pending == e.sig[k].pending
  {
    var r := TryStart(e, s, built);
    SameLags(e, r);
    forall k | 0 <= k < N_SIGNALS ensures LedgerOk(c, r.sig[k], r.hist[k]) {
      assert LedgerOk(c, e.sig[k], e.hist[k]);
    }
  }

  lemma StartStepInv(c: Config, e: Exporter, i: Inputs, s: nat)
    requires Inv(c, e) && e.tick != Freed
    requires c.nullTransport && !e.backoffArmed ==>
      forall k :: s <= k < N_SIGNALS ==> e.sig[k].pending == []
    ensures Inv(c, StartStep(c, e, i, s)) && SameForProducers(e, StartStep(c, e, i, s))
    decreases N_SIGNALS - s
  {
    assert Shaped(e);
    hide TryStart, Inv, Due;
    if s < N_SIGNALS && e.inFlight.None? && !e.backoffArmed {
      TryStartInv(c, e, s, s in i.built);
      var e1 := if Due(c, e, s, i.startNow) then TryStart(e, s, s in i.built) else e;
      StartStepInv(c, e1, i, s + 1);
    }
  }

  lemma RequestStepInv(c: Config, e: Exporter, i: Inputs)
    requires Inv(c, e) && e.tick != Freed
    ensures Inv(c, RequestStep(c, e, i)) && SameForProducers(e, RequestStep(c, e, i))
  {
    hide RecordOutcome;
    if e.inFlight.Some? && i.request.Some? {
      RecordKeeps(c, e, i.request.value, i.requestNow);
      var r := RecordOutcome(c, e, i.request.value, i.requestNow);
      SameLags(r, r.(inFlight := None, inFlightCount := 0));
    }
  }

  lemma BackoffStepInv(c: Config, e: Exporter, i: Inputs)
    requires Inv(c, e) && e.tick != Freed
    ensures Inv(c, BackoffStep(c, e, i)) && SameForProducers(e, BackoffStep(c, e, i))
  {
    hide TryStart;
    var e1 := e.(backoffArmed := false);
    SameLags(e, e1);
    if !c.nullTransport { TryStartInv(c, e1, e1.inFlightSignal, i.rebuilt); }
  }

  lemma ActInv(c: Config, e: Exporter, i: Inputs)
    requires Inv(c, e) && e.tick != Freed
    ensures Inv(c, Act(c, e, i)) && SameForProducers(e, Act(c, e, i))
  {
    assert Shaped(e);
    hide NullStep, StartStep, RequestStep, BackoffStep, Inv;
    if c.nullTransport && !e.backoffArmed {
      NullStepInv(c, e, i, 0);
      if NullStep(c, e, i, 0).Some? { return; }
    }
    StartStepInv(c, e, i, 0);
    var e1 := StartStep(c, e, i, 0);
    assert Inv(c, e1) && e1.tick == e.tick;
    RequestStepInv(c, e1, i);
    var e2 := RequestStep(c, e1, i);
    BackoffStepInv(c, e2, i);
    SameTwice(e, e1, e2);
    SameTwice(e, e2, BackoffStep(c, e2, i));
  }

  lemma SameTwice(e: Exporter, m: Exporter, r: Exporter)
    requires Shaped(e) && Shaped(m) && Shaped(r)
    requires SameForProducers(e, m) && SameForProducers(m, r)
    ensures SameForProducers(e, r)
  {
  }

  lemma FreedAt(e: Exporter, k: nat)
    requires Shaped(e) && k < N_SIGNALS
    ensures var r := FreeSignal(FreeSignal(FreeSignal(e, 0), 1), 2);
      r.producers == e.producers && r.sig[k] == e.sig[k].(queue := [], pending := []) &&
      r.hist[k] == e.hist[k].(freed := e.hist[k].freed + e.sig[k].queue + e.sig[k].pending)
  {
  }

  lemma FreeInv(c: Config, e: Exporter)
    requires Inv(c, e) && e.tick == Idle && e.producers == map[]
    ensures Inv(c, Next(c, e, Free))
  {
    var r := Next(c, e, Free);
    forall k | 0 <= k < N_SIGNALS
      ensures LagOk(r, k) && r.sig[k].queue == [] && r.sig[k].pending == []
      ensures multiset(r.hist[k].freed) == multiset(r.hist[k].accepted)
    {
      hide FreeSignal;
      assert LagOk(e, k) && LedgerOk(c, e.sig[k], e.hist[k]);
      FreedAt(e, k);
    }
  }

  lemma TickInv(c: Config, e: Exporter, tick: Tick)
    requires Inv(c, e) && e.tick != Freed && tick != Freed
    ensures Inv(c, e.(tick := tick))
  {
    var r := e.(tick := tick);
    forall k | 0 <= k < N_SIGNALS ensures LagOk(r, k) { assert LagOk(e, k); }
  }

  lemma ShutdownInv(c: Config, e: Exporter)
    requires Inv(c, e)
    ensures Inv(c, e.(shutdown := true))
  {
    var r := e.(shutdown := true);
    forall k | 0 <= k < N_SIGNALS ensures LagOk(r, k) { assert LagOk(e, k); }
  }

  lemma NextInv(c: Config, e: Exporter, step: Step)
    requires Inv(c, e) && Enabled(c, e, step)
    ensures Inv(c, Next(c, e, step))
  {
    hide Check, Push, Tally, Drain, Act, FreeSignal, LagOk, LedgerOk, RequestOk, BudgetOk, AllFreed;
    match step {
      case EmitCheck(p, kind, item) => CheckInv(c, e, p, kind, item);
      case EmitPush(p) => PushInv(c, e, p);
      case EmitCount(p) => TallyInv(c, e, p);
      case Shutdown => ShutdownInv(c, e);
      case TickBegin => TickInv(c, e, Draining(0));
      case DrainOne(now) => DrainInv(c, e, e.tick.s, now);
      case DrainEnd => TickInv(c, e, Next(c, e, step).tick);
      case ActNow(i) => ActInv(c, e, i); TickInv(c, Act(c, e, i), Idle);
      case Free => FreeInv(c, e);
    }
  }
}
