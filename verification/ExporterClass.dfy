/**
 The exporter of src/exporter.c: the struct and the functions that change it, each proved
 against the state machine of ExporterMachine, so that every theorem about runs holds for them.
 Other threads may emit at any point where the source reads or writes an atomic.
 */
module ExporterModel {
  import opened Common
  import opened Retry
  import opened ExporterMachine
  import opened ExporterRuns
  import MpscRing

  /** The options that matter here; 0 asks for the default. */
  datatype Options = Options(
    batchSize: nat, batchMs: uint32, maxRetries: uint32, initialMs: uint32, maxMs: uint32,
    queueCapacity: nat)

  function Default(v: nat, d: nat): nat { if v == 0 then d else v }

  /** The least power of two that is at least v; it stops at 2^63. */
  function RoundUp(v: nat, r: nat): (p: nat)
    requires 1 <= r <= SIZE_MAX
    decreases if r < v then v - r else 0
  {
    if r < v && r <= SIZE_MAX / 2 then RoundUp(v, 2 * r) else r
  }

  lemma {:induction false} RoundUpIsLeast(v: nat, k: nat) returns (j: nat)
    requires Pow2(k) <= SIZE_MAX && (k > 0 ==> Pow2(k - 1) < v)
    ensures RoundUp(v, Pow2(k)) == Pow2(j) <= SIZE_MAX && (j > 0 ==> Pow2(j - 1) < v)
    ensures v <= Pow2(j) || 2 * Pow2(j) > SIZE_MAX
    decreases if Pow2(k) < v then v - Pow2(k) else 0
  {
    if Pow2(k) < v && Pow2(k) <= SIZE_MAX / 2 {
      j := RoundUpIsLeast(v, k + 1);
    } else {
      j := k;
    }
  }

  /** The ring gets the single slot for which it does not work exactly when one is asked for. */
  lemma CapacityOneIff(v: nat)
    ensures RoundUp(Default(v, 4096), 1) == 1 <==> v == 1
  {
    var d := Default(v, 4096);
    if d > 1 {
      assert RoundUp(d, 1) == RoundUp(d, 2);
      RoundUpGrows(d, 2);
    }
  }

  /** The rings that the options ask for deliver every accepted item on every run, exactly when
      the options do not ask for one slot: then QueueOk holds of the configuration. */
  lemma QueueDeliversIff(v: nat, x: Item, y: Item)
    ensures var cap := RoundUp(Default(v, 4096), 1);
      ((forall s: MpscRing.Ring<Item> :: MpscRing.Reachable(cap, s) ==> MpscRing.Delivers(s)) <==>
        v != 1) && (cap >= 2 <==> v != 1)
  {
    CapacityOneIff(v);
    RoundUpGrows(Default(v, 4096), 1);
    MpscRing.DeliversIffCapacityAtLeastTwo(RoundUp(Default(v, 4096), 1), x, y);
  }

  lemma {:induction false} RoundUpGrows(v: nat, r: nat)
    requires 1 <= r <= SIZE_MAX
    ensures RoundUp(v, r) >= r
    decreases if r < v then v - r else 0
  {
    if r < v && r <= SIZE_MAX / 2 { RoundUpGrows(v, 2 * r); }
  }

  method RoundUpPow2(v: nat) returns (r: nat)
    ensures r == RoundUp(v, 1) && 1 <= r <= SIZE_MAX
  {
    r := 1;
    while r < v
      invariant 1 <= r <= SIZE_MAX && RoundUp(v, 1) == RoundUp(v, r)
      decreases if r < v then v - r else 0
    {
      if r > SIZE_MAX / 2 { return; }
      r := r * 2;
    }
  }

  /** normalize_opts */
  method Normalize(o: Options, nullTransport: bool) returns (c: Config)
    ensures ConfigOk(c) && c.nullTransport == nullTransport
    ensures c.batchSize == if o.batchSize == 0 then 512 else Min(o.batchSize, 1048576)
    ensures c.batchMs == Default(o.batchMs, 100) && c.maxRetries == Default(o.maxRetries, 5)
    ensures c.retry == RetryCfg(Default(o.initialMs, 1000), Default(o.maxMs, 30000))
    ensures c.queueCap == RoundUp(Default(o.queueCapacity, 4096), 1)
    ensures QueueOk(c) <==> o.queueCapacity != 1
  {
    CapacityOneIff(o.queueCapacity);
    var cap := RoundUpPow2(Default(o.queueCapacity, 4096));
    return Config(Min(Default(o.batchSize, 512), 1048576), Default(o.batchMs, 100),
                  Default(o.maxRetries, 5),
                  RetryCfg(Default(o.initialMs, 1000), Default(o.maxMs, 30000)), cap, nullTransport);
  }

  lemma RunsOne(c: Config, e: Exporter, step: Step)
    requires Shaped(e) && ProducersOk(e) && Enabled(c, e, step)
    ensures Runs(c, e, [step], Next(c, e, step))
  {
    hide Next, Enabled;
    assert [step][1..] == [];
  }

  /** A run goes on with one more step. */
  lemma RunsMore(c: Config, a: Exporter, steps: seq<Step>, e: Exporter, step: Step)
    requires Shaped(a) && Runs(c, a, steps, e)
    requires Shaped(e) && ProducersOk(e) && Enabled(c, e, step)
    ensures Runs(c, a, steps + [step], Next(c, e, step))
  {
    hide Next, Enabled, Runs;
    RunsOne(c, e, step);
    RunsConcat(c, a, steps, e, [step], Next(c, e, step));
  }

  /** What other threads may do: append to the queues, count, and ask for the shutdown. */
  predicate OnlyProducers(e: Exporter, r: Exporter)
    requires Shaped(e) && Shaped(r)
  {
    r == e.(sig := r.sig, hist := r.hist, producers := r.producers, shutdown := r.shutdown) &&
    forall k :: 0 <= k < N_SIGNALS ==>
      e.sig[k].queue <= r.sig[k].queue && r.sig[k] == e.sig[k].(queue := r.sig[k].queue,
        emitted := r.sig[k].emitted, droppedFull := r.sig[k].droppedFull) &&
      e.hist[k].accepted <= r.hist[k].accepted && e.hist[k].refusedFull <= r.hist[k].refusedFull
  }

  class OtlpExporter {
    const cfg: Config
    var sig: seq<Signal>
    var producers: map<nat, Producer>
    var shutdown: bool
    var inFlight: Option<seq<Item>>
    var inFlightSignal: nat
    var inFlightCount: nat
    var attempt: uint32
    var backoffArmed: bool
    var deadline: nat
    var jitter: uint64
    var http2xx: nat
    var http4xx: nat
    var http5xx: nat
    var networkErr: nat
    ghost var hist: seq<History>
    ghost var tick: Tick
    ghost var outcomes: seq<bool>
    ghost var carried: seq<Item>

    ghost function State(): Exporter
      reads this
    {
      Exporter(sig, hist, producers, tick, shutdown, inFlight, inFlightSignal, inFlightCount,
               attempt, backoffArmed, deadline, jitter, http2xx, http4xx, http5xx, networkErr,
               outcomes, carried)
    }

    constructor (cfg: Config, seed: uint64)
      ensures this.cfg == cfg && jitter != 0 && State() == Created(jitter)
    {
      this.cfg := cfg;
      sig := [NO_SIGNAL, NO_SIGNAL, NO_SIGNAL];
      producers := map[];
      shutdown := false;
      inFlight, inFlightSignal, inFlightCount := None, 0, 0;
      attempt, backoffArmed, deadline := 0, false, 0;
      jitter := if seed == 0 then 0x9E3779B97F4A7C15 else seed;
      http2xx, http4xx, http5xx, networkErr := 0, 0, 0, 0;
      hist := [NO_HISTORY, NO_HISTORY, NO_HISTORY];
      tick := Idle;
      outcomes, carried := [], [];
    }

    // -------------------------------------------------------------- emit

    /** The load of shutdown_requested; after the shutdown the item is freed at once. */
    method CheckShutdown(p: nat, kind: nat, item: Item) returns (closed: bool)
      requires Shaped(State()) && kind < N_SIGNALS && p !in producers
      modifies this
      ensures State() == Check(old(State()), p, kind, item) && closed == old(shutdown)
    {
      closed := shutdown;
      if closed {
        hist := hist[kind := hist[kind].(refusedShutdown := hist[kind].refusedShutdown + [item])];
      } else {
        producers := producers[p := Checked(kind, item)];
      }
    }

    /** mpsc_queue_push; an item that does not fit is freed. */
    method PushItem(p: nat) returns (st: Status)
      requires Shaped(State()) && p in producers && producers[p].Checked?
      requires producers[p].kind < N_SIGNALS
      modifies this
      ensures State() == Push(cfg, old(State()), p)
      ensures st == if producers[p].Counting? then Ok else ErrBufferFull
    {
      var kind, item := producers[p].kind, producers[p].item;
      if |sig[kind].queue| >= cfg.queueCap {
        hist := hist[kind := hist[kind].(refusedFull := hist[kind].refusedFull + [item])];
        producers := producers[p := CountingFull(kind)];
        st := ErrBufferFull;
      } else {
        sig := sig[kind := sig[kind].(queue := sig[kind].queue + [item])];
        hist := hist[kind := hist[kind].(accepted := hist[kind].accepted + [item])];
        producers := producers[p := Counting(kind)];
        st := Ok;
      }
    }

    /** The addition to `emitted` or to `dropped_full`. */
    method CountItem(p: nat)
      requires Shaped(State()) && p in producers && !producers[p].Checked?
      requires producers[p].kind < N_SIGNALS
      modifies this
      ensures State() == Tally(old(State()), p)
    {
      var kind := producers[p].kind;
      if producers[p].Counting? {
        sig := sig[kind := sig[kind].(emitted := sig[kind].emitted + 1)];
      } else {
        sig := sig[kind := sig[kind].(droppedFull := sig[kind].droppedFull + 1)];
      }
      producers := producers - {p};
    }

    /** One atomic step of a thread other than `self`, or nothing. */
    method OtherThread(self: Option<nat>) returns (ghost steps: seq<Step>)
      requires Inv(cfg, State()) && tick != Freed
      modifies this
      ensures Inv(cfg, State()) && Runs(cfg, old(State()), steps, State())
      ensures OnlyProducers(old(State()), State()) && SameProducer(self, old(State()), State())
    {
      ghost var e := State();
      steps := [];
      RunsNothing(cfg, e);
      assert Shaped(e) && ProducersOk(e);
      hide Runs, Inv, Check, Push, Tally, OnlyProducers, Next;
      OnlyProducersSame(e);
      var p: nat, kind: nat, item: Item := *, *, *;
      var asks: bool := *;
      if self == Some(p) { return; }
      ghost var step := Shutdown;
      if asks {
        shutdown := true;
      } else if p !in producers {
        if kind >= N_SIGNALS { return; }
        var closed := CheckShutdown(p, kind, item);
        step := EmitCheck(p, kind, item);
      } else if producers[p].Checked? {
        var st := PushItem(p);
        step := EmitPush(p);
      } else {
        CountItem(p);
        step := EmitCount(p);
      }
      steps := [step];
      assert Enabled(cfg, e, step) && ByProducer(step);
      NextByProducer(cfg, e, step, self);
      OtherStepInv(cfg, e, step);
    }

    /** Any number of steps of threads other than `self`. */
    method OtherThreads(self: Option<nat>) returns (ghost steps: seq<Step>)
      requires Inv(cfg, State()) && tick != Freed
      modifies this
      ensures Inv(cfg, State()) && Runs(cfg, old(State()), steps, State())
      ensures OnlyProducers(old(State()), State()) && SameProducer(self, old(State()), State())
    {
      hide Runs;
      steps := [];
      ghost var e := State();
      RunsNothing(cfg, e);
      hide Inv;
      var n: nat := *;
      while n > 0
        invariant Inv(cfg, State()) && Shaped(e) && Shaped(State()) && State().tick != Freed
        invariant Runs(cfg, e, steps, State()) && OnlyProducers(e, State())
        invariant SameProducer(self, e, State())
      {
        ghost var was := State();
        ghost var more := OtherThread(self);
        RunsConcat(cfg, e, steps, was, more, State());
        steps := steps + more;
        n := n - 1;
      }
    }

    /** emit_move_common by the thread p; the item is owned by the exporter from the call on. */
    method EmitMove(p: nat, kind: nat, item: Item) returns (st: Status, ghost steps: seq<Step>)
      requires Inv(cfg, State()) && tick != Freed && kind < N_SIGNALS && p !in producers
      modifies this
      ensures Inv(cfg, State()) && Runs(cfg, old(State()), steps, State()) && p !in producers
      ensures match st
        case Ok =>
          EmitPush(p) in steps && Grew(old(hist)[kind].accepted, hist[kind].accepted, item)
        case ErrBufferFull =>
          EmitPush(p) in steps && Grew(old(hist)[kind].refusedFull, hist[kind].refusedFull, item)
        case ErrShutdown =>
          old(shutdown) && steps == [EmitCheck(p, kind, item)] &&
          hist[kind].refusedShutdown == old(hist)[kind].refusedShutdown + [item]
        case _ => false
    {
      hide Runs, Check, Push, Tally;
      ghost var e := State();
      var closed := CheckShutdown(p, kind, item);
      steps := [EmitCheck(p, kind, item)];
      RunsOne(cfg, e, steps[0]);
      CheckEffect(cfg, e, p, kind, item);
      if closed { return ErrShutdown, steps; }
      ghost var e1 := State();
      ghost var more := OtherThreads(Some(p));
      RunsConcat(cfg, e, steps, e1, more, State());
      steps := steps + more;

      ghost var e2 := State();
      st := PushItem(p);
      RunsMore(cfg, e, steps, e2, EmitPush(p));
      steps := steps + [EmitPush(p)];
      PushEffect(cfg, e2, p);
      ghost var e3 := State();
      more := OtherThreads(Some(p));
      RunsConcat(cfg, e, steps, e3, more, State());
      steps := steps + more;

      ghost var e4 := State();
      CountItem(p);
      RunsMore(cfg, e, steps, e4, EmitCount(p));
      steps := steps + [EmitCount(p)];
      TallyEffect(cfg, e4, p);
      if st == Ok {
        GrewBetween(e.hist[kind].accepted, e2.hist[kind].accepted, hist[kind].accepted, item);
      } else {
        GrewBetween(e.hist[kind].refusedFull, e2.hist[kind].refusedFull, hist[kind].refusedFull,
                    item);
      }
    }

    // -------------------------------------------------------------- outcome of a request

    /** Every pending item of a signal is freed. */
    method FreePending(k: nat)
      requires Shaped(State()) && k < N_SIGNALS
      modifies this
      ensures State() == old(State()).(
        hist := old(hist)[k := old(hist)[k].(freed := old(hist)[k].freed + old(sig)[k].pending)])
    {
      ghost var e, h := State(), hist[k];
      var i := 0;
      assert h.freed + sig[k].pending[..0] == h.freed && hist[k := h] == hist;
      while i < |sig[k].pending|
        invariant sig == e.sig && 0 <= i <= |e.sig[k].pending|
        invariant State() == e.(
          hist := e.hist[k := h.(freed := h.freed + e.sig[k].pending[..i])])
      {
        hist := hist[k := hist[k].(freed := hist[k].freed + [sig[k].pending[i]])];
        i := i + 1;
        assert h.freed + sig[k].pending[..i - 1] + [sig[k].pending[i - 1]]
          == h.freed + sig[k].pending[..i];
      }
      assert sig[k].pending[..i] == sig[k].pending;
    }

    /** clear_in_flight_batch */
    method ClearInFlightBatch()
      requires Shaped(State())
      modifies this
      ensures State() == Clear(old(State()))
    {
      var k := inFlightSignal;
      FreePending(k);
      hist := hist[k := hist[k].(lost := hist[k].lost + |sig[k].pending| - inFlightCount)];
      sig := sig[k := sig[k].(pending := [], firstSet := false)];
      attempt, backoffArmed := 0, false;
      outcomes := outcomes + [true];
    }

    /** The part that a network failure and a retryable status share. */
    method ArmRetryOrDrop(floor: uint32, now: nat)
      requires Shaped(State())
      modifies this
      ensures State() == RetryOrDrop(cfg, old(State()), floor, now)
    {
      hide RetryDelay, Clear;
      attempt := (attempt + 1) % UINT32_RANGE;
      if attempt > cfg.maxRetries {
        var g := sig[inFlightSignal];
        sig := sig[inFlightSignal := g.(droppedErr := g.droppedErr + inFlightCount)];
        ClearInFlightBatch();
      } else {
        var d := RetryDelayMs(jitter, attempt, floor, cfg.retry);
        jitter := d.prng;
        deadline := now + d.ms;
        backoffArmed := true;
        outcomes := outcomes + [false];
      }
    }

    /** record_outcome */
    method RecordTheOutcome(o: Outcome, now: nat)
      requires Shaped(State())
      modifies this
      ensures State() == RecordOutcome(cfg, old(State()), o, now)
    {
      hide RetryOrDrop, Clear;
      var g := sig[inFlightSignal];
      if o.status == 0 {
        networkErr := networkErr + 1;
        ArmRetryOrDrop(0, now);
      } else if 200 <= o.status < 300 {
        http2xx := http2xx + 1;
        sig := sig[inFlightSignal := g.(sent := g.sent + inFlightCount,
          rejected := if o.rejected > 0 then g.rejected + o.rejected else g.rejected)];
        ClearInFlightBatch();
      } else if o.status == 429 || 500 <= o.status < 600 {
        if o.status == 429 { http4xx := http4xx + 1; } else { http5xx := http5xx + 1; }
        ArmRetryOrDrop(o.retryAfterMs, now);
      } else {
        http4xx := http4xx + 1;
        sig := sig[inFlightSignal := g.(droppedErr := g.droppedErr + inFlightCount)];
        ClearInFlightBatch();
      }
    }

    // -------------------------------------------------------------- tick

    /** try_start_post; `built` says whether the request can be built. */
    method TryStartPost(s: nat, built: bool) returns (st: Status)
      requires Shaped(State()) && s < N_SIGNALS
      modifies this
      ensures State() == TryStart(old(State()), s, built)
      ensures st == Ok <==> old(inFlight).Some? || old(sig)[s].pending == [] || built
    {
      if inFlight.Some? || |sig[s].pending| == 0 { return Ok; }
      if !built { return ErrNetwork; }
      inFlight := Some(sig[s].pending);
      carried := sig[s].pending;
      inFlightSignal := s;
      inFlightCount := |sig[s].pending|;
      sig := sig[s := sig[s].(firstSet := false)];
      return Ok;
    }

    method StartDuePosts(i: Inputs) returns (work: bool)
      requires Shaped(State())
      modifies this
      ensures State() == StartStep(cfg, old(State()), i, 0)
    {
      hide TryStart;
      work := false;
      ghost var e := State();
      var s := 0;
      while s < N_SIGNALS && inFlight.None? && !backoffArmed
        invariant 0 <= s <= N_SIGNALS && Shaped(State())
        invariant StartStep(cfg, e, i, 0) == StartStep(cfg, State(), i, s)
      {
        var g := sig[s];
        if |g.pending| >= cfg.batchSize
          || (g.firstSet && Elapsed(i.startNow, g.firstMono) >= cfg.batchMs)
          || (shutdown && |g.pending| > 0)
        {
          var st := TryStartPost(s, s in i.built);
          if st == Ok { work := true; }
        }
        s := s + 1;
      }
    }

    method StepRequest(i: Inputs) returns (work: bool)
      requires Shaped(State())
      modifies this
      ensures State() == RequestStep(cfg, old(State()), i) && work == old(inFlight).Some?
    {
      hide RecordOutcome;
      work := inFlight.Some?;
      if inFlight.Some? && i.request.Some? {
        RecordTheOutcome(i.request.value, i.requestNow);
        inFlight := None;
        inFlightCount := 0;
      }
    }

    method RetryAfterBackoff(i: Inputs) returns (work: bool)
      requires Shaped(State())
      modifies this
      ensures State() == BackoffStep(cfg, old(State()), i)
    {
      hide TryStart;
      work := false;
      if backoffArmed && inFlight.None? && i.backoffNow >= deadline {
        backoffArmed := false;
        if !cfg.nullTransport {
          var st := TryStartPost(inFlightSignal, i.rebuilt);
        }
        work := inFlight.Some?;
      }
    }

    /** The null transport answers the first signal that has a batch. */
    method AnswerNull(i: Inputs) returns (done: bool)
      requires Shaped(State())
      modifies this
      ensures var r := NullStep(cfg, old(State()), i, 0);
        if done then r == Some(State()) else r == None && State() == old(State())
    {
      hide RecordOutcome;
      ghost var e := State();
      var s := 0;
      while s < N_SIGNALS
        invariant 0 <= s <= N_SIGNALS && State() == e
        invariant NullStep(cfg, e, i, 0) == NullStep(cfg, e, i, s)
      {
        if |sig[s].pending| > 0 {
          inFlightSignal := s;
          inFlightCount := |sig[s].pending|;
          RecordTheOutcome(Outcome(i.nullOutcome.status, 0, 0), i.nullNow);
          return true;
        }
        s := s + 1;
      }
      return false;
    }

    /** Steps 2 to 5 of a tick. */
    method ActOnce(i: Inputs) returns (work: bool)
      requires Shaped(State())
      modifies this
      ensures State() == Act(cfg, old(State()), i)
    {
      hide NullStep, StartStep, RequestStep, BackoffStep;
      if cfg.nullTransport && !backoffArmed {
        var done := AnswerNull(i);
        if done { return true; }
      }
      var started := StartDuePosts(i);
      var stepped := StepRequest(i);
      var retried := RetryAfterBackoff(i);
      return started || stepped || retried;
    }

    /** mpsc_queue_pop: it may find the oldest item not yet published by its producer. */
    method Pop(s: nat, now: nat) returns (popped: bool)
      requires Shaped(State()) && s < N_SIGNALS
      modifies this
      ensures popped ==> old(sig)[s].queue != [] && State() == Drain(old(State()), s, now)
      ensures !popped ==>
        State() == old(State()) && (sig[s].queue == [] || CountingIn(producers, s) != {})
    {
      var unpublished: bool := *;
      if |sig[s].queue| == 0 || (unpublished && CountingIn(producers, s) != {}) { return false; }
      var g := sig[s];
      sig := sig[s := g.(queue := g.queue[1..], pending := g.pending + [g.queue[0]])];
      if !sig[s].firstSet {
        sig := sig[s := sig[s].(firstMono := now, firstSet := true)];
      }
      return true;
    }

    /** One item, if there is one, goes from the queue to the pending batch. */
    method DrainItem(s: nat) returns (popped: bool, ghost steps: seq<Step>)
      requires Inv(cfg, State()) && s < N_SIGNALS && tick == Draining(s)
      requires |sig| == N_SIGNALS && |sig[s].pending| < 2 * cfg.batchSize
      modifies this
      ensures Inv(cfg, State()) && Shaped(State()) && tick == Draining(s)
      ensures Shaped(old(State())) && Runs(cfg, old(State()), steps, State())
      ensures |sig[s].pending| == |old(sig)[s].pending| + if popped then 1 else 0
      ensures !popped ==> sig[s].queue == [] || CountingIn(producers, s) != {}
    {
      ghost var e := State();
      InvMeans(cfg, e);
      hide Runs, Inv, Drain, OnlyProducers;
      steps := OtherThreads(None);
      InvMeans(cfg, State());
      OnlyProducersMeans(e, State(), s);
      ghost var e1 := State();
      var now: nat := *;
      popped := Pop(s, now);
      if popped {
        RunsMore(cfg, e, steps, e1, DrainOne(now));
        NextInv(cfg, e1, DrainOne(now));
        steps := steps + [DrainOne(now)];
        DrainMeans(e1, s, now);
      }
    }

    /** Step 1 of a tick, for one signal: the queue is drained into the pending batch. */
    method DrainSignal(s: nat) returns (work: bool, ghost steps: seq<Step>)
      requires Inv(cfg, State()) && Shaped(State()) && s < N_SIGNALS && tick == Draining(s)
      modifies this
      ensures Inv(cfg, State()) && Shaped(State()) && Runs(cfg, old(State()), steps, State())
      ensures tick == if s + 1 < N_SIGNALS then Draining(s + 1) else Acting
    {
      ghost var e := State();
      hide Runs, Inv;
      work, steps := false, [];
      RunsNothing(cfg, e);
      var room := true;
      while room && |sig[s].pending| < 2 * cfg.batchSize
        invariant Inv(cfg, State()) && Shaped(State()) && tick == Draining(s)
        invariant Runs(cfg, e, steps, State())
        invariant !room ==> sig[s].queue == [] || CountingIn(producers, s) != {}
        decreases room, 2 * cfg.batchSize - |sig[s].pending|
      {
        ghost var e1 := State();
        ghost var more;
        room, more := DrainItem(s);
        RunsConcat(cfg, e, steps, e1, more, State());
        steps := steps + more;
        work := work || room;
      }
      ghost var e3 := State();
      InvMeans(cfg, e3);
      RunsMore(cfg, e, steps, e3, DrainEnd);
      NextInv(cfg, e3, DrainEnd);
      steps := steps + [DrainEnd];
      tick := if s + 1 < N_SIGNALS then Draining(s + 1) else Acting;
      assert State() == Next(cfg, e3, DrainEnd);
    }

    /** Step 1 of a tick. */
    method DrainAll() returns (work: bool, ghost steps: seq<Step>)
      requires Inv(cfg, State()) && Shaped(State()) && tick == Draining(0)
      modifies this
      ensures Inv(cfg, State()) && Shaped(State()) && Runs(cfg, old(State()), steps, State())
      ensures tick == Acting
    {
      ghost var e := State();
      hide Runs, Inv;
      steps := [];
      RunsNothing(cfg, e);
      work := false;
      var s := 0;
      while s < N_SIGNALS
        invariant 0 <= s <= N_SIGNALS && Inv(cfg, State()) && Shaped(State())
        invariant tick == if s < N_SIGNALS then Draining(s) else Acting
        invariant Runs(cfg, e, steps, State())
      {
        ghost var e1 := State();
        var drained;
        ghost var more;
        drained, more := DrainSignal(s);
        work := work || drained;
        RunsConcat(cfg, e, steps, e1, more, State());
        steps := steps + more;
        s := s + 1;
      }
    }

    /** One round of otlp_exporter_tick. */
    method TickOnce() returns (work: bool, ghost steps: seq<Step>)
      requires Inv(cfg, State()) && Shaped(State()) && tick == Idle
      modifies this
      ensures Inv(cfg, State()) && Shaped(State()) && Runs(cfg, old(State()), steps, State())
      ensures tick == Idle
      ensures Acted(steps)
    {
      ghost var e := State();
      InvMeans(cfg, e);
      hide Runs, Inv, Act;
      RunsOne(cfg, e, TickBegin);
      NextInv(cfg, e, TickBegin);
      tick := Draining(0);
      ghost var e1, more := State(), [];
      assert e1 == Next(cfg, e, TickBegin);
      work, more := DrainAll();
      ghost var e2 := State();
      RunsConcat(cfg, e, [TickBegin], e1, more, e2);
      steps := [TickBegin] + more;
      var acted;
      ghost var last;
      acted, last := ActRound();
      RunsConcat(cfg, e, steps, e2, last, State());
      ActedLater(steps, last);
      work, steps := work || acted, steps + last;
    }

    /** Steps 2 to 5, with whatever the clock, the builder and the server do. */
    method ActRound() returns (work: bool, ghost steps: seq<Step>)
      requires Inv(cfg, State()) && Shaped(State()) && tick == Acting
      modifies this
      ensures Inv(cfg, State()) && Shaped(State()) && Runs(cfg, old(State()), steps, State())
      ensures tick == Idle
      ensures Acted(steps)
    {
      ghost var e := State();
      InvMeans(cfg, e);
      hide Runs, Inv, Act;
      var i: Inputs := *;
      RunsOne(cfg, e, ActNow(i));
      NextInv(cfg, e, ActNow(i));
      work := ActOnce(i);
      tick := Idle;
      steps := [ActNow(i)];
      assert steps[0].ActNow?;
      assert State() == Next(cfg, e, ActNow(i));
    }

    /** otlp_exporter_tick: rounds, as long as there is work and the clock is before the deadline. */
    method TickUntil() returns (ghost steps: seq<Step>)
      requires Inv(cfg, State()) && Shaped(State()) && tick == Idle
      modifies this
      ensures Inv(cfg, State()) && Shaped(State()) && Runs(cfg, old(State()), steps, State())
      ensures tick == Idle
      ensures Acted(steps)
    {
      ghost var e := State();
      InvMeans(cfg, e);
      hide Runs, Inv;
      var work;
      work, steps := TickOnce();
      var rounds: nat := *;
      while work && rounds > 0
        invariant Inv(cfg, State()) && Shaped(State()) && Runs(cfg, e, steps, State()) && tick == Idle
        invariant Acted(steps)
        decreases rounds
      {
        ghost var e1 := State();
        ghost var more;
        work, more := TickOnce();
        InvMeans(cfg, e1);
        InvMeans(cfg, State());
        RunsConcat(cfg, e, steps, e1, more, State());
        ActedBefore(steps, more);
        steps := steps + more;
        rounds := rounds - 1;
      }
    }

    /** The batch and the queue of one signal, as flush reads them. */
    method ReadsEmpty(s: nat, quiet: bool) returns (empty: bool, ghost steps: seq<Step>)
      requires Inv(cfg, State()) && Shaped(State()) && tick == Idle && s < N_SIGNALS
      modifies this
      ensures Inv(cfg, State()) && Shaped(State()) && Runs(cfg, old(State()), steps, State())
      ensures tick == Idle && inFlight == old(inFlight)
      ensures forall k :: 0 <= k < N_SIGNALS ==> sig[k].pending == old(sig)[k].pending
      ensures empty <==> sig[s].pending == [] == sig[s].queue
      ensures quiet ==> State() == old(State())
    {
      hide Runs, Inv, OnlyProducers;
      ghost var e := State();
      steps := [];
      RunsNothing(cfg, e);
      if !quiet {
        steps := OtherThreads(None);
        InvMeans(cfg, State());
        OnlyProducersPending(e, State());
      }
      return |sig[s].pending| == 0 && |sig[s].queue| == 0, steps;
    }

    /** What flush looks at: the sizes, one after the other, and the request. */
    method NothingLeft(quiet: bool) returns (nothing: bool, ghost steps: seq<Step>)
      requires Inv(cfg, State()) && Shaped(State()) && tick == Idle
      modifies this
      ensures Inv(cfg, State()) && Shaped(State()) && Runs(cfg, old(State()), steps, State())
      ensures tick == Idle
      ensures quiet ==> (nothing <==> Flushed(State()))
      ensures nothing ==> inFlight.None? && forall k :: 0 <= k < N_SIGNALS ==> sig[k].pending == []
    {
      ghost var e := State();
      hide Runs, Inv;
      var e0, e1, e2;
      ghost var s0, s1, s2;
      e0, s0 := ReadsEmpty(0, quiet);
      ghost var m0 := State();
      e1, s1 := ReadsEmpty(1, quiet);
      ghost var m1 := State();
      RunsConcat(cfg, e, s0, m0, s1, m1);
      e2, s2 := ReadsEmpty(2, quiet);
      RunsConcat(cfg, e, s0 + s1, m1, s2, State());
      return inFlight.None? && e0 && e1 && e2, s0 + s1 + s2;
    }

    /** otlp_exporter_flush; `quiet` says that no producer interferes with its last reads. */
    method Flush(quiet: bool) returns (st: Status, ghost steps: seq<Step>)
      requires Inv(cfg, State()) && Shaped(State()) && tick == Idle
      modifies this
      ensures Inv(cfg, State()) && Shaped(State()) && Runs(cfg, old(State()), steps, State())
      ensures tick == Idle
      ensures quiet ==> (st == Ok <==> Flushed(State()))
      ensures st == Ok ==> inFlight.None? && forall k :: 0 <= k < N_SIGNALS ==> sig[k].pending == []
      ensures st == Ok || st == ErrNetwork
      ensures Acted(steps)
    {
      ghost var e := State();
      InvMeans(cfg, e);
      hide Runs, Inv, Flushed;
      steps := TickUntil();
      var rounds: nat := *;
      var done := false;
      while !done && rounds > 0
        invariant Inv(cfg, State()) && Shaped(State()) && Runs(cfg, e, steps, State()) && tick == Idle
        invariant Acted(steps)
        decreases rounds
      {
        ghost var e1 := State();
        ghost var more;
        done, more := NothingLeft(false);
        InvMeans(cfg, e1);
        InvMeans(cfg, State());
        RunsConcat(cfg, e, steps, e1, more, State());
        ActedBefore(steps, more);
        steps := steps + more;
        if !done {
          ghost var e2 := State();
          more := TickUntil();
          InvMeans(cfg, State());
          RunsConcat(cfg, e, steps, e2, more, State());
          ActedBefore(steps, more);
          steps := steps + more;
        }
        rounds := rounds - 1;
      }
      ghost var e3 := State();
      InvMeans(cfg, e3);
      ghost var last;
      done, last := NothingLeft(quiet);
      InvMeans(cfg, State());
      RunsConcat(cfg, e, steps, e3, last, State());
      ActedBefore(steps, last);
      steps := steps + last;
      st := if done then Ok else ErrNetwork;
    }

    // -------------------------------------------------------------- the end

    /** drain_signal: every queued item is popped and freed, then the pending batch. */
    method FreeSignalItems(s: nat)
      requires Shaped(State()) && s < N_SIGNALS
      modifies this
      ensures State() == FreeSignal(old(State()), s)
    {
      ghost var e, g, h := State(), sig[s], hist[s];
      ghost var n := 0;
      assert h.freed + g.queue[..0] == h.freed && hist[s := h] == hist && sig[s := g] == sig;
      while |sig[s].queue| > 0
        invariant 0 <= n <= |g.queue|
        invariant State() == e.(sig := e.sig[s := g.(queue := g.queue[n..])],
                                hist := e.hist[s := h.(freed := h.freed + g.queue[..n])])
        decreases |sig[s].queue|
      {
        hist := hist[s := hist[s].(freed := hist[s].freed + [sig[s].queue[0]])];
        sig := sig[s := sig[s].(queue := sig[s].queue[1..])];
        n := n + 1;
        assert h.freed + g.queue[..n - 1] + [g.queue[n - 1]] == h.freed + g.queue[..n];
      }
      assert g.queue[..n] == g.queue && g.queue[n..] == [];
      FreePending(s);
      sig := sig[s := sig[s].(pending := [])];
    }

    method FreeAllSignals()
      requires Shaped(State())
      modifies this
      ensures State() == FreeSignal(FreeSignal(FreeSignal(old(State()), 0), 1), 2)
    {
      hide FreeSignal;
      FreeSignalItems(0);
      FreeSignalItems(1);
      FreeSignalItems(2);
    }

    /** otlp_exporter_free: afterwards every accepted item was freed exactly once. */
    method FreeExporter()
      requires Inv(cfg, State()) && tick == Idle && producers == map[]
      modifies this
      ensures Inv(cfg, State()) && tick == Freed
      ensures Runs(cfg, old(State()), [Free], State())
      ensures |old(hist)| == |hist| == N_SIGNALS && forall k :: 0 <= k < N_SIGNALS ==>
        multiset(hist[k].freed) == multiset(hist[k].accepted) == multiset(old(hist)[k].accepted)
    {
      ghost var e := State();
      FreedKeepsAccepted(cfg, e);
      InvMeans(cfg, e);
      hide Inv, FreeSignal, Runs;
      FreeAllSignals();
      inFlight := None;
      tick := Freed;
      assert State() == Next(cfg, e, Free);
    }
  }

  lemma FreedKeepsAccepted(c: Config, e: Exporter)
    requires Inv(c, e) && Enabled(c, e, Free)
    ensures Inv(c, Next(c, e, Free)) && Runs(c, e, [Free], Next(c, e, Free))
    ensures forall k :: 0 <= k < N_SIGNALS ==>
      multiset(Next(c, e, Free).hist[k].freed) == multiset(Next(c, e, Free).hist[k].accepted)
        == multiset(e.hist[k].accepted)
  {
    NextInv(c, e, Free);
    RunsOne(c, e, Free);
    forall k | 0 <= k < N_SIGNALS ensures Next(c, e, Free).hist[k].accepted == e.hist[k].accepted {
      FreedAt(e, k);
    }
  }

  lemma InvMeans(c: Config, e: Exporter)
    requires Inv(c, e)
    ensures Shaped(e) && ProducersOk(e)
  {
  }

  lemma OnlyProducersMeans(e: Exporter, r: Exporter, s: nat)
    requires Shaped(e) && Shaped(r) && OnlyProducers(e, r) && s < N_SIGNALS
    ensures r.tick == e.tick && r.sig[s].pending == e.sig[s].pending && r.inFlight == e.inFlight
  {
  }

  lemma OnlyProducersPending(e: Exporter, r: Exporter)
    requires Shaped(e) && Shaped(r) && OnlyProducers(e, r)
    ensures r.tick == e.tick && r.inFlight == e.inFlight
    ensures forall k :: 0 <= k < N_SIGNALS ==> r.sig[k].pending == e.sig[k].pending
  {
  }

  lemma DrainMeans(e: Exporter, s: nat, now: nat)
    requires Shaped(e) && s < N_SIGNALS && e.sig[s].queue != []
    ensures Drain(e, s, now).tick == e.tick
    ensures |Drain(e, s, now).sig[s].pending| == |e.sig[s].pending| + 1
  {
  }

  /** The producer `self` stands where it stood. */
  predicate SameProducer(self: Option<nat>, e: Exporter, r: Exporter) {
    self.Some? && self.value in e.producers ==>
      self.value in r.producers && r.producers[self.value] == e.producers[self.value]
  }

  /** The item is among those that came behind the old ones. */
  ghost predicate Grew(was: seq<Item>, now: seq<Item>, item: Item) {
    was <= now && item in now[|was|..]
  }

  lemma GrewBetween(was: seq<Item>, before: seq<Item>, now: seq<Item>, item: Item)
    requires was <= before && before + [item] <= now
    ensures Grew(was, now, item)
  {
    assert now[|was|..][|before| - |was|] == now[|before|] == (before + [item])[|before|];
  }

  predicate ByProducer(step: Step) {
    step.EmitCheck? || step.EmitPush? || step.EmitCount? || step.Shutdown?
  }

  lemma OnlyProducersSame(e: Exporter)
    requires Shaped(e)
    ensures OnlyProducers(e, e)
  {
  }

  lemma NextByProducer(c: Config, e: Exporter, step: Step, self: Option<nat>)
    requires Shaped(e) && ProducersOk(e) && Enabled(c, e, step) && ByProducer(step)
    ensures Next(c, e, step) == match step
      case EmitCheck(p, kind, item) => Check(e, p, kind, item)
      case EmitPush(p) => Push(c, e, p)
      case EmitCount(p) => Tally(e, p)
      case _ => e.(shutdown := true)
    ensures (step.Shutdown? || self != Some(step.p)) ==>
      SameProducer(self, e, Next(c, e, step))
  {
  }

  lemma CheckOnly(e: Exporter, p: nat, kind: nat, item: Item)
    requires Shaped(e) && kind < N_SIGNALS
    ensures OnlyProducers(e, Check(e, p, kind, item))
  {
  }

  lemma PushOnly(c: Config, e: Exporter, p: nat)
    requires Shaped(e) && p in e.producers && e.producers[p].Checked?
    requires e.producers[p].kind < N_SIGNALS
    ensures OnlyProducers(e, Push(c, e, p))
  {
  }

  lemma TallyOnly(e: Exporter, p: nat)
    requires Shaped(e) && p in e.producers && !e.producers[p].Checked?
    requires e.producers[p].kind < N_SIGNALS
    ensures OnlyProducers(e, Tally(e, p))
  {
  }

  lemma OtherStepInv(c: Config, e: Exporter, step: Step)
    requires Inv(c, e) && e.tick != Freed && Enabled(c, e, step) && ByProducer(step)
    ensures Shaped(e) && ProducersOk(e) && Inv(c, Next(c, e, step)) && Shaped(Next(c, e, step))
    ensures OnlyProducers(e, Next(c, e, step)) && Runs(c, e, [step], Next(c, e, step))
  {
    assert Shaped(e) && ProducersOk(e);
    hide At, Inv, Runs, Check, Push, Tally, OnlyProducers, Next;
    NextInv(c, e, step);
    RunsOne(c, e, step);
    NextByProducer(c, e, step, None);
    match step {
      case EmitCheck(p, kind, item) => CheckOnly(e, p, kind, item);
      case EmitPush(p) => PushOnly(c, e, p);
      case EmitCount(p) => TallyOnly(e, p);
      case Shutdown => ShutdownOnly(e);
    }
  }

  lemma ShutdownOnly(e: Exporter)
    requires Shaped(e)
    ensures OnlyProducers(e, e.(shutdown := true))
  {
  }

  lemma CheckEffect(c: Config, e: Exporter, p: nat, kind: nat, item: Item)
    requires Inv(c, e) && e.tick != Freed && kind < N_SIGNALS && p !in e.producers
    ensures Inv(c, Check(e, p, kind, item))
    ensures var r := Check(e, p, kind, item);
      r.hist[kind].accepted == e.hist[kind].accepted &&
      r.hist[kind].refusedFull == e.hist[kind].refusedFull &&
      if e.shutdown then
        p !in r.producers && r.hist[kind].refusedShutdown == e.hist[kind].refusedShutdown + [item]
      else p in r.producers && r.producers[p] == Checked(kind, item)
  {
    CheckInv(c, e, p, kind, item);
  }

  lemma PushEffect(c: Config, e: Exporter, p: nat)
    requires Inv(c, e) && p in e.producers && e.producers[p].Checked?
    ensures Inv(c, Push(c, e, p))
    ensures var r, kind, item := Push(c, e, p), e.producers[p].kind, e.producers[p].item;
      p in r.producers && r.tick == e.tick &&
      if r.producers[p].Counting? then r.hist[kind].accepted == e.hist[kind].accepted + [item]
      else
        r.producers[p] == CountingFull(kind) &&
        r.hist[kind].refusedFull == e.hist[kind].refusedFull + [item]
  {
    PushInv(c, e, p);
  }

  lemma TallyEffect(c: Config, e: Exporter, p: nat)
    requires Inv(c, e) && p in e.producers && !e.producers[p].Checked?
    ensures Inv(c, Tally(e, p)) && Tally(e, p).hist == e.hist && p !in Tally(e, p).producers
  {
    TallyInv(c, e, p);
  }
}
