/**
 Runs of ExporterMachine as the code can have them. Theorems about all runs let the clock and the
 server answer anything; a run that is to show that something happens must keep to the order of
 the clock readings and to the pace of a request, and these do.
 */
module ExporterTimed {
  import opened Common
  import opened Retry
  import opened ExporterMachine
  import opened ExporterRuns

  // ---------------------------------------------------------------- timed runs

  /** The last reading of the clock, and how often the request in flight was stepped. */
  datatype Moment = Moment(clock: nat, stepped: nat)

  const START := Moment(0, 0)

  /** How often the request will have been stepped after an acting step, in which it may start. */
  function StepsOf(e: Exporter, m: Moment): nat { if e.inFlight.Some? then m.stepped + 1 else 1 }

  /**
   The clock does not go back: its readings come in the order in which the code makes them. A
   request connects, sends and reads, one transition a step, so that it has no status before its
   third step (src/http_client.c, lines 420 to 590).
   */
  predicate Possible(c: Config, e: Exporter, step: Step, m: Moment)
    requires Shaped(e)
  {
    match step
    case DrainOne(now) => m.clock <= now
    case ActNow(i) =>
      m.clock <= i.nullNow <= i.startNow <= i.requestNow <= i.backoffNow &&
      (!c.nullTransport && StartStep(c, e, i, 0).inFlight.Some? &&
       i.request.Some? && i.request.value.status != 0 ==>
        StepsOf(e, m) >= 3)
    case _ => true
  }

  function Later(c: Config, e: Exporter, step: Step, m: Moment): Moment
    requires Shaped(e)
  {
    match step
    case DrainOne(now) => m.(clock := now)
    case ActNow(i) =>
      var stepped := !c.nullTransport && StartStep(c, e, i, 0).inFlight.Some? && i.request.None?;
      Moment(i.backoffNow, if stepped then StepsOf(e, m) else 0)
    case _ => m
  }

  ghost predicate Timed(c: Config, e: Exporter, m: Moment, steps: seq<Step>, e': Exporter,
      m': Moment)
    requires Shaped(e)
    decreases |steps|
  {
    if steps == [] then e' == e && m' == m
    else
      ProducersOk(e) && Enabled(c, e, steps[0]) && Possible(c, e, steps[0], m) &&
      Timed(c, Next(c, e, steps[0]), Later(c, e, steps[0], m), steps[1..], e', m')
  }

  /** A timed run leads from a new exporter to `e`, while the clock fits its 64 bits. */
  ghost predicate Happens(c: Config, e: Exporter) {
    QueueOk(c) && Shaped(e) &&
    exists jitter: uint64, steps, m: Moment ::
      jitter != 0 && m.clock < UINT64_RANGE && Timed(c, Created(jitter), START, steps, e, m)
  }

  lemma {:induction false} TimedRuns(c: Config, e: Exporter, m: Moment, steps: seq<Step>,
      e': Exporter, m': Moment)
    requires Shaped(e) && Timed(c, e, m, steps, e', m')
    ensures Runs(c, e, steps, e') && m.clock <= m'.clock
    decreases |steps|
  {
    hide Next, Enabled, StartStep;
    if steps != [] {
      TimedRuns(c, Next(c, e, steps[0]), Later(c, e, steps[0], m), steps[1..], e', m');
    }
  }

  /** What happens is reachable. */
  lemma HappensReachable(c: Config, e: Exporter)
    requires Happens(c, e)
    ensures Reachable(c, e)
  {
    var jitter: uint64, steps, m: Moment :|
      jitter != 0 && m.clock < UINT64_RANGE && Timed(c, Created(jitter), START, steps, e, m);
    TimedRuns(c, Created(jitter), START, steps, e, m);
  }

  lemma {:induction false} TimedConcat(c: Config, a: Exporter, k: Moment, s: seq<Step>, b: Exporter,
      m: Moment, t: seq<Step>, d: Exporter, n: Moment)
    requires Shaped(a) && Shaped(b) && Timed(c, a, k, s, b, m) && Timed(c, b, m, t, d, n)
    ensures Timed(c, a, k, s + t, d, n)
    decreases |s|
  {
    hide Next, Enabled, Possible, Later;
    if s == [] {
      assert s + t == t;
    } else {
      TimedConcat(c, Next(c, a, s[0]), Later(c, a, s[0], k), s[1..], b, m, t, d, n);
      assert (s + t)[1..] == s[1..] + t;
    }
  }

  lemma TimedStep(c: Config, e: Exporter, m: Moment, step: Step, steps: seq<Step>, e': Exporter,
      m': Moment)
    requires Shaped(e) && ProducersOk(e) && Enabled(c, e, step) && Possible(c, e, step, m)
    requires Timed(c, Next(c, e, step), Later(c, e, step, m), steps, e', m')
    ensures Timed(c, e, m, [step] + steps, e', m')
  {
    hide Next, Enabled, Possible, Later;
    assert ([step] + steps)[1..] == steps;
  }

  lemma TimedNothing(c: Config, e: Exporter, m: Moment)
    requires Shaped(e)
    ensures Timed(c, e, m, [], e, m)
  {
  }

  // ---------------------------------------------------------------- emitting and ticking

  /** A producer that emits without being interrupted. */
  function Emitted(e: Exporter, item: Item): (r: Exporter)
    requires Shaped(e)
    ensures Shaped(r)
  {
    var g, h := e.sig[0], e.hist[0];
    e.(sig := e.sig[0 := g.(queue := g.queue + [item], emitted := g.emitted + 1)],
       hist := e.hist[0 := h.(accepted := h.accepted + [item])])
  }

  lemma EmitTimed(c: Config, e: Exporter, m: Moment, item: Item) returns (steps: seq<Step>)
    requires Shaped(e) && e.tick == Idle && e.producers == map[] && !e.shutdown
    requires |e.sig[0].queue| < c.queueCap
    ensures Timed(c, e, m, steps, Emitted(e, item), m)
  {
    hide Timed;
    var e1 := Check(e, 0, 0, item);
    var e2 := Push(c, e1, 0);
    var e3 := Tally(e2, 0);
    assert e3.producers == map[] && e3 == Emitted(e, item);
    TimedNothing(c, e3, m);
    TimedStep(c, e2, m, EmitCount(0), [], e3, m);
    TimedStep(c, e1, m, EmitPush(0), [EmitCount(0)] + [], e3, m);
    steps := [EmitPush(0)] + ([EmitCount(0)] + []);
    TimedStep(c, e, m, EmitCheck(0, 0, item), steps, e3, m);
    steps := [EmitCheck(0, 0, item)] + steps;
  }

  /** Between ticks, with nobody emitting. */
  predicate Resting(e: Exporter) { Shaped(e) && e.tick == Idle && e.producers == map[] }

  /** Nothing is queued. */
  predicate Quiet(e: Exporter) {
    Resting(e) && e.sig[0].queue == e.sig[1].queue == e.sig[2].queue == []
  }

  /** The state in which a tick that drains one item of the first signal comes to act. */
  function Drained(e: Exporter, now: nat): (r: Exporter)
    requires Shaped(e) && e.sig[0].queue != []
    ensures Shaped(r)
  {
    Drain(e, 0, now).(tick := Acting)
  }

  /** The acting step of a tick and its end. */
  function AfterAct(c: Config, e: Exporter, i: Inputs): (r: Exporter)
    requires Shaped(e)
    ensures Shaped(r)
  {
    Act(c, e, i).(tick := Idle)
  }

  lemma ActTimed(c: Config, e: Exporter, m: Moment, i: Inputs) returns (steps: seq<Step>)
    requires Shaped(e) && e.tick == Acting && e.producers == map[]
    requires Possible(c, e, ActNow(i), m)
    ensures Timed(c, e, m, steps, AfterAct(c, e, i), Later(c, e, ActNow(i), m))
  {
    hide Act, Timed, Possible, Later;
    TimedNothing(c, AfterAct(c, e, i), Later(c, e, ActNow(i), m));
    TimedStep(c, e, m, ActNow(i), [], AfterAct(c, e, i), Later(c, e, ActNow(i), m));
    steps := [ActNow(i)] + [];
  }

  /** The drain of empty queues. */
  lemma DrainsEnd(c: Config, e: Exporter, m: Moment, steps: seq<Step>, e': Exporter, m': Moment)
    returns (all: seq<Step>)
    requires Shaped(e) && e.tick == Draining(0) && e.producers == map[]
    requires e.sig[0].queue == e.sig[1].queue == e.sig[2].queue == []
    requires Timed(c, e.(tick := Acting), m, steps, e', m')
    ensures Timed(c, e, m, all, e', m')
  {
    hide Timed;
    all := steps;
    TimedStep(c, e.(tick := Draining(2)), m, DrainEnd, all, e', m');
    all := [DrainEnd] + all;
    TimedStep(c, e.(tick := Draining(1)), m, DrainEnd, all, e', m');
    all := [DrainEnd] + all;
    assert e == e.(tick := Draining(0));
    TimedStep(c, e, m, DrainEnd, all, e', m');
    all := [DrainEnd] + all;
  }

  /** A tick that drains one item and then acts. */
  lemma TickTimed(c: Config, e: Exporter, m: Moment, now: nat, i: Inputs)
    returns (steps: seq<Step>)
    requires Resting(e) && m.clock <= now && |e.sig[0].pending| < 2 * c.batchSize
    requires |e.sig[0].queue| == 1 && e.sig[1].queue == e.sig[2].queue == []
    requires Possible(c, Drained(e, now), ActNow(i), m.(clock := now))
    ensures Timed(c, e, m, steps, AfterAct(c, Drained(e, now), i),
                  Later(c, Drained(e, now), ActNow(i), m.(clock := now)))
  {
    var e1 := e.(tick := Draining(0));
    var e2 := Drain(e1, 0, now);
    var e3 := Drained(e, now);
    var n := m.(clock := now);
    assert e2.(tick := Acting) == e3;
    var r, last := AfterAct(c, e3, i), Later(c, e3, ActNow(i), n);
    assert Later(c, e1, DrainOne(now), m) == n && Possible(c, e1, DrainOne(now), m);
    assert Later(c, e, TickBegin, m) == m && Possible(c, e, TickBegin, m);
    hide Act, Timed, AfterAct, Later, Possible;
    steps := ActTimed(c, e3, n, i);
    steps := DrainsEnd(c, e2, n, steps, r, last);
    TimedStep(c, e1, m, DrainOne(now), steps, r, last);
    steps := [DrainOne(now)] + steps;
    TimedStep(c, e, m, TickBegin, steps, r, last);
    steps := [TickBegin] + steps;
  }

  /** A tick that finds the queues empty. */
  function QuietTick(c: Config, e: Exporter, i: Inputs): (r: Exporter)
    requires Shaped(e)
    ensures Shaped(r)
  {
    AfterAct(c, e.(tick := Acting), i)
  }

  lemma QuietTimed(c: Config, e: Exporter, m: Moment, i: Inputs) returns (steps: seq<Step>)
    requires Quiet(e) && Possible(c, e.(tick := Acting), ActNow(i), m)
    ensures Timed(c, e, m, steps, QuietTick(c, e, i), Later(c, e.(tick := Acting), ActNow(i), m))
  {
    var e1, e3 := e.(tick := Draining(0)), e.(tick := Acting);
    var r, last := QuietTick(c, e, i), Later(c, e3, ActNow(i), m);
    assert Later(c, e, TickBegin, m) == m && Possible(c, e, TickBegin, m);
    assert e1.(tick := Acting) == e3;
    hide Act, Timed, AfterAct, Later, Possible;
    steps := ActTimed(c, e3, m, i);
    steps := DrainsEnd(c, e1, m, steps, r, last);
    TimedStep(c, e, m, TickBegin, steps, r, last);
    steps := [TickBegin] + steps;
  }

  /** A tick in which every reading of the clock is `t` and the null transport would answer 500. */
  function Instant(t: nat, request: Option<Outcome>, built: set<nat>, rebuilt: bool): Inputs {
    Inputs(Outcome(500, 0, 0), t, t, built, request, t, t, rebuilt)
  }

  /** A request in flight is stepped and not done. */
  lemma StillWaiting(c: Config, e: Exporter, m: Moment, i: Inputs)
    requires Resting(e) && e.inFlight.Some? && !c.nullTransport && !e.backoffArmed
    requires i.request.None?
    ensures QuietTick(c, e, i) == e
    ensures Later(c, e.(tick := Acting), ActNow(i), m) == Moment(i.backoffNow, m.stepped + 1)
  {
  }

  lemma WaitPossible(c: Config, e: Exporter, m: Moment, i: Inputs)
    requires Shaped(e) && i.request.None?
    requires m.clock <= i.nullNow <= i.startNow <= i.requestNow <= i.backoffNow
    ensures Possible(c, e, ActNow(i), m)
  {
  }

  // ---------------------------------------------------------------- a flush that loses an item

  const LOSING := Config(1, 100, 5, RetryCfg(1000, 30000), 2, false)
  const WAITS := Instant(0, None, {0}, false)
  const ANSWERS := Instant(0, Some(Outcome(200, 0, 0)), {0}, false)

  /** The first item is in flight. */
  predicate FirstInFlight(e: Exporter) {
    Quiet(e) && !e.shutdown && e.inFlight == Some([7]) && e.inFlightCount == 1 &&
    e.inFlightSignal == 0 && !e.backoffArmed && e.sig[0].pending == [7] &&
    e.sig[1].pending == e.sig[2].pending == [] && e.sig[0].emitted == 1 &&
    e.sig[0].sent == e.sig[0].droppedErr == 0 && e.hist[0].accepted == [7] && e.hist[0].freed == []
  }

  lemma LosingStart() returns (steps: seq<Step>, e: Exporter)
    ensures FirstInFlight(e) && Timed(LOSING, Created(1), START, steps, e, Moment(0, 1))
  {
    var e0 := Created(1);
    var e1 := Emitted(e0, 7);
    assert e1.sig[0].queue == [7] && e1.hist[0].accepted == [7];
    FirstTick(LOSING, e1, WAITS);
    e := AfterAct(LOSING, Drained(e1, 0), WAITS);
    hide Timed, Act, AfterAct, Emitted, Drained;
    steps := EmitTimed(LOSING, e0, START, 7);
    var s2 := TickTimed(LOSING, e1, START, 0, WAITS);
    TimedConcat(LOSING, e0, START, steps, e1, START, s2, e, Moment(0, 1));
    steps := steps + s2;
  }

  lemma LosingMiddle(e: Exporter)
    requires FirstInFlight(e)
    ensures var e3 := Emitted(e, 8);
      Resting(e3) && e3.sig[0].queue == [8] && e3.sig[1].queue == e3.sig[2].queue == [] &&
      e3.sig[0].pending == [7] &&
      Possible(LOSING, Drained(e3, 0), ActNow(WAITS), Moment(0, 1).(clock := 0)) &&
      Later(LOSING, Drained(e3, 0), ActNow(WAITS), Moment(0, 1).(clock := 0)) == Moment(0, 2)
    ensures BothInFlight(AfterAct(LOSING, Drained(Emitted(e, 8), 0), WAITS))
  {
    SecondTick(LOSING, Emitted(e, 8), WAITS);
    assert Emitted(e, 8).hist[0].accepted == [7, 8];
  }

  /** The second one was drained behind it. */
  predicate BothInFlight(e: Exporter) {
    Quiet(e) && e.inFlight == Some([7]) && e.inFlightCount == 1 && e.inFlightSignal == 0 &&
    !e.backoffArmed && e.sig[0].pending == [7, 8] && e.sig[1].pending == e.sig[2].pending == [] &&
    e.sig[0].emitted == 2 && e.sig[0].sent == e.sig[0].droppedErr == 0 &&
    e.hist[0].accepted == [7, 8] && e.hist[0].freed == []
  }

  lemma LosingEnd(e: Exporter)
    requires BothInFlight(e)
    ensures Possible(LOSING, e.(tick := Acting), ActNow(ANSWERS), Moment(0, 2))
    ensures Later(LOSING, e.(tick := Acting), ActNow(ANSWERS), Moment(0, 2)) == Moment(0, 0)
    ensures var r := QuietTick(LOSING, e, ANSWERS);
      Flushed(r) && r.producers == map[] && r.sig[0].emitted == 2 && r.sig[0].sent == 1 &&
      r.sig[0].droppedErr == 0 && r.hist[0].accepted == r.hist[0].freed == [7, 8]
  {
    ThirdTick(LOSING, e, ANSWERS);
  }

  lemma FirstTick(c: Config, e: Exporter, i: Inputs)
    requires Shaped(e) && c.batchSize == 1 && !c.nullTransport && 0 in i.built && i.request.None?
    requires e.inFlight.None? && !e.backoffArmed && e.inFlightSignal == 0 && e.tick == Idle
    requires e.sig[0].queue == [7] && e.sig[0].pending == [] && e.sig[0].firstMono == 0
    requires !e.sig[0].firstSet
    ensures AfterAct(c, Drained(e, 0), i) == e.(
      sig := e.sig[0 := e.sig[0].(queue := [], pending := [7])],
      inFlight := Some([7]), carried := [7], inFlightCount := 1)
    ensures StartStep(c, Drained(e, 0), i, 0).inFlight.Some?
  {
    var e1 := Drained(e, 0);
    assert e1.sig[0].pending == [7];
    var e2 := TryStart(e1, 0, true);
    assert StartStep(c, e1, i, 0) == StartStep(c, e2, i, 1) == e2;
  }

  lemma SecondTick(c: Config, e: Exporter, i: Inputs)
    requires Resting(e) && e.inFlight == Some([7]) && !c.nullTransport && !e.backoffArmed
    requires i.request.None? && e.sig[0].queue == [8] && e.sig[0].pending == [7]
    ensures AfterAct(c, Drained(e, 0), i) == Drained(e, 0).(tick := Idle)
    ensures Drained(e, 0).sig[0].pending == [7, 8] && Drained(e, 0).sig[0].queue == []
  {
  }

  lemma ThirdTick(c: Config, e: Exporter, i: Inputs)
    requires Resting(e) && e.inFlight == Some([7]) && e.inFlightCount == 1 && e.inFlightSignal == 0
    requires !c.nullTransport && !e.backoffArmed && i.request == Some(Outcome(200, 0, 0))
    requires e.sig[0].queue == [] && e.sig[0].pending == [7, 8] && e.hist[0].freed == []
    requires e.sig[1].queue == e.sig[1].pending == e.sig[2].queue == e.sig[2].pending == []
    ensures var r := QuietTick(c, e, i);
      Flushed(r) && r.sig[0].sent == e.sig[0].sent + 1 &&
      r.sig[0].droppedErr == e.sig[0].droppedErr && r.sig[0].emitted == e.sig[0].emitted &&
      r.hist[0].freed == [7, 8] && r.hist[0].accepted == e.hist[0].accepted &&
      r.producers == e.producers
  {
    var e1 := e.(tick := Acting);
    var e2 := RecordOutcome(c, e1, Outcome(200, 0, 0), i.requestNow);
    assert e2.hist[0].freed == [] + [7, 8] == [7, 8];
  }

  /**
   A run over HTTP after which flush returns OK though one of two emitted items is neither sent
   nor dropped: it was drained while the request of the other one was in flight.
   */
  lemma FlushMayLose() returns (c: Config, e: Exporter)
    ensures ConfigOk(c) && Happens(c, e) && Flushed(e) && e.producers == map[]
    ensures e.sig[0].emitted == 2 && e.sig[0].sent == 1 && e.sig[0].droppedErr == 0
    ensures e.hist[0].accepted == e.hist[0].freed == [7, 8]
  {
    c := LOSING;
    hide Timed, Act, AfterAct, Emitted, QuietTick, Drained, Later, Possible;
    var s1, e2 := LosingStart();
    var e3 := Emitted(e2, 8);
    LosingMiddle(e2);
    var e4 := AfterAct(c, Drained(e3, 0), WAITS);
    e := QuietTick(c, e4, ANSWERS);
    LosingEnd(e4);
    var s3 := EmitTimed(c, e2, Moment(0, 1), 8);
    var s4 := TickTimed(c, e3, Moment(0, 1), 0, WAITS);
    var s5 := QuietTimed(c, e4, Moment(0, 2), ANSWERS);
    TimedConcat(c, Created(1), START, s1, e2, Moment(0, 1), s3, e3, Moment(0, 1));
    TimedConcat(c, Created(1), START, s1 + s3, e3, Moment(0, 1), s4, e4, Moment(0, 2));
    TimedConcat(c, Created(1), START, s1 + s3 + s4, e4, Moment(0, 2), s5, e, Moment(0, 0));
  }
}
