/**
 The retry timing of src/retry_policy.c: a capped exponential base, full jitter below it, and
 the server's Retry-After (section 7.1.3 of RFC 7231) as a floor under the cap.
 */
module Retry {
  import opened Common
  import opened Prng

  datatype RetryCfg = RetryCfg(initialMs: uint32, maxMs: uint32)

  /** The shift for an attempt; the subtraction is on 32 bits, so attempt 0 shifts furthest. */
  function ShiftOf(attempt: uint32): nat { Min((attempt - 1) % UINT32_RANGE, 31) }

  /** What the base delay is for: the initial delay doubled for each attempt, up to the cap. */
  function BaseDelay(attempt: uint32, cfg: RetryCfg): (ms: uint32)
    ensures ms <= cfg.maxMs
  {
    Min(Doubled(cfg.initialMs, ShiftOf(attempt)), cfg.maxMs)
  }

  function Doubled(x: nat, n: nat): nat { if n == 0 then x else 2 * Doubled(x, n - 1) }

  lemma {:induction false} DoubledIsPow2(x: nat, n: nat)
    ensures Doubled(x, n) == x * Pow2(n)
  {
    if n > 0 { DoubledIsPow2(x, n - 1); }
  }

  lemma {:induction false} DoubledBelow(x: nat, n: nat, bound: nat)
    requires x < bound
    ensures Doubled(x, n) < Doubled(bound, n)
  {
    if n > 0 { DoubledBelow(x, n - 1, bound); }
  }

  lemma {:induction false} DoubledGrows(x: nat, n: nat, m: nat)
    requires n <= m
    ensures Doubled(x, n) <= Doubled(x, m)
  {
    if n < m { DoubledGrows(x, n, m - 1); }
  }

  /** The closed form: min(initial * 2^min(attempt - 1, 31), max). */
  lemma BaseDelayIs(attempt: uint32, cfg: RetryCfg)
    requires attempt >= 1
    ensures BaseDelay(attempt, cfg) == Min(cfg.initialMs * Pow2(Min(attempt - 1, 31)), cfg.maxMs)
  {
    hide Doubled, Pow2;
    DoubledIsPow2(cfg.initialMs, Min(attempt - 1, 31));
    assert ShiftOf(attempt) == Min(attempt - 1, 31);
  }

  /** The base never falls from one attempt to the next. */
  lemma BaseDelayGrows(a: uint32, b: uint32, cfg: RetryCfg)
    requires 1 <= a <= b
    ensures BaseDelay(a, cfg) <= BaseDelay(b, cfg)
  {
    DoubledGrows(cfg.initialMs, ShiftOf(a), ShiftOf(b));
  }

  /** Each attempt doubles the base of the one before, until the cap. */
  lemma BaseDelayDoubles(a: uint32, cfg: RetryCfg)
    requires 1 <= a < 32
    ensures BaseDelay(a + 1, cfg) == Min(2 * BaseDelay(a, cfg), cfg.maxMs)
  {
    assert ShiftOf(a + 1) == ShiftOf(a) + 1;
  }

  // ---------------------------------------------------------------- jitter

  /** otlp_jitter_next: the new state, and what is drawn from it. */
  function JitterState(s: uint64): uint64 { Uint64Of(XorShift(WordOf(s))) }
  function JitterValue(s: uint64): uint64 { MulMod(JitterState(s), MULTIPLIER) }

  function Drawn(s: uint64, base: nat): (d: nat)
    ensures d <= base
  {
    JitterValue(s) % (base + 1)
  }

  /** A small number is its own remainder, also a whole modulus further. */
  lemma SmallMod(d: nat, m: nat)
    requires d < m
    ensures d % m == d && (d + m) % m == d
  {
    DivModUnique(d, m, 0, d);
    DivModUnique(d + m, m, 1, d);
  }

  /** Every delay up to the base can be drawn, from a state that is not zero. */
  lemma JitterCoversRange(base: uint32, d: nat) returns (s: uint64)
    requires d <= base
    ensures s != 0 && Drawn(s, base) == d
  {
    hide Prev, Next;
    var v := d + base + 1;
    SmallMod(d, base + 1);
    s := Prev(v);
    NextIsPermutation(v);
    NextIsPermutation(s);
    assert JitterValue(s) == v by { assert Next(s) == v; NextIsJitter(s); }
  }

  lemma NextIsJitter(s: uint64)
    ensures Next(s) == JitterValue(s)
  {
  }

  /** A nonzero state stays nonzero and never yields zero. */
  lemma JitterNonzero(s: uint64)
    requires s != 0
    ensures JitterState(s) != 0 && JitterValue(s) != 0
  {
    hide Next, JitterState, MulMod;
    NextIsPermutation(s);
    NextIsJitter(s);
    ZeroTimes(MULTIPLIER);
  }

  lemma ZeroTimes(m: nat)
    ensures MulMod(0, m) == 0
  {
  }

  // ---------------------------------------------------------------- delay

  datatype Delay = Delay(prng: uint64, ms: uint32, serverDriven: bool)

  /** The delay before attempt `attempt` is made, when the server asked for `floor`. */
  function RetryDelay(s: uint64, attempt: uint32, floor: uint32, cfg: RetryCfg): Delay {
    var base := BaseDelay(attempt, cfg);
    if base == 0 then Delay(s, 0, false)
    else
      Delay(JitterState(s), Min(Max(Drawn(s, base), floor), cfg.maxMs), floor > Drawn(s, base))
  }

  /**
   The delay never passes the cap. It respects the server's floor, as far as the cap allows it,
   for every state of the generator exactly when the base is not zero or the floor asks nothing.
   */
  lemma DelayRespectsFloorIff(attempt: uint32, floor: uint32, cfg: RetryCfg)
    ensures (forall s: uint64 :: Min(floor, cfg.maxMs) <= RetryDelay(s, attempt, floor, cfg).ms)
      <==> (BaseDelay(attempt, cfg) != 0 || Min(floor, cfg.maxMs) == 0)
    ensures forall s: uint64 :: RetryDelay(s, attempt, floor, cfg).ms <= cfg.maxMs
  {
    hide JitterState, Drawn;
    assert BaseDelay(attempt, cfg) == 0 ==> RetryDelay(0, attempt, floor, cfg).ms == 0;
  }

  /** The base is zero exactly when the configured initial delay or cap is. */
  lemma BaseZeroIff(attempt: uint32, cfg: RetryCfg)
    ensures BaseDelay(attempt, cfg) == 0 <==> cfg.initialMs == 0 || cfg.maxMs == 0
  {
    DoubledZeroIff(cfg.initialMs, ShiftOf(attempt));
  }

  lemma {:induction false} DoubledZeroIff(x: nat, n: nat)
    ensures Doubled(x, n) == 0 <==> x == 0
  {
    if n > 0 { DoubledZeroIff(x, n - 1); }
  }

  /** With an initial delay of zero a Retry-After of one second is ignored. */
  lemma ZeroInitialIgnoresFloor()
    ensures RetryDelay(1, 1, 1000, RetryCfg(0, 30000)).ms == 0
  {
  }

  /** The delay is server driven exactly when the floor, not the jitter, decided it. */
  lemma DelayWithoutFloor(s: uint64, attempt: uint32, floor: uint32, cfg: RetryCfg)
    ensures RetryDelay(s, attempt, 0, cfg).ms <= BaseDelay(attempt, cfg)
    ensures !RetryDelay(s, attempt, floor, cfg).serverDriven && BaseDelay(attempt, cfg) != 0 ==>
      RetryDelay(s, attempt, floor, cfg) == RetryDelay(s, attempt, 0, cfg)
    ensures RetryDelay(s, attempt, floor, cfg).serverDriven ==>
      RetryDelay(s, attempt, floor, cfg).ms == Min(floor, cfg.maxMs)
  {
    hide JitterState, JitterValue;
  }

  // ---------------------------------------------------------------- the functions of the source

  method RetryBaseDelayMs(attempt: uint32, cfg: RetryCfg) returns (ms: uint32)
    ensures ms == BaseDelay(attempt, cfg)
  {
    var shift: nat := (attempt - 1) % UINT32_RANGE;
    if shift > 31 { shift := 31; }
    var exp := Doubled(cfg.initialMs, shift) % UINT64_RANGE;
    NoOverflow(cfg.initialMs, shift);
    var delay := if exp > cfg.maxMs then cfg.maxMs else exp;
    return delay;
  }

  /** The 64-bit shift loses no bit. */
  lemma NoOverflow(x: uint32, shift: nat)
    requires shift <= 31
    ensures Doubled(x, shift) < UINT64_RANGE
  {
    DoubledBelow(x, shift, UINT32_RANGE);
    DoubledGrows(UINT32_RANGE, shift, 31);
    assert Doubled(UINT32_RANGE, 10) == 0x400_0000_0000;
    assert Doubled(UINT32_RANGE, 20) == 1024 * Doubled(UINT32_RANGE, 10);
    assert Doubled(UINT32_RANGE, 31) == 2048 * Doubled(UINT32_RANGE, 20);
  }

  method RetryDelayMs(prng: uint64, attempt: uint32, floor: uint32, cfg: RetryCfg)
    returns (r: Delay)
    ensures r == RetryDelay(prng, attempt, floor, cfg)
  {
    hide JitterState, JitterValue, BaseDelay;
    var base := RetryBaseDelayMs(attempt, cfg);
    if base == 0 { return Delay(prng, 0, false); }
    var next := JitterState(prng);
    var drawn := Drawn(prng, base);
    var delay: nat := drawn;
    if floor > delay { delay := floor; }
    if delay > cfg.maxMs { delay := cfg.maxMs; }
    return Delay(next, delay, floor > drawn);
  }
}
