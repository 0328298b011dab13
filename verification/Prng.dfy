/**
 The generator of src/tracer.c and src/retry_policy.c: xorshift on 64 bits, then a
 multiplication by an odd constant. It permutes the 64-bit values and keeps zero apart, so the
 tracer, whose threads advance it by CAS, never draws an all-zero id.
 */
module Prng {
  import opened Common

  // ---------------------------------------------------------------- binary digits

  /** The bits of a machine word, the lowest first. */
  type Word = w: seq<bool> | |w| == 64 witness seq(64, i => false)

  function Value(w: seq<bool>): (x: nat)
    ensures x < Pow2(|w|)
  {
    if w == [] then 0 else (if w[0] then 1 else 0) + 2 * Value(w[1..])
  }

  function Digits(x: nat, n: nat): (w: seq<bool>)
    ensures |w| == n
  {
    if n == 0 then [] else [x % 2 == 1] + Digits(x / 2, n - 1)
  }

  lemma {:induction false} DigitsOfValue(w: seq<bool>)
    ensures Digits(Value(w), |w|) == w
  {
    if w != [] {
      assert Value(w) / 2 == Value(w[1..]);
      DigitsOfValue(w[1..]);
    }
  }

  lemma {:induction false} ValueOfDigits(x: nat, n: nat)
    requires x < Pow2(n)
    ensures Value(Digits(x, n)) == x
  {
    if n > 0 {
      ValueOfDigits(x / 2, n - 1);
      assert Digits(x, n)[1..] == Digits(x / 2, n - 1);
    }
  }

  lemma Pow2Is64()
    ensures Pow2(64) == UINT64_RANGE
  {
    assert Pow2(8) == 256;
    assert Pow2(16) == 256 * Pow2(8);
    assert Pow2(24) == 256 * Pow2(16);
    assert Pow2(32) == 256 * Pow2(24);
    assert Pow2(40) == 256 * Pow2(32);
    assert Pow2(48) == 256 * Pow2(40);
    assert Pow2(56) == 256 * Pow2(48);
    assert Pow2(64) == 256 * Pow2(56);
  }

  function WordOf(x: uint64): Word { Digits(x, 64) }

  function Uint64Of(w: Word): (x: uint64) {
    Pow2Is64();
    Value(w)
  }

  lemma WordRoundTrip(x: uint64, w: Word)
    ensures Uint64Of(WordOf(x)) == x && WordOf(Uint64Of(w)) == w
  {
    Pow2Is64();
    ValueOfDigits(x, 64);
    DigitsOfValue(w);
  }

  // ---------------------------------------------------------------- xorshift

  /** Bit i of `w` shifted left by n; right when n is negative. */
  function Shifted(w: Word, n: int, i: int): bool { 0 <= i - n < 64 && 0 <= i < 64 && w[i - n] }

  /** w ^ (w << n), or w ^ (w >> -n) */
  function ShiftXor(w: Word, n: int): Word {
    seq(64, i requires 0 <= i < 64 => w[i] != Shifted(w, n, i))
  }

  /** Undoes ShiftXor: two shifts by n make one by 2n, and at 64 nothing is left of them. */
  function UndoShiftXor(w: Word, n: int): Word
    requires n != 0
    decreases if n < -64 || n > 64 then 0 else if n > 0 then 64 - n else 64 + n
  {
    if n <= -64 || n >= 64 then w else UndoShiftXor(ShiftXor(w, n), 2 * n)
  }

  lemma ShiftXorTwice(w: Word, n: int)
    ensures ShiftXor(ShiftXor(w, n), n) == ShiftXor(w, 2 * n)
  {
  }

  lemma ShiftXorCommutes(w: Word, n: int, m: int)
    requires n > 0 <==> m > 0
    ensures ShiftXor(ShiftXor(w, n), m) == ShiftXor(ShiftXor(w, m), n)
  {
  }

  lemma ShiftXorFar(w: Word, n: int)
    requires n <= -64 || n >= 64
    ensures ShiftXor(w, n) == w
  {
  }

  lemma {:induction false} UndoAfter(w: Word, n: int)
    requires n != 0
    ensures UndoShiftXor(ShiftXor(w, n), n) == w
    decreases if n < -64 || n > 64 then 0 else if n > 0 then 64 - n else 64 + n
  {
    hide ShiftXor;
    if n <= -64 || n >= 64 {
      ShiftXorFar(w, n);
    } else {
      ShiftXorTwice(w, n);
      UndoAfter(w, 2 * n);
    }
  }

  lemma {:induction false} UndoCommutes(w: Word, n: int, m: int)
    requires n != 0 && m != 0 && (n > 0 <==> m > 0)
    ensures ShiftXor(UndoShiftXor(w, n), m) == UndoShiftXor(ShiftXor(w, m), n)
    decreases if n < -64 || n > 64 then 0 else if n > 0 then 64 - n else 64 + n
  {
    hide ShiftXor;
    if -64 < n < 64 {
      ShiftXorCommutes(w, n, m);
      UndoCommutes(ShiftXor(w, n), 2 * n, m);
    }
  }

  lemma ShiftXorInverse(w: Word, n: int)
    requires n != 0
    ensures UndoShiftXor(ShiftXor(w, n), n) == w
    ensures ShiftXor(UndoShiftXor(w, n), n) == w
  {
    UndoAfter(w, n);
    UndoCommutes(w, n, n);
  }

  function XorShift(w: Word): Word { ShiftXor(ShiftXor(ShiftXor(w, 13), -7), 17) }

  function UndoXorShift(w: Word): Word {
    UndoShiftXor(UndoShiftXor(UndoShiftXor(w, 17), -7), 13)
  }

  lemma XorShiftInverse(w: Word)
    ensures UndoXorShift(XorShift(w)) == w && XorShift(UndoXorShift(w)) == w
  {
    hide ShiftXor, UndoShiftXor;
    var a := ShiftXor(w, 13);
    var b := ShiftXor(a, -7);
    ShiftXorInverse(w, 13);
    ShiftXorInverse(a, -7);
    ShiftXorInverse(b, 17);
    var c := UndoShiftXor(w, 17);
    var d := UndoShiftXor(c, -7);
    ShiftXorInverse(w, 17);
    ShiftXorInverse(c, -7);
    ShiftXorInverse(d, 13);
  }

  // ---------------------------------------------------------------- the multiplier

  const MULTIPLIER: nat := 0x2545F4914F6CDD1D
  /** Its inverse modulo 2^64 */
  const INVERSE: nat := 0x59071d96d81ecd35

  function MulMod(x: uint64, m: nat): uint64 { x * m % UINT64_RANGE }

  lemma MulInverse(x: uint64)
    ensures MulMod(MulMod(x, MULTIPLIER), INVERSE) == x
    ensures MulMod(MulMod(x, INVERSE), MULTIPLIER) == x
  {
    MulTwice(x, MULTIPLIER, INVERSE);
    MulTwice(x, INVERSE, MULTIPLIER);
  }

  lemma MulTwice(x: uint64, m: nat, k: nat)
    requires m * k == 1 + UINT64_RANGE * 934034299265436267
    ensures MulMod(MulMod(x, m), k) == x
  {
    var q := x * m / UINT64_RANGE;
    var r := x * m % UINT64_RANGE;
    assert r * k == x * (m * k) - UINT64_RANGE * (q * k) by {
      assert r == x * m - UINT64_RANGE * q;
      assert (x * m) * k == x * (m * k);
    }
    assert x * (m * k) == x + UINT64_RANGE * (x * 934034299265436267);
    assert r * k == x + UINT64_RANGE * (x * 934034299265436267 - q * k);
    IsMod(r * k, x, x * 934034299265436267 - q * k);
  }

  lemma IsMod(a: int, x: uint64, c: int)
    requires a == x + UINT64_RANGE * c
    ensures a % UINT64_RANGE == x
  {
  }

  // ---------------------------------------------------------------- the generator

  /** xorshift64s */
  function Next(s: uint64): uint64 { MulMod(Uint64Of(XorShift(WordOf(s))), MULTIPLIER) }

  function Prev(s: uint64): uint64 { Uint64Of(UndoXorShift(WordOf(MulMod(s, INVERSE)))) }

  /** The generator permutes the 64-bit values, and only zero goes to zero. */
  lemma NextIsPermutation(s: uint64)
    ensures Prev(Next(s)) == s && Next(Prev(s)) == s
    ensures Next(s) == 0 <==> s == 0
  {
    NextHasInverse(s);
    NextHasInverse(0);
    ZeroStays();
  }

  lemma NextHasInverse(s: uint64)
    ensures Prev(Next(s)) == s && Next(Prev(s)) == s
  {
    hide XorShift, UndoXorShift, MulMod, WordOf, Uint64Of;
    var w := WordOf(s);
    XorShiftInverse(w);
    WordRoundTrip(s, XorShift(w));
    MulInverse(Uint64Of(XorShift(w)));
    var u := MulMod(s, INVERSE);
    MulInverse(s);
    WordRoundTrip(u, UndoXorShift(WordOf(u)));
    XorShiftInverse(WordOf(u));
  }

  lemma {:induction false} DigitsOfZero(n: nat)
    ensures forall i :: 0 <= i < n ==> !Digits(0, n)[i]
  {
    if n > 0 { DigitsOfZero(n - 1); }
  }

  lemma ZeroShifts(w: Word, n: int)
    requires forall i :: 0 <= i < 64 ==> !w[i]
    ensures ShiftXor(w, n) == w
  {
  }

  lemma ZeroStays()
    ensures Next(0) == 0
  {
    hide ShiftXor, Digits;
    DigitsOfZero(64);
    var w := WordOf(0);
    ZeroShifts(w, 13);
    ZeroShifts(w, -7);
    ZeroShifts(w, 17);
    WordRoundTrip(0, w);
    assert Uint64Of(XorShift(WordOf(0))) == 0;
  }

  /** The state after n draws. */
  function Draw(seed: uint64, n: nat): uint64 { if n == 0 then seed else Next(Draw(seed, n - 1)) }

  lemma {:induction false} DrawNonzero(seed: uint64, n: nat)
    requires seed != 0
    ensures Draw(seed, n) != 0
  {
    hide Next;
    if n > 0 {
      DrawNonzero(seed, n - 1);
      NextIsPermutation(Draw(seed, n - 1));
    }
  }

  /** Two equal draws mean that the generator had come back to its seed. */
  lemma {:induction false} RepeatMeansCycle(seed: uint64, i: nat, j: nat)
    requires i < j && Draw(seed, i) == Draw(seed, j)
    ensures Draw(seed, j - i) == seed
    decreases i
  {
    hide Next, Prev;
    if i > 0 {
      var a, b := Draw(seed, i - 1), Draw(seed, j - 1);
      assert Next(a) == Next(b);
      NextIsPermutation(a);
      NextIsPermutation(b);
      RepeatMeansCycle(seed, i - 1, j - 1);
    }
  }

  // ---------------------------------------------------------------- threads that draw by CAS

  /** A thread inside tracer_prng_next holds the value that it read last. */
  datatype Shared = Shared(prng: uint64, held: map<nat, uint64>, drawn: seq<(nat, uint64)>)

  datatype Step = Load(thread: nat) | Cas(thread: nat, spurious: bool)

  predicate Enabled(s: Shared, step: Step) {
    match step
    case Load(t) => t !in s.held
    case Cas(t, _) => t in s.held
  }

  /** A CAS that fails reads the current state; one that succeeds returns the value it stored. */
  function Take(s: Shared, step: Step): Shared
    requires Enabled(s, step)
  {
    match step
    case Load(t) => s.(held := s.held[t := s.prng])
    case Cas(t, spurious) =>
      if s.held[t] == s.prng && !spurious then
        var v := Next(s.held[t]);
        Shared(v, s.held - {t}, s.drawn + [(t, v)])
      else s.(held := s.held[t := s.prng])
  }

  function Seeded(seed: uint64): Shared { Shared(seed, map[], []) }

  ghost predicate Runs(s: Shared, steps: seq<Step>, s': Shared)
    decreases |steps|
  {
    if steps == [] then s' == s
    else Enabled(s, steps[0]) && Runs(Take(s, steps[0]), steps[1..], s')
  }

  /** The draws of all threads together are the consecutive values of one generator. */
  ghost predicate Chained(seed: uint64, s: Shared) {
    s.prng == Draw(seed, |s.drawn|) &&
    forall i :: 0 <= i < |s.drawn| ==> s.drawn[i].1 == Draw(seed, i + 1)
  }

  lemma TakeChained(seed: uint64, s: Shared, step: Step)
    requires Chained(seed, s) && Enabled(s, step)
    ensures Chained(seed, Take(s, step))
  {
    hide Next;
    assert Draw(seed, |s.drawn| + 1) == Next(Draw(seed, |s.drawn|));
  }

  lemma {:induction false} RunsChained(seed: uint64, s: Shared, steps: seq<Step>, s': Shared)
    requires Chained(seed, s) && Runs(s, steps, s')
    ensures Chained(seed, s')
    decreases |steps|
  {
    hide Take;
    if steps != [] {
      TakeChained(seed, s, steps[0]);
      RunsChained(seed, Take(s, steps[0]), steps[1..], s');
    }
  }

  /**
   Whatever the threads do: every draw is the next value of one chain, so no value of the chain
   is handed out twice or skipped, and no draw is zero.
   */
  lemma DrawsAreOneChain(seed: uint64, steps: seq<Step>, s: Shared)
    requires seed != 0 && Runs(Seeded(seed), steps, s)
    ensures forall i :: 0 <= i < |s.drawn| ==> s.drawn[i].1 == Draw(seed, i + 1) != 0
  {
    RunsChained(seed, Seeded(seed), steps, s);
    forall i | 0 <= i < |s.drawn| ensures s.drawn[i].1 == Draw(seed, i + 1) != 0 {
      DrawNonzero(seed, i + 1);
    }
  }

  // ---------------------------------------------------------------- ids

  /** The n lowest bytes of v, the highest first. */
  function BigEndian(v: nat, n: nat): (b: Bytes)
    ensures |b| == n
  {
    if n == 0 then [] else BigEndian(v / 256, n - 1) + [v % 256]
  }

  function FromBigEndian(b: Bytes): nat {
    if b == [] then 0 else FromBigEndian(b[..|b| - 1]) * 256 + b[|b| - 1]
  }

  function Pow256(n: nat): (p: nat)
    ensures p >= 1
  {
    if n == 0 then 1 else 256 * Pow256(n - 1)
  }

  lemma {:induction false} BigEndianRoundTrip(v: nat, n: nat)
    requires v < Pow256(n)
    ensures FromBigEndian(BigEndian(v, n)) == v
  {
    if n > 0 {
      BigEndianRoundTrip(v / 256, n - 1);
      assert BigEndian(v, n)[..n - 1] == BigEndian(v / 256, n - 1);
    }
  }

  lemma Pow256Of8()
    ensures Pow256(8) == UINT64_RANGE
  {
    assert Pow256(4) == 0x1_0000_0000;
    assert Pow256(6) == 256 * (256 * Pow256(4));
    assert Pow256(8) == 256 * (256 * Pow256(6));
  }

  lemma {:induction false} ZeroBytes(b: Bytes)
    requires AllZero(b)
    ensures FromBigEndian(b) == 0
  {
    if b != [] { ZeroBytes(b[..|b| - 1]); }
  }

  /** The bytes of the words one after the other. */
  function Packed(ids: seq<uint64>): (b: Bytes)
    ensures |b| == 8 * |ids|
  {
    if ids == [] then [] else Packed(ids[..|ids| - 1]) + BigEndian(ids[|ids| - 1], 8)
  }

  lemma PackedNonzero(ids: seq<uint64>)
    requires ids != [] && ids[|ids| - 1] != 0
    ensures !AllZero(Packed(ids))
  {
    var v := ids[|ids| - 1];
    var b := Packed(ids);
    var last := BigEndian(v, 8);
    assert b[|b| - 8..] == last;
    if AllZero(last) {
      ZeroBytes(last);
      Pow256Of8();
      BigEndianRoundTrip(v, 8);
      assert false;
    }
    var i :| 0 <= i < 8 && last[i] != 0;
    assert b[|b| - 8 + i] == b[|b| - 8..][i];
  }

  class Tracer {
    var prngState: uint64
    /** What the state was at first, and how many draws all threads made since. */
    ghost const seed: uint64
    ghost var draws: nat

    ghost predicate Valid()
      reads this
    {
      seed != 0 && prngState == Draw(seed, draws)
    }

    /** `mix` is clock ^ thread id ^ process id. */
    constructor (mix: uint64)
      ensures Valid() && draws == 0
      ensures prngState == if mix == 0 then 0x9E3779B97F4A7C15 else mix
    {
      var s: uint64 := if mix == 0 then 0x9E3779B97F4A7C15 else mix;
      prngState := s;
      seed := s;
      draws := 0;
    }

    /** Draws of other threads, at any moment. */
    method OtherThreads()
      requires Valid()
      modifies this
      ensures Valid() && draws >= old(draws)
    {
      var n: nat := *;
      while n > 0
        invariant Valid() && draws >= old(draws)
      {
        prngState := Next(prngState);
        draws := draws + 1;
        n := n - 1;
      }
    }

    /** tracer_prng_next: the CAS may fail `n` times, spuriously or because of other threads. */
    method PrngNext() returns (v: uint64)
      requires Valid()
      modifies this
      ensures Valid() && draws > old(draws) && v == prngState == Draw(seed, draws) && v != 0
    {
      hide Next;
      var held := prngState;
      var n: nat := *;
      while true
        invariant Valid() && draws >= old(draws) && held == prngState
        decreases n
      {
        v := Next(held);
        var spurious: bool := *;
        if n > 0 { OtherThreads(); }
        if prngState == held && (!spurious || n == 0) {
          prngState := v;
          draws := draws + 1;
          DrawNonzero(seed, draws);
          return;
        }
        held := prngState;
        n := n - 1;
      }
    }
  
    /**
     fill_random_bytes: the bytes of one draw after the other. They are never all zero, so the
     second attempt that the source provides for is never made.
     */
    method FillRandomBytes(out: array<byte>, len: nat) returns (ghost ids: seq<uint64>)
      requires Valid() && len % 8 == 0 && len <= out.Length
      modifies this, out
      ensures Valid() && draws >= old(draws) + |ids| && |ids| * 8 == len
      ensures out[..len] == Packed(ids) && out[len..] == old(out[len..])
      ensures forall i :: 0 <= i < |ids| ==> ids[i] != 0
      ensures len > 0 ==> !AllZero(out[..len])
    {
      hide Draw;
      ids := [];
      var off: nat := 0;
      while off < len
        invariant Valid() && off == 8 * |ids| <= len && draws >= old(draws) + |ids|
        invariant out[..off] == Packed(ids) && out[len..] == old(out[len..])
        invariant forall i :: 0 <= i < |ids| ==> ids[i] != 0
      {
        var v := PrngNext();
        PutUint64Be(out, off, v);
        ids := ids + [v];
        assert ids[..|ids| - 1] + [v] == ids;
        assert out[..off + 8] == out[..off] + out[off..off + 8];
        off := off + 8;
      }
      if len > 0 {
        PackedNonzero(ids);
        var i := 0;
        while i < len && out[i] == 0
          invariant 0 <= i <= len && forall k :: 0 <= k < i ==> out[k] == 0
        {
          i := i + 1;
        }
        assert forall k :: 0 <= k < i ==> out[..len][k] == 0;
        if i == len { assert false; }
      }
    }
  }

  /** put_u64_be */
  method PutUint64Be(out: array<byte>, at: nat, v: uint64)
    requires at + 8 <= out.Length
    modifies out
    ensures out[at..at + 8] == BigEndian(v, 8)
    ensures out[..at] == old(out[..at]) && out[at + 8..] == old(out[at + 8..])
  {
    BigEndianAt(v, 8);
    out[at] := Shifted8(v, 7) % 256;
    out[at + 1] := Shifted8(v, 6) % 256;
    out[at + 2] := Shifted8(v, 5) % 256;
    out[at + 3] := Shifted8(v, 4) % 256;
    out[at + 4] := Shifted8(v, 3) % 256;
    out[at + 5] := Shifted8(v, 2) % 256;
    out[at + 6] := Shifted8(v, 1) % 256;
    out[at + 7] := Shifted8(v, 0) % 256;
    hide Shifted8;
    ghost var b := BigEndian(v, 8);
    assert out[at..at + 8] == [b[0], b[1], b[2], b[3], b[4], b[5], b[6], b[7]] == b;
  }

  /** v >> 8 * k */
  function Shifted8(v: nat, k: nat): nat { if k == 0 then v else Shifted8(v / 256, k - 1) }

  lemma {:induction false} BigEndianAt(v: nat, n: nat)
    ensures forall i :: 0 <= i < n ==> BigEndian(v, n)[i] == Shifted8(v, n - 1 - i) % 256
  {
    if n > 0 { BigEndianAt(v / 256, n - 1); }
  }
}
