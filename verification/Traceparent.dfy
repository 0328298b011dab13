/**
 The traceparent header of W3C Trace Context (src/w3c.c): the printer, the parser, and what each
 makes of the other's output.
 */
module Traceparent {
  import opened Common

  const DASH: byte := 45
  const ZERO: byte := 48
  const ONE: byte := 49
  /** OTLP_TRACEPARENT_LEN */
  const LEN: nat := 55

  // ---------------------------------------------------------------- hex digits

  /** hex_digit */
  function HexDigit(n: nat): byte
    requires n < 16
  {
    if n < 10 then 48 + n else 87 + n
  }

  /** hex_value: -1 for anything but a hex digit */
  function HexValue(c: byte): (v: int)
    ensures -1 <= v < 16
  {
    if 48 <= c <= 57 then c - 48
    else if 97 <= c <= 102 then c - 87
    else if 65 <= c <= 70 then c - 55
    else -1
  }

  function LowerAll(s: Bytes): (r: Bytes)
    ensures |r| == |s|
  {
    seq(|s|, i requires 0 <= i < |s| => Lower(s[i]))
  }

  lemma DigitReadsBack(n: nat, c: byte)
    ensures n < 16 ==> HexValue(HexDigit(n)) == n
    ensures HexValue(c) >= 0 ==> HexDigit(HexValue(c)) == Lower(c)
  {
  }

  /** A character of the header, or its terminator. What lies behind that never matters to what is
      parsed (ParseHeader), and is taken for NUL here. */
  function At(h: Bytes, i: nat): byte { if i < |h| then h[i] else 0 }

  // ---------------------------------------------------------------- bytes in hex

  function HexOf(b: byte): (s: Bytes)
    ensures |s| == 2
  {
    [HexDigit(b / 16), HexDigit(b % 16)]
  }

  function HexOfAll(bs: Bytes): (s: Bytes)
    ensures |s| == 2 * |bs|
  {
    if bs == [] then [] else HexOfAll(bs[..|bs| - 1]) + HexOf(bs[|bs| - 1])
  }

  /** The byte that stands at `i` in two hex digits. */
  function ByteAt(h: Bytes, i: nat): Option<byte> {
    var hi, lo := HexValue(At(h, i)), HexValue(At(h, i + 1));
    if hi < 0 || lo < 0 then None else Some(hi * 16 + lo)
  }

  /** The `n` bytes that stand at `i`. */
  function BytesAt(h: Bytes, i: nat, n: nat): (r: Option<Bytes>)
    ensures r.Some? ==> |r.value| == n
  {
    if n == 0 then Some([])
    else
      match BytesAt(h, i, n - 1)
      case None => None
      case Some(bs) =>
        match ByteAt(h, i + 2 * (n - 1))
        case None => None
        case Some(b) => Some(bs + [b])
  }

  // ---------------------------------------------------------------- printer and parser

  /** The header without its terminator. */
  function Format(trace: Bytes, span: Bytes, sampled: bool): (h: Bytes)
    requires |trace| == 16 && |span| == 8
    ensures |h| == LEN
  {
    [ZERO, ZERO, DASH] + HexOfAll(trace) + [DASH] + HexOfAll(span) + [DASH]
      + [ZERO, if sampled then ONE else ZERO]
  }

  datatype Parsed = Parsed(trace: Bytes, span: Bytes, flags: byte)

  function Parse(h: Bytes): (r: Option<Parsed>)
    ensures r.Some? ==> |r.value.trace| == 16 && |r.value.span| == 8
  {
    var version := ByteAt(h, 0);
    var trace := BytesAt(h, 3, 16);
    var span := BytesAt(h, 36, 8);
    var flags := ByteAt(h, 53);
    if version.None? || At(h, 2) != DASH || trace.None? || At(h, 35) != DASH || span.None?
      || At(h, 52) != DASH || flags.None? then None
    else if AllZero(trace.value) || AllZero(span.value) then None
    else if version.value == 0xFF || (version.value == 0 && At(h, 55) != 0) then None
    else Some(Parsed(trace.value, span.value, flags.value))
  }

  // ---------------------------------------------------------------- round trips

  lemma HexByteReadsBack(h: Bytes, i: nat, b: byte)
    requires i + 2 <= |h| && h[i] == HexOf(b)[0] && h[i + 1] == HexOf(b)[1]
    ensures ByteAt(h, i) == Some(b)
  {
    DigitReadsBack(b / 16, 0);
    DigitReadsBack(b % 16, 0);
  }

  lemma {:induction false} HexReadsBack(h: Bytes, i: nat, bs: Bytes)
    requires i + 2 * |bs| <= |h| && h[i..i + 2 * |bs|] == HexOfAll(bs)
    ensures BytesAt(h, i, |bs|) == Some(bs)
  {
    hide HexOf, ByteAt;
    if bs != [] {
      var n := |bs| - 1;
      var s := h[i..i + 2 * |bs|];
      assert s == HexOfAll(bs[..n]) + HexOf(bs[n]);
      assert BytesAt(h, i, n + 1) == match BytesAt(h, i, n)
        case None => None
        case Some(init) =>
          match ByteAt(h, i + 2 * n)
          case None => None
          case Some(b) => Some(init + [b]);
      hide HexOfAll, BytesAt;
      assert h[i..i + 2 * n] == s[..2 * n] == HexOfAll(bs[..n]);
      HexReadsBack(h, i, bs[..n]);
      assert h[i + 2 * n] == s[2 * n] && h[i + 2 * n + 1] == s[2 * n + 1];
      HexByteReadsBack(h, i + 2 * n, bs[n]);
      assert bs == bs[..n] + [bs[n]];
    }
  }

  /** A formatted header is parsed to its own ids and flag, unless an id is zero. */
  lemma ParseFormat(trace: Bytes, span: Bytes, sampled: bool)
    requires |trace| == 16 && |span| == 8
    ensures Parse(Format(trace, span, sampled)) ==
      if AllZero(trace) || AllZero(span) then None
      else Some(Parsed(trace, span, if sampled then 1 else 0))
  {
    var h := Format(trace, span, sampled);
    assert h[3..35] == HexOfAll(trace);
    assert h[36..52] == HexOfAll(span);
    hide HexOfAll, BytesAt;
    HexReadsBack(h, 3, trace);
    HexReadsBack(h, 36, span);
  }

  lemma {:induction false} HexPrintsBack(h: Bytes, i: nat, n: nat)
    requires BytesAt(h, i, n).Some? && i + 2 * n <= |h|
    ensures HexOfAll(BytesAt(h, i, n).value) == LowerAll(h[i..i + 2 * n])
  {
    if n > 0 {
      HexPrintsBack(h, i, n - 1);
      var k := i + 2 * (n - 1);
      var b := ByteAt(h, k).value;
      DigitReadsBack(0, h[k]);
      DigitReadsBack(0, h[k + 1]);
      DivModUnique(b, 16, HexValue(h[k]), HexValue(h[k + 1]));
      assert h[i..i + 2 * n] == h[i..k] + [h[k], h[k + 1]];
      var bs := BytesAt(h, i, n).value;
      assert bs[..n - 1] == BytesAt(h, i, n - 1).value;
    }
  }

  /** Version 00, and no flag but the sampled one. */
  predicate PlainHeader(h: Bytes) {
    ByteAt(h, 0) == Some(0) && (ByteAt(h, 53) == Some(0) || ByteAt(h, 53) == Some(1))
  }

  /**
   Formatting what was parsed gives the header again, in lower case, exactly when its version
   is 00 and its flags are 00 or 01.
   */
  lemma FormatParseIff(h: Bytes)
    requires Parse(h).Some? && forall i :: 0 <= i < |h| ==> h[i] != 0
    ensures var p := Parse(h).value;
      Format(p.trace, p.span, p.flags % 2 == 1) == LowerAll(h) <==> PlainHeader(h)
  {
    hide BytesAt, HexOfAll;
    var p := Parse(h).value;
    var f := Format(p.trace, p.span, p.flags % 2 == 1);
    assert |h| >= LEN;
    HexPrintsBack(h, 3, 16);
    HexPrintsBack(h, 36, 8);
    if PlainHeader(h) {
      assert |h| == LEN;
      PlainEnds(h);
      var l := LowerAll(h);
      assert l[3..35] == LowerAll(h[3..35]);
      assert l[36..52] == LowerAll(h[36..52]);
      assert l == l[..3] + l[3..35] + [l[35]] + l[36..52] + [l[52]] + l[53..];
      assert l[..3] == [ZERO, ZERO, DASH];
      assert l[53..] == [ZERO, if p.flags % 2 == 1 then ONE else ZERO];
    }
    if f == LowerAll(h) {
      assert Lower(h[0]) == f[0] && Lower(h[1]) == f[1];
      assert Lower(h[53]) == f[53] && Lower(h[54]) == f[54];
      LowerPlain(h);
    }
  }

  lemma LowerPlain(h: Bytes)
    requires |h| >= LEN && Lower(h[0]) == Lower(h[1]) == Lower(h[53]) == ZERO
    requires Lower(h[54]) == ZERO || Lower(h[54]) == ONE
    ensures PlainHeader(h)
  {
  }

  lemma PlainEnds(h: Bytes)
    requires PlainHeader(h) && |h| == LEN
    ensures h[0] == h[1] == h[53] == ZERO
    ensures h[54] == if ByteAt(h, 53) == Some(1) then ONE else ZERO
  {
  }

  // ---------------------------------------------------------------- what the parser reads

  predicate IsDash(i: nat) { i == 2 || i == 35 || i == 52 }

  /** The first digit of a pair that is read together with the second one. */
  predicate IsHigh(i: nat) {
    (3 <= i < 35 && i % 2 == 1) || (36 <= i < 52 && i % 2 == 0) || i == 53
  }

  predicate SlotOk(h: Bytes, i: nat) {
    if IsDash(i) then At(h, i) == DASH else HexValue(At(h, i)) >= 0
  }

  predicate SlotsOk(h: Bytes, from: nat, to: nat) {
    forall i: nat :: from <= i < to ==> SlotOk(h, i)
  }

  /** The first character from `i` on that is not what stands there in a header, or LEN. */
  function FirstBad(h: Bytes, i: nat): (b: nat)
    requires i <= LEN
    ensures i <= b <= LEN && SlotsOk(h, i, b) && (b < LEN ==> !SlotOk(h, b))
    decreases LEN - i
  {
    if i == LEN || !SlotOk(h, i) then i else FirstBad(h, i + 1)
  }

  lemma FirstBadIs(h: Bytes, b: nat)
    requires b <= LEN && SlotsOk(h, 0, b) && (b < LEN ==> !SlotOk(h, b))
    ensures FirstBad(h, 0) == b
  {
    FirstBadFrom(h, 0, b);
  }

  lemma {:induction false} FirstBadFrom(h: Bytes, i: nat, b: nat)
    requires i <= b <= LEN && SlotsOk(h, 0, b) && (b < LEN ==> !SlotOk(h, b))
    ensures FirstBad(h, i) == b
    decreases b - i
  {
    hide SlotOk;
    if i < b {
      assert SlotOk(h, i);
      FirstBadFrom(h, i + 1, b);
    }
  }

  predicate NoId(id: Option<Bytes>) { id.None? || AllZero(id.value) }

  /** One past the last character that is looked at. */
  function ReadsTo(h: Bytes): nat {
    var b := FirstBad(h, 0);
    if b < LEN then if IsHigh(b) then b + 2 else b + 1
    else if NoId(BytesAt(h, 3, 16)) || NoId(BytesAt(h, 36, 8)) || ByteAt(h, 0) != Some(0) then LEN
    else LEN + 1
  }

  /**
   The parser never looks further than one character behind the terminator. It does look there
   exactly when the header ends where the first digit of a pair is expected and is a header so far.
   */
  lemma ReadsBehindIff(h: Bytes)
    requires forall i :: 0 <= i < |h| ==> h[i] != 0
    ensures ReadsTo(h) <= |h| + 2
    ensures ReadsTo(h) == |h| + 2 <==> IsHigh(|h|) && SlotsOk(h, 0, |h|)
  {
    var b := FirstBad(h, 0);
    assert !SlotOk(h, |h|);
    if SlotsOk(h, 0, |h|) && |h| < LEN { FirstBadIs(h, |h|); }
  }

  /** "00-" is such a header. */
  lemma ReadsBehindShort()
    ensures ReadsTo([ZERO, ZERO, DASH]) == 5
  {
    var h: Bytes := [ZERO, ZERO, DASH];
    assert SlotOk(h, 0) && SlotOk(h, 1) && SlotOk(h, 2);
    ReadsBehindIff(h);
  }

  // ---------------------------------------------------------------- the functions of the source

  /** otlp_traceparent_format_raw */
  method FormatRaw(trace: Bytes, span: Bytes, sampled: bool, buf: array<byte>, cap: nat)
    returns (st: Status, outLen: nat)
    requires |trace| == 16 && |span| == 8 && cap <= buf.Length
    modifies buf
    ensures st == (if cap < LEN + 1 then ErrOverflow else Ok)
    ensures st != Ok ==> buf[..] == old(buf[..])
    ensures st == Ok ==>
      outLen == LEN && buf[..LEN] == Format(trace, span, sampled) && buf[LEN] == 0 &&
      buf[LEN + 1..] == old(buf[LEN + 1..])
  {
    outLen := 0;
    if cap < LEN + 1 { return ErrOverflow, 0; }
    buf[0], buf[1], buf[2] := ZERO, ZERO, DASH;
    PrintHex(trace, buf, 3);
    buf[35] := DASH;
    PrintHex(span, buf, 36);
    buf[52] := DASH;
    buf[53] := ZERO;
    buf[54] := if sampled then ONE else ZERO;
    buf[55] := 0;
    hide HexOfAll;
    assert buf[3..35] == HexOfAll(trace) && buf[36..52] == HexOfAll(span);
    assert buf[..LEN] == buf[..3] + buf[3..35] + [buf[35]] + buf[36..52] + [buf[52]] + buf[53..LEN];
    return Ok, LEN;
  }

  method PrintHex(bs: Bytes, buf: array<byte>, at: nat)
    requires at + 2 * |bs| <= buf.Length
    modifies buf
    ensures buf[at..at + 2 * |bs|] == HexOfAll(bs)
    ensures forall i :: 0 <= i < buf.Length && !(at <= i < at + 2 * |bs|) ==> buf[i] == old(buf[i])
  {
    var k := 0;
    while k < |bs|
      invariant 0 <= k <= |bs|
      invariant buf[at..at + 2 * k] == HexOfAll(bs[..k])
      invariant forall i :: 0 <= i < buf.Length && !(at <= i < at + 2 * k) ==> buf[i] == old(buf[i])
    {
      ghost var done := buf[at..at + 2 * k];
      buf[at + k * 2] := HexDigit(bs[k] / 16);
      buf[at + k * 2 + 1] := HexDigit(bs[k] % 16);
      k := k + 1;
      assert bs[..k][..k - 1] == bs[..k - 1];
      assert buf[at..at + 2 * k] == done + HexOf(bs[k - 1]);
    }
    assert bs[..k] == bs;
  }

  /** The character at `i`: of the header, its terminator, or the byte behind that. */
  method Fetch(h: Bytes, behind: byte, i: nat, ghost to: nat) returns (c: byte, ghost now: nat)
    ensures c == if i <= |h| then At(h, i) else behind
    ensures now == Max(to, i + 1)
  {
    c := if i < |h| then h[i] else if i == |h| then 0 else behind;
    now := Max(to, i + 1);
  }

  /**
   One id: the bytes are written as they are read, also when a later digit is bad. Both digits of a
   pair are read before they are looked at; `to` is one past the last character read.
   */
  method ReadHex(h: Bytes, behind: byte, at: nat, out: array<byte>, ghost to0: nat)
    returns (ok: bool, nonzero: bool, ghost to: nat)
    requires at <= |h| && to0 <= at
    modifies out
    ensures ok == BytesAt(h, at, out.Length).Some?
    ensures ok ==> out[..] == BytesAt(h, at, out.Length).value && nonzero == !AllZero(out[..])
    ensures ok ==>
      at + 2 * out.Length <= |h| && to == (if out.Length == 0 then to0 else at + 2 * out.Length) &&
      forall i: nat :: at <= i < at + 2 * out.Length ==> HexValue(At(h, i)) >= 0
    ensures !ok ==> BadPair(h, at, out.Length, to)
  {
    nonzero, to := false, to0;
    var i := 0;
    while i < out.Length
      invariant 0 <= i <= out.Length && BytesAt(h, at, i) == Some(out[..i])
      invariant nonzero == !AllZero(out[..i]) && at + 2 * i <= |h|
      invariant to == if i == 0 then to0 else at + 2 * i
      invariant forall j: nat :: at <= j < at + 2 * i ==> HexValue(At(h, j)) >= 0
    {
      var hi, lo;
      hi, to := Fetch(h, behind, at + 2 * i, to);
      lo, to := Fetch(h, behind, at + 2 * i + 1, to);
      if HexValue(hi) < 0 || HexValue(lo) < 0 {
        NoBytes(h, at, i + 1, out.Length);
        assert PairBad(h, at, i);
        return false, nonzero, to;
      }
      ghost var done := out[..i];
      out[i] := HexValue(hi) * 16 + HexValue(lo);
      if out[i] != 0 { nonzero := true; }
      i := i + 1;
      assert out[..i] == done + [out[i - 1]];
      assert forall k :: 0 <= k < i - 1 ==> out[..i][k] == done[k];
    }
    assert out[..] == out[..i];
    ok := true;
  }

  /** The pair `k` from `at` on is the first one that is not two digits. */
  predicate PairBad(h: Bytes, at: nat, k: nat) {
    (forall j: nat :: at <= j < at + 2 * k ==> HexValue(At(h, j)) >= 0) &&
    (HexValue(At(h, at + 2 * k)) < 0 || HexValue(At(h, at + 2 * k + 1)) < 0)
  }

  ghost predicate BadPair(h: Bytes, at: nat, n: nat, to: nat) {
    exists k: nat :: k < n && PairBad(h, at, k) && to == at + 2 * k + 2
  }

  lemma {:induction false} NoBytes(h: Bytes, at: nat, i: nat, n: nat)
    requires i <= n && BytesAt(h, at, i).None?
    ensures BytesAt(h, at, n).None?
  {
    if i < n { NoBytes(h, at, i, n - 1); }
  }

  /** Where the reading ends in an id. */
  lemma BadPairEnds(h: Bytes, at: nat, n: nat, to: nat)
    requires (at == 3 && n == 16) || (at == 36 && n == 8)
    requires SlotsOk(h, 0, at) && BadPair(h, at, n, to)
    ensures to == ReadsTo(h)
  {
    var k: nat :| k < n && PairBad(h, at, k) && to == at + 2 * k + 2;
    var b := at + 2 * k;
    assert IsHigh(b) && !IsHigh(b + 1) && !IsDash(b + 1);
    FirstBadIs(h, if HexValue(At(h, b)) < 0 then b else b + 1);
  }

  /** The version and the dash behind it; a negative number when they are not there. */
  method ReadVersion(h: Bytes, behind: byte) returns (v: int, ghost to: nat)
    ensures -1 <= v < 256
    ensures v >= 0 ==>
      ByteAt(h, 0) == Some(v) && At(h, 2) == DASH && SlotsOk(h, 0, 3) && to == 3 <= |h|
    ensures v < 0 ==> (ByteAt(h, 0).None? || At(h, 2) != DASH) && to == ReadsTo(h)
  {
    var c, d;
    c, to := Fetch(h, behind, 0, 0);
    if HexValue(c) < 0 { FirstBadIs(h, 0); return -1, to; }
    d, to := Fetch(h, behind, 1, to);
    if HexValue(d) < 0 { FirstBadIs(h, 1); return -1, to; }
    v := HexValue(c) * 16 + HexValue(d);
    c, to := Fetch(h, behind, 2, to);
    if c != DASH { FirstBadIs(h, 2); return -1, to; }
  }

  /** An id and the dash behind it. */
  method ReadId(h: Bytes, behind: byte, at: nat, out: array<byte>, ghost to0: nat)
    returns (ok: bool, nonzero: bool, ghost to: nat)
    requires (at == 3 && out.Length == 16) || (at == 36 && out.Length == 8)
    requires at <= |h| && to0 <= at && SlotsOk(h, 0, at)
    modifies out
    ensures var end := at + 2 * out.Length;
      ok == (BytesAt(h, at, out.Length).Some? && At(h, end) == DASH) &&
      (ok ==>
        out[..] == BytesAt(h, at, out.Length).value && nonzero == !AllZero(out[..]) &&
        SlotsOk(h, 0, end + 1) && to == end + 1 <= |h|) &&
      (!ok ==> to == ReadsTo(h))
  {
    hide BytesAt, ReadsTo, FirstBad;
    ok, nonzero, to := ReadHex(h, behind, at, out, to0);
    if !ok {
      BadPairEnds(h, at, out.Length, to);
      return;
    }
    ghost var end := at + 2 * out.Length;
    assert forall i: nat :: at <= i < end ==> SlotOk(h, i);
    var c;
    c, to := Fetch(h, behind, at + 2 * out.Length, to);
    if c != DASH {
      ok := false;
      BadDashEnds(h, end);
    }
  }

  lemma BadDashEnds(h: Bytes, b: nat)
    requires IsDash(b) && SlotsOk(h, 0, b) && At(h, b) != DASH
    ensures ReadsTo(h) == b + 1
  {
    FirstBadIs(h, b);
  }

  /** The flags; a negative number when they are not there. */
  method ReadFlags(h: Bytes, behind: byte, ghost to0: nat) returns (flags: int, ghost to: nat)
    requires 53 <= |h| && SlotsOk(h, 0, 53) && to0 == 53
    ensures -1 <= flags < 256
    ensures flags >= 0 ==> ByteAt(h, 53) == Some(flags) && SlotsOk(h, 0, LEN) && to == LEN <= |h|
    ensures flags < 0 ==> ByteAt(h, 53).None? && to == ReadsTo(h)
  {
    var hi, lo;
    hi, to := Fetch(h, behind, 53, to0);
    lo, to := Fetch(h, behind, 54, to);
    if HexValue(hi) < 0 || HexValue(lo) < 0 {
      FirstBadIs(h, if HexValue(hi) < 0 then 53 else 54);
      return -1, to;
    }
    flags := HexValue(hi) * 16 + HexValue(lo);
  }

  lemma AllSlotsOk(h: Bytes)
    requires SlotsOk(h, 0, LEN)
    ensures ReadsTo(h) ==
      if NoId(BytesAt(h, 3, 16)) || NoId(BytesAt(h, 36, 8)) || ByteAt(h, 0) != Some(0) then LEN
      else LEN + 1
  {
    FirstBadIs(h, LEN);
  }

  /** otlp_traceparent_parse, with any byte behind the terminator of the header. */
  method ParseHeader(h: Bytes, behind: byte, trace: array<byte>, span: array<byte>)
    returns (st: Status, flags: byte, ghost to: nat)
    requires trace.Length == 16 && span.Length == 8 && trace != span
    modifies trace, span
    ensures st == if Parse(h).Some? then Ok else ErrInvalidArgument
    ensures st == Ok ==> Parse(h) == Some(Parsed(trace[..], span[..], flags))
    ensures to == ReadsTo(h)
  {
    hide BytesAt, ByteAt, ReadsTo, SlotsOk;
    flags := 0;
    var v, ok, traceNz, spanNz, f;
    v, to := ReadVersion(h, behind);
    if v < 0 { return ErrInvalidArgument, 0, to; }
    ok, traceNz, to := ReadId(h, behind, 3, trace, to);
    if !ok { return ErrInvalidArgument, 0, to; }
    ok, spanNz, to := ReadId(h, behind, 36, span, to);
    if !ok { return ErrInvalidArgument, 0, to; }
    f, to := ReadFlags(h, behind, to);
    if f < 0 { return ErrInvalidArgument, 0, to; }
    flags := f;
    AllSlotsOk(h);
    if !traceNz || !spanNz { return ErrInvalidArgument, flags, to; }
    if v == 0xFF { return ErrInvalidArgument, flags, to; }
    if v == 0 {
      var c;
      c, to := Fetch(h, behind, 55, to);
      if c != 0 { return ErrInvalidArgument, flags, to; }
    }
    return Ok, flags, to;
  }
}
