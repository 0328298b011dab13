/**
 The UTF-8 check of src/internal_util.c (otlp_str_is_utf8) against the encoding of sections 3
 and 4 of RFC 3629.
 */
module Utf8 {
  import opened Common

  /** A Unicode scalar value: at most U+10FFFF and no surrogate. */
  predicate Scalar(c: nat) { c <= 0x10FFFF && !(0xD800 <= c <= 0xDFFF) }

  predicate AllScalar(cs: seq<nat>) { forall i :: 0 <= i < |cs| ==> Scalar(cs[i]) }

  /** The table of section 3 of RFC 3629. */
  function Encode(c: nat): (b: Bytes)
    requires Scalar(c)
    ensures |b| > 0
  {
    var d := c / 64;
    var e := d / 64;
    if c < 0x80 then [c]
    else if c < 0x800 then [0xC0 + d, 0x80 + c % 64]
    else if c < 0x10000 then [0xE0 + e, 0x80 + d % 64, 0x80 + c % 64]
    else [0xF0 + e / 64, 0x80 + e % 64, 0x80 + d % 64, 0x80 + c % 64]
  }

  function EncodeAll(cs: seq<nat>): Bytes
    requires AllScalar(cs)
  {
    if cs == [] then [] else Encode(cs[0]) + EncodeAll(cs[1..])
  }

  /** A C string has no NUL but the one that ends it. */
  predicate CString(s: Bytes) { forall i :: 0 <= i < |s| ==> s[i] != 0 }

  /** Byte i of the string; the terminator follows the last one. */
  function At(s: Bytes, i: nat): byte { if i < |s| then s[i] else 0 }

  // ---------------------------------------------------------------- one sequence

  /** How many continuation bytes a lead byte announces, its bits, and the least value allowed. */
  datatype Lead = BadLead | Lead(need: nat, bits: nat, least: nat)

  function ReadLead(c: byte): Lead {
    if 0xC0 <= c < 0xE0 then Lead(1, c - 0xC0, 0x80)
    else if 0xE0 <= c < 0xF0 then Lead(2, c - 0xE0, 0x800)
    else if 0xF0 <= c < 0xF8 then Lead(3, c - 0xF0, 0x10000)
    else BadLead
  }

  predicate Continues(c: byte) { 0x80 <= c < 0xC0 }

  /** The value of `need` continuation bytes at `i` after the bits `cp`; None if one is missing. */
  function ReadTail(s: Bytes, i: nat, need: nat, cp: nat): Option<nat>
    decreases need
  {
    if need == 0 then Some(cp)
    else if !Continues(At(s, i)) then None
    else ReadTail(s, i + 1, need - 1, cp * 64 + (At(s, i) - 0x80))
  }

  /** The number of bytes of the sequence that stands at `i`, or None. */
  function Sequence(s: Bytes, i: nat): (r: Option<nat>)
    requires i < |s|
    ensures r.Some? ==> 0 < r.value <= 4
  {
    if s[i] < 0x80 then Some(1)
    else
      match ReadLead(s[i])
      case BadLead => None
      case Lead(need, bits, least) =>
        match ReadTail(s, i + 1, need, bits)
        case None => None
        case Some(cp) =>
          if cp < least || !Scalar(cp) then None else Some(need + 1)
  }

  /** Only sequences up to the end; a sequence never runs over the terminator. */
  predicate ValidFrom(s: Bytes, i: nat)
    decreases |s| - i
  {
    i >= |s| || (Sequence(s, i).Some? && ValidFrom(s, i + Sequence(s, i).value))
  }

  predicate Valid(s: Bytes) { ValidFrom(s, 0) }

  // ---------------------------------------------------------------- the check is exact

  lemma TailInside(s: Bytes, i: nat, need: nat, cp: nat)
    requires ReadTail(s, i, need, cp).Some? && need <= 3
    ensures need > 0 ==> i + need <= |s|
    ensures forall j :: i <= j < i + need ==> Continues(At(s, j))
    decreases need
  {
    if need > 0 { TailInside(s, i + 1, need - 1, cp * 64 + (At(s, i) - 0x80)); }
  }

  lemma QuotientOf64(a: nat, b: nat)
    requires b < 64
    ensures (a * 64 + b) / 64 == a && (a * 64 + b) % 64 == b
  {
  }

  lemma EncodeTwo(x: nat, a: nat)
    requires a < 64 && 0x80 <= x * 64 + a < 0x800
    ensures Encode(x * 64 + a) == [0xC0 + x, 0x80 + a]
  {
    QuotientOf64(x, a);
  }

  lemma EncodeThree(x: nat, a: nat, b: nat)
    requires a < 64 && b < 64 && x < 16
    requires 0x800 <= (x * 64 + a) * 64 + b && Scalar((x * 64 + a) * 64 + b)
    ensures Encode((x * 64 + a) * 64 + b) == [0xE0 + x, 0x80 + a, 0x80 + b]
  {
    QuotientOf64(x, a);
    QuotientOf64(x * 64 + a, b);
  }

  lemma EncodeFour(x: nat, a: nat, b: nat, d: nat)
    requires a < 64 && b < 64 && d < 64 && x < 8
    requires 0x10000 <= ((x * 64 + a) * 64 + b) * 64 + d
    requires Scalar(((x * 64 + a) * 64 + b) * 64 + d)
    ensures Encode(((x * 64 + a) * 64 + b) * 64 + d) == [0xF0 + x, 0x80 + a, 0x80 + b, 0x80 + d]
  {
    QuotientOf64(x, a);
    QuotientOf64(x * 64 + a, b);
    QuotientOf64((x * 64 + a) * 64 + b, d);
  }

  /** An accepted sequence is the encoding of a scalar value. */
  lemma SequenceEncodes(s: Bytes, i: nat) returns (c: nat)
    requires i < |s| && Sequence(s, i).Some?
    ensures Scalar(c) && i + Sequence(s, i).value <= |s|
    ensures s[i..i + Sequence(s, i).value] == Encode(c)
  {
    if s[i] < 0x80 {
      c := s[i];
    } else {
      hide Encode;
      var l := ReadLead(s[i]);
      var x := l.bits;
      TailInside(s, i + 1, l.need, x);
      c := ReadTail(s, i + 1, l.need, x).value;
      var a := s[i + 1] - 0x80;
      if l.need == 1 {
        assert ReadTail(s, i + 2, 0, x * 64 + a) == Some(c);
        EncodeTwo(x, a);
      } else if l.need == 2 {
        ThreeBytes(s, i, x, c);
      } else {
        FourBytes(s, i, x, c);
      }
    }
  }

  lemma ThreeBytes(s: Bytes, i: nat, x: nat, c: nat)
    requires i + 3 <= |s| && s[i] == 0xE0 + x < 0xF0 && Continues(s[i + 1]) && Continues(s[i + 2])
    requires ReadTail(s, i + 1, 2, x) == Some(c) && c >= 0x800 && Scalar(c)
    ensures s[i..i + 3] == Encode(c)
  {
    hide Encode;
    var a, b := s[i + 1] - 0x80, s[i + 2] - 0x80;
    assert ReadTail(s, i + 2, 1, x * 64 + a) == Some(c);
    assert ReadTail(s, i + 3, 0, (x * 64 + a) * 64 + b) == Some(c);
    EncodeThree(x, a, b);
  }

  lemma FourBytes(s: Bytes, i: nat, x: nat, c: nat)
    requires i + 4 <= |s| && s[i] == 0xF0 + x < 0xF8
    requires Continues(s[i + 1]) && Continues(s[i + 2]) && Continues(s[i + 3])
    requires ReadTail(s, i + 1, 3, x) == Some(c) && c >= 0x10000 && Scalar(c)
    ensures s[i..i + 4] == Encode(c)
  {
    hide Encode;
    var a, b, d := s[i + 1] - 0x80, s[i + 2] - 0x80, s[i + 3] - 0x80;
    assert ReadTail(s, i + 2, 2, x * 64 + a) == Some(c);
    assert ReadTail(s, i + 3, 1, (x * 64 + a) * 64 + b) == Some(c);
    assert ReadTail(s, i + 4, 0, ((x * 64 + a) * 64 + b) * 64 + d) == Some(c);
    EncodeFour(x, a, b, d);
  }

  /** The encoding of a scalar value, but for NUL, is accepted as one sequence. */
  lemma EncodingAccepted(s: Bytes, i: nat, c: nat)
    requires i < |s| && Scalar(c) && Encode(c) <= s[i..]
    ensures Sequence(s, i) == Some(|Encode(c)|)
  {
    var b := Encode(c);
    assert forall j :: 0 <= j < |b| ==> s[i + j] == s[i..][j] == b[j];
    if c >= 0x80 {
      var l := ReadLead(s[i]);
      if c < 0x800 {
        assert ReadTail(s, i + 1, 1, l.bits) == ReadTail(s, i + 2, 0, c);
      } else if c < 0x10000 {
        assert ReadTail(s, i + 2, 1, c / 64) == ReadTail(s, i + 3, 0, c);
        assert ReadTail(s, i + 1, 2, l.bits) == ReadTail(s, i + 2, 1, c / 64);
      } else {
        assert ReadTail(s, i + 3, 1, c / 64) == ReadTail(s, i + 4, 0, c);
        assert ReadTail(s, i + 2, 2, c / 64 / 64) == ReadTail(s, i + 3, 1, c / 64);
        assert ReadTail(s, i + 1, 3, l.bits) == ReadTail(s, i + 2, 2, c / 64 / 64);
      }
    }
  }

  lemma {:induction false} ValidDecodes(s: Bytes, i: nat) returns (cs: seq<nat>)
    requires i <= |s| && ValidFrom(s, i)
    ensures AllScalar(cs) && s[i..] == EncodeAll(cs)
    decreases |s| - i
  {
    hide Sequence, Encode;
    if i == |s| {
      cs := [];
    } else {
      var n := Sequence(s, i).value;
      var c := SequenceEncodes(s, i);
      var rest := ValidDecodes(s, i + n);
      cs := [c] + rest;
      assert s[i..] == s[i..i + n] + s[i + n..];
      assert cs[1..] == rest;
    }
  }

  lemma {:induction false} EncodingsValid(s: Bytes, i: nat, cs: seq<nat>)
    requires i <= |s| && AllScalar(cs) && s[i..] == EncodeAll(cs)
    ensures ValidFrom(s, i)
    decreases |cs|
  {
    hide Sequence, Encode;
    if cs != [] {
      var b := Encode(cs[0]);
      assert s[i..] == b + EncodeAll(cs[1..]);
      EncodingAccepted(s, i, cs[0]);
      assert s[i + |b|..] == s[i..][|b|..] == EncodeAll(cs[1..]);
      EncodingsValid(s, i + |b|, cs[1..]);
    }
  }

  /** The check accepts exactly the encodings of sequences of Unicode scalar values. */
  lemma ValidIff(s: Bytes)
    ensures Valid(s) <==> exists cs: seq<nat> :: AllScalar(cs) && s == EncodeAll(cs)
  {
    assert s[0..] == s;
    if Valid(s) { var cs := ValidDecodes(s, 0); }
    if cs: seq<nat> :| AllScalar(cs) && s == EncodeAll(cs) { EncodingsValid(s, 0, cs); }
  }

  /** The value that a sequence stands for. */
  function ValueOf(b: Bytes): int
    requires 1 <= |b| <= 4
  {
    if |b| == 1 then b[0]
    else if |b| == 2 then Bits(b[0], 0xC0) * 64 + Bits(b[1], 0x80)
    else if |b| == 3 then
      (Bits(b[0], 0xE0) * 64 + Bits(b[1], 0x80)) * 64 + Bits(b[2], 0x80)
    else
      ((Bits(b[0], 0xF0) * 64 + Bits(b[1], 0x80)) * 64 + Bits(b[2], 0x80)) * 64 + Bits(b[3], 0x80)
  }

  function Bits(c: byte, base: int): int { c as int - base }

  lemma EncodeReadsBack(c: nat)
    requires Scalar(c)
    ensures |Encode(c)| <= 4 && ValueOf(Encode(c)) == c
  {
  }

  lemma SameHead(a: nat, b: nat, s: Bytes)
    requires Scalar(a) && Scalar(b) && Encode(a) <= s && Encode(b) <= s
    ensures a == b
  {
    hide Encode, ValueOf, Sequence;
    assert s[0..] == s;
    EncodingAccepted(s, 0, a);
    EncodingAccepted(s, 0, b);
    assert Encode(a) == s[..|Encode(a)|] == Encode(b);
    EncodeReadsBack(a);
    EncodeReadsBack(b);
  }

  /** A string is the encoding of at most one sequence of scalar values. */
  lemma {:induction false} EncodeAllInjective(a: seq<nat>, b: seq<nat>)
    requires AllScalar(a) && AllScalar(b) && EncodeAll(a) == EncodeAll(b)
    ensures a == b
  {
    hide Encode;
    if a != [] && b != [] {
      var s := EncodeAll(a);
      assert s[0..] == s;
      SameHead(a[0], b[0], s);
      var n := |Encode(a[0])|;
      assert EncodeAll(a[1..]) == s[n..] == EncodeAll(b[1..]);
      EncodeAllInjective(a[1..], b[1..]);
      assert a == [a[0]] + a[1..] && b == [b[0]] + b[1..];
    }
  }

  // ---------------------------------------------------------------- the check

  /** otlp_str_is_utf8 on the string of `n` bytes that stands in `buf` before its terminator */
  method IsUtf8(buf: array<byte>, n: nat) returns (ok: bool)
    requires n < buf.Length && buf[n] == 0 && CString(buf[..n])
    ensures ok == Valid(buf[..n])
  {
    ghost var s := buf[..n];
    var p := 0;
    while buf[p] != 0
      invariant 0 <= p <= n && Valid(s) == ValidFrom(s, p)
      decreases n - p
    {
      var c := buf[p];
      if c < 0x80 {
        p := p + 1;
      } else {
        var l := ReadLead(c);
        if l.BadLead? { return false; }
        var cp, i := l.bits, 0;
        while i < l.need
          invariant 0 <= i <= l.need && p + i < n && cp >= 0
          invariant ReadTail(s, p + 1, l.need, l.bits) == ReadTail(s, p + 1 + i, l.need - i, cp)
        {
          var cc := buf[p + 1 + i];
          if !Continues(cc) { return false; }
          cp := cp * 64 + (cc - 0x80);
          i := i + 1;
        }
        if cp < l.least || (0xD800 <= cp <= 0xDFFF) || cp > 0x10FFFF { return false; }
        p := p + l.need + 1;
      }
    }
    return true;
  }
}
