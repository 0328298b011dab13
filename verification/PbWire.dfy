/**
 The protobuf wire format as src/protobuf_encode.c writes it and src/protobuf_decode.c reads
 it, on byte sequences. A reader works on the bytes that are left: what it consumed is gone
 from `rest`, on failure too, because two callers look at where a failed read stopped.
 */
module PbWire {
  import opened Common

  /** Bytes that lie in memory: their length is a size_t. */
  type CBytes = s: seq<byte> | |s| <= SIZE_MAX

  const WIRE_VARINT: nat := 0
  const WIRE_FIXED64: nat := 1
  const WIRE_LEN: nat := 2
  const WIRE_FIXED32: nat := 5

  // ---------------------------------------------------------------- varints

  function EncVarint(v: nat): (r: Bytes)
    ensures r != []
  {
    if v < 128 then [v] else [v % 128 + 128] + EncVarint(v / 128)
  }

  datatype VarintResult = Varint(v: nat, rest: Bytes) | BadVarint(rest: Bytes)

  /** At most `left` more bytes; the tenth byte of a varint has room for one bit only. */
  function ReadVarintBytes(s: Bytes, left: nat): (r: VarintResult)
    requires 1 <= left <= 10
    ensures |r.rest| <= |s| && r.rest == s[|s| - |r.rest|..]
    ensures r.Varint? ==> |r.rest| < |s|
    decreases |s|
  {
    if s == [] then BadVarint([])
    else if s[0] < 128 then Varint(if left == 1 then s[0] % 2 else s[0], s[1..])
    else if left == 1 then BadVarint(s[1..])
    else match ReadVarintBytes(s[1..], left - 1)
      case BadVarint(rest) => BadVarint(rest)
      case Varint(v, rest) => Varint(s[0] % 128 + 128 * v, rest)
  }

  function ReadVarint(s: Bytes): VarintResult {
    ReadVarintBytes(s, 10)
  }

  /** Values that fit the bits `left` varint bytes can carry. */
  function VarintLimit(left: nat): (r: nat)
    requires 1 <= left <= 10
    ensures r >= 2
  {
    if left == 1 then 2 else 128 * VarintLimit(left - 1)
  }

  lemma VarintLimits()
    ensures VarintLimit(10) == UINT64_RANGE
  {
    assert VarintLimit(4) == 2 * 128 * 128 * 128;
    assert VarintLimit(7) == 2 * 128 * 128 * 128 * 128 * 128 * 128;
    assert VarintLimit(10) == 2 * 128 * 128 * 128 * 128 * 128 * 128 * 128 * 128 * 128;
  }

  /** One more byte in front: seven low bits and the continuation bit. */
  lemma ContinuationByte(low: nat, tail: Bytes, left: nat)
    requires low < 128 && 2 <= left <= 10 && ReadVarintBytes(tail, left - 1).Varint?
    ensures var r := ReadVarintBytes(tail, left - 1);
      ReadVarintBytes([low + 128] + tail, left) == Varint(low + 128 * r.v, r.rest)
  {
    var s := [low + 128] + tail;
    assert s[1..] == tail;
    assert (low + 128) % 128 == low;
  }

  lemma {:induction false} VarintBytesRoundTrip(v: nat, left: nat, rest: Bytes)
    requires 1 <= left <= 10 && v < VarintLimit(left)
    ensures ReadVarintBytes(EncVarint(v) + rest, left) == Varint(v, rest)
    ensures |EncVarint(v)| <= left
    decreases left
  {
    var s := EncVarint(v) + rest;
    if v < 128 {
      assert s == [v] + rest;
      assert s[1..] == rest;
    } else {
      var low, high := v % 128, v / 128;
      var tail := EncVarint(high) + rest;
      assert s == [low + 128] + tail;
      assert left > 1 && high < VarintLimit(left - 1);
      VarintBytesRoundTrip(high, left - 1, rest);
      ContinuationByte(low, tail, left);
    }
  }

  /** Every 64-bit value is read back, from at most ten bytes, and nothing else is consumed. */
  lemma VarintRoundTrip(v: nat, rest: Bytes)
    requires v < UINT64_RANGE
    ensures ReadVarint(EncVarint(v) + rest) == Varint(v, rest)
    ensures |EncVarint(v)| <= 10
  {
    VarintLimits();
    VarintBytesRoundTrip(v, 10, rest);
  }

  lemma {:induction false} ReadVarintBound(s: Bytes, left: nat)
    requires 1 <= left <= 10
    ensures ReadVarintBytes(s, left).Varint? ==> ReadVarintBytes(s, left).v < VarintLimit(left)
    decreases left
  {
    if s != [] && s[0] >= 128 && left > 1 { ReadVarintBound(s[1..], left - 1); }
  }

  lemma ReadVarintIs64Bit(s: Bytes)
    ensures ReadVarint(s).Varint? ==> ReadVarint(s).v < UINT64_RANGE
  {
    VarintLimits();
    ReadVarintBound(s, 10);
  }

  // ---------------------------------------------------------------- fixed-width values

  function EncFixed(v: nat, n: nat): (r: Bytes)
    ensures |r| == n
  {
    if n == 0 then [] else [v % 256] + EncFixed(v / 256, n - 1)
  }

  function DecFixed(s: Bytes): nat {
    if s == [] then 0 else s[0] + 256 * DecFixed(s[1..])
  }

  function FixedLimit(n: nat): nat {
    if n == 0 then 1 else 256 * FixedLimit(n - 1)
  }

  lemma FixedLimits()
    ensures FixedLimit(8) == UINT64_RANGE && FixedLimit(4) == UINT32_RANGE
  {
    assert FixedLimit(4) == 256 * 256 * 256 * 256;
    assert FixedLimit(6) == 256 * 256 * FixedLimit(4);
    assert FixedLimit(8) == 256 * 256 * FixedLimit(6);
  }

  lemma {:induction false} FixedRoundTrip(v: nat, n: nat)
    requires v < FixedLimit(n)
    ensures DecFixed(EncFixed(v, n)) == v
  {
    if n > 0 { FixedRoundTrip(v / 256, n - 1); }
  }

  // ---------------------------------------------------------------- keys

  function EncKey(field: nat, wireType: nat): Bytes {
    EncVarint(field * 8 + wireType)
  }

  datatype KeyResult = Key(field: nat, wireType: nat, rest: Bytes) | NoKey(rest: Bytes)

  /** `otlp_pb_read_key`: a field number of zero (after truncation to 32 bits) is refused. */
  function ReadKey(s: Bytes): (r: KeyResult)
    ensures |r.rest| <= |s| && r.rest == s[|s| - |r.rest|..]
    ensures r.Key? ==> |r.rest| < |s| && 1 <= r.field < UINT32_RANGE && r.wireType < 8
  {
    match ReadVarint(s)
    case BadVarint(rest) => NoKey(rest)
    case Varint(key, rest) =>
      var field := key / 8 % UINT32_RANGE;
      if field == 0 then NoKey(rest) else Key(field, key % 8, rest)
  }

  lemma KeyParts(field: nat, wireType: nat)
    requires 1 <= field < UINT32_RANGE && wireType < 8
    ensures (field * 8 + wireType) / 8 % UINT32_RANGE == field
    ensures (field * 8 + wireType) % 8 == wireType
  {
  }

  lemma KeyRoundTrip(field: nat, wireType: nat, rest: Bytes)
    requires 1 <= field < UINT32_RANGE && wireType < 8
    ensures ReadKey(EncKey(field, wireType) + rest) == Key(field, wireType, rest)
  {
    VarintRoundTrip(field * 8 + wireType, rest);
    KeyParts(field, wireType);
  }

  // ---------------------------------------------------------------- values

  datatype WireValue =
    | VarintV(v: nat)
    | Fixed64V(v: nat)
    | LenV(bytes: Bytes)
    | Fixed32V(v: nat)

  function WireType(w: WireValue): nat {
    match w
    case VarintV(_) => WIRE_VARINT
    case Fixed64V(_) => WIRE_FIXED64
    case LenV(_) => WIRE_LEN
    case Fixed32V(_) => WIRE_FIXED32
  }

  predicate ValidValue(w: WireValue) {
    match w
    case VarintV(v) => v < UINT64_RANGE
    case Fixed64V(v) => v < UINT64_RANGE
    case LenV(b) => |b| <= SIZE_MAX
    case Fixed32V(v) => v < UINT32_RANGE
  }

  function EncValue(w: WireValue): Bytes {
    match w
    case VarintV(v) => EncVarint(v)
    case Fixed64V(v) => EncFixed(v, 8)
    case LenV(b) => EncVarint(|b|) + b
    case Fixed32V(v) => EncFixed(v, 4)
  }

  datatype ValueResult = Value(value: WireValue, rest: Bytes) | BadValue

  /** The value of the current field, by wire type: the reader that matches it. Wire types 3
      and 4 (groups), 6 and 7 are refused. */
  function ReadValue(s: Bytes, wireType: nat): (r: ValueResult)
    ensures r.Value? ==> |r.rest| <= |s| && r.rest == s[|s| - |r.rest|..]
    ensures r.Value? && r.value.LenV? ==> |r.value.bytes| + |r.rest| < |s|
  {
    if wireType == WIRE_VARINT then
      match ReadVarint(s)
      case BadVarint(_) => BadValue
      case Varint(v, rest) => Value(VarintV(v), rest)
    else if wireType == WIRE_FIXED64 then
      if |s| < 8 then BadValue else Value(Fixed64V(DecFixed(s[..8])), s[8..])
    else if wireType == WIRE_LEN then
      match ReadVarint(s)
      case BadVarint(_) => BadValue
      case Varint(n, rest) =>
        if n > |rest| then BadValue else Value(LenV(rest[..n]), rest[n..])
    else if wireType == WIRE_FIXED32 then
      if |s| < 4 then BadValue else Value(Fixed32V(DecFixed(s[..4])), s[4..])
    else BadValue
  }

  lemma LenRoundTrip(b: Bytes, rest: Bytes)
    requires |b| <= SIZE_MAX
    ensures ReadValue(EncValue(LenV(b)) + rest, WIRE_LEN) == Value(LenV(b), rest)
  {
    VarintRoundTrip(|b|, b + rest);
    assert EncValue(LenV(b)) + rest == EncVarint(|b|) + (b + rest);
    assert (b + rest)[..|b|] == b && (b + rest)[|b|..] == rest;
  }

  lemma FixedValueRoundTrip(v: nat, n: nat, rest: Bytes)
    requires v < FixedLimit(n)
    ensures var s := EncFixed(v, n) + rest;
      |s| >= n && DecFixed(s[..n]) == v && s[n..] == rest
  {
    FixedRoundTrip(v, n);
    assert (EncFixed(v, n) + rest)[..n] == EncFixed(v, n);
  }

  lemma ValueRoundTrip(w: WireValue, rest: Bytes)
    requires ValidValue(w)
    ensures ReadValue(EncValue(w) + rest, WireType(w)) == Value(w, rest)
  {
    FixedLimits();
    match w
    case VarintV(v) => VarintRoundTrip(v, rest);
    case Fixed64V(v) => FixedValueRoundTrip(v, 8, rest);
    case LenV(b) => LenRoundTrip(b, rest);
    case Fixed32V(v) => FixedValueRoundTrip(v, 4, rest);
  }

  // ---------------------------------------------------------------- messages as field lists

  datatype Field = Field(number: nat, value: WireValue)

  predicate ValidField(f: Field) {
    1 <= f.number < UINT32_RANGE && ValidValue(f.value)
  }

  function EncField(f: Field): (r: Bytes)
    ensures r != []
  {
    EncKey(f.number, WireType(f.value)) + EncValue(f.value)
  }

  function EncFields(fs: seq<Field>): Bytes {
    if fs == [] then [] else EncField(fs[0]) + EncFields(fs[1..])
  }

  datatype FieldResult = OneField(field: Field, rest: Bytes) | NoField

  function ReadField(s: Bytes): (r: FieldResult)
    ensures r.OneField? ==> |r.rest| < |s|
    ensures r.OneField? && r.field.value.LenV? ==> |r.field.value.bytes| + |r.rest| < |s|
  {
    match ReadKey(s)
    case NoKey(_) => NoField
    case Key(number, wireType, rest) =>
      match ReadValue(rest, wireType)
      case BadValue => NoField
      case Value(value, after) => OneField(Field(number, value), after)
  }

  /** A walk with the reader over a whole message; None when it does not end exactly at the
      end of the bytes. */
  function Walk(s: Bytes): (r: Option<seq<Field>>)
    ensures r.Some? ==> |r.value| <= |s|
    ensures r.Some? ==> forall i :: 0 <= i < |r.value| && r.value[i].value.LenV? ==> |r.value[i].value.bytes| < |s|
    decreases |s|
  {
    if s == [] then Some([])
    else match ReadField(s)
      case NoField => None
      case OneField(f, rest) =>
        match Walk(rest)
        case None => None
        case Some(fs) => Some([f] + fs)
  }

  lemma FieldRoundTrip(f: Field, rest: Bytes)
    requires ValidField(f)
    ensures ReadField(EncField(f) + rest) == OneField(f, rest)
  {
    var tail := EncValue(f.value) + rest;
    assert EncField(f) + rest == EncKey(f.number, WireType(f.value)) + tail;
    KeyRoundTrip(f.number, WireType(f.value), tail);
    ValueRoundTrip(f.value, rest);
  }

  /** A walk over encoded fields yields exactly those fields. */
  lemma {:induction false} WalkRoundTrip(fs: seq<Field>)
    requires forall f :: f in fs ==> ValidField(f)
    ensures Walk(EncFields(fs)) == Some(fs)
  {
    if fs != [] {
      FieldRoundTrip(fs[0], EncFields(fs[1..]));
      WalkRoundTrip(fs[1..]);
      assert [fs[0]] + fs[1..] == fs;
    }
  }

  lemma {:induction false} EncFieldsConcat(a: seq<Field>, b: seq<Field>)
    ensures EncFields(a + b) == EncFields(a) + EncFields(b)
  {
    if a == [] {
      assert a + b == b;
    } else {
      assert (a + b)[1..] == a[1..] + b;
      EncFieldsConcat(a[1..], b);
    }
  }

  lemma {:induction false} EncFieldsLongest(fs: seq<Field>, i: nat)
    requires i < |fs|
    ensures |EncField(fs[i])| <= |EncFields(fs)|
  {
    if i > 0 { EncFieldsLongest(fs[1..], i - 1); }
  }

  // ---------------------------------------------------------------- default omission

  /** The typed field helpers leave out a zero value, and an empty string, byte string or
      sub-message. */
  function VarintField(n: nat, v: nat): seq<Field> {
    if v == 0 then [] else [Field(n, VarintV(v))]
  }

  function Fixed64Field(n: nat, v: nat): seq<Field> {
    if v == 0 then [] else [Field(n, Fixed64V(v))]
  }

  function Fixed32Field(n: nat, v: nat): seq<Field> {
    if v == 0 then [] else [Field(n, Fixed32V(v))]
  }

  function LenField(n: nat, b: Bytes): seq<Field> {
    if b == [] then [] else [Field(n, LenV(b))]
  }

  lemma EncOneField(f: Field)
    ensures EncFields([f]) == EncField(f)
  {
    assert [f][1..] == [];
  }
}
