/**
 The decoder of a PartialSuccess response (src/exporter_otel.c, lines 239 to 327): what it makes
 of any bytes, how it merges repeated fields, and where it takes a broken end for a clean one.
 */
module PartialSuccess {
  import opened Common
  import opened PbWire
  import PbDecode
  import AV = AnyValueModel

  const REJECTED: nat := 1
  const ERROR_MESSAGE: nat := 2
  const PARTIAL_SUCCESS: nat := 1

  /** `rejected` as a signed number, and the last message; None stands for a NULL pointer. */
  datatype Report = Report(rejected: AV.int64, message: Option<Bytes>)

  const NO_REPORT := Report(0, None)

  /** One field of the submessage; unknown numbers and wire types change nothing. */
  function Apply(r: Report, f: Field): Report {
    if f.number == REJECTED && f.value.VarintV? && f.value.v < UINT64_RANGE then
      r.(rejected := AV.FromUint64(f.value.v))
    else if f.number == ERROR_MESSAGE && f.value.LenV? then r.(message := Some(f.value.bytes))
    else r
  }

  function ApplyAll(r: Report, fs: seq<Field>): Report
    decreases |fs|
  {
    if fs == [] then r else ApplyAll(Apply(r, fs[0]), fs[1..])
  }

  /** The loop of decode_partial_success_sub: a key that cannot be read ends it. */
  function DecodeSub(s: Bytes, r: Report): Option<Report>
    decreases |s|
  {
    match ReadKey(s)
    case NoKey(rest) => if rest == [] then Some(r) else None
    case Key(number, wireType, rest) =>
      match ReadValue(rest, wireType)
      case BadValue => None
      case Value(value, after) => DecodeSub(after, Apply(r, Field(number, value)))
  }

  /** The loop of the whole response; `found` says whether a submessage was seen. */
  function DecodeFrom(s: Bytes, r: Report, found: bool): Option<Report>
    decreases |s|
  {
    match ReadKey(s)
    case NoKey(rest) => if rest == [] && found then Some(r) else None
    case Key(number, wireType, rest) =>
      match ReadValue(rest, wireType)
      case BadValue => None
      case Value(value, after) =>
        if number == PARTIAL_SUCCESS && value.LenV? then
          match DecodeSub(value.bytes, r)
          case None => None
          case Some(r') => DecodeFrom(after, r', true)
        else DecodeFrom(after, r, found)
  }

  function Decode(body: Bytes): Option<Report> { DecodeFrom(body, NO_REPORT, false) }

  // ---------------------------------------------------------------- what is accepted

  /** The fields that can be read from the front, and the bytes that are left. */
  function Fields(s: Bytes): seq<Field>
    decreases |s|
  {
    match ReadField(s)
    case NoField => []
    case OneField(f, rest) => [f] + Fields(rest)
  }

  function Tail(s: Bytes): (t: Bytes)
    decreases |s|
  {
    match ReadField(s)
    case NoField => s
    case OneField(f, rest) => Tail(rest)
  }

  /** A key that is cut off by the end, or a last key with field number 0: a read that fails
      at the end of the buffer. The empty rest is one. */
  predicate EndsInKey(t: Bytes) { ReadKey(t) == NoKey([]) }

  /** The submessage is accepted exactly when what follows its last whole field ends in a key. */
  lemma {:induction false} SubAcceptedIff(s: Bytes, r: Report)
    ensures DecodeSub(s, r) ==
      if EndsInKey(Tail(s)) then Some(ApplyAll(r, Fields(s))) else None
    decreases |s|
  {
    hide ReadKey, ReadValue, Apply;
    match ReadField(s)
    case NoField =>
      assert Tail(s) == s && Fields(s) == [];
    case OneField(f, rest) =>
      SubAcceptedIff(rest, Apply(r, f));
      assert Fields(s)[1..] == Fields(rest);
  }

  /** A strict walk accepts it exactly when nothing follows its last whole field. */
  lemma {:induction false} WalkIff(s: Bytes)
    ensures Walk(s) == if Tail(s) == [] then Some(Fields(s)) else None
    decreases |s|
  {
    hide ReadField;
    if s == [] {
      EmptyHasNoField();
    } else if ReadField(s).OneField? {
      WalkIff(ReadField(s).rest);
    }
  }

  lemma EmptyHasNoField()
    ensures ReadField([]) == NoField && ReadKey([]) == NoKey([])
  {
  }

  /** So a well-formed submessage means what its fields say. */
  lemma {:induction false} WellFormedSub(s: Bytes, r: Report)
    requires Walk(s).Some?
    ensures DecodeSub(s, r) == Some(ApplyAll(r, Walk(s).value))
  {
    WalkIff(s);
    SubAcceptedIff(s, r);
    EmptyHasNoField();
  }

  /** The decoder differs from the strict walk exactly on a rest that is a broken last key. */
  lemma {:induction false} LenientIff(s: Bytes, r: Report)
    ensures DecodeSub(s, r).Some? != Walk(s).Some? <==> Tail(s) != [] && EndsInKey(Tail(s))
  {
    WalkIff(s);
    SubAcceptedIff(s, r);
    EmptyHasNoField();
  }

  /** A truncated key and a zero key at the end are taken for a clean end. */
  lemma BrokenEndsAccepted()
    ensures Walk([0x80]) == None && DecodeSub([0x80], NO_REPORT) == Some(NO_REPORT)
    ensures Walk([0]) == None && DecodeSub([0], NO_REPORT) == Some(NO_REPORT)
  {
    BrokenEnd([0x80]);
    BrokenEnd([0]);
  }

  lemma BrokenEnd(s: Bytes)
    requires |s| == 1 && s[0] in {0, 0x80}
    ensures Walk(s) == None && DecodeSub(s, NO_REPORT) == Some(NO_REPORT)
  {
    OneByteVarint(s);
    assert ReadKey(s) == NoKey([]);
    assert ReadField(s) == NoField;
    WalkIff(s);
    SubAcceptedIff(s, NO_REPORT);
  }

  lemma OneByteVarint(s: Bytes)
    requires |s| == 1
    ensures ReadVarint(s) == if s[0] < 128 then Varint(s[0], []) else BadVarint([])
  {
    var left: nat := 10;
    assert s[1..] == [];
    assert ReadVarintBytes([], left - 1) == BadVarint([]);
  }

  // ---------------------------------------------------------------- the whole response

  predicate IsPartial(f: Field) { f.number == 1 && f.value.LenV? }

  predicate AnyIsPartial(fs: seq<Field>) { exists i :: 0 <= i < |fs| && IsPartial(fs[i]) }

  /** Every submessage among the fields ends in a key. */
  predicate SubsEndInKey(fs: seq<Field>) {
    forall i :: 0 <= i < |fs| && IsPartial(fs[i]) ==> EndsInKey(Tail(fs[i].value.bytes))
  }

  /** The whole fields of all submessages, in order. */
  function SubFields(fs: seq<Field>): seq<Field> {
    if fs == [] then []
    else (if IsPartial(fs[0]) then Fields(fs[0].value.bytes) else []) + SubFields(fs[1..])
  }

  lemma SubsEndFirst(f: Field, fs: seq<Field>)
    ensures SubsEndInKey([f] + fs) <==>
      (IsPartial(f) ==> EndsInKey(Tail(f.value.bytes))) && SubsEndInKey(fs)
    ensures AnyIsPartial([f] + fs) <==> IsPartial(f) || AnyIsPartial(fs)
    ensures SubFields([f] + fs) ==
      (if IsPartial(f) then Fields(f.value.bytes) else []) + SubFields(fs)
  {
    hide IsPartial, EndsInKey;
    var all := [f] + fs;
    assert all[1..] == fs && all[0] == f;
    assert forall i :: 0 <= i < |fs| ==> fs[i] == all[i + 1];
  }

  /**
   A response of any bytes is accepted exactly when one of its whole fields is a PartialSuccess,
   what follows the last whole field ends in a key, and so does every submessage; and then it means
   the whole fields of its submessages.
   */
  lemma {:induction false} ResponseAcceptedIff(s: Bytes, r: Report, found: bool)
    ensures DecodeFrom(s, r, found) ==
      if EndsInKey(Tail(s)) && SubsEndInKey(Fields(s)) && (found || AnyIsPartial(Fields(s))) then
        Some(ApplyAll(r, SubFields(Fields(s))))
      else None
    decreases |s|
  {
    hide ReadKey, ReadValue, DecodeSub, SubsEndInKey, AnyIsPartial, ApplyAll;
    match ReadField(s)
    case NoField =>
      assert Tail(s) == s && Fields(s) == [] && SubFields([]) == [];
      NoFields(r);
    case OneField(f, rest) =>
      assert Fields(s) == [f] + Fields(rest) && Tail(s) == Tail(rest);
      hide DecodeFrom, Fields, Tail, EndsInKey, SubFields;
      DecodeField(s, r, found, f, rest);
      SubsEndFirst(f, Fields(rest));
      if IsPartial(f) {
        SubAcceptedIff(f.value.bytes, r);
        var fs := Fields(f.value.bytes);
        ResponseAcceptedIff(rest, ApplyAll(r, fs), true);
        ApplyConcat(r, fs, SubFields(Fields(rest)));
      } else {
        ResponseAcceptedIff(rest, r, found);
        assert [] + SubFields(Fields(rest)) == SubFields(Fields(rest));
      }
  }

  lemma NoFields(r: Report)
    ensures SubsEndInKey([]) && !AnyIsPartial([]) && ApplyAll(r, []) == r
  {
  }

  // ---------------------------------------------------------------- what is reported

  /** A rejected count, and an error message. */
  predicate IsRejected(f: Field) { f.number == 1 && f.value.VarintV? }
  predicate IsMessage(f: Field) { f.number == 2 && f.value.LenV? }

  /** The 64 bits of a varint as a signed number. */
  function Signed(v: nat): int {
    if v < 0x8000_0000_0000_0000 then v else v - 0x1_0000_0000_0000_0000
  }

  predicate NoRejected(fs: seq<Field>, from: nat) {
    forall j :: from <= j < |fs| ==> !IsRejected(fs[j])
  }

  predicate NoMessage(fs: seq<Field>, from: nat) {
    forall j :: from <= j < |fs| ==> !IsMessage(fs[j])
  }

  /** The last count of the fields is `x`; without one it is 0. */
  predicate LastRejected(fs: seq<Field>, x: int) {
    (NoRejected(fs, 0) ==> x == 0) &&
    forall i :: 0 <= i < |fs| && IsRejected(fs[i]) && NoRejected(fs, i + 1) ==>
      x == Signed(fs[i].value.v)
  }

  /** The last message of the fields is `m`; without one it is None. */
  predicate LastMessage(fs: seq<Field>, m: Option<Bytes>) {
    (NoMessage(fs, 0) ==> m == None) &&
    forall i :: 0 <= i < |fs| && IsMessage(fs[i]) && NoMessage(fs, i + 1) ==>
      m == Some(fs[i].value.bytes)
  }

  predicate Varints64(fs: seq<Field>) {
    forall i :: 0 <= i < |fs| && fs[i].value.VarintV? ==> fs[i].value.v < UINT64_RANGE
  }

  lemma ApplyOne(r: Report, f: Field)
    requires f.value.VarintV? ==> f.value.v < UINT64_RANGE
    ensures Apply(r, f).rejected == if IsRejected(f) then Signed(f.value.v) else r.rejected
    ensures Apply(r, f).message == if IsMessage(f) then Some(f.value.bytes) else r.message
  {
  }

  /** The report of any fields holds their last count and their last message. */
  lemma {:induction false} ReportHoldsLast(fs: seq<Field>)
    requires Varints64(fs)
    ensures var r := ApplyAll(NO_REPORT, fs); LastRejected(fs, r.rejected) && LastMessage(fs, r.message)
    decreases |fs|
  {
    hide Apply, IsRejected, IsMessage;
    if fs != [] {
      var n := |fs| - 1;
      var init, f := fs[..n], fs[n];
      assert fs == init + [f];
      assert forall i :: 0 <= i < n ==> init[i] == fs[i];
      ReportHoldsLast(init);
      ApplyConcat(NO_REPORT, init, [f]);
      var r := ApplyAll(NO_REPORT, init);
      assert ApplyAll(r, [f]) == Apply(r, f) by { ApplySingle(r, f); }
      ApplyOne(r, f);
    }
  }

  lemma ApplySingle(r: Report, f: Field)
    ensures ApplyAll(r, [f]) == Apply(r, f)
  {
    hide Apply;
    assert [f][1..] == [];
  }

  /** Whatever the bytes, the varints of their fields fit 64 bits. */
  lemma {:induction false} FieldsAre64(s: Bytes)
    ensures Varints64(Fields(s))
    decreases |s|
  {
    hide ReadKey, ReadVarint;
    var r := ReadField(s);
    if r.OneField? {
      FieldsAre64(r.rest);
      assert Fields(s) == [r.field] + Fields(r.rest);
      var k := ReadKey(s);
      ReadVarintIs64Bit(k.rest);
    }
  }

  lemma PartialHasBytes(f: Field)
    requires IsPartial(f)
    ensures f.value.LenV?
  {
  }

  lemma {:induction false} SubFieldsAre64(fs: seq<Field>)
    ensures Varints64(SubFields(fs))
  {
    hide IsPartial, Fields;
    if fs != [] {
      SubFieldsAre64(fs[1..]);
      if IsPartial(fs[0]) {
        assert fs[0].value.LenV? by { PartialHasBytes(fs[0]); }
        FieldsAre64(fs[0].value.bytes);
      }
    }
  }

  /**
   What is reported of a response of any bytes: over the whole fields of all its submessages in
   order, the signed value of the last varint numbered 1 and the bytes of the last text numbered 2.
   */
  lemma ReportedIsLast(body: Bytes)
    requires Decode(body).Some?
    ensures var fs, r := SubFields(Fields(body)), Decode(body).value;
      LastRejected(fs, r.rejected) && LastMessage(fs, r.message)
  {
    hide DecodeFrom, Fields, SubFields, ApplyAll, LastRejected, LastMessage;
    ResponseAcceptedIff(body, NO_REPORT, false);
    SubFieldsAre64(Fields(body));
    ReportHoldsLast(SubFields(Fields(body)));
  }

  // ---------------------------------------------------------------- the strict reader

  /** A strict reader walks the response and every submessage to their ends. */
  predicate Strict(body: Bytes) {
    Walk(body).Some? && AnyIsPartial(Walk(body).value) &&
    forall i :: 0 <= i < |Walk(body).value| && IsPartial(Walk(body).value[i]) ==>
      Walk(Walk(body).value[i].value.bytes).Some?
  }

  /** Something is left at the end of the response or of a submessage. */
  predicate SomethingLeft(body: Bytes) {
    Tail(body) != [] ||
    exists i :: 0 <= i < |Fields(body)| && IsPartial(Fields(body)[i]) &&
      Tail(Fields(body)[i].value.bytes) != []
  }

  /** The decoder accepts what a strict reader does; it accepts more exactly where something is
      left at an end, and everything that is left is a broken last key. */
  lemma ResponseLenientIff(body: Bytes)
    ensures Strict(body) ==> Decode(body).Some?
    ensures Decode(body).Some? && !Strict(body) <==>
      AnyIsPartial(Fields(body)) && SomethingLeft(body) && EndsInKey(Tail(body)) &&
      SubsEndInKey(Fields(body))
  {
    hide DecodeFrom, ReadKey, ApplyAll, IsPartial, AnyIsPartial, Walk, Fields, Tail, SubFields;
    ResponseAcceptedIff(body, NO_REPORT, false);
    WalkIff(body);
    var fs := Fields(body);
    forall i | 0 <= i < |fs| && IsPartial(fs[i])
      ensures fs[i].value.LenV? &&
        (Walk(fs[i].value.bytes).Some? <==> Tail(fs[i].value.bytes) == [])
    {
      assert fs[i].value.LenV? by { PartialHasBytes(fs[i]); }
      WalkIff(fs[i].value.bytes);
    }
    EmptyHasNoField();
  }

  /** An empty PartialSuccess with a truncated key behind it. */
  lemma BrokenResponseAccepted()
    ensures Walk([10, 0, 0x80]) == None && Decode([10, 0, 0x80]) == Some(NO_REPORT)
  {
    hide ReadField, ReadKey, Walk, DecodeFrom, Fields, Tail, EncField, EncFields;
    var s: Bytes := [10, 0, 0x80];
    var f := Field(PARTIAL_SUCCESS, LenV([]));
    EncEmptyPartial();
    assert s == [10, 0] + [0x80];
    FieldRoundTrip(f, [0x80]);
    LoneKey();
    EmptyHasNoField();
    FieldsOf(s);
    FieldsOf([0x80]);
    FieldsOf([]);
    SubsEndFirst(f, []);
    NoFields(NO_REPORT);
    ResponseAcceptedIff(s, NO_REPORT, false);
    WalkIff(s);
  }

  lemma FieldsOf(s: Bytes)
    ensures match ReadField(s)
      case NoField => Fields(s) == [] && Tail(s) == s
      case OneField(f, rest) => Fields(s) == [f] + Fields(rest) && Tail(s) == Tail(rest)
  {
    hide ReadField;
  }

  lemma LoneKey()
    ensures ReadKey([0x80]) == NoKey([]) && ReadField([0x80]) == NoField
  {
    OneByteVarint([0x80]);
  }

  lemma EncEmptyPartial()
    ensures EncField(Field(PARTIAL_SUCCESS, LenV([]))) == [10, 0]
  {
  }

  // ---------------------------------------------------------------- merging

  /** A field of the response: a PartialSuccess with its fields, or anything else. */
  datatype Outer = Partial(sub: seq<Field>) | Other(f: Field)

  predicate AllValid(fs: seq<Field>) { forall i :: 0 <= i < |fs| ==> ValidField(fs[i]) }

  predicate OuterOk(o: Outer) {
    match o
    case Partial(sub) => AllValid(sub) && |EncFields(sub)| <= SIZE_MAX
    case Other(f) => ValidField(f) && !(f.number == PARTIAL_SUCCESS && f.value.LenV?)
  }

  function OuterField(o: Outer): Field {
    match o
    case Partial(sub) => Field(PARTIAL_SUCCESS, LenV(EncFields(sub)))
    case Other(f) => f
  }

  function OuterFields(os: seq<Outer>): seq<Field> {
    if os == [] then [] else [OuterField(os[0])] + OuterFields(os[1..])
  }

  /** The fields of all submessages in order. */
  function Merged(os: seq<Outer>): seq<Field> {
    if os == [] then []
    else (if os[0].Partial? then os[0].sub else []) + Merged(os[1..])
  }

  lemma {:induction false} ApplyConcat(r: Report, a: seq<Field>, b: seq<Field>)
    ensures ApplyAll(r, a + b) == ApplyAll(ApplyAll(r, a), b)
    decreases |a|
  {
    hide Apply;
    if a == [] {
      assert a + b == b;
    } else {
      assert (a + b)[1..] == a[1..] + b;
      ApplyConcat(Apply(r, a[0]), a[1..], b);
    }
  }

  lemma SubRoundTrip(fs: seq<Field>, r: Report)
    requires AllValid(fs)
    ensures DecodeSub(EncFields(fs), r) == Some(ApplyAll(r, fs))
  {
    WalkRoundTrip(fs);
    WellFormedSub(EncFields(fs), r);
  }

  /** One whole field is taken from the front. */
  lemma DecodeField(s: Bytes, r: Report, found: bool, f: Field, rest: Bytes)
    requires ReadField(s) == OneField(f, rest)
    ensures DecodeFrom(s, r, found) ==
      if f.number == PARTIAL_SUCCESS && f.value.LenV? then
        match DecodeSub(f.value.bytes, r)
        case None => None
        case Some(r') => DecodeFrom(rest, r', true)
      else DecodeFrom(rest, r, found)
  {
    hide ReadKey, ReadValue, DecodeSub;
  }

  predicate AllOuterOk(os: seq<Outer>) { forall i :: 0 <= i < |os| ==> OuterOk(os[i]) }

  predicate AnyPartial(os: seq<Outer>) { os != [] && (os[0].Partial? || AnyPartial(os[1..])) }

  /** One field of the response and what follows it. */
  lemma DecodeOuter(o: Outer, rest: Bytes, r: Report, found: bool)
    requires OuterOk(o)
    ensures DecodeFrom(EncField(OuterField(o)) + rest, r, found) ==
      if o.Partial? then DecodeFrom(rest, ApplyAll(r, o.sub), true) else DecodeFrom(rest, r, found)
  {
    hide DecodeFrom, DecodeSub, EncField, ReadField, EncFields, ApplyAll;
    FieldRoundTrip(OuterField(o), rest);
    DecodeField(EncField(OuterField(o)) + rest, r, found, OuterField(o), rest);
    if o.Partial? { SubRoundTrip(o.sub, r); }
  }

  lemma {:induction false} DecodeMerges(os: seq<Outer>, r: Report, found: bool)
    requires AllOuterOk(os)
    ensures DecodeFrom(EncFields(OuterFields(os)), r, found) ==
      if found || AnyPartial(os) then Some(ApplyAll(r, Merged(os))) else None
    decreases |os|
  {
    if os == [] {
      EmptyHasNoField();
    } else {
      var o, more := os[0], os[1..];
      assert OuterFields(os)[1..] == OuterFields(more);
      hide DecodeFrom, EncField, ApplyAll, OuterOk;
      DecodeOuter(o, EncFields(OuterFields(more)), r, found);
      if o.Partial? {
        DecodeMerges(more, ApplyAll(r, o.sub), true);
        ApplyConcat(r, o.sub, Merged(more));
      } else {
        DecodeMerges(more, r, found);
        assert Merged(os) == Merged(more);
      }
    }
  }

  /**
   Several PartialSuccess fields decode as one that holds all their fields in order, and other
   fields in between change nothing. Without any PartialSuccess there is no report.
   */
  lemma MergeTheorem(os: seq<Outer>)
    requires AllOuterOk(os) && |EncFields(Merged(os))| <= SIZE_MAX && AllValid(Merged(os))
    ensures Decode(EncFields(OuterFields(os))) ==
      if AnyPartial(os) then Decode(EncFields([OuterField(Partial(Merged(os)))])) else None
  {
    hide DecodeFrom, EncFields;
    DecodeMerges(os, NO_REPORT, false);
    var one := [Partial(Merged(os))];
    assert OuterFields(one) == [OuterField(one[0])];
    assert Merged(one) == Merged(os);
    DecodeMerges(one, NO_REPORT, false);
  }

  // ---------------------------------------------------------------- the decoder

  /** The message found: where it lies in the response body. */
  datatype Slice = NoSlice | Slice(start: nat, len: nat)

  ghost predicate Shows(body: Bytes, at: Slice, message: Option<Bytes>) {
    match at
    case NoSlice => message == None
    case Slice(start, len) => start + len <= |body| && message == Some(body[start..start + len])
  }

  /** The rejected count and the message, as the out-parameters hold them. */
  ghost predicate Holds(body: Bytes, rejected: AV.int64, at: Slice, r: Report) {
    r.rejected == rejected && Shows(body, at, r.message)
  }

  /** One field of the submessage `body[from..to]`, once its key is read. */
  method ReadSubField(reader: PbDecode.Reader, body: Bytes, from: nat, to: nat, number: nat,
      wireType: nat, rejected0: AV.int64, at0: Slice, ghost r0: Report)
    returns (ok: bool, rejected: AV.int64, at: Slice)
    requires from <= to <= |body| && reader.Valid() && reader.buf == body[from..to]
    requires Holds(body, rejected0, at0, r0)
    modifies reader`pos
    ensures reader.Valid() && reader.pos >= old(reader.pos)
    ensures var v := ReadValue(old(reader.Rest()), wireType);
      ok == v.Value? &&
      (ok ==>
        reader.Rest() == v.rest && Holds(body, rejected, at, Apply(r0, Field(number, v.value))))
  {
    hide ReadValue, ReadVarint;
    rejected, at := rejected0, at0;
    ghost var rest := reader.Rest();
    ValueKind(rest, wireType);
    if number == REJECTED && wireType == WIRE_VARINT {
      VarintValue(rest);
      var v;
      ok, v := reader.ReadVarint();
      if !ok { return; }
      rejected := AV.FromUint64(v);
    } else if number == ERROR_MESSAGE && wireType == WIRE_LEN {
      var start, len;
      ok, start, len := reader.ReadLen();
      if !ok { return; }
      at := Slice(from + start, len);
      SliceOfSlice(body, from, to, start, len);
    } else {
      ok := reader.Skip(wireType);
    }
  }

  /** decode_partial_success_sub on `body[from..to]` */
  method ReadSub(body: Bytes, from: nat, to: nat, rejected0: AV.int64, at0: Slice,
      ghost r0: Report)
    returns (ok: bool, rejected: AV.int64, at: Slice)
    requires from <= to <= |body| && Holds(body, rejected0, at0, r0)
    ensures match DecodeSub(body[from..to], r0)
      case None => !ok
      case Some(r) => ok && Holds(body, rejected, at, r)
  {
    hide ReadKey, ReadValue, DecodeSub, ReadVarint, Holds, Apply;
    var sub := body[from..to];
    var reader := new PbDecode.Reader(sub);
    rejected, at := rejected0, at0;
    ghost var r := r0;
    while true
      invariant reader.Valid() && reader.buf == sub && Holds(body, rejected, at, r)
      invariant DecodeSub(sub, r0) == DecodeSub(reader.Rest(), r)
      decreases |sub| - reader.pos
    {
      SubStep(reader.Rest(), r);
      var number, wireType;
      ok, number, wireType := reader.ReadKey();
      if !ok {
        return reader.pos >= |sub|, rejected, at;
      }
      ghost var value := ReadValue(reader.Rest(), wireType);
      ok, rejected, at := ReadSubField(reader, body, from, to, number, wireType, rejected, at, r);
      if !ok { return; }
      r := Apply(r, Field(number, value.value));
    }
  }

  lemma SliceOfSlice(body: Bytes, from: nat, to: nat, start: nat, len: nat)
    requires from <= to <= |body| && start + len <= to - from
    ensures body[from..to][start..start + len] == body[from + start..from + start + len]
  {
    var a, b := body[from..to][start..start + len], body[from + start..from + start + len];
    assert |a| == |b| && forall i :: 0 <= i < len ==> a[i] == b[i];
  }

  /** The kind of value that each wire type carries. */
  lemma ValueKind(s: Bytes, wireType: nat)
    ensures var v := ReadValue(s, wireType);
      v.Value? ==>
        (v.value.VarintV? <==> wireType == WIRE_VARINT) &&
        (v.value.LenV? <==> wireType == WIRE_LEN)
  {
  }

  lemma VarintValue(s: Bytes)
    ensures ReadValue(s, WIRE_VARINT) == match ReadVarint(s)
      case BadVarint(_) => BadValue
      case Varint(v, rest) => Value(VarintV(v), rest)
    ensures ReadVarint(s).Varint? ==> ReadVarint(s).v < UINT64_RANGE
  {
    ReadVarintIs64Bit(s);
  }

  /** One turn of the outer loop. */
  lemma DecodeStep(s: Bytes, r: Report, found: bool)
    ensures ReadKey(s).NoKey? ==>
      DecodeFrom(s, r, found) == if ReadKey(s).rest == [] && found then Some(r) else None
    ensures ReadKey(s).Key? ==>
      var k := ReadKey(s);
      var v := ReadValue(k.rest, k.wireType);
      (v.BadValue? ==> DecodeFrom(s, r, found) == None) &&
      (v.Value? && k.field == PARTIAL_SUCCESS && v.value.LenV? ==>
        var sub := DecodeSub(v.value.bytes, r);
        DecodeFrom(s, r, found) ==
          if sub.None? then None else DecodeFrom(v.rest, sub.value, true)) &&
      (v.Value? && !(k.field == PARTIAL_SUCCESS && v.value.LenV?) ==>
        DecodeFrom(s, r, found) == DecodeFrom(v.rest, r, found))
  {
    hide ReadKey, ReadValue, DecodeSub;
  }

  /** One turn of the inner loop. */
  lemma SubStep(s: Bytes, r: Report)
    ensures ReadKey(s).NoKey? ==>
      DecodeSub(s, r) == if ReadKey(s).rest == [] then Some(r) else None
    ensures ReadKey(s).Key? ==>
      var k := ReadKey(s);
      var v := ReadValue(k.rest, k.wireType);
      DecodeSub(s, r) ==
        if v.BadValue? then None else DecodeSub(v.rest, Apply(r, Field(k.field, v.value)))
  {
    hide ReadKey, ReadValue, Apply;
  }

  /** The last count and the last message of the submessages. */
  ghost predicate ReportsLast(body: Bytes, rejected: AV.int64, at: Slice) {
    var fs := SubFields(Fields(body));
    LastRejected(fs, rejected) && exists m :: LastMessage(fs, m) && Shows(body, at, m)
  }

  lemma NothingYet(body: Bytes)
    ensures Holds(body, 0, NoSlice, NO_REPORT)
  {
  }

  lemma HoldsLast(body: Bytes, rejected: AV.int64, at: Slice, r: Report)
    requires Decode(body) == Some(r) && Holds(body, rejected, at, r)
    ensures ReportsLast(body, rejected, at)
  {
    hide Decode, Fields, SubFields, LastRejected, LastMessage;
    ReportedIsLast(body);
  }

  /** otlp_exporter_otel_decode_partial_success; the message is a slice of the body. */
  method DecodePartialSuccess(body: Bytes) returns (ok: bool, rejected: AV.int64, at: Slice)
    ensures match Decode(body)
      case None => !ok
      case Some(r) => ok && Holds(body, rejected, at, r)
    ensures ok ==> ReportsLast(body, rejected, at)
  {
    hide ReadKey, ReadValue, ReadVarint, DecodeSub, DecodeFrom, ReportsLast, Holds;
    NothingYet(body);
    var reader := new PbDecode.Reader(body);
    var found := false;
    rejected, at := 0, NoSlice;
    ghost var r := NO_REPORT;
    while true
      invariant reader.Valid() && reader.buf == body
      invariant Decode(body) == DecodeFrom(reader.Rest(), r, found)
      invariant Holds(body, rejected, at, r)
      decreases |body| - reader.pos
    {
      DecodeStep(reader.Rest(), r, found);
      var number, wireType;
      ok, number, wireType := reader.ReadKey();
      if !ok {
        ok := reader.pos >= |body| && found;
        if ok { HoldsLast(body, rejected, at, r); }
        return;
      }
      ValueKind(reader.Rest(), wireType);
      if number == PARTIAL_SUCCESS && wireType == WIRE_LEN {
        var start, len;
        ok, start, len := reader.ReadLen();
        if !ok { return; }
        ghost var sub := DecodeSub(body[start..start + len], r);
        ok, rejected, at := ReadSub(body, start, start + len, rejected, at, r);
        if !ok { return; }
        r := sub.value;
        found := true;
      } else {
        ok := reader.Skip(wireType);
        if !ok { return; }
      }
    }
  }
}
