/**
 Metrics on the wire (src/otlp_metrics_encoder.c): the field tree of every kind of metric, a
 receiver that reads it back by field number, and the packed and zigzag encodings inside it.
 */
module OtlpMetrics {
  import opened Common
  import opened PbWire
  import opened PbTree
  import opened AnyValueModel
  import opened OtlpMessages
  import opened SpanDecode

  // ---------------------------------------------------------------- zigzag

  type int32 = i: int | -0x8000_0000 <= i < 0x8000_0000

  /** ((uint32_t) v << 1) ^ (uint32_t) (v >> 31): the right shift yields 0 or all ones. */
  function Zigzag(v: int32): uint32 {
    var doubled := v * 2 % UINT32_RANGE;
    if v < 0 then UINT32_RANGE - 1 - doubled else doubled
  }

  function Unzigzag(u: uint32): int32 { if u % 2 == 0 then u / 2 else -(u / 2) - 1 }

  /** Zigzag is a bijection between the signed and the unsigned 32-bit numbers. */
  lemma ZigzagBijective(v: int32, u: uint32)
    ensures Unzigzag(Zigzag(v)) == v && Zigzag(Unzigzag(u)) == u
  {
  }

  /** Numbers near zero have small images, so that their varints are short. */
  lemma ZigzagSmall(v: int32)
    ensures Zigzag(v) == if v >= 0 then 2 * v else -2 * v - 1
  {
  }

  // ---------------------------------------------------------------- packed fields

  function PackVarints(vs: seq<uint64>): Bytes {
    if vs == [] then [] else PackVarints(vs[..|vs| - 1]) + EncVarint(vs[|vs| - 1])
  }

  function PackFixed64(vs: seq<uint64>): Bytes {
    if vs == [] then [] else PackFixed64(vs[..|vs| - 1]) + EncFixed(vs[|vs| - 1], 8)
  }

  function UnpackVarints(s: Bytes): Option<seq<nat>>
    decreases |s|
  {
    if s == [] then Some([])
    else
      match ReadVarint(s)
      case BadVarint(_) => None
      case Varint(v, rest) =>
        match UnpackVarints(rest)
        case None => None
        case Some(vs) => Some([v] + vs)
  }

  function UnpackFixed64(s: Bytes): Option<seq<nat>>
    decreases |s|
  {
    if s == [] then Some([])
    else if |s| < 8 then None
    else
      match UnpackFixed64(s[8..])
      case None => None
      case Some(vs) => Some([DecFixed(s[..8])] + vs)
  }

  lemma PackVarintsLast(vs: seq<uint64>, n: nat)
    requires |vs| == n + 1
    ensures PackVarints(vs) == PackVarints(vs[..n]) + EncVarint(vs[n])
    ensures PackVarints([]) == []
  {
    hide EncVarint;
  }

  lemma {:induction false} PackVarintsFront(vs: seq<uint64>)
    requires vs != []
    ensures PackVarints(vs) == EncVarint(vs[0]) + PackVarints(vs[1..])
    ensures EncVarint(vs[0]) != []
  {
    hide EncVarint, PackVarints;
    VarintNonEmpty(vs[0]);
    var n := |vs| - 1;
    PackVarintsLast(vs, n);
    if n == 0 {
      assert vs[..0] == [] && vs[1..] == [];
    } else {
      PackVarintsFront(vs[..n]);
      var tail := vs[1..];
      PackVarintsLast(tail, n - 1);
      assert vs[..n][1..] == tail[..n - 1] && tail[n - 1] == vs[n];
    }
  }

  lemma VarintNonEmpty(v: nat)
    ensures EncVarint(v) != []
  {
  }

  /** Packed varints decode to the sequence that was packed. */
  lemma {:induction false} VarintsRoundTrip(vs: seq<uint64>)
    ensures UnpackVarints(PackVarints(vs)) == Some(vs)
    ensures PackVarints(vs) == [] <==> vs == []
    decreases |vs|
  {
    hide EncVarint, ReadVarint;
    if vs != [] {
      PackVarintsFront(vs);
      VarintRoundTrip(vs[0], PackVarints(vs[1..]));
      VarintsRoundTrip(vs[1..]);
      assert [vs[0]] + vs[1..] == vs;
    }
  }

  lemma PackFixed64Last(vs: seq<uint64>, n: nat)
    requires |vs| == n + 1
    ensures PackFixed64(vs) == PackFixed64(vs[..n]) + EncFixed(vs[n], 8)
    ensures PackFixed64([]) == []
  {
    hide EncFixed;
  }

  lemma {:induction false} PackFixed64Front(vs: seq<uint64>)
    requires vs != []
    ensures PackFixed64(vs) == EncFixed(vs[0], 8) + PackFixed64(vs[1..])
  {
    hide EncFixed, PackFixed64;
    var n := |vs| - 1;
    PackFixed64Last(vs, n);
    if n == 0 {
      assert vs[..0] == [] && vs[1..] == [];
    } else {
      PackFixed64Front(vs[..n]);
      var tail := vs[1..];
      PackFixed64Last(tail, n - 1);
      assert vs[..n][1..] == tail[..n - 1] && tail[n - 1] == vs[n];
    }
  }

  /** So do packed 64-bit numbers. */
  lemma {:induction false} Fixed64sRoundTrip(vs: seq<uint64>)
    ensures UnpackFixed64(PackFixed64(vs)) == Some(vs)
    ensures PackFixed64(vs) == [] <==> vs == []
    decreases |vs|
  {
    hide DecFixed;
    if vs != [] {
      PackFixed64Front(vs);
      FixedLimits();
      FixedValueRoundTrip(vs[0], 8, PackFixed64(vs[1..]));
      EightBytes(vs[0]);
      hide EncFixed;
      Fixed64sRoundTrip(vs[1..]);
      assert [vs[0]] + vs[1..] == vs;
    }
  }

  lemma EightBytes(v: nat)
    ensures |EncFixed(v, 8)| == 8
  {
  }

  // ---------------------------------------------------------------- metrics

  datatype ExemplarValue = AsDouble(bits: uint64) | AsInt(i: int64)

  datatype MetricExemplar = MetricExemplar(
    value: ExemplarValue, traceId: Option<TraceId>, spanId: Option<SpanId>, time: Option<uint64>)

  /** Doubles are 64-bit patterns. With bounds there is one bucket more than bounds, or none. */
  datatype Point =
    | NumberP(value: uint64)
    | HistogramP(
        count: uint64, sum: uint64, buckets: seq<uint64>, bounds: seq<uint64>,
        minMax: Option<(uint64, uint64)>)
    | ExpHistogramP(
        count: uint64, sum: uint64, scale: Option<int32>, zeroCount: uint64,
        posOffset: int32, pos: seq<uint64>, negOffset: int32, neg: seq<uint64>)

  datatype Kind = Counter | GaugeKind | HistogramKind | ExpHistogramKind

  datatype Metric = Metric(
    name: CBytes, description: CBytes, unit: CBytes, kind: Kind, aggTemp: byte, monotonic: bool,
    attrs: seq<KeyValue>, exemplars: seq<MetricExemplar>, start: Option<uint64>,
    time: Option<uint64>, point: Point)

  /** The point has the fields of the kind. */
  predicate MetricOk(m: Metric) {
    match m.kind
    case HistogramKind => m.point.HistogramP?
    case ExpHistogramKind => m.point.ExpHistogramP?
    case _ => m.point.NumberP?
  }

  // ---------------------------------------------------------------- trees

  function ExemplarFields(x: MetricExemplar): seq<Field> {
    (match x.value
     case AsDouble(bits) => [Field(3, Fixed64V(bits))]
     case AsInt(i) => [Field(6, Fixed64V(ToUint64(i)))])
    + (if x.traceId.Some? then [Field(5, LenV(x.traceId.value))] else [])
    + (if x.spanId.Some? then [Field(4, LenV(x.spanId.value))] else [])
    + TimeField(2, x.time)
  }

  /** A time that is set but zero is left out like one that is not set. */
  function TimeField(number: nat, t: Option<uint64>): seq<Field> {
    if t.Some? then Fixed64Field(number, t.value) else []
  }

  function ExemplarsNodes(number: nat, xs: seq<MetricExemplar>): seq<Node> {
    if xs == [] then []
    else ExemplarsNodes(number, xs[..|xs| - 1]) + [Msg(number, Leaves(ExemplarFields(xs[|xs| - 1])))]
  }

  function One(number: nat, v: WireValue): Group { Group(number, Leaves([Field(number, v)])) }

  function Few(number: nat, fs: seq<Field>): Group { Group(number, Leaves(fs)) }

  function NumberGroups(m: Metric): seq<Group>
    requires m.point.NumberP?
  {
    [ Group(7, AttrNodes(7, m.attrs)),
      Group(5, ExemplarsNodes(5, m.exemplars)),
      Few(2, TimeField(2, m.start)),
      Few(3, TimeField(3, m.time)),
      One(4, Fixed64V(m.point.value)) ]
  }

  function MinMaxField(number: nat, v: Option<(uint64, uint64)>, max: bool): seq<Field> {
    if v.Some? then [Field(number, Fixed64V(if max then v.value.1 else v.value.0))] else []
  }

  function BucketsField(buckets: seq<uint64>, bounds: seq<uint64>): seq<Field> {
    if bounds == [] then [] else LenField(6, PackFixed64(buckets))
  }

  function HistogramGroups(m: Metric): seq<Group>
    requires m.point.HistogramP?
  {
    HistogramFront(m) + HistogramBack(m.point)
  }

  function HistogramFront(m: Metric): seq<Group> {
    [ Group(9, AttrNodes(9, m.attrs)),
      Group(8, ExemplarsNodes(8, m.exemplars)),
      Few(2, TimeField(2, m.start)),
      Few(3, TimeField(3, m.time)) ]
  }

  function HistogramBack(p: Point): seq<Group>
    requires p.HistogramP?
  {
    [ Few(4, Fixed64Field(4, p.count)),
      One(5, Fixed64V(p.sum)),
      Few(6, BucketsField(p.buckets, p.bounds)),
      Few(7, LenField(7, PackFixed64(p.bounds))),
      Few(11, MinMaxField(11, p.minMax, false)),
      Few(12, MinMaxField(12, p.minMax, true)) ]
  }

  function ScaleField(scale: Option<int32>): seq<Field> {
    if scale.Some? then VarintField(6, Zigzag(scale.value)) else []
  }

  function BucketGroups(offset: int32, counts: seq<uint64>): seq<Group> {
    [ Few(1, VarintField(1, Zigzag(offset))), Few(2, LenField(2, PackVarints(counts))) ]
  }

  /** No message at all without counts, whatever the offset. */
  function BucketsNodes(number: nat, offset: int32, counts: seq<uint64>): seq<Node> {
    if counts == [] then [] else [Msg(number, Flat(BucketGroups(offset, counts)))]
  }

  function ExpHistogramGroups(m: Metric): seq<Group>
    requires m.point.ExpHistogramP?
  {
    ExpHistogramFront(m) + ExpHistogramBack(m.point)
  }

  function ExpHistogramFront(m: Metric): seq<Group> {
    [ Group(1, AttrNodes(1, m.attrs)),
      Few(2, TimeField(2, m.start)),
      Few(3, TimeField(3, m.time)) ]
  }

  function ExpHistogramBack(p: Point): seq<Group>
    requires p.ExpHistogramP?
  {
    [ Few(4, Fixed64Field(4, p.count)),
      One(5, Fixed64V(p.sum)),
      Few(6, ScaleField(p.scale)),
      Few(7, Fixed64Field(7, p.zeroCount)),
      Group(8, BucketsNodes(8, p.posOffset, p.pos)),
      Group(9, BucketsNodes(9, p.negOffset, p.neg)) ]
  }

  function PointGroups(m: Metric): seq<Group>
    requires MetricOk(m)
  {
    match m.kind
    case HistogramKind => HistogramGroups(m)
    case ExpHistogramKind => ExpHistogramGroups(m)
    case _ => NumberGroups(m)
  }

  /** The field of Metric that holds the data of a kind. */
  function KindField(k: Kind): nat {
    match k
    case GaugeKind => 5
    case Counter => 7
    case HistogramKind => 9
    case ExpHistogramKind => 10
  }

  function DataGroups(m: Metric): seq<Group>
    requires MetricOk(m)
  {
    [ Group(1, [Msg(1, Flat(PointGroups(m)))]),
      Few(2, if m.kind.GaugeKind? then [] else VarintField(2, m.aggTemp)),
      Few(3, if m.kind.Counter? then VarintField(3, if m.monotonic then 1 else 0) else []) ]
  }

  function MetricGroups(m: Metric): seq<Group>
    requires MetricOk(m)
  {
    [ One(1, LenV(m.name)),
      TextGroup(2, m.description),
      TextGroup(3, m.unit),
      Group(KindField(m.kind), [Msg(KindField(m.kind), Flat(DataGroups(m)))]) ]
  }

  function MetricNodes(m: Metric): seq<Node>
    requires MetricOk(m)
  {
    Flat(MetricGroups(m))
  }

  predicate AllOk(ms: seq<Metric>) { forall i :: 0 <= i < |ms| ==> MetricOk(ms[i]) }

  function MetricsNodes(ms: seq<Metric>): seq<Node>
    requires AllOk(ms)
  {
    if ms == [] then [] else MetricsNodes(ms[..|ms| - 1]) + [Msg(2, MetricNodes(ms[|ms| - 1]))]
  }

  datatype MetricsArgs = MetricsArgs(
    service: CBytes, schemaUrl: CBytes, resource: seq<KeyValue>, scopeName: CBytes,
    scopeVersion: CBytes, metrics: seq<Metric>)

  function ScopeMetricsNodes(a: MetricsArgs): seq<Node>
    requires AllOk(a.metrics)
  {
    OptMsg(2, ScopeNodes(a.scopeName, a.scopeVersion) + MetricsNodes(a.metrics))
  }

  function ResourceMetricsNodes(a: MetricsArgs): seq<Node>
    requires AllOk(a.metrics)
  {
    ResourceNodes(a.service, a.resource) + ScopeMetricsNodes(a) + Leaves(LenField(3, a.schemaUrl))
  }

  function MetricsRequestNodes(a: MetricsArgs): seq<Node>
    requires AllOk(a.metrics)
  {
    if a.metrics == [] && a.service == [] && a.resource == [] then []
    else OptMsg(1, ResourceMetricsNodes(a))
  }

  // ---------------------------------------------------------------- the trees conform

  lemma {:induction false} ExemplarsConform(t: MsgType, number: nat, xs: seq<MetricExemplar>)
    requires 1 <= number < UINT32_RANGE && SubMessage(t, number) == Some(Exemplar)
    ensures AllConform(t, ExemplarsNodes(number, xs)) && AllNumbered(ExemplarsNodes(number, xs), number)
  {
    if xs != [] {
      var n := |xs| - 1;
      ExemplarsConform(t, number, xs[..n]);
      LeavesConform(Exemplar, ExemplarFields(xs[n]));
      OneConforms(t, Msg(number, Leaves(ExemplarFields(xs[n]))));
      AllConformConcat(t, ExemplarsNodes(number, xs[..n]),
                       [Msg(number, Leaves(ExemplarFields(xs[n])))]);
    }
  }

  lemma {:induction false} LeavesNumbered(fs: seq<Field>, number: nat)
    requires forall f :: f in fs ==> f.number == number
    ensures AllNumbered(Leaves(fs), number)
  {
    if fs != [] { LeavesNumbered(fs[1..], number); }
  }

  /** A group that conforms and has its own number throughout. */
  ghost predicate GroupOk(t: MsgType, g: Group) {
    AllConform(t, g.nodes) && AllNumbered(g.nodes, g.number)
  }

  lemma LeafGroupOk(t: MsgType, number: nat, fs: seq<Field>)
    requires forall f :: f in fs ==> f.number == number && Conforms(t, Leaf(f))
    ensures GroupOk(t, Few(number, fs))
  {
    LeavesConform(t, fs);
    LeavesNumbered(fs, number);
  }

  lemma AttrGroupOk(t: MsgType, number: nat, attrs: seq<KeyValue>)
    requires 1 <= number < UINT32_RANGE && SubMessage(t, number) == Some(KeyValueT)
    ensures GroupOk(t, Group(number, AttrNodes(number, attrs)))
  {
    AttrsConform(t, number, attrs);
    AttrNodesNumbered(number, attrs);
  }

  lemma ExemplarGroupOk(t: MsgType, number: nat, xs: seq<MetricExemplar>)
    requires 1 <= number < UINT32_RANGE && SubMessage(t, number) == Some(Exemplar)
    ensures GroupOk(t, Group(number, ExemplarsNodes(number, xs)))
  {
    ExemplarsConform(t, number, xs);
  }

  lemma MsgGroupOk(t: MsgType, number: nat, ns: seq<Node>)
    requires 1 <= number < UINT32_RANGE && SubMessage(t, number).Some?
    requires AllConform(SubMessage(t, number).value, ns)
    ensures GroupOk(t, Group(number, [Msg(number, ns)]))
  {
    OneConforms(t, Msg(number, ns));
  }

  predicate FieldNumber(number: nat) { 1 <= number < UINT32_RANGE }

  lemma Fixed64GroupOk(t: MsgType, number: nat, v: uint64)
    requires FieldNumber(number)
    ensures GroupOk(t, Few(number, Fixed64Field(number, v))) && GroupOk(t, One(number, Fixed64V(v)))
  {
    LeafGroupOk(t, number, Fixed64Field(number, v));
    LeafGroupOk(t, number, [Field(number, Fixed64V(v))]);
  }

  lemma VarintGroupOk(t: MsgType, number: nat, v: uint64)
    requires FieldNumber(number)
    ensures GroupOk(t, Few(number, VarintField(number, v)))
  {
    LeafGroupOk(t, number, VarintField(number, v));
  }

  lemma LenGroupOk(t: MsgType, number: nat, b: Bytes)
    requires FieldNumber(number) && SubMessage(t, number).None?
    ensures GroupOk(t, Few(number, LenField(number, b))) && GroupOk(t, One(number, LenV(b)))
  {
    LeafGroupOk(t, number, LenField(number, b));
    LeafGroupOk(t, number, [Field(number, LenV(b))]);
  }

  lemma NothingGroupOk(t: MsgType, number: nat)
    ensures GroupOk(t, Few(number, []))
  {
  }

  lemma TimeGroupOk(t: MsgType, number: nat, time: Option<uint64>)
    requires FieldNumber(number)
    ensures GroupOk(t, Few(number, TimeField(number, time)))
  {
    NothingGroupOk(t, number);
    if time.Some? { Fixed64GroupOk(t, number, time.value); }
  }

  lemma BucketsGroupOk(number: nat, offset: int32, counts: seq<uint64>)
    requires number == 8 || number == 9
    ensures GroupOk(ExpHistogramPoint, Group(number, BucketsNodes(number, offset, counts)))
    ensures WellNumbered(ExpBuckets, BucketGroups(offset, counts))
  {
    var gs := BucketGroups(offset, counts);
    VarintGroupOk(ExpBuckets, 1, Zigzag(offset));
    LenGroupOk(ExpBuckets, 2, PackVarints(counts));
    NothingGroupOk(ExpHistogramPoint, number);
    hide GroupOk, VarintField, LenField, Flat, PackVarints, Leaves;
    WellNumberedConforms(ExpBuckets, gs);
    MsgGroupOk(ExpHistogramPoint, number, Flat(gs));
    assert counts == [] ==> Group(number, BucketsNodes(number, offset, counts)) == Few(number, []) by {
      NoLeaves();
    }
  }

  lemma NoLeaves()
    ensures Leaves([]) == []
  {
  }

  /** Groups that conform, each with a number of its own. */
  ghost predicate WellNumbered(t: MsgType, gs: seq<Group>) {
    (forall i :: 0 <= i < |gs| ==> GroupOk(t, gs[i])) &&
    (forall i, j :: 0 <= i < j < |gs| ==> gs[i].number != gs[j].number)
  }

  function PointType(k: Kind): MsgType {
    match k
    case HistogramKind => HistogramPoint
    case ExpHistogramKind => ExpHistogramPoint
    case _ => NumberPoint
  }

  function DataType(k: Kind): MsgType {
    match k
    case GaugeKind => Gauge
    case Counter => Sum
    case HistogramKind => Histogram
    case ExpHistogramKind => ExpHistogram
  }

  /** The schema has the data of each kind where the encoder puts it. */
  lemma DataTypeOf(k: Kind)
    ensures SubMessage(DataType(k), 1) == Some(PointType(k))
    ensures SubMessage(MetricT, KindField(k)) == Some(DataType(k))
    ensures SubMessage(MetricT, 1) == SubMessage(MetricT, 2) == SubMessage(MetricT, 3) == None
  {
  }

  lemma NumberGroupsOk(m: Metric)
    requires m.point.NumberP?
    ensures WellNumbered(NumberPoint, NumberGroups(m))
  {
    AttrGroupOk(NumberPoint, 7, m.attrs);
    ExemplarGroupOk(NumberPoint, 5, m.exemplars);
    TimeGroupOk(NumberPoint, 2, m.start);
    TimeGroupOk(NumberPoint, 3, m.time);
    Fixed64GroupOk(NumberPoint, 4, m.point.value);
    hide GroupOk;
  }

  lemma HistogramListsOk(p: Point)
    requires p.HistogramP?
    ensures GroupOk(HistogramPoint, Few(6, BucketsField(p.buckets, p.bounds)))
    ensures GroupOk(HistogramPoint, Few(7, LenField(7, PackFixed64(p.bounds))))
    ensures GroupOk(HistogramPoint, Few(11, MinMaxField(11, p.minMax, false)))
    ensures GroupOk(HistogramPoint, Few(12, MinMaxField(12, p.minMax, true)))
  {
    NothingGroupOk(HistogramPoint, 6);
    LenGroupOk(HistogramPoint, 6, PackFixed64(p.buckets));
    LenGroupOk(HistogramPoint, 7, PackFixed64(p.bounds));
    NothingGroupOk(HistogramPoint, 11);
    NothingGroupOk(HistogramPoint, 12);
    if p.minMax.Some? {
      Fixed64GroupOk(HistogramPoint, 11, p.minMax.value.0);
      Fixed64GroupOk(HistogramPoint, 12, p.minMax.value.1);
    }
    hide GroupOk, LenField, PackFixed64, Leaves;
  }

  lemma Joined(t: MsgType, a: seq<Group>, b: seq<Group>)
    requires WellNumbered(t, a) && WellNumbered(t, b)
    requires forall i, j :: 0 <= i < |a| && 0 <= j < |b| ==> a[i].number != b[j].number
    ensures WellNumbered(t, a + b)
  {
    hide GroupOk;
  }

  lemma HistogramFrontOk(m: Metric)
    ensures WellNumbered(HistogramPoint, HistogramFront(m))
  {
    AttrGroupOk(HistogramPoint, 9, m.attrs);
    ExemplarGroupOk(HistogramPoint, 8, m.exemplars);
    TimeGroupOk(HistogramPoint, 2, m.start);
    TimeGroupOk(HistogramPoint, 3, m.time);
    hide GroupOk, TimeField, Leaves, AttrNodes, ExemplarsNodes;
  }

  lemma HistogramBackOk(p: Point)
    requires p.HistogramP?
    ensures WellNumbered(HistogramPoint, HistogramBack(p))
  {
    Fixed64GroupOk(HistogramPoint, 4, p.count);
    Fixed64GroupOk(HistogramPoint, 5, p.sum);
    HistogramListsOk(p);
    hide GroupOk, Fixed64Field, LenField, BucketsField, MinMaxField, Leaves, PackFixed64;
  }

  lemma HistogramGroupsOk(m: Metric)
    requires m.point.HistogramP?
    ensures WellNumbered(HistogramPoint, HistogramGroups(m))
  {
    HistogramFrontOk(m);
    HistogramBackOk(m.point);
    hide WellNumbered, Leaves, AttrNodes, ExemplarsNodes;
    Joined(HistogramPoint, HistogramFront(m), HistogramBack(m.point));
  }

  lemma ScaleGroupOk(scale: Option<int32>)
    ensures GroupOk(ExpHistogramPoint, Few(6, ScaleField(scale)))
  {
    NothingGroupOk(ExpHistogramPoint, 6);
    if scale.Some? { VarintGroupOk(ExpHistogramPoint, 6, Zigzag(scale.value)); }
  }

  lemma BucketsNodesOk(number: nat, offset: int32, counts: seq<uint64>)
    requires number == 8 || number == 9
    ensures GroupOk(ExpHistogramPoint, Group(number, BucketsNodes(number, offset, counts)))
  {
    hide *;
    BucketsGroupOk(number, offset, counts);
  }

  lemma ExpHistogramFrontOk(m: Metric)
    ensures WellNumbered(ExpHistogramPoint, ExpHistogramFront(m))
  {
    AttrGroupOk(ExpHistogramPoint, 1, m.attrs);
    TimeGroupOk(ExpHistogramPoint, 2, m.start);
    TimeGroupOk(ExpHistogramPoint, 3, m.time);
    hide GroupOk, TimeField, Leaves, AttrNodes;
  }

  lemma ExpHistogramBackOk(p: Point)
    requires p.ExpHistogramP?
    ensures WellNumbered(ExpHistogramPoint, ExpHistogramBack(p))
  {
    Fixed64GroupOk(ExpHistogramPoint, 4, p.count);
    Fixed64GroupOk(ExpHistogramPoint, 5, p.sum);
    ScaleGroupOk(p.scale);
    Fixed64GroupOk(ExpHistogramPoint, 7, p.zeroCount);
    hide GroupOk, Fixed64Field, ScaleField, BucketsNodes, Leaves, BucketGroups, Flat;
    BucketsNodesOk(8, p.posOffset, p.pos);
    BucketsNodesOk(9, p.negOffset, p.neg);
  }

  lemma ExpHistogramGroupsOk(m: Metric)
    requires m.point.ExpHistogramP?
    ensures WellNumbered(ExpHistogramPoint, ExpHistogramGroups(m))
  {
    ExpHistogramFrontOk(m);
    ExpHistogramBackOk(m.point);
    hide WellNumbered, Leaves, AttrNodes, BucketsNodes;
    Joined(ExpHistogramPoint, ExpHistogramFront(m), ExpHistogramBack(m.point));
  }

  lemma PointGroupsOk(m: Metric)
    requires MetricOk(m)
    ensures WellNumbered(PointType(m.kind), PointGroups(m))
    ensures AllConform(PointType(m.kind), Flat(PointGroups(m)))
  {
    hide NumberGroups, HistogramGroups, ExpHistogramGroups, GroupOk;
    if m.kind.HistogramKind? { HistogramGroupsOk(m); }
    else if m.kind.ExpHistogramKind? { ExpHistogramGroupsOk(m); }
    else { NumberGroupsOk(m); }
    WellNumberedConforms(PointType(m.kind), PointGroups(m));
  }

  lemma WellNumberedConforms(t: MsgType, gs: seq<Group>)
    requires WellNumbered(t, gs)
    ensures AllConform(t, Flat(gs))
  {
    FlatConforms(t, gs);
  }

  lemma DataGroupsOk(m: Metric)
    requires MetricOk(m)
    ensures WellNumbered(DataType(m.kind), DataGroups(m))
    ensures AllConform(DataType(m.kind), Flat(DataGroups(m)))
  {
    var t := DataType(m.kind);
    PointGroupsOk(m);
    DataTypeOf(m.kind);
    hide PointGroups, Flat, GroupOk, VarintField, Leaves, MetricOk, WellNumbered, SubMessage,
      DataType, PointType, AllConform;
    MsgGroupOk(t, 1, Flat(PointGroups(m)));
    NothingGroupOk(t, 2);
    NothingGroupOk(t, 3);
    VarintGroupOk(t, 2, m.aggTemp);
    VarintGroupOk(t, 3, if m.monotonic then 1 else 0);
    ThreeGroups(t, DataGroups(m));
    WellNumberedConforms(t, DataGroups(m));
  }

  lemma ThreeGroups(t: MsgType, gs: seq<Group>)
    requires |gs| == 3 && GroupOk(t, gs[0]) && GroupOk(t, gs[1]) && GroupOk(t, gs[2])
    requires gs[0].number == 1 && gs[1].number == 2 && gs[2].number == 3
    ensures WellNumbered(t, gs)
  {
  }

  lemma FourGroups(t: MsgType, gs: seq<Group>)
    requires |gs| == 4 && GroupOk(t, gs[0]) && GroupOk(t, gs[1]) && GroupOk(t, gs[2])
    requires GroupOk(t, gs[3])
    requires gs[0].number == 1 && gs[1].number == 2 && gs[2].number == 3 && gs[3].number > 3
    ensures WellNumbered(t, gs)
  {
  }

  lemma MetricGroupsOk(m: Metric)
    requires MetricOk(m)
    ensures WellNumbered(MetricT, MetricGroups(m))
  {
    DataGroupsOk(m);
    DataTypeOf(m.kind);
    hide DataGroups, Flat, GroupOk, LenField, Leaves, MetricOk, WellNumbered, SubMessage, DataType,
      AllConform;
    var k := KindField(m.kind);
    MsgGroupOk(MetricT, k, Flat(DataGroups(m)));
    LenGroupOk(MetricT, 1, m.name);
    LenGroupOk(MetricT, 2, m.description);
    LenGroupOk(MetricT, 3, m.unit);
    assert k > 3;
    var gs := MetricGroups(m);
    hide KindField;
    assert gs[0] == One(1, LenV(m.name)) && gs[1] == Few(2, LenField(2, m.description));
    assert gs[2] == Few(3, LenField(3, m.unit));
    assert gs[3] == Group(k, [Msg(k, Flat(DataGroups(m)))]);
    FourGroups(MetricT, gs);
  }

  lemma MetricConforms(m: Metric)
    requires MetricOk(m)
    ensures AllConform(MetricT, MetricNodes(m))
  {
    hide MetricGroups, WellNumbered, AllConform;
    MetricGroupsOk(m);
    WellNumberedConforms(MetricT, MetricGroups(m));
  }

  lemma {:induction false} MetricsConform(ms: seq<Metric>)
    requires AllOk(ms)
    ensures AllConform(ScopeMetrics, MetricsNodes(ms))
  {
    hide MetricNodes, MetricOk, AllConform;
    NoneConform(ScopeMetrics);
    if ms != [] {
      var n := |ms| - 1;
      MetricsConform(ms[..n]);
      MetricConforms(ms[n]);
      MsgConforms(ScopeMetrics, 2, MetricNodes(ms[n]));
      AllConformConcat(ScopeMetrics, MetricsNodes(ms[..n]), [Msg(2, MetricNodes(ms[n]))]);
    }
  }

  lemma NoneConform(t: MsgType)
    ensures AllConform(t, [])
  {
  }

  lemma MsgConforms(t: MsgType, number: nat, ns: seq<Node>)
    requires FieldNumber(number) && SubMessage(t, number).Some?
    requires AllConform(SubMessage(t, number).value, ns)
    ensures AllConform(t, [Msg(number, ns)])
  {
    OneConforms(t, Msg(number, ns));
  }

  lemma MetricsRequestConforms(a: MetricsArgs)
    requires AllOk(a.metrics)
    ensures AllConform(MetricsRequest, MetricsRequestNodes(a))
  {
    var resource, scope := ResourceNodes(a.service, a.resource), ScopeMetricsNodes(a);
    var url := Leaves(LenField(3, a.schemaUrl));
    ResourceConforms(ResourceMetrics, a.service, a.resource);
    ScopeConforms(ScopeMetrics, a.scopeName, a.scopeVersion);
    MetricsConform(a.metrics);
    LenGroupOk(ResourceMetrics, 3, a.schemaUrl);
    assert AllConform(ResourceMetrics, url);
    NoneConform(MetricsRequest);
    hide AllConform, ResourceNodes, ScopeNodes, MetricsNodes, Leaves, LenField, OptMsg, AllOk;
    var inner := ScopeNodes(a.scopeName, a.scopeVersion) + MetricsNodes(a.metrics);
    AllConformConcat(ScopeMetrics, ScopeNodes(a.scopeName, a.scopeVersion), MetricsNodes(a.metrics));
    OptMsgConforms(ResourceMetrics, 2, inner);
    AllConformConcat(ResourceMetrics, resource, scope);
    AllConformConcat(ResourceMetrics, resource + scope, url);
    OptMsgConforms(MetricsRequest, 1, ResourceMetricsNodes(a));
  }

  /** Every metrics request that fits in memory, with metrics of every kind, is a well-formed
      message at each nesting level: a reader walk consumes it exactly and yields its tree. */
  lemma MetricsRequestRoundTrip(a: MetricsArgs)
    requires AllOk(a.metrics) && |EncNodes(MetricsRequestNodes(a))| <= SIZE_MAX
    ensures Parse(MetricsRequest, EncNodes(MetricsRequestNodes(a))) == Some(MetricsRequestNodes(a))
  {
    MetricsRequestConforms(a);
    ParseRoundTrip(MetricsRequest, MetricsRequestNodes(a));
  }

  // ---------------------------------------------------------------- reading a metric back

  datatype ExemplarRead = ExemplarRead(
    asDouble: Option<nat>, asInt: Option<nat>, traceId: Option<Bytes>, spanId: Option<Bytes>,
    time: nat)

  datatype BucketsRead = BucketsRead(offset: int32, counts: Option<seq<nat>>)

  datatype PointRead =
    | NumberR(value: Option<nat>)
    | HistogramR(
        count: nat, sum: Option<nat>, buckets: Option<seq<nat>>, bounds: Option<seq<nat>>,
        min: Option<nat>, max: Option<nat>)
    | ExpHistogramR(
        count: nat, sum: Option<nat>, scale: int32, zeroCount: nat, pos: BucketsRead,
        neg: BucketsRead)

  datatype MetricRead = MetricRead(
    name: Bytes, description: Bytes, unit: Bytes, aggTemp: nat, monotonic: bool,
    attrs: Option<seq<KeyValue>>, exemplars: seq<ExemplarRead>, start: nat, time: nat,
    point: PointRead)

  /** The contents of the one sub-message with a number; nothing if it is absent. */
  function MsgAt(ns: seq<Node>, k: nat): seq<Node> {
    var sel := Select(ns, k);
    if |sel| == 1 then Inside(sel[0]) else []
  }

  function ExemplarOf(ns: seq<Node>): ExemplarRead {
    ExemplarRead(NumberAt(ns, 3), NumberAt(ns, 6), LenAt(ns, 5), LenAt(ns, 4),
                 ZeroIfAbsent(NumberAt(ns, 2)))
  }

  function ExemplarsOf(ns: seq<Node>): seq<ExemplarRead> {
    if ns == [] then [] else ExemplarsOf(ns[..|ns| - 1]) + [ExemplarOf(Inside(ns[|ns| - 1]))]
  }

  function Signed(v: Option<nat>): int32 {
    if v.Some? && v.value < UINT32_RANGE then Unzigzag(v.value) else 0
  }

  function BucketsOf(ns: seq<Node>): BucketsRead {
    BucketsRead(Signed(NumberAt(ns, 1)), UnpackVarints(TextAt(ns, 2)))
  }

  function PointOf(k: Kind, ns: seq<Node>): PointRead {
    match k
    case HistogramKind =>
      HistogramR(ZeroIfAbsent(NumberAt(ns, 4)), NumberAt(ns, 5), UnpackFixed64(TextAt(ns, 6)),
                 UnpackFixed64(TextAt(ns, 7)), NumberAt(ns, 11), NumberAt(ns, 12))
    case ExpHistogramKind =>
      ExpHistogramR(ZeroIfAbsent(NumberAt(ns, 4)), NumberAt(ns, 5), Signed(NumberAt(ns, 6)),
                    ZeroIfAbsent(NumberAt(ns, 7)), BucketsOf(MsgAt(ns, 8)), BucketsOf(MsgAt(ns, 9)))
    case _ => NumberR(NumberAt(ns, 4))
  }

  function AttrsNumber(k: Kind): nat {
    match k
    case HistogramKind => 9
    case ExpHistogramKind => 1
    case _ => 7
  }

  function ExemplarsAt(k: Kind, ns: seq<Node>): seq<ExemplarRead> {
    match k
    case HistogramKind => ExemplarsOf(Select(ns, 8))
    case ExpHistogramKind => []
    case _ => ExemplarsOf(Select(ns, 5))
  }

  function MetricOf(k: Kind, ns: seq<Node>): MetricRead {
    var data := MsgAt(ns, KindField(k));
    var p := MsgAt(data, 1);
    MetricRead(
      TextAt(ns, 1), TextAt(ns, 2), TextAt(ns, 3), ZeroIfAbsent(NumberAt(data, 2)),
      NumberAt(data, 3) == Some(1), AttrsOf(Select(p, AttrsNumber(k))), ExemplarsAt(k, p),
      ZeroIfAbsent(NumberAt(p, 2)), ZeroIfAbsent(NumberAt(p, 3)), PointOf(k, p))
  }

  // ---------------------------------------------------------------- what should come back

  function OrZero(t: Option<uint64>): nat { if t.Some? then t.value else 0 }

  function ExemplarBack(x: MetricExemplar): ExemplarRead {
    ExemplarRead(
      if x.value.AsDouble? then Some(x.value.bits) else None,
      if x.value.AsInt? then Some(ToUint64(x.value.i)) else None,
      if x.traceId.Some? then Some(x.traceId.value) else None,
      if x.spanId.Some? then Some(x.spanId.value) else None,
      OrZero(x.time))
  }

  function ExemplarsBack(xs: seq<MetricExemplar>): seq<ExemplarRead> {
    if xs == [] then [] else ExemplarsBack(xs[..|xs| - 1]) + [ExemplarBack(xs[|xs| - 1])]
  }

  /** The offset of an empty list of counts is not sent. */
  function BucketsBack(offset: int32, counts: seq<uint64>): BucketsRead {
    BucketsRead(if counts == [] then 0 else offset, Some(counts))
  }

  function PointBack(m: Metric): PointRead
    requires MetricOk(m)
  {
    var p := m.point;
    match m.kind
    case HistogramKind =>
      HistogramR(p.count, Some(p.sum), Some(if p.bounds == [] then [] else p.buckets),
                 Some(p.bounds), if p.minMax.Some? then Some(p.minMax.value.0) else None,
                 if p.minMax.Some? then Some(p.minMax.value.1) else None)
    case ExpHistogramKind =>
      ExpHistogramR(p.count, Some(p.sum), if p.scale.Some? then p.scale.value else 0, p.zeroCount,
                    BucketsBack(p.posOffset, p.pos), BucketsBack(p.negOffset, p.neg))
    case _ => NumberR(Some(p.value))
  }

  /** Everything in the metric, but for exemplars of an exponential histogram, which the encoder
      does not send, and the buckets of a histogram without bounds. */
  function MetricBack(m: Metric): MetricRead
    requires MetricOk(m)
  {
    MetricRead(
      m.name, m.description, m.unit, if m.kind.GaugeKind? then 0 else m.aggTemp,
      m.kind.Counter? && m.monotonic, Some(NormEntries(m.attrs)),
      if m.kind.ExpHistogramKind? then [] else ExemplarsBack(m.exemplars),
      OrZero(m.start), OrZero(m.time), PointBack(m))
  }

  // ---------------------------------------------------------------- and does

  /** In well-numbered groups each number selects its group. */
  lemma SelectNumbered(t: MsgType, gs: seq<Group>, i: nat)
    requires WellNumbered(t, gs) && i < |gs|
    ensures Select(Flat(gs), gs[i].number) == gs[i].nodes
  {
    SelectFlat(gs, i);
  }

  lemma SelectedNumber(ns: seq<Node>, k: nat, f: WireValue)
    requires Select(ns, k) == Leaves([Field(k, f)]) && !f.LenV?
    ensures NumberAt(ns, k) == Some(f.v)
  {
  }

  lemma SelectedFixed64(ns: seq<Node>, k: nat, v: uint64)
    requires Select(ns, k) == Leaves(Fixed64Field(k, v))
    ensures ZeroIfAbsent(NumberAt(ns, k)) == v
  {
  }

  lemma SelectedVarint(ns: seq<Node>, k: nat, v: uint64)
    requires Select(ns, k) == Leaves(VarintField(k, v))
    ensures NumberAt(ns, k) == if v == 0 then None else Some(v)
  {
  }

  lemma SelectedLen(ns: seq<Node>, k: nat, b: Bytes)
    requires Select(ns, k) == Leaves(LenField(k, b))
    ensures TextAt(ns, k) == b
  {
  }

  lemma SelectedTime(ns: seq<Node>, k: nat, t: Option<uint64>)
    requires Select(ns, k) == Leaves(TimeField(k, t))
    ensures ZeroIfAbsent(NumberAt(ns, k)) == OrZero(t)
  {
  }

  lemma SelectedNothing(ns: seq<Node>, k: nat)
    requires Select(ns, k) == Leaves([])
    ensures NumberAt(ns, k) == None && TextAt(ns, k) == [] && LenAt(ns, k) == None
  {
  }

  lemma SelectedMsg(ns: seq<Node>, k: nat, inner: seq<Node>)
    requires Select(ns, k) == [Msg(k, inner)]
    ensures MsgAt(ns, k) == inner
  {
  }

  lemma BucketsReadBack(offset: int32, counts: seq<uint64>)
    ensures counts != [] ==>
      BucketsOf(Flat(BucketGroups(offset, counts))) == BucketsRead(offset, Some(counts))
    ensures BucketsOf([]) == BucketsRead(0, Some([]))
  {
    var gs := BucketGroups(offset, counts);
    var ns := Flat(gs);
    BucketsGroupOk(8, offset, counts);
    SelectNumbered(ExpBuckets, gs, 0);
    SelectNumbered(ExpBuckets, gs, 1);
    VarintsRoundTrip(counts);
    ZigzagBijective(offset, 0);
    hide Flat, Leaves, NumberAt, TextAt, PackVarints;
    SelectedVarint(ns, 1, Zigzag(offset));
    SelectedLen(ns, 2, PackVarints(counts));
    NothingSelected(1);
    NothingSelected(2);
  }

  lemma NothingSelected(k: nat)
    ensures NumberAt([], k) == None && TextAt([], k) == [] && UnpackVarints([]) == Some([])
  {
  }

  /** Which leaves an exemplar has for each field number. */
  lemma ExemplarReadBack(x: MetricExemplar)
    ensures ExemplarOf(Leaves(ExemplarFields(x))) == ExemplarBack(x)
  {
    var gs := ExemplarGroups(x);
    var ns := Flat(gs);
    ExemplarGroupsOk(x);
    ExemplarIsFlat(x);
    SelectNumbered(Exemplar, gs, 0);
    SelectNumbered(Exemplar, gs, 1);
    SelectNumbered(Exemplar, gs, 2);
    SelectNumbered(Exemplar, gs, 3);
    SelectNumbered(Exemplar, gs, 4);
    hide Flat, WellNumbered, Leaves, TimeField, NumberAt, LenAt, ExemplarFields;
    SelectedTime(ns, 2, x.time);
    if x.value.AsDouble? {
      SelectedNumber(ns, 3, Fixed64V(x.value.bits));
      SelectedNothing(ns, 6);
    } else {
      SelectedNothing(ns, 3);
      SelectedNumber(ns, 6, Fixed64V(ToUint64(x.value.i)));
    }
    if x.traceId.Some? { SelectedId(ns, 5, x.traceId.value); } else { SelectedNothing(ns, 5); }
    if x.spanId.Some? { SelectedId(ns, 4, x.spanId.value); } else { SelectedNothing(ns, 4); }
  }

  lemma SelectedId(ns: seq<Node>, k: nat, id: Bytes)
    requires Select(ns, k) == Leaves([Field(k, LenV(id))])
    ensures LenAt(ns, k) == Some(id)
  {
  }

  /** The fields of an exemplar, one group for each number. */
  function ExemplarGroups(x: MetricExemplar): seq<Group> {
    [ Few(3, if x.value.AsDouble? then [Field(3, Fixed64V(x.value.bits))] else []),
      Few(6, if x.value.AsInt? then [Field(6, Fixed64V(ToUint64(x.value.i)))] else []),
      Few(5, if x.traceId.Some? then [Field(5, LenV(x.traceId.value))] else []),
      Few(4, if x.spanId.Some? then [Field(4, LenV(x.spanId.value))] else []),
      Few(2, TimeField(2, x.time)) ]
  }

  lemma ExemplarGroupsOk(x: MetricExemplar)
    ensures WellNumbered(Exemplar, ExemplarGroups(x))
  {
    NothingGroupOk(Exemplar, 3);
    NothingGroupOk(Exemplar, 6);
    NothingGroupOk(Exemplar, 5);
    NothingGroupOk(Exemplar, 4);
    if x.value.AsDouble? { Fixed64GroupOk(Exemplar, 3, x.value.bits); }
    if x.value.AsInt? { Fixed64GroupOk(Exemplar, 6, ToUint64(x.value.i)); }
    if x.traceId.Some? { LenGroupOk(Exemplar, 5, x.traceId.value); }
    if x.spanId.Some? { LenGroupOk(Exemplar, 4, x.spanId.value); }
    TimeGroupOk(Exemplar, 2, x.time);
    hide GroupOk, TimeField, Fixed64Field, LenField, Leaves;
  }

  lemma {:induction false} LeavesConcat(a: seq<Field>, b: seq<Field>)
    ensures Leaves(a + b) == Leaves(a) + Leaves(b)
  {
    if a == [] {
      assert a + b == b;
    } else {
      assert (a + b)[1..] == a[1..] + b;
      LeavesConcat(a[1..], b);
    }
  }

  lemma FlatNext(gs: seq<Group>, i: nat, before: seq<Node>)
    requires i < |gs| && Flat(gs[..i]) == before
    ensures Flat(gs[..i + 1]) == before + gs[i].nodes
  {
    hide EncNodes, Flat;
    FlatStep(gs, i);
  }

  lemma FlatOfFive(gs: seq<Group>)
    requires |gs| == 5
    ensures Flat(gs) == gs[0].nodes + gs[1].nodes + gs[2].nodes + gs[3].nodes + gs[4].nodes
  {
    assert gs[..5] == gs && gs[..0] == [];
    assert Flat(gs[..0]) == [];
    hide Flat;
    var a, b, c, d := gs[0].nodes, gs[1].nodes, gs[2].nodes, gs[3].nodes;
    FlatNext(gs, 0, []);
    assert [] + a == a;
    FlatNext(gs, 1, a);
    FlatNext(gs, 2, a + b);
    FlatNext(gs, 3, a + b + c);
    FlatNext(gs, 4, a + b + c + d);
  }

  lemma ExemplarIsFlat(x: MetricExemplar)
    ensures Leaves(ExemplarFields(x)) == Flat(ExemplarGroups(x))
  {
    var a := if x.value.AsDouble? then [Field(3, Fixed64V(x.value.bits))] else [];
    var b := if x.value.AsInt? then [Field(6, Fixed64V(ToUint64(x.value.i)))] else [];
    var c := if x.traceId.Some? then [Field(5, LenV(x.traceId.value))] else [];
    var d := if x.spanId.Some? then [Field(4, LenV(x.spanId.value))] else [];
    var e := TimeField(2, x.time);
    hide Leaves, Flat, TimeField;
    assert ExemplarFields(x) == a + b + c + d + e;
    LeavesConcat(a, b);
    LeavesConcat(a + b, c);
    LeavesConcat(a + b + c, d);
    LeavesConcat(a + b + c + d, e);
    FlatOfFive(ExemplarGroups(x));
  }

  lemma {:induction false} ExemplarsReadBack(number: nat, xs: seq<MetricExemplar>)
    ensures ExemplarsOf(ExemplarsNodes(number, xs)) == ExemplarsBack(xs)
  {
    hide ExemplarOf, ExemplarFields, Leaves;
    if xs != [] {
      var n := |xs| - 1;
      ExemplarsReadBack(number, xs[..n]);
      ExemplarReadBack(xs[n]);
      var ns := ExemplarsNodes(number, xs);
      assert ns[..|ns| - 1] == ExemplarsNodes(number, xs[..n]);
    }
  }

  lemma NumberReadBack(m: Metric)
    requires m.point.NumberP?
    ensures var ns := Flat(NumberGroups(m));
      AttrsOf(Select(ns, 7)) == Some(NormEntries(m.attrs)) &&
      ExemplarsOf(Select(ns, 5)) == ExemplarsBack(m.exemplars) &&
      ZeroIfAbsent(NumberAt(ns, 2)) == OrZero(m.start) &&
      ZeroIfAbsent(NumberAt(ns, 3)) == OrZero(m.time) && NumberAt(ns, 4) == Some(m.point.value)
  {
    var gs := NumberGroups(m);
    var ns := Flat(gs);
    NumberGroupsOk(m);
    SelectNumbered(NumberPoint, gs, 0);
    SelectNumbered(NumberPoint, gs, 1);
    SelectNumbered(NumberPoint, gs, 2);
    SelectNumbered(NumberPoint, gs, 3);
    SelectNumbered(NumberPoint, gs, 4);
    AttrsReadBack(7, m.attrs);
    ExemplarsReadBack(5, m.exemplars);
    hide Flat, Leaves, NumberAt, AttrNodes, ExemplarsNodes, AttrsOf, ExemplarsOf, WellNumbered,
      TimeField;
    SelectedTime(ns, 2, m.start);
    SelectedTime(ns, 3, m.time);
    SelectedNumber(ns, 4, Fixed64V(m.point.value));
  }

  /** In two parts put together each number still selects its group. */
  lemma SelectFront(t: MsgType, a: seq<Group>, b: seq<Group>, i: nat)
    requires WellNumbered(t, a + b) && i < |a|
    ensures Select(Flat(a + b), a[i].number) == a[i].nodes
  {
    hide WellNumbered, Flat, Select;
    assert (a + b)[i] == a[i];
    SelectNumbered(t, a + b, i);
  }

  lemma SelectBack(t: MsgType, a: seq<Group>, b: seq<Group>, i: nat)
    requires WellNumbered(t, a + b) && i < |b|
    ensures Select(Flat(a + b), b[i].number) == b[i].nodes
  {
    hide WellNumbered, Flat, Select;
    assert (a + b)[|a| + i] == b[i];
    SelectNumbered(t, a + b, |a| + i);
  }

  lemma HistogramFrontReadBack(m: Metric)
    requires m.point.HistogramP?
    ensures var ns := Flat(HistogramGroups(m));
      AttrsOf(Select(ns, 9)) == Some(NormEntries(m.attrs)) &&
      ExemplarsOf(Select(ns, 8)) == ExemplarsBack(m.exemplars) &&
      ZeroIfAbsent(NumberAt(ns, 2)) == OrZero(m.start) &&
      ZeroIfAbsent(NumberAt(ns, 3)) == OrZero(m.time)
  {
    var a, b := HistogramFront(m), HistogramBack(m.point);
    var ns := Flat(a + b);
    HistogramGroupsOk(m);
    SelectFront(HistogramPoint, a, b, 0);
    SelectFront(HistogramPoint, a, b, 1);
    SelectFront(HistogramPoint, a, b, 2);
    SelectFront(HistogramPoint, a, b, 3);
    AttrsReadBack(9, m.attrs);
    ExemplarsReadBack(8, m.exemplars);
    hide Flat, Leaves, NumberAt, AttrNodes, ExemplarsNodes, AttrsOf, ExemplarsOf, WellNumbered,
      TimeField;
    SelectedTime(ns, 2, m.start);
    SelectedTime(ns, 3, m.time);
  }

  lemma HistogramBackReadBack(m: Metric)
    requires m.point.HistogramP? && m.kind.HistogramKind?
    ensures PointOf(HistogramKind, Flat(HistogramGroups(m))) == PointBack(m)
  {
    var p := m.point;
    var a, b := HistogramFront(m), HistogramBack(p);
    var ns := Flat(a + b);
    HistogramGroupsOk(m);
    SelectBack(HistogramPoint, a, b, 0);
    SelectBack(HistogramPoint, a, b, 1);
    SelectBack(HistogramPoint, a, b, 2);
    SelectBack(HistogramPoint, a, b, 3);
    SelectBack(HistogramPoint, a, b, 4);
    SelectBack(HistogramPoint, a, b, 5);
    Fixed64sRoundTrip(p.buckets);
    Fixed64sRoundTrip(p.bounds);
    assert UnpackFixed64([]) == Some([]);
    hide Flat, Leaves, NumberAt, TextAt, HistogramFront, WellNumbered, PackFixed64, UnpackFixed64,
      LenField, Fixed64Field;
    SelectedFixed64(ns, 4, p.count);
    SelectedNumber(ns, 5, Fixed64V(p.sum));
    if p.bounds == [] { SelectedNothing(ns, 6); } else { SelectedLen(ns, 6, PackFixed64(p.buckets)); }
    SelectedLen(ns, 7, PackFixed64(p.bounds));
    if p.minMax.Some? {
      SelectedNumber(ns, 11, Fixed64V(p.minMax.value.0));
      SelectedNumber(ns, 12, Fixed64V(p.minMax.value.1));
    } else {
      SelectedNothing(ns, 11);
      SelectedNothing(ns, 12);
    }
  }

  lemma ExpHistogramFrontReadBack(m: Metric)
    requires m.point.ExpHistogramP?
    ensures var ns := Flat(ExpHistogramGroups(m));
      AttrsOf(Select(ns, 1)) == Some(NormEntries(m.attrs)) &&
      ZeroIfAbsent(NumberAt(ns, 2)) == OrZero(m.start) &&
      ZeroIfAbsent(NumberAt(ns, 3)) == OrZero(m.time)
  {
    var a, b := ExpHistogramFront(m), ExpHistogramBack(m.point);
    var ns := Flat(a + b);
    ExpHistogramGroupsOk(m);
    SelectFront(ExpHistogramPoint, a, b, 0);
    SelectFront(ExpHistogramPoint, a, b, 1);
    SelectFront(ExpHistogramPoint, a, b, 2);
    AttrsReadBack(1, m.attrs);
    hide Flat, Leaves, NumberAt, AttrNodes, AttrsOf, WellNumbered, TimeField;
    SelectedTime(ns, 2, m.start);
    SelectedTime(ns, 3, m.time);
  }

  lemma BucketsSelected(ns: seq<Node>, k: nat, offset: int32, counts: seq<uint64>)
    requires Select(ns, k) == BucketsNodes(k, offset, counts)
    ensures BucketsOf(MsgAt(ns, k)) == BucketsBack(offset, counts)
  {
    BucketsReadBack(offset, counts);
    hide Flat, BucketGroups, BucketsOf;
  }

  lemma ScaleSelected(ns: seq<Node>, scale: Option<int32>)
    requires Select(ns, 6) == Leaves(ScaleField(scale))
    ensures Signed(NumberAt(ns, 6)) == if scale.Some? then scale.value else 0
  {
    if scale.Some? {
      ZigzagBijective(scale.value, 0);
      SelectedVarint(ns, 6, Zigzag(scale.value));
    } else {
      SelectedNothing(ns, 6);
    }
  }

  lemma ExpHistogramBackReadBack(m: Metric)
    requires m.point.ExpHistogramP? && m.kind.ExpHistogramKind?
    ensures PointOf(ExpHistogramKind, Flat(ExpHistogramGroups(m))) == PointBack(m)
  {
    var p := m.point;
    var a, b := ExpHistogramFront(m), ExpHistogramBack(p);
    var ns := Flat(a + b);
    ExpHistogramGroupsOk(m);
    SelectBack(ExpHistogramPoint, a, b, 0);
    SelectBack(ExpHistogramPoint, a, b, 1);
    SelectBack(ExpHistogramPoint, a, b, 2);
    SelectBack(ExpHistogramPoint, a, b, 3);
    SelectBack(ExpHistogramPoint, a, b, 4);
    SelectBack(ExpHistogramPoint, a, b, 5);
    hide Flat, Leaves, NumberAt, ExpHistogramFront, WellNumbered, BucketsNodes, BucketsOf, MsgAt,
      Fixed64Field, ScaleField, Signed, BucketsBack;
    SelectedFixed64(ns, 4, p.count);
    SelectedNumber(ns, 5, Fixed64V(p.sum));
    ScaleSelected(ns, p.scale);
    SelectedFixed64(ns, 7, p.zeroCount);
    BucketsSelected(ns, 8, p.posOffset, p.pos);
    BucketsSelected(ns, 9, p.negOffset, p.neg);
  }

  /** The data point of every kind is read back. */
  lemma PointReadBack(m: Metric)
    requires MetricOk(m)
    ensures var ns := Flat(PointGroups(m));
      AttrsOf(Select(ns, AttrsNumber(m.kind))) == Some(NormEntries(m.attrs)) &&
      ExemplarsAt(m.kind, ns) == MetricBack(m).exemplars &&
      ZeroIfAbsent(NumberAt(ns, 2)) == OrZero(m.start) &&
      ZeroIfAbsent(NumberAt(ns, 3)) == OrZero(m.time) && PointOf(m.kind, ns) == PointBack(m)
  {
    hide Flat, NumberGroups, HistogramGroups, ExpHistogramGroups, NumberAt, AttrsOf, ExemplarsOf;
    if m.kind.HistogramKind? {
      HistogramFrontReadBack(m);
      HistogramBackReadBack(m);
    } else if m.kind.ExpHistogramKind? {
      ExpHistogramFrontReadBack(m);
      ExpHistogramBackReadBack(m);
    } else {
      NumberReadBack(m);
    }
  }

  lemma DataReadBack(m: Metric)
    requires MetricOk(m)
    ensures var data := Flat(DataGroups(m));
      MsgAt(data, 1) == Flat(PointGroups(m)) &&
      ZeroIfAbsent(NumberAt(data, 2)) == MetricBack(m).aggTemp &&
      (NumberAt(data, 3) == Some(1) <==> MetricBack(m).monotonic)
  {
    var gs := DataGroups(m);
    var data := Flat(gs);
    DataGroupsOk(m);
    SelectNumbered(DataType(m.kind), gs, 0);
    SelectNumbered(DataType(m.kind), gs, 1);
    SelectNumbered(DataType(m.kind), gs, 2);
    hide Flat, Leaves, NumberAt, MsgAt, PointGroups, WellNumbered, VarintField, NormEntries,
      ExemplarsBack, PointBack;
    SelectedMsg(data, 1, Flat(PointGroups(m)));
    if m.kind.GaugeKind? { SelectedNothing(data, 2); } else { SelectedVarint(data, 2, m.aggTemp); }
    if m.kind.Counter? {
      SelectedVarint(data, 3, if m.monotonic then 1 else 0);
    } else {
      SelectedNothing(data, 3);
    }
  }

  /** The fields of an encoded metric of any kind, selected by number, give the metric back. */
  lemma MetricNodesReadBack(m: Metric)
    requires MetricOk(m)
    ensures MetricOf(m.kind, MetricNodes(m)) == MetricBack(m)
  {
    var gs := MetricGroups(m);
    var ns := MetricNodes(m);
    MetricGroupsOk(m);
    SelectNumbered(MetricT, gs, 0);
    SelectNumbered(MetricT, gs, 1);
    SelectNumbered(MetricT, gs, 2);
    SelectNumbered(MetricT, gs, 3);
    DataReadBack(m);
    PointReadBack(m);
    hide Flat, Leaves, NumberAt, TextAt, MsgAt, DataGroups, PointGroups, WellNumbered, LenField,
      NormEntries, ExemplarsBack, PointBack, PointOf, ExemplarsAt, AttrsOf;
    NameSelected(ns, m.name);
    SelectedLen(ns, 2, m.description);
    SelectedLen(ns, 3, m.unit);
    SelectedMsg(ns, KindField(m.kind), Flat(DataGroups(m)));
  }

  lemma NameSelected(ns: seq<Node>, name: Bytes)
    requires Select(ns, 1) == Leaves([Field(1, LenV(name))])
    ensures TextAt(ns, 1) == name
  {
  }

  /**
   From the bytes of a metric of any kind: parse every level, select by field number, and get the
   metric back, its packed bucket counts and its zigzag offsets included.
   */
  lemma MetricRoundTrip(m: Metric)
    requires MetricOk(m) && |EncNodes(MetricNodes(m))| <= SIZE_MAX
    ensures var parsed := Parse(MetricT, EncNodes(MetricNodes(m)));
      parsed.Some? && MetricOf(m.kind, parsed.value) == MetricBack(m)
  {
    hide MetricNodes, MetricOf, MetricBack, Parse, EncNodes;
    MetricConforms(m);
    ParseRoundTrip(MetricT, MetricNodes(m));
    MetricNodesReadBack(m);
  }
}
