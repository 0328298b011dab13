/**
 Spans and trace requests of src/otlp_messages.c (lines 264 to 788): the field tree that each
 message becomes, and that it conforms to the schema. TraceEncode holds the methods that write it,
 SpanDecode a decoder for spans.
 */
module OtlpMessages {
  import opened Common
  import opened PbWire
  import opened PbTree
  import opened PbEncode
  import opened AnyValueModel

  type TraceId = b: seq<byte> | |b| == 16 witness seq(16, _ => 0)
  type SpanId = b: seq<byte> | |b| == 8 witness seq(8, _ => 0)

  datatype SpanEvent = SpanEvent(name: CBytes, time: uint64, attrs: seq<KeyValue>)

  datatype SpanLink = SpanLink(traceId: TraceId, spanId: SpanId, attrs: seq<KeyValue>)

  datatype Span = Span(
    traceId: TraceId,
    spanId: SpanId,
    parent: Option<SpanId>,
    traceState: CBytes,
    name: CBytes,
    kind: uint64,
    start: Option<uint64>,
    end: Option<uint64>,
    attrs: seq<KeyValue>,
    events: seq<SpanEvent>,
    links: seq<SpanLink>,
    statusCode: uint64,
    statusMessage: CBytes,
    sampled: bool)

  // ---------------------------------------------------------------- trees

  function Leaves(fs: seq<Field>): (ns: seq<Node>)
    ensures |ns| == |fs|
  {
    if fs == [] then [] else [Leaf(fs[0])] + Leaves(fs[1..])
  }

  lemma {:induction false} FieldsOfLeaves(fs: seq<Field>)
    ensures FieldsOf(Leaves(fs)) == fs
  {
    if fs != [] {
      FieldsOfLeaves(fs[1..]);
      assert Leaves(fs)[1..] == Leaves(fs[1..]);
    }
  }

  /** `otlp_pb_field_message` leaves out an empty sub-message. */
  function OptMsg(number: nat, ns: seq<Node>): seq<Node> {
    if ns == [] then [] else [Msg(number, ns)]
  }

  function AttrNodes(number: nat, attrs: seq<KeyValue>): (ns: seq<Node>)
    ensures |ns| == |attrs|
  {
    if attrs == [] then [] else [Msg(number, KvNodes(attrs[0]))] + AttrNodes(number, attrs[1..])
  }

  function TextGroup(number: nat, text: CBytes): Group {
    Group(number, Leaves(LenField(number, text)))
  }

  function EventGroups(e: SpanEvent): seq<Group> {
    [TextGroup(2, e.name), Group(1, Leaves(Fixed64Field(1, e.time))), Group(3, AttrNodes(3, e.attrs))]
  }

  function EventNodes(e: SpanEvent): seq<Node> { Flat(EventGroups(e)) }

  /** An event without name, time and attributes has no bytes, and is not emitted. */
  function EventsNodes(es: seq<SpanEvent>): seq<Node> {
    if es == [] then [] else OptMsg(11, EventNodes(es[0])) + EventsNodes(es[1..])
  }

  function LinkGroups(l: SpanLink): seq<Group> {
    [TextGroup(1, l.traceId), TextGroup(2, l.spanId), Group(4, AttrNodes(4, l.attrs))]
  }

  function LinkNodes(l: SpanLink): seq<Node> { Flat(LinkGroups(l)) }

  function LinksNodes(ls: seq<SpanLink>): seq<Node> {
    if ls == [] then [] else OptMsg(13, LinkNodes(ls[0])) + LinksNodes(ls[1..])
  }

  function StatusGroups(code: uint64, message: CBytes): seq<Group> {
    [Group(3, Leaves(VarintField(3, code))), TextGroup(2, message)]
  }

  function StatusNodes(code: uint64, message: CBytes): seq<Node> {
    OptMsg(15, Flat(StatusGroups(code, message)))
  }

  function Fixed64Opt(number: nat, v: Option<uint64>): seq<Field> {
    if v.Some? then [Field(number, Fixed64V(v.value))] else []
  }

  function ParentField(parent: Option<SpanId>): seq<Field> {
    if parent.Some? then [Field(4, LenV(parent.value))] else []
  }

  function FlagsField(sampled: bool): seq<Field> {
    if sampled then [Field(16, Fixed32V(1))] else []
  }

  /** The fields of a span in the order they are written. */
  function SpanGroups(sp: Span): seq<Group> {
    [ Group(1, Leaves([Field(1, LenV(sp.traceId))])),
      Group(2, Leaves([Field(2, LenV(sp.spanId))])),
      Group(4, Leaves(ParentField(sp.parent))),
      TextGroup(3, sp.traceState),
      TextGroup(5, sp.name),
      Group(6, Leaves(VarintField(6, sp.kind))),
      Group(7, Leaves(Fixed64Opt(7, sp.start))),
      Group(8, Leaves(Fixed64Opt(8, sp.end))),
      Group(9, AttrNodes(9, sp.attrs)),
      Group(11, EventsNodes(sp.events)),
      Group(13, LinksNodes(sp.links)),
      Group(15, StatusNodes(sp.statusCode, sp.statusMessage)),
      Group(16, Leaves(FlagsField(sp.sampled))) ]
  }

  function SpanNodes(sp: Span): seq<Node> { Flat(SpanGroups(sp)) }

  const SERVICE_NAME: CBytes := [0x73, 0x65, 0x72, 0x76, 0x69, 0x63, 0x65, 0x2e, 0x6e, 0x61, 0x6d, 0x65]

  /** Resource attributes with an empty key are skipped. */
  function KeyedAttrs(attrs: seq<KeyValue>): seq<KeyValue> {
    if attrs == [] then []
    else if OrEmpty(attrs[0].key) == [] then KeyedAttrs(attrs[1..])
    else [attrs[0]] + KeyedAttrs(attrs[1..])
  }

  function ServiceAttr(service: CBytes): seq<KeyValue> {
    if service == [] then [] else [KeyValue(Some(SERVICE_NAME), StringVal(Some(service)))]
  }

  function ResourceNodes(service: CBytes, attrs: seq<KeyValue>): seq<Node> {
    OptMsg(1, AttrNodes(1, ServiceAttr(service)) + AttrNodes(1, KeyedAttrs(attrs)))
  }

  function ScopeNodes(name: CBytes, version: CBytes): seq<Node> {
    OptMsg(1, Leaves(LenField(1, name)) + Leaves(LenField(2, version)))
  }

  function SpansNodes(spans: seq<Span>): seq<Node> {
    if spans == [] then [] else [Msg(2, SpanNodes(spans[0]))] + SpansNodes(spans[1..])
  }

  datatype TraceRequestArgs = TraceRequestArgs(
    service: CBytes,
    schemaUrl: CBytes,
    resource: seq<KeyValue>,
    scopeName: CBytes,
    scopeVersion: CBytes,
    spans: seq<Span>)

  function ScopeSpansNodes(a: TraceRequestArgs): seq<Node> {
    OptMsg(2, ScopeNodes(a.scopeName, a.scopeVersion) + SpansNodes(a.spans))
  }

  function ResourceSpansNodes(a: TraceRequestArgs): seq<Node> {
    ResourceNodes(a.service, a.resource) + ScopeSpansNodes(a) + Leaves(LenField(3, a.schemaUrl))
  }

  /** Nothing to say, nothing sent: even a schema URL or a scope is then left out. */
  function TraceRequestNodes(a: TraceRequestArgs): seq<Node> {
    if a.spans == [] && a.service == [] && a.resource == [] then []
    else OptMsg(1, ResourceSpansNodes(a))
  }

  // ---------------------------------------------------------------- the trees conform

  lemma {:induction false} LeavesConform(t: MsgType, fs: seq<Field>)
    requires forall f :: f in fs ==> Conforms(t, Leaf(f))
    ensures AllConform(t, Leaves(fs))
  {
    if fs != [] {
      LeavesConform(t, fs[1..]);
      assert Leaves(fs)[1..] == Leaves(fs[1..]);
    }
  }

  lemma {:induction false} AttrsConform(t: MsgType, number: nat, attrs: seq<KeyValue>)
    requires 1 <= number < UINT32_RANGE && SubMessage(t, number) == Some(KeyValueT)
    ensures AllConform(t, AttrNodes(number, attrs))
  {
    if attrs != [] {
      KvConforms(attrs[0]);
      AttrsConform(t, number, attrs[1..]);
      assert AttrNodes(number, attrs)[1..] == AttrNodes(number, attrs[1..]);
    }
  }

  lemma OptMsgConforms(t: MsgType, number: nat, ns: seq<Node>)
    requires 1 <= number < UINT32_RANGE && SubMessage(t, number).Some?
    requires AllConform(SubMessage(t, number).value, ns)
    ensures AllConform(t, OptMsg(number, ns))
  {
    OneConforms(t, Msg(number, ns));
  }

  lemma {:induction false} EventsConform(es: seq<SpanEvent>)
    ensures AllConform(SpanT, EventsNodes(es))
  {
    if es != [] {
      var e := es[0];
      LeavesConform(Event, LenField(2, e.name));
      LeavesConform(Event, Fixed64Field(1, e.time));
      AttrsConform(Event, 3, e.attrs);
      FlatConforms(Event, EventGroups(e));
      OptMsgConforms(SpanT, 11, EventNodes(e));
      EventsConform(es[1..]);
      AllConformConcat(SpanT, OptMsg(11, EventNodes(e)), EventsNodes(es[1..]));
    }
  }

  lemma {:induction false} LinksConform(ls: seq<SpanLink>)
    ensures AllConform(SpanT, LinksNodes(ls))
  {
    if ls != [] {
      var l := ls[0];
      LeavesConform(Link, LenField(1, l.traceId));
      LeavesConform(Link, LenField(2, l.spanId));
      AttrsConform(Link, 4, l.attrs);
      FlatConforms(Link, LinkGroups(l));
      OptMsgConforms(SpanT, 13, LinkNodes(l));
      LinksConform(ls[1..]);
      AllConformConcat(SpanT, OptMsg(13, LinkNodes(l)), LinksNodes(ls[1..]));
    }
  }

  lemma StatusConforms(code: uint64, message: CBytes)
    ensures AllConform(SpanT, StatusNodes(code, message))
  {
    LeavesConform(StatusT, VarintField(3, code));
    LeavesConform(StatusT, LenField(2, message));
    FlatConforms(StatusT, StatusGroups(code, message));
    OptMsgConforms(SpanT, 15, Flat(StatusGroups(code, message)));
  }

  lemma SpanGroupConforms(sp: Span, i: nat)
    requires i < |SpanGroups(sp)|
    ensures AllConform(SpanT, SpanGroups(sp)[i].nodes)
  {
    if i == 0 { LeavesConform(SpanT, [Field(1, LenV(sp.traceId))]); }
    else if i == 1 { LeavesConform(SpanT, [Field(2, LenV(sp.spanId))]); }
    else if i == 2 { LeavesConform(SpanT, ParentField(sp.parent)); }
    else if i == 3 { LeavesConform(SpanT, LenField(3, sp.traceState)); }
    else if i == 4 { LeavesConform(SpanT, LenField(5, sp.name)); }
    else if i == 5 { LeavesConform(SpanT, VarintField(6, sp.kind)); }
    else if i == 6 { LeavesConform(SpanT, Fixed64Opt(7, sp.start)); }
    else if i == 7 { LeavesConform(SpanT, Fixed64Opt(8, sp.end)); }
    else if i == 8 { AttrsConform(SpanT, 9, sp.attrs); }
    else if i == 9 { EventsConform(sp.events); }
    else if i == 10 { LinksConform(sp.links); }
    else if i == 11 { StatusConforms(sp.statusCode, sp.statusMessage); }
    else { LeavesConform(SpanT, FlagsField(sp.sampled)); }
  }

  lemma SpanConforms(sp: Span)
    ensures AllConform(SpanT, SpanNodes(sp))
  {
    var gs := SpanGroups(sp);
    forall g | g in gs ensures AllConform(SpanT, g.nodes) {
      var i :| 0 <= i < |gs| && gs[i] == g;
      SpanGroupConforms(sp, i);
    }
    FlatConforms(SpanT, gs);
  }

  lemma {:induction false} SpansConform(spans: seq<Span>)
    ensures AllConform(ScopeSpans, SpansNodes(spans))
  {
    if spans != [] {
      SpanConforms(spans[0]);
      SpansConform(spans[1..]);
      assert SpansNodes(spans)[1..] == SpansNodes(spans[1..]);
    }
  }

  lemma ResourceConforms(t: MsgType, service: CBytes, attrs: seq<KeyValue>)
    requires SubMessage(t, 1) == Some(Resource)
    ensures AllConform(t, ResourceNodes(service, attrs))
  {
    AttrsConform(Resource, 1, ServiceAttr(service));
    AttrsConform(Resource, 1, KeyedAttrs(attrs));
    AllConformConcat(Resource, AttrNodes(1, ServiceAttr(service)), AttrNodes(1, KeyedAttrs(attrs)));
    OptMsgConforms(t, 1, AttrNodes(1, ServiceAttr(service)) + AttrNodes(1, KeyedAttrs(attrs)));
  }

  lemma ScopeConforms(t: MsgType, name: CBytes, version: CBytes)
    requires SubMessage(t, 1) == Some(Scope)
    ensures AllConform(t, ScopeNodes(name, version))
  {
    LeavesConform(Scope, LenField(1, name));
    LeavesConform(Scope, LenField(2, version));
    AllConformConcat(Scope, Leaves(LenField(1, name)), Leaves(LenField(2, version)));
    OptMsgConforms(t, 1, Leaves(LenField(1, name)) + Leaves(LenField(2, version)));
  }

  lemma RequestConforms(a: TraceRequestArgs)
    ensures AllConform(TraceRequest, TraceRequestNodes(a))
  {
    ResourceConforms(ResourceSpans, a.service, a.resource);
    ScopeConforms(ScopeSpans, a.scopeName, a.scopeVersion);
    SpansConform(a.spans);
    AllConformConcat(ScopeSpans, ScopeNodes(a.scopeName, a.scopeVersion), SpansNodes(a.spans));
    var scope := ScopeSpansNodes(a);
    OptMsgConforms(ResourceSpans, 2, ScopeNodes(a.scopeName, a.scopeVersion) + SpansNodes(a.spans));
    LeavesConform(ResourceSpans, LenField(3, a.schemaUrl));
    var resource := ResourceNodes(a.service, a.resource);
    AllConformConcat(ResourceSpans, resource, scope);
    AllConformConcat(ResourceSpans, resource + scope, Leaves(LenField(3, a.schemaUrl)));
    OptMsgConforms(TraceRequest, 1, ResourceSpansNodes(a));
  }

  /** Every trace request that fits in memory is a well-formed message at every nesting level:
      a reader walk consumes it exactly and yields the emitted fields. */
  lemma TraceRequestRoundTrip(a: TraceRequestArgs)
    requires |EncNodes(TraceRequestNodes(a))| <= SIZE_MAX
    ensures Parse(TraceRequest, EncNodes(TraceRequestNodes(a))) == Some(TraceRequestNodes(a))
  {
    RequestConforms(a);
    ParseRoundTrip(TraceRequest, TraceRequestNodes(a));
  }
}
