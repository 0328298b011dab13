/**
 Reading the arguments of a request back from its parsed fields. A trace and a metrics request have
 the same envelope, `ResourceSpans` or `ResourceMetrics` around resource, scope, items and schema
 URL; a receiver finds each part by its field number, and takes a part that is absent as empty.
 */
module RequestReadBack {
  import opened Common
  import opened PbWire
  import opened PbTree
  import opened AnyValueModel
  import opened OtlpMessages
  import opened SpanDecode
  import opened OtlpMetrics

  datatype Envelope = Envelope(
    resource: Option<seq<KeyValue>>,
    scopeName: Bytes,
    scopeVersion: Bytes,
    items: seq<Node>,
    schemaUrl: Bytes)

  function EnvelopeOf(ns: seq<Node>): Envelope {
    var outer := MsgAt(ns, 1);
    var inner := MsgAt(outer, 2);
    var scope := MsgAt(inner, 1);
    Envelope(AttrsOf(Select(MsgAt(outer, 1), 1)), TextAt(scope, 1), TextAt(scope, 2),
             Select(inner, 2), TextAt(outer, 3))
  }

  /** Bytes that spell an ASCII text. */
  predicate Spells(b: Bytes, text: string) {
    |b| == |text| && forall i :: 0 <= i < |b| ==> b[i] as int == text[i] as int
  }

  predicate Keyed(kv: KeyValue) { kv.key.Some? && |kv.key.value| > 0 }

  /** `got` holds the entries of `attrs` that have a nonempty key, in order: they stand at the
      positions `at`. */
  ghost predicate KeyedInOrder(attrs: seq<KeyValue>, got: seq<KeyValue>, at: seq<nat>) {
    Rising(at) && EntriesAt(attrs, got, at) && CoversKeyed(attrs, at)
  }

  ghost predicate Rising(at: seq<nat>) {
    forall i, j :: 0 <= i < j < |at| ==> at[i] < at[j]
  }

  ghost predicate EntriesAt(attrs: seq<KeyValue>, got: seq<KeyValue>, at: seq<nat>) {
    && |at| == |got|
    && forall j :: 0 <= j < |at| ==> at[j] < |attrs| && got[j] == NormKv(attrs[at[j]])
  }

  ghost predicate CoversKeyed(attrs: seq<KeyValue>, at: seq<nat>) {
    forall i: nat :: i < |attrs| ==> (i in at <==> Keyed(attrs[i]))
  }

  /** The attributes of the resource: `service.name` first unless the service is empty, then the
      attributes with a nonempty key. */
  ghost predicate ResourceHolds(service: CBytes, attrs: seq<KeyValue>, got: seq<KeyValue>) {
    if service == [] then exists at :: KeyedInOrder(attrs, got, at)
    else
      && |got| > 0
      && got[0].key.Some? && Spells(got[0].key.value, "service.name")
      && got[0].value == StringVal(Some(service))
      && exists at :: KeyedInOrder(attrs, got[1..], at)
  }

  /** The i-th item is a message that reads as the i-th span. */
  ghost predicate SpansHeld(spans: seq<Span>, items: seq<Node>) {
    && |items| == |spans|
    && forall i :: 0 <= i < |items| ==> items[i].Msg? && SpanOf(items[i].nodes) == ReadBack(spans[i])
  }

  /** A message of this kind and no other. */
  predicate OfKind(ns: seq<Node>, kind: Kind) {
    && |Select(ns, 5)| == (if kind.GaugeKind? then 1 else 0)
    && |Select(ns, 7)| == (if kind.Counter? then 1 else 0)
    && |Select(ns, 9)| == (if kind.HistogramKind? then 1 else 0)
    && |Select(ns, 10)| == (if kind.ExpHistogramKind? then 1 else 0)
  }

  /** The i-th item is a message that reads as the i-th metric, its kind told by its fields. */
  ghost predicate MetricsHeld(ms: seq<Metric>, items: seq<Node>)
    requires AllOk(ms)
  {
    && |items| == |ms|
    && forall i :: 0 <= i < |items| ==> MetricHeld(ms[i], items[i])
  }

  ghost predicate MetricHeld(m: Metric, item: Node)
    requires MetricOk(m)
  {
    item.Msg? && OfKind(item.nodes, m.kind) && MetricOf(m.kind, item.nodes) == MetricBack(m)
  }

  // ---------------------------------------------------------------- the envelope

  function EnvelopeNodes(
    service: CBytes, attrs: seq<KeyValue>, name: CBytes, version: CBytes, items: seq<Node>,
    url: CBytes): seq<Node>
  {
    ResourceNodes(service, attrs) + OptMsg(2, ScopeNodes(name, version) + items)
    + Leaves(LenField(3, url))
  }

  lemma OptMsgNumbered(number: nat, ns: seq<Node>)
    ensures AllNumbered(OptMsg(number, ns), number)
  {
  }

  lemma TextNumbered(number: nat, b: CBytes)
    ensures AllNumbered(Leaves(LenField(number, b)), number)
  {
  }

  /** What an optional message holds is found under its number, and so is its absence. */
  lemma OptMsgAt(ns: seq<Node>, number: nat, inner: seq<Node>)
    requires Select(ns, number) == OptMsg(number, inner)
    ensures MsgAt(ns, number) == inner
  {
  }

  lemma SelectTwo(a: seq<Node>, j: nat, b: seq<Node>, k: nat)
    requires AllNumbered(a, j) && AllNumbered(b, k) && j != k
    ensures Select(a + b, j) == a && Select(a + b, k) == b
  {
    SelectConcat(a, b, j);
    SelectConcat(a, b, k);
    SelectGroup(a, j, j);
    SelectGroup(a, j, k);
    SelectGroup(b, k, j);
    SelectGroup(b, k, k);
  }

  lemma SelectThree(a: seq<Node>, b: seq<Node>, c: seq<Node>)
    requires AllNumbered(a, 1) && AllNumbered(b, 2) && AllNumbered(c, 3)
    ensures Select(a + b + c, 1) == a && Select(a + b + c, 2) == b && Select(a + b + c, 3) == c
  {
    SelectTwo(a, 1, b, 2);
    forall k | k == 1 || k == 2 || k == 3 ensures Select(a + b + c, k) == Select(a + b, k) + Select(c, k) {
      SelectConcat(a + b, c, k);
      SelectGroup(c, 3, k);
    }
    SelectGroup(c, 3, 1);
    SelectGroup(c, 3, 2);
    SelectGroup(c, 3, 3);
    SelectConcat(a, b, 3);
    SelectGroup(a, 1, 3);
    SelectGroup(b, 2, 3);
  }

  lemma ScopeReadBack(name: CBytes, version: CBytes)
    ensures var scope := Leaves(LenField(1, name)) + Leaves(LenField(2, version));
      TextAt(scope, 1) == name && TextAt(scope, 2) == version
  {
    var scope := Leaves(LenField(1, name)) + Leaves(LenField(2, version));
    TextNumbered(1, name);
    TextNumbered(2, version);
    SelectTwo(Leaves(LenField(1, name)), 1, Leaves(LenField(2, version)), 2);
    TextSelected(scope, 1, name);
    TextSelected(scope, 2, version);
  }

  lemma {:induction false} AttrNodesConcat(number: nat, a: seq<KeyValue>, b: seq<KeyValue>)
    ensures AttrNodes(number, a + b) == AttrNodes(number, a) + AttrNodes(number, b)
  {
    if a == [] {
      assert a + b == b;
    } else {
      assert (a + b)[1..] == a[1..] + b;
      AttrNodesConcat(number, a[1..], b);
    }
  }

  lemma ResourceAttrs(service: CBytes, attrs: seq<KeyValue>)
    ensures var inner := AttrNodes(1, ServiceAttr(service)) + AttrNodes(1, KeyedAttrs(attrs));
      AttrsOf(Select(inner, 1)) == Some(NormEntries(ServiceAttr(service) + KeyedAttrs(attrs)))
  {
    var all := ServiceAttr(service) + KeyedAttrs(attrs);
    AttrNodesConcat(1, ServiceAttr(service), KeyedAttrs(attrs));
    AttrNodesNumbered(1, all);
    SelectGroup(AttrNodes(1, all), 1, 1);
    AttrsReadBack(1, all);
  }

  /** Each part of the envelope is found under its number. */
  lemma EnvelopeReadBack(
    service: CBytes, attrs: seq<KeyValue>, name: CBytes, version: CBytes, items: seq<Node>,
    url: CBytes)
    requires AllNumbered(items, 2)
    ensures EnvelopeOf(OptMsg(1, EnvelopeNodes(service, attrs, name, version, items, url)))
         == Envelope(Some(NormEntries(ServiceAttr(service) + KeyedAttrs(attrs))), name, version,
                     items, url)
  {
    var outer := EnvelopeNodes(service, attrs, name, version, items, url);
    var resource := AttrNodes(1, ServiceAttr(service)) + AttrNodes(1, KeyedAttrs(attrs));
    var scope := Leaves(LenField(1, name)) + Leaves(LenField(2, version));
    var inner := ScopeNodes(name, version) + items;
    OptMsgNumbered(1, outer);
    OptMsgNumbered(1, resource);
    OptMsgNumbered(2, inner);
    OptMsgNumbered(1, scope);
    TextNumbered(3, url);
    SelectThree(OptMsg(1, resource), OptMsg(2, inner), Leaves(LenField(3, url)));
    SelectTwo(OptMsg(1, scope), 1, items, 2);
    SelectGroup(OptMsg(1, outer), 1, 1);
    hide OptMsg, AttrNodes, AttrsOf, Leaves, LenField, Select, TextAt, AllNumbered, NormEntries,
      ServiceAttr, KeyedAttrs;
    OptMsgAt(OptMsg(1, outer), 1, outer);
    OptMsgAt(outer, 1, resource);
    OptMsgAt(outer, 2, inner);
    OptMsgAt(inner, 1, scope);
    hide MsgAt;
    ScopeReadBack(name, version);
    ResourceAttrs(service, attrs);
    TextSelected(outer, 3, url);
  }

  // ---------------------------------------------------------------- the resource

  function Shifted(at: seq<nat>): (r: seq<nat>)
    ensures |r| == |at| && forall j :: 0 <= j < |at| ==> r[j] == at[j] + 1
  {
    seq(|at|, j requires 0 <= j < |at| => at[j] + 1)
  }

  lemma ShiftedIn(at: seq<nat>, i: nat)
    ensures i + 1 in Shifted(at) <==> i in at
    ensures 0 !in Shifted(at)
  {
    var later := Shifted(at);
    if i + 1 in later { var j :| 0 <= j < |later| && later[j] == i + 1; }
    if i in at { var j :| 0 <= j < |at| && at[j] == i; assert later[j] == i + 1; }
  }

  /** The positions among the attributes but the first, moved up by one. */
  lemma LaterCovered(attrs: seq<KeyValue>, at: seq<nat>, i: nat)
    requires attrs != [] && CoversKeyed(attrs[1..], at) && 0 < i < |attrs|
    ensures i in Shifted(at) <==> Keyed(attrs[i])
  {
    hide Keyed;
    ShiftedIn(at, i - 1);
    assert attrs[1..][i - 1] == attrs[i];
  }

  lemma LaterEntries(attrs: seq<KeyValue>, got: seq<KeyValue>, at: seq<nat>)
    requires attrs != [] && EntriesAt(attrs[1..], got, at)
    ensures EntriesAt(attrs, got, Shifted(at))
  {
    hide NormKv;
  }

  lemma FirstEntry(attrs: seq<KeyValue>, got: seq<KeyValue>, later: seq<nat>)
    requires attrs != [] && EntriesAt(attrs, got, later)
    ensures EntriesAt(attrs, [NormKv(attrs[0])] + got, [0] + later)
  {
    hide NormKv;
  }

  lemma KeyedLater(attrs: seq<KeyValue>, got: seq<KeyValue>, at: seq<nat>)
    requires attrs != [] && KeyedInOrder(attrs[1..], got, at) && !Keyed(attrs[0])
    ensures KeyedInOrder(attrs, got, Shifted(at))
  {
    hide Keyed, EntriesAt;
    LaterEntries(attrs, got, at);
    ShiftedIn(at, 0);
    forall i: nat | i < |attrs| ensures i in Shifted(at) <==> Keyed(attrs[i]) {
      if i > 0 { LaterCovered(attrs, at, i); }
    }
  }

  lemma KeyedFirst(attrs: seq<KeyValue>, got: seq<KeyValue>, at: seq<nat>)
    requires attrs != [] && KeyedInOrder(attrs[1..], got, at) && Keyed(attrs[0])
    ensures KeyedInOrder(attrs, [NormKv(attrs[0])] + got, [0] + Shifted(at))
  {
    hide Keyed, EntriesAt, NormKv;
    LaterEntries(attrs, got, at);
    FirstEntry(attrs, got, Shifted(at));
    forall i: nat | i < |attrs| ensures i in [0] + Shifted(at) <==> Keyed(attrs[i]) {
      if i > 0 { LaterCovered(attrs, at, i); }
    }
  }

  /** The loop over the resource attributes keeps exactly those with a nonempty key, in order. */
  lemma {:induction false} KeyedAttrsAre(attrs: seq<KeyValue>) returns (at: seq<nat>)
    ensures KeyedInOrder(attrs, NormEntries(KeyedAttrs(attrs)), at)
  {
    hide NormKv, KeyedInOrder;
    if attrs == [] {
      at := [];
      NoneKeyed();
    } else {
      at := KeyedAttrsAre(attrs[1..]);
      if Keyed(attrs[0]) {
        KeyedFirst(attrs, NormEntries(KeyedAttrs(attrs[1..])), at);
        assert KeyedAttrs(attrs)[1..] == KeyedAttrs(attrs[1..]);
        at := [0] + Shifted(at);
      } else {
        KeyedLater(attrs, NormEntries(KeyedAttrs(attrs[1..])), at);
        at := Shifted(at);
      }
    }
  }

  lemma NoneKeyed()
    ensures KeyedInOrder([], [], [])
  {
  }

  lemma ServiceNameSpells()
    ensures Spells(SERVICE_NAME, "service.name")
  {
  }

  lemma {:induction false} NormEntriesConcat(a: seq<KeyValue>, b: seq<KeyValue>)
    ensures NormEntries(a + b) == NormEntries(a) + NormEntries(b)
  {
    if a == [] {
      assert a + b == b;
    } else {
      assert (a + b)[1..] == a[1..] + b;
      NormEntriesConcat(a[1..], b);
    }
  }

  lemma ServiceEntry(service: CBytes)
    ensures NormEntries(ServiceAttr(service)) ==
      if service == [] then [] else [KeyValue(Some(SERVICE_NAME), StringVal(Some(service)))]
  {
    if service != [] {
      var kv := ServiceAttr(service)[0];
      assert ServiceAttr(service)[1..] == [];
      assert NormEntries([]) == [] && NormEntries(ServiceAttr(service)) == [NormKv(kv)];
    }
  }

  lemma ResourceIsHeld(service: CBytes, attrs: seq<KeyValue>)
    ensures ResourceHolds(service, attrs, NormEntries(ServiceAttr(service) + KeyedAttrs(attrs)))
  {
    var first, rest := NormEntries(ServiceAttr(service)), NormEntries(KeyedAttrs(attrs));
    var at := KeyedAttrsAre(attrs);
    NormEntriesConcat(ServiceAttr(service), KeyedAttrs(attrs));
    ServiceEntry(service);
    ServiceNameSpells();
    hide KeyedAttrs, Spells, KeyedInOrder, NormEntries, ServiceAttr;
    assert NormEntries(ServiceAttr(service) + KeyedAttrs(attrs)) == first + rest;
    if service == [] {
      assert first + rest == rest;
    } else {
      assert (first + rest)[1..] == rest && (first + rest)[0] == first[0];
    }
  }

  // ---------------------------------------------------------------- trace requests

  lemma {:induction false} SpansAreHeld(spans: seq<Span>)
    ensures SpansHeld(spans, SpansNodes(spans)) && AllNumbered(SpansNodes(spans), 2)
  {
    hide SpanNodes, SpanOf, ReadBack;
    if spans != [] {
      SpanNodesReadBack(spans[0]);
      SpansAreHeld(spans[1..]);
    }
  }

  /** Everything a trace request was called with, as a reader finds it. */
  ghost predicate TraceHeld(a: TraceRequestArgs, e: Envelope) {
    && e.resource.Some? && ResourceHolds(a.service, a.resource, e.resource.value)
    && e.scopeName == a.scopeName && e.scopeVersion == a.scopeVersion
    && SpansHeld(a.spans, e.items)
    && e.schemaUrl == a.schemaUrl
  }

  lemma TraceNodesReadBack(a: TraceRequestArgs)
    requires a.spans != [] || a.service != [] || a.resource != []
    ensures TraceHeld(a, EnvelopeOf(TraceRequestNodes(a)))
  {
    SpansAreHeld(a.spans);
    ResourceIsHeld(a.service, a.resource);
    hide SpansHeld, SpansNodes, AllNumbered, ResourceHolds, ResourceNodes, ScopeNodes, OptMsg, Leaves,
      LenField, NormEntries, EnvelopeOf;
    EnvelopeReadBack(a.service, a.resource, a.scopeName, a.scopeVersion, SpansNodes(a.spans),
                     a.schemaUrl);
  }

  /**
   From the bytes of a trace request: a request with a span, a service or a resource attribute
   gives back its resource, scope, spans and schema URL; any other request has no bytes.
   */
  lemma TraceRequestReadBack(a: TraceRequestArgs)
    requires |EncNodes(TraceRequestNodes(a))| <= SIZE_MAX
    ensures var parsed := Parse(TraceRequest, EncNodes(TraceRequestNodes(a)));
      && parsed.Some?
      && if a.spans == [] && a.service == [] && a.resource == [] then parsed.value == []
         else TraceHeld(a, EnvelopeOf(parsed.value))
  {
    TraceRequestRoundTrip(a);
    hide EncNodes, Parse, EnvelopeOf, TraceHeld;
    if a.spans != [] || a.service != [] || a.resource != [] { TraceNodesReadBack(a); }
  }

  // ---------------------------------------------------------------- metrics requests

  /** Only the field of its own kind is in an encoded metric. */
  lemma KindIsRead(m: Metric)
    requires MetricOk(m)
    ensures OfKind(MetricNodes(m), m.kind)
  {
    var gs := MetricGroups(m);
    MetricGroupsOk(m);
    hide WellNumbered, Flat, DataGroups, LenField, Leaves, MetricGroups, MetricNodes;
    KindSelected(m, GaugeKind);
    KindSelected(m, Counter);
    KindSelected(m, HistogramKind);
    KindSelected(m, ExpHistogramKind);
  }

  lemma OtherNumbers(m: Metric, kind: Kind, g: Group)
    requires MetricOk(m) && kind != m.kind && g in MetricGroups(m)
    ensures g.number != KindField(kind)
  {
    hide DataGroups, Flat, LenField, Leaves;
  }

  lemma KindSelected(m: Metric, kind: Kind)
    requires MetricOk(m)
    ensures |Select(MetricNodes(m), KindField(kind))| == (if kind == m.kind then 1 else 0)
  {
    var gs := MetricGroups(m);
    MetricGroupsOk(m);
    if kind == m.kind {
      hide Flat, DataGroups, LenField, Leaves, Select;
      SelectNumbered(MetricT, gs, 3);
    } else {
      hide MetricGroups, Flat, Select;
      forall g | g in gs ensures g.number != KindField(kind) { OtherNumbers(m, kind, g); }
      SelectNowhere(gs, KindField(kind));
    }
  }

  lemma MetricIsHeld(m: Metric)
    requires MetricOk(m)
    ensures MetricHeld(m, Msg(2, MetricNodes(m)))
  {
    hide MetricNodes, MetricOf, MetricBack, OfKind;
    KindIsRead(m);
    MetricNodesReadBack(m);
  }

  lemma {:induction false} MetricsAreHeld(ms: seq<Metric>)
    requires AllOk(ms)
    ensures MetricsHeld(ms, MetricsNodes(ms)) && AllNumbered(MetricsNodes(ms), 2)
  {
    hide MetricNodes, MetricHeld, MetricOk;
    if ms != [] {
      var n := |ms| - 1;
      MetricIsHeld(ms[n]);
      MetricsAreHeld(ms[..n]);
    }
  }

  /** Everything a metrics request was called with, as a reader finds it. */
  ghost predicate MetricsRequestHeld(a: MetricsArgs, e: Envelope)
    requires AllOk(a.metrics)
  {
    && e.resource.Some? && ResourceHolds(a.service, a.resource, e.resource.value)
    && e.scopeName == a.scopeName && e.scopeVersion == a.scopeVersion
    && MetricsHeld(a.metrics, e.items)
    && e.schemaUrl == a.schemaUrl
  }

  lemma MetricsNodesReadBack(a: MetricsArgs)
    requires AllOk(a.metrics)
    requires a.metrics != [] || a.service != [] || a.resource != []
    ensures MetricsRequestHeld(a, EnvelopeOf(MetricsRequestNodes(a)))
  {
    MetricsAreHeld(a.metrics);
    ResourceIsHeld(a.service, a.resource);
    hide MetricsHeld, MetricsNodes, AllOk, AllNumbered, ResourceHolds, ResourceNodes, ScopeNodes, OptMsg,
      Leaves, LenField, NormEntries, EnvelopeOf;
    EnvelopeReadBack(a.service, a.resource, a.scopeName, a.scopeVersion, MetricsNodes(a.metrics),
                     a.schemaUrl);
  }

  /** The same of a metrics request: each metric comes back under its kind, in order. */
  lemma MetricsRequestReadBack(a: MetricsArgs)
    requires AllOk(a.metrics) && |EncNodes(MetricsRequestNodes(a))| <= SIZE_MAX
    ensures var parsed := Parse(MetricsRequest, EncNodes(MetricsRequestNodes(a)));
      && parsed.Some?
      && if a.metrics == [] && a.service == [] && a.resource == [] then parsed.value == []
         else MetricsRequestHeld(a, EnvelopeOf(parsed.value))
  {
    MetricsRequestRoundTrip(a);
    hide AllOk, EncNodes, Parse, EnvelopeOf, MetricsRequestHeld;
    if a.metrics != [] || a.service != [] || a.resource != [] { MetricsNodesReadBack(a); }
  }
}
