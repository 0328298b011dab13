/** Reading a span back from its parsed fields, by field number, as a protobuf receiver does. */
module SpanDecode {
  import opened Common
  import opened PbWire
  import opened PbTree
  import opened AnyValueModel
  import opened OtlpMessages

  function LenAt(ns: seq<Node>, k: nat): Option<Bytes> {
    match Select(ns, k)
    case sel => if |sel| == 1 && sel[0].Leaf? && sel[0].field.value.LenV? then Some(sel[0].field.value.bytes) else None
  }

  function TextAt(ns: seq<Node>, k: nat): Bytes {
    if LenAt(ns, k).Some? then LenAt(ns, k).value else []
  }

  /** A varint or fixed-width number; None when the field is absent. */
  function NumberAt(ns: seq<Node>, k: nat): Option<nat> {
    match Select(ns, k)
    case sel => if |sel| == 1 && sel[0].Leaf? && !sel[0].field.value.LenV? then Some(sel[0].field.value.v) else None
  }

  function ZeroIfAbsent(v: Option<nat>): nat {
    if v.Some? then v.value else 0
  }

  function AttrsOf(ns: seq<Node>): Option<seq<KeyValue>> {
    if ns == [] then Some([])
    else if !ns[0].Msg? then None
    else
      match (KvOf(ns[0].nodes), AttrsOf(ns[1..]))
      case (Some(kv), Some(kvs)) => Some([kv] + kvs)
      case _ => None
  }

  datatype EventRead = EventRead(name: Bytes, time: nat, attrs: Option<seq<KeyValue>>)

  datatype LinkRead = LinkRead(traceId: Bytes, spanId: Bytes, attrs: Option<seq<KeyValue>>)

  datatype SpanRead = SpanRead(
    traceId: Bytes,
    spanId: Bytes,
    parent: Option<Bytes>,
    traceState: Bytes,
    name: Bytes,
    kind: nat,
    start: Option<nat>,
    end: Option<nat>,
    attrs: Option<seq<KeyValue>>,
    events: seq<EventRead>,
    links: seq<LinkRead>,
    statusCode: nat,
    statusMessage: Bytes,
    sampled: bool)

  function Inside(n: Node): seq<Node> {
    if n.Msg? then n.nodes else []
  }

  function EventOf(ns: seq<Node>): EventRead {
    EventRead(TextAt(ns, 2), ZeroIfAbsent(NumberAt(ns, 1)), AttrsOf(Select(ns, 3)))
  }

  function EventsOf(ns: seq<Node>): seq<EventRead> {
    if ns == [] then [] else [EventOf(Inside(ns[0]))] + EventsOf(ns[1..])
  }

  function LinkOf(ns: seq<Node>): LinkRead {
    LinkRead(TextAt(ns, 1), TextAt(ns, 2), AttrsOf(Select(ns, 4)))
  }

  function LinksOf(ns: seq<Node>): seq<LinkRead> {
    if ns == [] then [] else [LinkOf(Inside(ns[0]))] + LinksOf(ns[1..])
  }

  function StatusOf(ns: seq<Node>): seq<Node> {
    match Select(ns, 15)
    case sel => if |sel| == 1 then Inside(sel[0]) else []
  }

  function SpanOf(ns: seq<Node>): SpanRead {
    SpanRead(
      TextAt(ns, 1), TextAt(ns, 2), LenAt(ns, 4), TextAt(ns, 3), TextAt(ns, 5),
      ZeroIfAbsent(NumberAt(ns, 6)), NumberAt(ns, 7), NumberAt(ns, 8),
      AttrsOf(Select(ns, 9)), EventsOf(Select(ns, 11)), LinksOf(Select(ns, 13)),
      ZeroIfAbsent(NumberAt(StatusOf(ns), 3)), TextAt(StatusOf(ns), 2),
      NumberAt(ns, 16) == Some(1))
  }

  // ---------------------------------------------------------------- what should come back

  function ReadEvents(es: seq<SpanEvent>): seq<EventRead> {
    if es == [] then []
    else if es[0] == SpanEvent([], 0, []) then ReadEvents(es[1..])
    else [EventRead(es[0].name, es[0].time, Some(NormEntries(es[0].attrs)))] + ReadEvents(es[1..])
  }

  function ReadLinks(ls: seq<SpanLink>): seq<LinkRead> {
    if ls == [] then []
    else [LinkRead(ls[0].traceId, ls[0].spanId, Some(NormEntries(ls[0].attrs)))] + ReadLinks(ls[1..])
  }

  /** Everything in the span, with NULL strings and lists read as empty ones, and without the
      events that have no name, no time and no attributes: those are never emitted. */
  function ReadBack(sp: Span): SpanRead {
    SpanRead(
      sp.traceId, sp.spanId,
      if sp.parent.Some? then Some(sp.parent.value) else None,
      sp.traceState, sp.name, sp.kind,
      if sp.start.Some? then Some(sp.start.value) else None,
      if sp.end.Some? then Some(sp.end.value) else None,
      Some(NormEntries(sp.attrs)), ReadEvents(sp.events), ReadLinks(sp.links),
      sp.statusCode, sp.statusMessage, sp.sampled)
  }

  // ---------------------------------------------------------------- selection

  lemma {:induction false} AttrNodesNumbered(number: nat, attrs: seq<KeyValue>)
    ensures AllNumbered(AttrNodes(number, attrs), number)
  {
    if attrs != [] { AttrNodesNumbered(number, attrs[1..]); }
  }

  lemma {:induction false} EventsNumbered(es: seq<SpanEvent>)
    ensures AllNumbered(EventsNodes(es), 11)
  {
    if es != [] { EventsNumbered(es[1..]); }
  }

  lemma {:induction false} LinksNumbered(ls: seq<SpanLink>)
    ensures AllNumbered(LinksNodes(ls), 13)
  {
    if ls != [] { LinksNumbered(ls[1..]); }
  }

  /** The field number of the i-th group of a span. */
  function SpanNumber(i: nat): nat {
    if i == 2 then 4 else if i == 3 then 3 else if i <= 1 then i + 1
    else if i <= 8 then i + 1 else if i <= 11 then 2 * i - 7 else i + 4
  }

  lemma SpanGroupNumbered(sp: Span, i: nat)
    requires i < |SpanGroups(sp)|
    ensures SpanGroups(sp)[i].number == SpanNumber(i) && AllNumbered(SpanGroups(sp)[i].nodes, SpanNumber(i))
  {
    if i == 0 || i == 1 || i == 2 { }
    else if i == 3 || i == 4 { }
    else if i == 5 || i == 6 || i == 7 { }
    else if i == 8 { AttrNodesNumbered(9, sp.attrs); }
    else if i == 9 { EventsNumbered(sp.events); }
    else if i == 10 { LinksNumbered(sp.links); }
  }

  lemma SpanNumbersDistinct(i: nat, j: nat)
    requires i < 13 && j < 13 && i != j
    ensures SpanNumber(i) != SpanNumber(j)
  {
  }

  /** The group of nodes a field number selects from an encoded span. */
  lemma SelectSpan(sp: Span, i: nat)
    requires i < |SpanGroups(sp)|
    ensures Select(SpanNodes(sp), SpanNumber(i)) == SpanGroups(sp)[i].nodes
  {
    var gs := SpanGroups(sp);
    forall j | 0 <= j < |gs|
      ensures AllNumbered(gs[j].nodes, gs[j].number) && (j != i ==> gs[j].number != gs[i].number)
    {
      SpanGroupNumbered(sp, i);
      SpanGroupNumbered(sp, j);
      if j != i { SpanNumbersDistinct(i, j); }
    }
    SpanGroupNumbered(sp, i);
    SelectFlat(gs, i);
  }

  // ---------------------------------------------------------------- the parts

  lemma {:induction false} AttrsReadBack(number: nat, attrs: seq<KeyValue>)
    ensures AttrsOf(AttrNodes(number, attrs)) == Some(NormEntries(attrs))
  {
    if attrs != [] {
      KvOfNodes(attrs[0]);
      AttrsReadBack(number, attrs[1..]);
      assert AttrNodes(number, attrs)[1..] == AttrNodes(number, attrs[1..]);
    }
  }

  lemma EventReadBack(e: SpanEvent)
    ensures EventOf(EventNodes(e)) == EventRead(e.name, e.time, Some(NormEntries(e.attrs)))
    ensures EventNodes(e) == [] <==> e == SpanEvent([], 0, [])
  {
    var gs := EventGroups(e);
    AttrNodesNumbered(3, e.attrs);
    SelectFlat(gs, 0);
    SelectFlat(gs, 1);
    SelectFlat(gs, 2);
    AttrsReadBack(3, e.attrs);
    assert gs[..3] == gs;
    FlatStep(gs, 0);
    FlatStep(gs, 1);
    FlatStep(gs, 2);
  }

  lemma {:induction false} EventsReadBack(es: seq<SpanEvent>)
    ensures EventsOf(EventsNodes(es)) == ReadEvents(es)
  {
    if es != [] {
      EventReadBack(es[0]);
      EventsReadBack(es[1..]);
      if EventNodes(es[0]) != [] {
        assert EventsNodes(es)[1..] == EventsNodes(es[1..]);
      } else {
        assert EventsNodes(es) == EventsNodes(es[1..]);
      }
    }
  }

  lemma LinkReadBack(l: SpanLink)
    ensures LinkOf(LinkNodes(l)) == LinkRead(l.traceId, l.spanId, Some(NormEntries(l.attrs)))
    ensures LinkNodes(l) != []
  {
    var gs := LinkGroups(l);
    AttrNodesNumbered(4, l.attrs);
    SelectFlat(gs, 0);
    SelectFlat(gs, 1);
    SelectFlat(gs, 2);
    AttrsReadBack(4, l.attrs);
  }

  lemma {:induction false} LinksReadBack(ls: seq<SpanLink>)
    ensures LinksOf(LinksNodes(ls)) == ReadLinks(ls)
  {
    if ls != [] {
      LinkReadBack(ls[0]);
      LinksReadBack(ls[1..]);
      assert LinksNodes(ls)[1..] == LinksNodes(ls[1..]);
    }
  }

  lemma StatusReadBack(code: uint64, message: CBytes)
    ensures var inner := Flat(StatusGroups(code, message));
      ZeroIfAbsent(NumberAt(inner, 3)) == code && TextAt(inner, 2) == message
  {
    SelectFlat(StatusGroups(code, message), 0);
    SelectFlat(StatusGroups(code, message), 1);
  }

  lemma TextSelected(ns: seq<Node>, k: nat, b: CBytes)
    requires Select(ns, k) == Leaves(LenField(k, b))
    ensures TextAt(ns, k) == b
  {
  }

  lemma IdsReadBack(sp: Span)
    ensures var ns := SpanNodes(sp);
      && TextAt(ns, 1) == sp.traceId && TextAt(ns, 2) == sp.spanId && LenAt(ns, 4) == ReadBack(sp).parent
  {
    SelectSpan(sp, 0);
    SelectSpan(sp, 1);
    SelectSpan(sp, 2);
    TextSelected(SpanNodes(sp), 1, sp.traceId);
    TextSelected(SpanNodes(sp), 2, sp.spanId);
  }

  lemma TextsReadBack(sp: Span)
    ensures TextAt(SpanNodes(sp), 3) == sp.traceState && TextAt(SpanNodes(sp), 5) == sp.name
  {
    SelectSpan(sp, 3);
    SelectSpan(sp, 4);
    TextSelected(SpanNodes(sp), 3, sp.traceState);
    TextSelected(SpanNodes(sp), 5, sp.name);
  }

  lemma TimesReadBack(sp: Span)
    ensures NumberAt(SpanNodes(sp), 7) == ReadBack(sp).start && NumberAt(SpanNodes(sp), 8) == ReadBack(sp).end
  {
    SelectSpan(sp, 6);
    SelectSpan(sp, 7);
  }

  lemma KindAndFlagReadBack(sp: Span)
    ensures ZeroIfAbsent(NumberAt(SpanNodes(sp), 6)) == sp.kind
    ensures NumberAt(SpanNodes(sp), 16) == Some(1) <==> sp.sampled
  {
    SelectSpan(sp, 5);
    SelectSpan(sp, 12);
  }

  lemma ListsReadBack(sp: Span)
    ensures var ns := SpanNodes(sp);
      && AttrsOf(Select(ns, 9)) == Some(NormEntries(sp.attrs))
      && EventsOf(Select(ns, 11)) == ReadEvents(sp.events)
      && LinksOf(Select(ns, 13)) == ReadLinks(sp.links)
  {
    SelectSpan(sp, 8);
    SelectSpan(sp, 9);
    SelectSpan(sp, 10);
    AttrsReadBack(9, sp.attrs);
    EventsReadBack(sp.events);
    LinksReadBack(sp.links);
  }

  lemma StatusInSpan(sp: Span)
    ensures var status := StatusOf(SpanNodes(sp));
      ZeroIfAbsent(NumberAt(status, 3)) == sp.statusCode && TextAt(status, 2) == sp.statusMessage
  {
    SelectSpan(sp, 11);
    StatusReadBack(sp.statusCode, sp.statusMessage);
    assert StatusOf(SpanNodes(sp)) == Flat(StatusGroups(sp.statusCode, sp.statusMessage));
  }

  /** The fields of an encoded span, selected by number, give the span back. */
  lemma SpanNodesReadBack(sp: Span)
    ensures SpanOf(SpanNodes(sp)) == ReadBack(sp)
  {
    IdsReadBack(sp);
    TextsReadBack(sp);
    TimesReadBack(sp);
    KindAndFlagReadBack(sp);
    ListsReadBack(sp);
    StatusInSpan(sp);
  }

  /** From the bytes of a span: parse every level, select by field number, get the span back. */
  lemma SpanRoundTrip(sp: Span)
    requires |EncNodes(SpanNodes(sp))| <= SIZE_MAX
    ensures var parsed := Parse(SpanT, EncNodes(SpanNodes(sp)));
      parsed.Some? && SpanOf(parsed.value) == ReadBack(sp)
  {
    SpanConforms(sp);
    ParseRoundTrip(SpanT, SpanNodes(sp));
    SpanNodesReadBack(sp);
  }
}
