/**
 Nested protobuf messages: trees of fields, their bytes, and a parser that walks every nesting
 level with the reader of `PbWire`, told by the OTLP schema (src/otlp_schema.h) which fields
 are sub-messages.
 */
module PbTree {
  import opened Common
  import opened PbWire

  datatype Node = Leaf(field: Field) | Msg(number: nat, nodes: seq<Node>)

  /** The field a node becomes: a sub-message is a length-delimited field. */
  function FieldOf(n: Node): Field
    decreases n, 2
  {
    match n
    case Leaf(f) => f
    case Msg(k, ns) => Field(k, LenV(EncNodes(ns)))
  }

  function FieldsOf(ns: seq<Node>): (fs: seq<Field>)
    ensures |fs| == |ns|
    decreases ns, 0
  {
    if ns == [] then [] else [FieldOf(ns[0])] + FieldsOf(ns[1..])
  }

  function EncNodes(ns: seq<Node>): Bytes
    decreases ns, 1
  {
    EncFields(FieldsOf(ns))
  }

  // ---------------------------------------------------------------- the schema

  datatype MsgType =
    | TraceRequest | ResourceSpans | Resource | ScopeSpans | Scope | SpanT | Event | Link | StatusT
    | KeyValueT | AnyValueT | ArrayValueT | KeyValueListT
    | MetricsRequest | ResourceMetrics | ScopeMetrics | MetricT | Sum | Gauge | Histogram | ExpHistogram
    | NumberPoint | HistogramPoint | ExpHistogramPoint | ExpBuckets | Exemplar

  /** Which message a length-delimited field holds; None for strings, bytes and packed lists. */
  function SubMessage(t: MsgType, number: nat): Option<MsgType> {
    match t
    case TraceRequest => if number == 1 then Some(ResourceSpans) else None
    case ResourceSpans => if number == 1 then Some(Resource) else if number == 2 then Some(ScopeSpans) else None
    case Resource => if number == 1 then Some(KeyValueT) else None
    case ScopeSpans => if number == 1 then Some(Scope) else if number == 2 then Some(SpanT) else None
    case Scope => if number == 3 then Some(KeyValueT) else None
    case SpanT =>
      if number == 9 then Some(KeyValueT)
      else if number == 11 then Some(Event)
      else if number == 13 then Some(Link)
      else if number == 15 then Some(StatusT)
      else None
    case Event => if number == 3 then Some(KeyValueT) else None
    case Link => if number == 4 then Some(KeyValueT) else None
    case StatusT => None
    case KeyValueT => if number == 2 then Some(AnyValueT) else None
    case AnyValueT => if number == 5 then Some(ArrayValueT) else if number == 6 then Some(KeyValueListT) else None
    case ArrayValueT => if number == 1 then Some(AnyValueT) else None
    case KeyValueListT => if number == 1 then Some(KeyValueT) else None
    case MetricsRequest => if number == 1 then Some(ResourceMetrics) else None
    case ResourceMetrics => if number == 1 then Some(Resource) else if number == 2 then Some(ScopeMetrics) else None
    case ScopeMetrics => if number == 1 then Some(Scope) else if number == 2 then Some(MetricT) else None
    case MetricT =>
      if number == 5 then Some(Gauge)
      else if number == 7 then Some(Sum)
      else if number == 9 then Some(Histogram)
      else if number == 10 then Some(ExpHistogram)
      else None
    case Sum => if number == 1 then Some(NumberPoint) else None
    case Gauge => if number == 1 then Some(NumberPoint) else None
    case Histogram => if number == 1 then Some(HistogramPoint) else None
    case ExpHistogram => if number == 1 then Some(ExpHistogramPoint) else None
    case NumberPoint => if number == 7 then Some(KeyValueT) else if number == 5 then Some(Exemplar) else None
    case HistogramPoint => if number == 9 then Some(KeyValueT) else if number == 8 then Some(Exemplar) else None
    case ExpHistogramPoint =>
      if number == 1 then Some(KeyValueT)
      else if number == 8 || number == 9 then Some(ExpBuckets)
      else None
    case ExpBuckets => None
    case Exemplar => if number == 7 then Some(KeyValueT) else None
  }

  /** Values that fit their wire type; sub-messages exactly where the schema has them. */
  predicate Conforms(t: MsgType, n: Node)
    decreases n, 1
  {
    match n
    case Leaf(f) =>
      && 1 <= f.number < UINT32_RANGE
      && (f.value.LenV? ==> SubMessage(t, f.number).None?)
      && (!f.value.LenV? ==> ValidValue(f.value))
    case Msg(k, ns) =>
      && 1 <= k < UINT32_RANGE
      && SubMessage(t, k).Some? && AllConform(SubMessage(t, k).value, ns)
  }

  predicate AllConform(t: MsgType, ns: seq<Node>)
    decreases ns, 0
  {
    ns == [] || (Conforms(t, ns[0]) && AllConform(t, ns[1..]))
  }

  lemma {:induction false} AllConformConcat(t: MsgType, a: seq<Node>, b: seq<Node>)
    ensures AllConform(t, a + b) <==> AllConform(t, a) && AllConform(t, b)
  {
    if a == [] {
      assert a + b == b;
    } else {
      assert (a + b)[1..] == a[1..] + b;
      AllConformConcat(t, a[1..], b);
    }
  }

  lemma {:induction false} FieldsOfConcat(a: seq<Node>, b: seq<Node>)
    ensures FieldsOf(a + b) == FieldsOf(a) + FieldsOf(b)
  {
    if a == [] {
      assert a + b == b;
    } else {
      assert (a + b)[1..] == a[1..] + b;
      FieldsOfConcat(a[1..], b);
    }
  }

  lemma EncNodesConcat(a: seq<Node>, b: seq<Node>)
    ensures EncNodes(a + b) == EncNodes(a) + EncNodes(b)
  {
    FieldsOfConcat(a, b);
    EncFieldsConcat(FieldsOf(a), FieldsOf(b));
  }

  lemma EncNodesOne(n: Node)
    ensures FieldsOf([n]) == [FieldOf(n)]
    ensures EncNodes([n]) == EncField(FieldOf(n)) && EncNodes([n]) != []
  {
    assert [n][1..] == [];
    EncOneField(FieldOf(n));
  }

  // ---------------------------------------------------------------- parsing

  /** The tree of a message: None as soon as a walk at some level does not end exactly at the
      end of its bytes. */
  function Parse(t: MsgType, s: Bytes): Option<seq<Node>>
    decreases |s|, |s| + 1
  {
    match Walk(s)
    case None => None
    case Some(fs) => ParseFields(t, fs, |s|)
  }

  function ParseField(t: MsgType, f: Field, size: nat): Option<Node>
    requires f.value.LenV? ==> |f.value.bytes| < size
    decreases size, 0
  {
    if f.value.LenV? && SubMessage(t, f.number).Some? then
      match Parse(SubMessage(t, f.number).value, f.value.bytes)
      case None => None
      case Some(ns) => Some(Msg(f.number, ns))
    else Some(Leaf(f))
  }

  ghost predicate Within(fs: seq<Field>, size: nat) {
    forall i :: 0 <= i < |fs| && fs[i].value.LenV? ==> |fs[i].value.bytes| < size
  }

  function ParseFields(t: MsgType, fs: seq<Field>, size: nat): Option<seq<Node>>
    requires Within(fs, size)
    decreases size, |fs|
  {
    if fs == [] then Some([])
    else
      match (ParseField(t, fs[0], size), ParseFields(t, fs[1..], size))
      case (Some(n), Some(ns)) => Some([n] + ns)
      case _ => None
  }

  lemma {:induction false} FieldsFit(t: MsgType, ns: seq<Node>, limit: nat)
    requires AllConform(t, ns) && |EncNodes(ns)| <= limit <= SIZE_MAX
    ensures forall i :: 0 <= i < |ns| ==> |EncField(FieldsOf(ns)[i])| <= limit && FieldsOf(ns)[i] == FieldOf(ns[i])
    ensures forall f :: f in FieldsOf(ns) ==> ValidField(f)
    decreases ns
  {
    if ns != [] {
      assert EncNodes(ns) == EncField(FieldOf(ns[0])) + EncNodes(ns[1..]);
      FieldsFit(t, ns[1..], limit);
      assert ValidField(FieldOf(ns[0])) by {
        var f := FieldOf(ns[0]);
        if f.value.LenV? { assert |EncField(f)| > |f.value.bytes|; }
      }
    }
  }

  /** Walking every nesting level of an encoded tree gives the tree back, whatever its depth
      and width: each message ends exactly where its length says. */
  lemma {:induction false} ParseRoundTrip(t: MsgType, ns: seq<Node>)
    requires AllConform(t, ns) && |EncNodes(ns)| <= SIZE_MAX
    ensures Parse(t, EncNodes(ns)) == Some(ns)
    decreases ns, 1
  {
    var s := EncNodes(ns);
    FieldsFit(t, ns, |s|);
    WalkRoundTrip(FieldsOf(ns));
    ParseFieldsRoundTrip(t, ns, |s|);
  }

  lemma {:induction false} ParseFieldRoundTrip(t: MsgType, n: Node, size: nat)
    requires Conforms(t, n) && |EncField(FieldOf(n))| <= size <= SIZE_MAX
    requires FieldOf(n).value.LenV? ==> |FieldOf(n).value.bytes| < size
    ensures ParseField(t, FieldOf(n), size) == Some(n)
    decreases n, 2
  {
    if n.Msg? { ParseRoundTrip(SubMessage(t, n.number).value, n.nodes); }
  }

  lemma {:induction false} ParseFieldsRoundTrip(t: MsgType, ns: seq<Node>, size: nat)
    requires AllConform(t, ns) && |EncNodes(ns)| <= size <= SIZE_MAX && Within(FieldsOf(ns), size)
    ensures ParseFields(t, FieldsOf(ns), size) == Some(ns)
    decreases ns, 0
  {
    if ns != [] {
      var fs := FieldsOf(ns);
      assert fs[0] == FieldOf(ns[0]) && fs[1..] == FieldsOf(ns[1..]);
      assert EncNodes(ns) == EncField(fs[0]) + EncNodes(ns[1..]);
      ParseFieldRoundTrip(t, ns[0], size);
      ParseFieldsRoundTrip(t, ns[1..], size);
      assert [ns[0]] + ns[1..] == ns;
    }
  }

  /** Two trees with the same bytes are the same tree. */
  lemma EncodingIsInjective(t: MsgType, a: seq<Node>, b: seq<Node>)
    requires AllConform(t, a) && AllConform(t, b) && |EncNodes(a)| <= SIZE_MAX
    requires EncNodes(a) == EncNodes(b)
    ensures a == b
  {
    ParseRoundTrip(t, a);
    ParseRoundTrip(t, b);
  }

  // ---------------------------------------------------------------- messages field by field

  /** The nodes a message emits for one of its fields: none, one, or a repeated field. */
  datatype Group = Group(number: nat, nodes: seq<Node>)

  function Flat(gs: seq<Group>): seq<Node> {
    if gs == [] then [] else Flat(gs[..|gs| - 1]) + gs[|gs| - 1].nodes
  }

  lemma FlatStep(gs: seq<Group>, i: nat)
    requires i < |gs|
    ensures Flat(gs[..i + 1]) == Flat(gs[..i]) + gs[i].nodes
    ensures EncNodes(Flat(gs[..i + 1])) == EncNodes(Flat(gs[..i])) + EncNodes(gs[i].nodes)
  {
    assert gs[..i + 1][..i] == gs[..i];
    EncNodesConcat(Flat(gs[..i]), gs[i].nodes);
  }

  lemma {:induction false} FlatConforms(t: MsgType, gs: seq<Group>)
    requires forall g :: g in gs ==> AllConform(t, g.nodes)
    ensures AllConform(t, Flat(gs))
  {
    if gs != [] {
      var front := gs[..|gs| - 1];
      FlatConforms(t, front);
      AllConformConcat(t, Flat(front), gs[|gs| - 1].nodes);
    }
  }

  function NumberOf(n: Node): nat {
    match n
    case Leaf(f) => f.number
    case Msg(k, _) => k
  }

  ghost predicate AllNumbered(ns: seq<Node>, k: nat) {
    forall n :: n in ns ==> NumberOf(n) == k
  }

  /** The nodes with one field number, in order: what a receiver collects for a field. */
  function Select(ns: seq<Node>, k: nat): seq<Node> {
    if ns == [] then []
    else (if NumberOf(ns[0]) == k then [ns[0]] else []) + Select(ns[1..], k)
  }

  lemma {:induction false} SelectConcat(a: seq<Node>, b: seq<Node>, k: nat)
    ensures Select(a + b, k) == Select(a, k) + Select(b, k)
  {
    if a == [] {
      assert a + b == b;
    } else {
      assert (a + b)[1..] == a[1..] + b;
      SelectConcat(a[1..], b, k);
      var first := if NumberOf(a[0]) == k then [a[0]] else [];
      assert first + Select(a[1..], k) + Select(b, k) == first + (Select(a[1..], k) + Select(b, k));
    }
  }

  lemma {:induction false} SelectGroup(ns: seq<Node>, number: nat, k: nat)
    requires AllNumbered(ns, number)
    ensures Select(ns, k) == if k == number then ns else []
  {
    if ns != [] {
      SelectGroup(ns[1..], number, k);
      assert [ns[0]] + ns[1..] == ns;
    }
  }

  lemma {:induction false} SelectNowhere(gs: seq<Group>, k: nat)
    requires forall g :: g in gs ==> AllNumbered(g.nodes, g.number) && g.number != k
    ensures Select(Flat(gs), k) == []
  {
    if gs != [] {
      var last := gs[|gs| - 1];
      SelectNowhere(gs[..|gs| - 1], k);
      SelectConcat(Flat(gs[..|gs| - 1]), last.nodes, k);
      SelectGroup(last.nodes, last.number, k);
    }
  }

  /** Selecting by the number of a group gives that group, wherever it stands. */
  lemma {:induction false} SelectFlat(gs: seq<Group>, i: nat)
    requires i < |gs|
    requires forall j :: 0 <= j < |gs| ==> AllNumbered(gs[j].nodes, gs[j].number)
    requires forall j :: 0 <= j < |gs| && j != i ==> gs[j].number != gs[i].number
    ensures Select(Flat(gs), gs[i].number) == gs[i].nodes
  {
    var k, front, last := gs[i].number, gs[..|gs| - 1], gs[|gs| - 1];
    SelectConcat(Flat(front), last.nodes, k);
    SelectGroup(last.nodes, last.number, k);
    if i == |gs| - 1 { SelectNowhere(front, k); } else { SelectFlat(front, i); }
  }
}
