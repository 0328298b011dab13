/**
 AnyValue and KeyValue (src/otlp_messages.c, lines 63 to 262): the recursive encoders and a
 decoder built from the repository's reader, with the round trip between them. Doubles are
 64-bit patterns.
 */
module AnyValueModel {
  import opened Common
  import opened PbWire
  import opened PbTree
  import opened PbEncode

  type int64 = i: int | -0x8000_0000_0000_0000 <= i < 0x8000_0000_0000_0000

  /** `struct otlp_attribute` without its key; None is a NULL string. */
  datatype AnyValue =
    | StringVal(s: Option<CBytes>)
    | BoolVal(b: bool)
    | IntVal(i: int64)
    | DoubleVal(bits: uint64)
    | NullArrayVal
    | ArrayVal(items: seq<AnyValue>)
    | NullKvListVal
    | KvListVal(entries: seq<KeyValue>)
    | BytesVal(bytes: CBytes)

  datatype KeyValue = KeyValue(key: Option<CBytes>, value: AnyValue)

  function OrEmpty(s: Option<CBytes>): CBytes {
    if s.Some? then s.value else []
  }

  function ToUint64(i: int64): uint64 {
    if i < 0 then i + UINT64_RANGE else i
  }

  function FromUint64(u: uint64): int64 {
    if u < UINT64_RANGE / 2 then u else u - UINT64_RANGE
  }

  // ---------------------------------------------------------------- the tree of a value

  /** The one field of the oneof, emitted for zero values too. */
  function AnyNode(v: AnyValue): Node
    decreases v, 0
  {
    match v
    case StringVal(s) => Leaf(Field(1, LenV(OrEmpty(s))))
    case BoolVal(b) => Leaf(Field(2, VarintV(if b then 1 else 0)))
    case IntVal(i) => Leaf(Field(3, VarintV(ToUint64(i))))
    case DoubleVal(bits) => Leaf(Field(4, Fixed64V(bits)))
    case NullArrayVal => Msg(5, [])
    case ArrayVal(xs) => Msg(5, ItemNodes(xs))
    case NullKvListVal => Msg(6, [])
    case KvListVal(es) => Msg(6, EntryNodes(es))
    case BytesVal(b) => Leaf(Field(7, LenV(b)))
  }

  function ItemNodes(xs: seq<AnyValue>): (ns: seq<Node>)
    ensures |ns| == |xs|
    decreases xs, 0
  {
    if xs == [] then [] else [Msg(1, [AnyNode(xs[0])])] + ItemNodes(xs[1..])
  }

  function KvNodes(kv: KeyValue): seq<Node>
    decreases kv, 1
  {
    [Leaf(Field(1, LenV(OrEmpty(kv.key)))), Msg(2, [AnyNode(kv.value)])]
  }

  function EntryNodes(es: seq<KeyValue>): (ns: seq<Node>)
    ensures |ns| == |es|
    decreases es, 0
  {
    if es == [] then [] else [Msg(1, KvNodes(es[0]))] + EntryNodes(es[1..])
  }

  lemma {:induction false} AnyNodeConforms(v: AnyValue)
    ensures Conforms(AnyValueT, AnyNode(v))
    decreases v, 0
  {
    match v
    case ArrayVal(xs) => ItemsConform(xs);
    case KvListVal(es) => EntriesConform(es);
    case _ =>
  }

  lemma {:induction false} ItemsConform(xs: seq<AnyValue>)
    ensures AllConform(ArrayValueT, ItemNodes(xs))
    decreases xs, 0
  {
    if xs != [] {
      AnyNodeConforms(xs[0]);
      ItemsConform(xs[1..]);
      assert ItemNodes(xs)[1..] == ItemNodes(xs[1..]);
      OneConforms(AnyValueT, AnyNode(xs[0]));
    }
  }

  lemma OneConforms(t: MsgType, n: Node)
    ensures AllConform(t, [n]) <==> Conforms(t, n)
  {
    assert [n][1..] == [];
  }

  lemma {:induction false} KvConforms(kv: KeyValue)
    ensures AllConform(KeyValueT, KvNodes(kv))
    decreases kv, 1
  {
    AnyNodeConforms(kv.value);
    OneConforms(AnyValueT, AnyNode(kv.value));
    OneConforms(KeyValueT, Msg(2, [AnyNode(kv.value)]));
    assert KvNodes(kv)[1..] == [Msg(2, [AnyNode(kv.value)])];
  }

  lemma {:induction false} EntriesConform(es: seq<KeyValue>)
    ensures AllConform(KeyValueListT, EntryNodes(es))
    decreases es, 0
  {
    if es != [] {
      KvConforms(es[0]);
      EntriesConform(es[1..]);
      assert EntryNodes(es)[1..] == EntryNodes(es[1..]);
    }
  }

  // ---------------------------------------------------------------- decoding

  /** NULL strings, arrays and lists cannot be told from empty ones on the wire. */
  function Norm(v: AnyValue): AnyValue
    decreases v, 0
  {
    match v
    case StringVal(s) => StringVal(Some(OrEmpty(s)))
    case NullArrayVal => ArrayVal([])
    case ArrayVal(xs) => ArrayVal(NormItems(xs))
    case NullKvListVal => KvListVal([])
    case KvListVal(es) => KvListVal(NormEntries(es))
    case _ => v
  }

  function NormItems(xs: seq<AnyValue>): seq<AnyValue>
    decreases xs, 0
  {
    if xs == [] then [] else [Norm(xs[0])] + NormItems(xs[1..])
  }

  function NormKv(kv: KeyValue): KeyValue
    decreases kv, 1
  {
    KeyValue(Some(OrEmpty(kv.key)), Norm(kv.value))
  }

  function NormEntries(es: seq<KeyValue>): seq<KeyValue>
    decreases es, 0
  {
    if es == [] then [] else [NormKv(es[0])] + NormEntries(es[1..])
  }

  /** The value a parsed AnyValue message stands for; None for anything but one known field of
      the right wire type. */
  function ValueOf(ns: seq<Node>): Option<AnyValue>
    decreases ns, 1
  {
    if |ns| != 1 then None
    else
      match ns[0]
      case Leaf(Field(1, LenV(b))) => if |b| <= SIZE_MAX then Some(StringVal(Some(b))) else None
      case Leaf(Field(2, VarintV(v))) => Some(BoolVal(v != 0))
      case Leaf(Field(3, VarintV(v))) => if v < UINT64_RANGE then Some(IntVal(FromUint64(v))) else None
      case Leaf(Field(4, Fixed64V(v))) => if v < UINT64_RANGE then Some(DoubleVal(v)) else None
      case Msg(5, items) =>
        (match ItemsOf(items)
         case None => None
         case Some(xs) => Some(ArrayVal(xs)))
      case Msg(6, entries) =>
        (match EntriesOf(entries)
         case None => None
         case Some(es) => Some(KvListVal(es)))
      case Leaf(Field(7, LenV(b))) => if |b| <= SIZE_MAX then Some(BytesVal(b)) else None
      case _ => None
  }

  function ItemsOf(ns: seq<Node>): Option<seq<AnyValue>>
    decreases ns, 0
  {
    if ns == [] then Some([])
    else if !(ns[0].Msg? && ns[0].number == 1) then None
    else
      match (ValueOf(ns[0].nodes), ItemsOf(ns[1..]))
      case (Some(v), Some(vs)) => Some([v] + vs)
      case _ => None
  }

  function KvOf(ns: seq<Node>): Option<KeyValue>
    decreases ns, 2
  {
    if |ns| != 2 || !ns[1].Msg? || ns[1].number != 2 then None
    else
      match (ns[0], ValueOf(ns[1].nodes))
      case (Leaf(Field(1, LenV(k))), Some(v)) => if |k| <= SIZE_MAX then Some(KeyValue(Some(k), v)) else None
      case _ => None
  }

  function EntriesOf(ns: seq<Node>): Option<seq<KeyValue>>
    decreases ns, 0
  {
    if ns == [] then Some([])
    else if !(ns[0].Msg? && ns[0].number == 1) then None
    else
      match (KvOf(ns[0].nodes), EntriesOf(ns[1..]))
      case (Some(kv), Some(kvs)) => Some([kv] + kvs)
      case _ => None
  }

  lemma {:induction false} ValueOfNode(v: AnyValue)
    ensures ValueOf([AnyNode(v)]) == Some(Norm(v))
    decreases v, 0
  {
    match v
    case ArrayVal(xs) => ItemsOfNodes(xs);
    case KvListVal(es) => EntriesOfNodes(es);
    case _ =>
  }

  lemma {:induction false} ItemsOfNodes(xs: seq<AnyValue>)
    ensures ItemsOf(ItemNodes(xs)) == Some(NormItems(xs))
    decreases xs, 0
  {
    if xs != [] {
      ValueOfNode(xs[0]);
      ItemsOfNodes(xs[1..]);
      assert ItemNodes(xs)[1..] == ItemNodes(xs[1..]);
    }
  }

  lemma {:induction false} KvOfNodes(kv: KeyValue)
    ensures KvOf(KvNodes(kv)) == Some(NormKv(kv))
    decreases kv, 1
  {
    ValueOfNode(kv.value);
  }

  lemma {:induction false} EntriesOfNodes(es: seq<KeyValue>)
    ensures EntriesOf(EntryNodes(es)) == Some(NormEntries(es))
    decreases es, 0
  {
    if es != [] {
      KvOfNodes(es[0]);
      EntriesOfNodes(es[1..]);
      assert EntryNodes(es)[1..] == EntryNodes(es[1..]);
    }
  }

  function EncodeAny(v: AnyValue): Bytes { EncNodes([AnyNode(v)]) }

  function DecodeAny(s: Bytes): Option<AnyValue> {
    match Parse(AnyValueT, s)
    case None => None
    case Some(ns) => ValueOf(ns)
  }

  /** Every value tree, of any depth and width, that fits in memory is read back, and the read
      consumes exactly the emitted bytes. */
  lemma AnyValueRoundTrip(v: AnyValue)
    requires |EncodeAny(v)| <= SIZE_MAX
    ensures DecodeAny(EncodeAny(v)) == Some(Norm(v))
  {
    AnyNodeConforms(v);
    assert [AnyNode(v)][1..] == [];
    ParseRoundTrip(AnyValueT, [AnyNode(v)]);
    ValueOfNode(v);
  }

  /** The same for one KeyValue. */
  lemma KeyValueRoundTrip(kv: KeyValue)
    requires |EncNodes(KvNodes(kv))| <= SIZE_MAX
    ensures var parsed := Parse(KeyValueT, EncNodes(KvNodes(kv)));
      parsed.Some? && KvOf(parsed.value) == Some(NormKv(kv))
  {
    KvConforms(kv);
    ParseRoundTrip(KeyValueT, KvNodes(kv));
    KvOfNodes(kv);
  }

  // ---------------------------------------------------------------- encoding into a buffer

  lemma EncMsg(number: nat, ns: seq<Node>)
    requires EncNodes(ns) != []
    ensures EncFields(LenField(number, EncNodes(ns))) == EncNodes([Msg(number, ns)])
  {
    EncNodesOne(Msg(number, ns));
    EncOneField(Field(number, LenV(EncNodes(ns))));
  }

  lemma {:induction false} ItemNodesSnoc(xs: seq<AnyValue>, x: AnyValue)
    ensures ItemNodes(xs + [x]) == ItemNodes(xs) + [Msg(1, [AnyNode(x)])]
  {
    if xs == [] {
      assert xs + [x] == [x];
    } else {
      assert (xs + [x])[1..] == xs[1..] + [x];
      ItemNodesSnoc(xs[1..], x);
    }
  }

  lemma {:induction false} EntryNodesSnoc(es: seq<KeyValue>, e: KeyValue)
    ensures EntryNodes(es + [e]) == EntryNodes(es) + [Msg(1, KvNodes(e))]
  {
    if es == [] {
      assert es + [e] == [e];
    } else {
      assert (es + [e])[1..] == es[1..] + [e];
      EntryNodesSnoc(es[1..], e);
    }
  }

  lemma KvNodesNonEmpty(kv: KeyValue)
    ensures EncNodes(KvNodes(kv)) == EncField(Field(1, LenV(OrEmpty(kv.key)))) + EncNodes([Msg(2, [AnyNode(kv.value)])])
    ensures EncNodes(KvNodes(kv)) != []
  {
    var key := Leaf(Field(1, LenV(OrEmpty(kv.key))));
    EncNodesOne(key);
    EncNodesConcat([key], [Msg(2, [AnyNode(kv.value)])]);
    assert [key] + [Msg(2, [AnyNode(kv.value)])] == KvNodes(kv);
  }

  lemma KvNodesParts(kv: KeyValue)
    ensures EncNodes(KvNodes(kv)) ==
      EncFields([Field(1, LenV(OrEmpty(kv.key)))]) + EncFields(LenField(2, EncodeAny(kv.value)))
  {
    KvNodesNonEmpty(kv);
    EncNodesOne(AnyNode(kv.value));
    EncMsg(2, [AnyNode(kv.value)]);
    EncOneField(Field(1, LenV(OrEmpty(kv.key))));
  }

  /** `OTLP_AV_FIELDS[a->type]`: field number and wire type of the active variant. */
  function VariantKey(v: AnyValue): (uint32, nat) {
    match v
    case StringVal(_) => (1, WIRE_LEN)
    case BoolVal(_) => (2, WIRE_VARINT)
    case IntVal(_) => (3, WIRE_VARINT)
    case DoubleVal(_) => (4, WIRE_FIXED64)
    case NullArrayVal => (5, WIRE_LEN)
    case ArrayVal(_) => (5, WIRE_LEN)
    case NullKvListVal => (6, WIRE_LEN)
    case KvListVal(_) => (6, WIRE_LEN)
    case BytesVal(_) => (7, WIRE_LEN)
  }

  /** The bytes after the tag. */
  function Payload(v: AnyValue): Bytes { EncValue(FieldOf(AnyNode(v)).value) }

  lemma KeyAndPayload(v: AnyValue)
    ensures EncodeAny(v) == EncKey(VariantKey(v).0, VariantKey(v).1) + Payload(v)
  {
    EncNodesOne(AnyNode(v));
  }

  /** A message is longer than its contents. */
  lemma MsgLonger(number: nat, ns: seq<Node>)
    ensures |EncNodes(ns)| <= |EncNodes([Msg(number, ns)])|
    ensures |EncNodes(ns)| <= |EncValue(LenV(EncNodes(ns)))|
    ensures |EncNodes(ns)| <= |EncFields(LenField(number, EncNodes(ns)))|
  {
    EncNodesOne(Msg(number, ns));
    EncOneField(Field(number, LenV(EncNodes(ns))));
  }

  lemma ItemsStep(xs: seq<AnyValue>, i: nat)
    requires i < |xs|
    ensures EncNodes(ItemNodes(xs[..i + 1])) == EncNodes(ItemNodes(xs[..i])) + EncNodes([Msg(1, [AnyNode(xs[i])])])
  {
    hide EncNodes, AnyNode, ItemNodes;
    assert xs[..i + 1] == xs[..i] + [xs[i]];
    ItemNodesSnoc(xs[..i], xs[i]);
    EncNodesConcat(ItemNodes(xs[..i]), [Msg(1, [AnyNode(xs[i])])]);
  }

  lemma {:induction false} ItemsWithin(xs: seq<AnyValue>, i: nat)
    requires i <= |xs|
    ensures EncNodes(ItemNodes(xs[..i])) <= EncNodes(ItemNodes(xs))
    decreases |xs| - i
  {
    hide EncNodes, ItemNodes;
    if i < |xs| {
      ItemsStep(xs, i);
      ItemsWithin(xs, i + 1);
    } else {
      assert xs[..i] == xs;
    }
  }

  lemma EntriesStep(es: seq<KeyValue>, i: nat)
    requires i < |es|
    ensures EncNodes(EntryNodes(es[..i + 1])) == EncNodes(EntryNodes(es[..i])) + EncNodes([Msg(1, KvNodes(es[i]))])
  {
    hide EncNodes, KvNodes, EntryNodes;
    assert es[..i + 1] == es[..i] + [es[i]];
    EntryNodesSnoc(es[..i], es[i]);
    EncNodesConcat(EntryNodes(es[..i]), [Msg(1, KvNodes(es[i]))]);
  }

  lemma {:induction false} EntriesWithin(es: seq<KeyValue>, i: nat)
    requires i <= |es|
    ensures EncNodes(EntryNodes(es[..i])) <= EncNodes(EntryNodes(es))
    decreases |es| - i
  {
    hide EncNodes, EntryNodes;
    if i < |es| {
      EntriesStep(es, i);
      EntriesWithin(es, i + 1);
    } else {
      assert es[..i] == es;
    }
  }

  /** `otlp_encode_any_value`: the tag of the active variant, then its value. */
  method EncodeAnyValue(buf: PbBuf, v: AnyValue) returns (st: Status)
    requires buf.Valid()
    modifies buf, buf.data
    ensures buf.Valid() && (buf.data == old(buf.data) || fresh(buf.data))
    ensures Wrote(buf.plenty, old(buf.Contents()), buf.Contents(), EncodeAny(v), st)
    decreases v, 4
  {
    hide Wrote, EncNodes, EncFields, FieldOf, AnyNode, EncKey;
    var key := VariantKey(v);
    ghost var before, tag, payload := buf.Contents(), EncKey(key.0, key.1), Payload(v);
    KeyAndPayload(v);
    st := buf.Tag(key.0, key.1);
    if st != Ok {
      WroteLess(buf.plenty, before, buf.Contents(), tag, tag + payload, st);
      return;
    }
    WroteAll(buf.plenty, before, buf.Contents(), tag);
    ghost var mid := buf.Contents();
    st := EncodePayload(buf, v);
    WroteThen(buf.plenty, before, mid, buf.Contents(), tag, payload, st);
  }

  /** The `attr_encoders` table. */
  method EncodePayload(buf: PbBuf, v: AnyValue) returns (st: Status)
    requires buf.Valid()
    modifies buf, buf.data
    ensures buf.Valid() && (buf.data == old(buf.data) || fresh(buf.data))
    ensures Wrote(buf.plenty, old(buf.Contents()), buf.Contents(), Payload(v), st)
    decreases v, 3
  {
    hide Wrote;
    match v
    case StringVal(s) => st := buf.LenBytes(OrEmpty(s));
    case BoolVal(b) => st := buf.Varint(if b then 1 else 0);
    case IntVal(i) => st := buf.Varint(ToUint64(i));
    case DoubleVal(bits) => st := buf.Fixed64(bits);
    case NullArrayVal => st := buf.LenBytes([]);
    case ArrayVal(xs) => st := EncodeArray(buf, xs);
    case NullKvListVal => st := buf.LenBytes([]);
    case KvListVal(es) => st := EncodeKvList(buf, es);
    case BytesVal(b) => st := buf.LenBytes(b);
  }

  /** `encode_attr_array`: the body is built first, so that its length is known. */
  method EncodeArray(buf: PbBuf, xs: seq<AnyValue>) returns (st: Status)
    requires buf.Valid()
    modifies buf, buf.data
    ensures buf.Valid() && (buf.data == old(buf.data) || fresh(buf.data))
    ensures Wrote(buf.plenty, old(buf.Contents()), buf.Contents(),
                  EncValue(LenV(EncNodes(ItemNodes(xs)))), st)
    decreases xs, 2
  {
    ghost var before, all := buf.Contents(), EncNodes(ItemNodes(xs));
    assert EncNodes(ItemNodes([])) == [];
    hide Wrote, EncNodes, EncFields, ItemNodes;
    if |xs| == 0 { st := buf.LenBytes([]); return; }
    var body := new PbBuf(buf.plenty);
    st := EncodeItems(body, xs);
    if st != Ok {
      MsgLonger(1, ItemNodes(xs));
      WroteAside(buf.plenty, before, [], body.Contents(), all, EncValue(LenV(all)), st);
      return;
    }
    WroteAll(body.plenty, [], body.Contents(), all);
    var bytes := body.data[..body.len];
    assert bytes == all;
    st := buf.LenBytes(bytes);
  }

  method EncodeItems(body: PbBuf, xs: seq<AnyValue>) returns (st: Status)
    requires body.Valid() && body.Contents() == []
    modifies body, body.data
    ensures body.Valid() && (body.data == old(body.data) || fresh(body.data))
    ensures Wrote(body.plenty, [], body.Contents(), EncNodes(ItemNodes(xs)), st)
    decreases xs, 1
  {
    ghost var all := EncNodes(ItemNodes(xs));
    assert EncNodes(ItemNodes([])) == [];
    hide Wrote, EncNodes, EncFields, ItemNodes, AnyNode;
    st := Ok;
    for i := 0 to |xs|
      invariant body.Valid() && (body.data == old(body.data) || fresh(body.data))
      invariant st == Ok && body.Contents() == EncNodes(ItemNodes(xs[..i]))
    {
      ghost var done, part := body.Contents(), EncNodes([Msg(1, [AnyNode(xs[i])])]);
      st := EncodeItem(body, xs[i]);
      ItemsStep(xs, i);
      ItemsWithin(xs, i + 1);
      WroteTurn(body.plenty, [], done, body.Contents(), done, part, all, st);
      if st != Ok { return; }
    }
    assert xs[..|xs|] == xs;
    WroteDone(body.plenty, [], body.Contents(), all);
  }

  /** One turn of the loop: an item goes through a buffer of its own (lines 141 to 151). */
  method EncodeItem(body: PbBuf, x: AnyValue) returns (st: Status)
    requires body.Valid()
    modifies body, body.data
    ensures body.Valid() && (body.data == old(body.data) || fresh(body.data))
    ensures Wrote(body.plenty, old(body.Contents()), body.Contents(), EncNodes([Msg(1, [AnyNode(x)])]), st)
    decreases x, 5
  {
    hide Wrote, EncNodes, EncFields, FieldOf, AnyNode;
    ghost var before, ns := body.Contents(), [AnyNode(x)];
    var item := new PbBuf(body.plenty);
    st := EncodeAnyValue(item, x);
    if st == Ok {
      WroteAll(body.plenty, [], item.Contents(), EncodeAny(x));
      EncNodesOne(AnyNode(x));
      EncMsg(1, ns);
      var bytes := item.data[..item.len];
      assert bytes == EncodeAny(x);
      st := body.FieldLen(1, bytes);
    } else {
      MsgLonger(1, ns);
      WroteAside(body.plenty, before, [], item.Contents(), EncodeAny(x), EncNodes([Msg(1, ns)]), st);
    }
    item.Free();
  }

  /** `encode_attr_kvlist`. */
  method EncodeKvList(buf: PbBuf, es: seq<KeyValue>) returns (st: Status)
    requires buf.Valid()
    modifies buf, buf.data
    ensures buf.Valid() && (buf.data == old(buf.data) || fresh(buf.data))
    ensures Wrote(buf.plenty, old(buf.Contents()), buf.Contents(),
                  EncValue(LenV(EncNodes(EntryNodes(es)))), st)
    decreases es, 2
  {
    ghost var before, all := buf.Contents(), EncNodes(EntryNodes(es));
    assert EncNodes(EntryNodes([])) == [];
    hide Wrote, EncNodes, EncFields, EntryNodes;
    if |es| == 0 { st := buf.LenBytes([]); return; }
    var body := new PbBuf(buf.plenty);
    st := EncodeEntries(body, es);
    if st != Ok {
      MsgLonger(1, EntryNodes(es));
      WroteAside(buf.plenty, before, [], body.Contents(), all, EncValue(LenV(all)), st);
      return;
    }
    WroteAll(body.plenty, [], body.Contents(), all);
    var bytes := body.data[..body.len];
    assert bytes == all;
    st := buf.LenBytes(bytes);
  }

  method EncodeEntries(body: PbBuf, es: seq<KeyValue>) returns (st: Status)
    requires body.Valid() && body.Contents() == []
    modifies body, body.data
    ensures body.Valid() && (body.data == old(body.data) || fresh(body.data))
    ensures Wrote(body.plenty, [], body.Contents(), EncNodes(EntryNodes(es)), st)
    decreases es, 1
  {
    ghost var all := EncNodes(EntryNodes(es));
    assert EncNodes(EntryNodes([])) == [];
    hide Wrote, EncNodes, EncFields, EntryNodes, KvNodes;
    st := Ok;
    for i := 0 to |es|
      invariant body.Valid() && (body.data == old(body.data) || fresh(body.data))
      invariant st == Ok && body.Contents() == EncNodes(EntryNodes(es[..i]))
    {
      ghost var done, part := body.Contents(), EncNodes([Msg(1, KvNodes(es[i]))]);
      st := EncodeKeyValueField(body, 1, es[i]);
      EntriesStep(es, i);
      EntriesWithin(es, i + 1);
      WroteTurn(body.plenty, [], done, body.Contents(), done, part, all, st);
      if st != Ok { return; }
    }
    assert es[..|es|] == es;
    WroteDone(body.plenty, [], body.Contents(), all);
  }

  /** One KeyValue as a sub-message, through a buffer of its own: the body of every loop over
      attributes (lines 177 to 192, 414 to 427 and 643 to 658). */
  method EncodeKeyValueField(parent: PbBuf, number: uint32, kv: KeyValue) returns (st: Status)
    requires parent.Valid() && number > 0
    modifies parent, parent.data
    ensures parent.Valid() && (parent.data == old(parent.data) || fresh(parent.data))
    ensures Wrote(parent.plenty, old(parent.Contents()), parent.Contents(),
                  EncNodes([Msg(number, KvNodes(kv))]), st)
    decreases kv, 6
  {
    hide Wrote, EncNodes, EncFields, FieldOf, AnyNode, KvNodes;
    ghost var before, ns := parent.Contents(), KvNodes(kv);
    var entry := new PbBuf(parent.plenty);
    st := EncodeKeyValue(entry, kv);
    if st == Ok {
      WroteAll(parent.plenty, [], entry.Contents(), EncNodes(ns));
      KvNodesNonEmpty(kv);
      EncMsg(number, ns);
      var bytes := entry.data[..entry.len];
      assert bytes == EncNodes(ns);
      st := parent.FieldLen(number, bytes);
    } else {
      MsgLonger(number, ns);
      WroteAside(parent.plenty, before, [], entry.Contents(), EncNodes(ns), EncNodes([Msg(number, ns)]), st);
    }
    entry.Free();
  }

  /** `otlp_encode_key_value`: the value is encoded aside, before anything reaches `out`. */
  method EncodeKeyValue(out: PbBuf, kv: KeyValue) returns (st: Status)
    requires out.Valid()
    modifies out, out.data
    ensures out.Valid() && (out.data == old(out.data) || fresh(out.data))
    ensures Wrote(out.plenty, old(out.Contents()), out.Contents(), EncNodes(KvNodes(kv)), st)
    decreases kv, 4
  {
    hide Wrote, EncNodes, EncFields, FieldOf, AnyNode;
    ghost var before, x := out.Contents(), EncodeAny(kv.value);
    KvNodesParts(kv);
    var value := new PbBuf(out.plenty);
    st := EncodeAnyValue(value, kv.value);
    if st != Ok {
      MsgLonger(2, [AnyNode(kv.value)]);
      WroteAside(out.plenty, before, [], value.Contents(), x, EncNodes(KvNodes(kv)), st);
      return;
    }
    WroteAll(out.plenty, [], value.Contents(), x);
    var bytes := value.data[..value.len];
    assert bytes == x;
    st := EncodeKeyThenValue(out, OrEmpty(kv.key), bytes);
  }

  /** Lines 248 to 257: the key even when empty, then the encoded value. */
  method EncodeKeyThenValue(out: PbBuf, key: CBytes, value: CBytes) returns (st: Status)
    requires out.Valid()
    modifies out, out.data
    ensures out.Valid() && (out.data == old(out.data) || fresh(out.data))
    ensures Wrote(out.plenty, old(out.Contents()), out.Contents(),
                  EncFields([Field(1, LenV(key))]) + EncFields(LenField(2, value)), st)
  {
    hide Wrote, EncFields, EncVarint;
    ghost var before, x, y := out.Contents(), EncFields([Field(1, LenV(key))]), EncFields(LenField(2, value));
    st := out.TagLen(1, key);
    if st != Ok {
      WroteLess(out.plenty, before, out.Contents(), x, x + y, st);
      return;
    }
    WroteAll(out.plenty, before, out.Contents(), x);
    ghost var mid := out.Contents();
    st := out.FieldLen(2, value);
    WroteThen(out.plenty, before, mid, out.Contents(), x, y, st);
  }
}
