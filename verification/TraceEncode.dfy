/** The methods that write spans and trace requests (src/otlp_messages.c, lines 264 to 788). */
module TraceEncode {
  import opened Common
  import opened PbWire
  import opened PbTree
  import opened PbEncode
  import opened AnyValueModel
  import opened OtlpMessages
  import R = RequestReadBack

  lemma EncLeaves(fs: seq<Field>)
    ensures EncNodes(Leaves(fs)) == EncFields(fs)
    ensures fs == [] ==> EncFields(fs) == []
  {
    FieldsOfLeaves(fs);
  }

  lemma EncNothing(ns: seq<Node>)
    ensures EncNodes(ns) == [] <==> ns == []
  {
    if ns != [] { assert EncNodes(ns) == EncField(FieldOf(ns[0])) + EncFields(FieldsOf(ns)[1..]); }
  }

  /** What `otlp_pb_field_message` writes for an encoded sub-message. */
  lemma EncOptMsg(number: nat, ns: seq<Node>)
    ensures EncFields(LenField(number, EncNodes(ns))) == EncNodes(OptMsg(number, ns))
  {
    EncNothing(ns);
    if ns != [] { EncMsg(number, ns); }
  }

  /** The message has its first i groups written behind `before`. */
  ghost predicate WroteGroups(before: Bytes, now: Bytes, gs: seq<Group>, i: nat) {
    i <= |gs| && now == before + EncNodes(Flat(gs[..i]))
  }

  lemma NoGroups(before: Bytes, gs: seq<Group>)
    ensures WroteGroups(before, before, gs, 0)
  {
    assert gs[..0] == [];
  }

  /** One group after those written before it. */
  lemma GroupDone(plenty: bool, before: Bytes, now: Bytes, next: Bytes, gs: seq<Group>, i: nat,
      st: Status)
    requires i < |gs| && WroteGroups(before, now, gs, i)
    requires Wrote(plenty, now, next, EncNodes(gs[i].nodes), st)
    ensures if st == Ok then WroteGroups(before, next, gs, i + 1)
      else Wrote(plenty, before, next, EncNodes(Flat(gs)), st)
  {
    hide EncNodes, Flat, Wrote;
    FlatStep(gs, i);
    GroupsWithin(gs, i + 1);
    WroteTurn(plenty, before, now, next, EncNodes(Flat(gs[..i])), EncNodes(gs[i].nodes),
              EncNodes(Flat(gs)), st);
  }

  lemma {:induction false} GroupsWithin(gs: seq<Group>, i: nat)
    requires i <= |gs|
    ensures EncNodes(Flat(gs[..i])) <= EncNodes(Flat(gs))
    decreases |gs| - i
  {
    hide EncNodes, Flat;
    if i < |gs| {
      FlatStep(gs, i);
      GroupsWithin(gs, i + 1);
    } else {
      assert gs[..i] == gs;
    }
  }

  lemma AllGroups(plenty: bool, before: Bytes, now: Bytes, gs: seq<Group>)
    requires WroteGroups(before, now, gs, |gs|)
    ensures now == before + EncNodes(Flat(gs))
    ensures Wrote(plenty, before, now, EncNodes(Flat(gs)), Ok)
  {
    hide EncNodes, Flat;
    assert gs[..|gs|] == gs;
  }

  lemma {:induction false} AttrNodesSnoc(number: nat, attrs: seq<KeyValue>, kv: KeyValue)
    ensures AttrNodes(number, attrs + [kv]) == AttrNodes(number, attrs) + [Msg(number, KvNodes(kv))]
  {
    if attrs == [] {
      assert attrs + [kv] == [kv];
    } else {
      assert (attrs + [kv])[1..] == attrs[1..] + [kv];
      AttrNodesSnoc(number, attrs[1..], kv);
    }
  }

  lemma AttrsStep(number: nat, attrs: seq<KeyValue>, i: nat)
    requires i < |attrs|
    ensures EncNodes(AttrNodes(number, attrs[..i + 1])) ==
            EncNodes(AttrNodes(number, attrs[..i])) + EncNodes([Msg(number, KvNodes(attrs[i]))])
  {
    hide EncNodes, EncFields, Flat, AttrNodes;
    AttrNodesSnoc(number, attrs[..i], attrs[i]);
    EncNodesConcat(AttrNodes(number, attrs[..i]), [Msg(number, KvNodes(attrs[i]))]);
    assert attrs[..i + 1] == attrs[..i] + [attrs[i]];
  }

  lemma {:induction false} AttrsWithin(number: nat, attrs: seq<KeyValue>, i: nat)
    requires i <= |attrs|
    ensures EncNodes(AttrNodes(number, attrs[..i])) <= EncNodes(AttrNodes(number, attrs))
    decreases |attrs| - i
  {
    hide EncNodes, AttrNodes;
    if i < |attrs| {
      AttrsStep(number, attrs, i);
      AttrsWithin(number, attrs, i + 1);
    } else {
      assert attrs[..i] == attrs;
    }
  }

  /** `otlp_emit_attributes`, and the same loop in `otlp_encode_span_body`. */
  method EmitAttributes(parent: PbBuf, number: uint32, attrs: seq<KeyValue>) returns (st: Status)
    requires parent.Valid() && number > 0
    modifies parent, parent.data
    ensures parent.Valid() && (parent.data == old(parent.data) || fresh(parent.data))
    ensures Wrote(parent.plenty, old(parent.Contents()), parent.Contents(),
                  EncNodes(AttrNodes(number, attrs)), st)
  {
    ghost var before, all := parent.Contents(), EncNodes(AttrNodes(number, attrs));
    st := Ok;
    assert EncNodes(AttrNodes(number, [])) == [];
    hide Wrote, EncNodes, AttrNodes, KvNodes;
    for i := 0 to |attrs|
      invariant parent.Valid() && (parent.data == old(parent.data) || fresh(parent.data))
      invariant parent.Contents() == before + EncNodes(AttrNodes(number, attrs[..i])) && st == Ok
    {
      ghost var now, done := parent.Contents(), EncNodes(AttrNodes(number, attrs[..i]));
      ghost var part := EncNodes([Msg(number, KvNodes(attrs[i]))]);
      st := EncodeKeyValueField(parent, number, attrs[i]);
      AttrsStep(number, attrs, i);
      AttrsWithin(number, attrs, i + 1);
      WroteTurn(parent.plenty, before, now, parent.Contents(), done, part, all, st);
      if st != Ok { return; }
    }
    assert attrs[..|attrs|] == attrs;
    WroteDone(parent.plenty, before, parent.Contents(), all);
  }

  /** One event into a buffer of its own (lines 437 to 457). */
  method EncodeEvent(ev: PbBuf, e: SpanEvent) returns (st: Status)
    requires ev.Valid()
    modifies ev, ev.data
    ensures ev.Valid() && (ev.data == old(ev.data) || fresh(ev.data))
    ensures Wrote(ev.plenty, old(ev.Contents()), ev.Contents(), EncNodes(EventNodes(e)), st)
  {
    hide Wrote, EncNodes, EncFields, Flat, Leaves, WroteGroups;
    ghost var before, gs := ev.Contents(), EventGroups(e);
    NoGroups(before, gs);
    ghost var c0 := ev.Contents();
    st := ev.FieldLen(2, e.name);
    EncLeaves(LenField(2, e.name));
    GroupDone(ev.plenty, before, c0, ev.Contents(), gs, 0, st);
    if st != Ok { return; }
    ghost var c1 := ev.Contents();
    st := ev.FieldFixed64(1, e.time);
    EncLeaves(Fixed64Field(1, e.time));
    GroupDone(ev.plenty, before, c1, ev.Contents(), gs, 1, st);
    if st != Ok { return; }
    ghost var c2 := ev.Contents();
    st := EmitAttributes(ev, 3, e.attrs);
    GroupDone(ev.plenty, before, c2, ev.Contents(), gs, 2, st);
    if st != Ok { return; }
    AllGroups(ev.plenty, before, ev.Contents(), gs);
  }

  /** One link into a buffer of its own (lines 475 to 492). */
  method EncodeLink(lk: PbBuf, l: SpanLink) returns (st: Status)
    requires lk.Valid()
    modifies lk, lk.data
    ensures lk.Valid() && (lk.data == old(lk.data) || fresh(lk.data))
    ensures Wrote(lk.plenty, old(lk.Contents()), lk.Contents(), EncNodes(LinkNodes(l)), st)
  {
    hide Wrote, EncNodes, EncFields, Flat, Leaves, WroteGroups;
    ghost var before, gs := lk.Contents(), LinkGroups(l);
    NoGroups(before, gs);
    ghost var c0 := lk.Contents();
    st := lk.FieldLen(1, l.traceId);
    EncLeaves(LenField(1, l.traceId));
    GroupDone(lk.plenty, before, c0, lk.Contents(), gs, 0, st);
    if st != Ok { return; }
    ghost var c1 := lk.Contents();
    st := lk.FieldLen(2, l.spanId);
    EncLeaves(LenField(2, l.spanId));
    GroupDone(lk.plenty, before, c1, lk.Contents(), gs, 1, st);
    if st != Ok { return; }
    ghost var c2 := lk.Contents();
    st := EmitAttributes(lk, 4, l.attrs);
    GroupDone(lk.plenty, before, c2, lk.Contents(), gs, 2, st);
    if st != Ok { return; }
    AllGroups(lk.plenty, before, lk.Contents(), gs);
  }

  /** `otlp_pb_field_message` of what another buffer holds. */
  method EmitMessage(parent: PbBuf, number: uint32, sub: PbBuf, ghost ns: seq<Node>) returns (st: Status)
    requires parent.Valid() && sub.Valid() && sub != parent && sub.data != parent.data && number > 0
    requires sub.Contents() == EncNodes(ns)
    modifies parent, parent.data
    ensures parent.Valid() && (parent.data == old(parent.data) || fresh(parent.data))
    ensures Wrote(parent.plenty, old(parent.Contents()), parent.Contents(), EncNodes(OptMsg(number, ns)), st)
  {
    hide Wrote;
    EncOptMsg(number, ns);
    var bytes := sub.data[..sub.len];
    assert bytes == EncNodes(ns);
    st := parent.FieldLen(number, bytes);
  }

  /** A message that failed in its buffer has left the parent as it was. */
  lemma MessageFails(plenty: bool, before: Bytes, sub: Bytes, number: nat, ns: seq<Node>, st: Status)
    requires Wrote(plenty, [], sub, EncNodes(ns), st) && st != Ok
    ensures Wrote(plenty, before, before, EncNodes(OptMsg(number, ns)), st)
  {
    EncNothing(ns);
    MsgLonger(number, ns);
    hide Wrote, EncNodes;
    WroteAside(plenty, before, [], sub, EncNodes(ns), EncNodes(OptMsg(number, ns)), st);
  }

  /** One turn of the loop over events (lines 437 to 463). */
  method EmitEvent(out: PbBuf, e: SpanEvent) returns (st: Status)
    requires out.Valid()
    modifies out, out.data
    ensures out.Valid() && (out.data == old(out.data) || fresh(out.data))
    ensures Wrote(out.plenty, old(out.Contents()), out.Contents(), EncNodes(OptMsg(11, EventNodes(e))), st)
  {
    hide Wrote, EncNodes, EncFields, EventNodes;
    ghost var before, ns := out.Contents(), EventNodes(e);
    var ev := new PbBuf(out.plenty);
    st := EncodeEvent(ev, e);
    if st == Ok {
      WroteAll(out.plenty, [], ev.Contents(), EncNodes(ns));
      st := EmitMessage(out, 11, ev, ns);
    } else {
      MessageFails(out.plenty, before, ev.Contents(), 11, ns, st);
    }
    ev.Free();
  }

  /** The loop over events (lines 435 to 464). */
  method EmitEvents(out: PbBuf, es: seq<SpanEvent>) returns (st: Status)
    requires out.Valid()
    modifies out, out.data
    ensures out.Valid() && (out.data == old(out.data) || fresh(out.data))
    ensures Wrote(out.plenty, old(out.Contents()), out.Contents(), EncNodes(EventsNodes(es)), st)
  {
    ghost var before, all := out.Contents(), EncNodes(EventsNodes(es));
    st := Ok;
    assert EncNodes(EventsNodes([])) == [];
    hide Wrote, EncNodes, EncFields, Flat, EventsNodes, EventNodes, OptMsg;
    for i := 0 to |es|
      invariant out.Valid() && (out.data == old(out.data) || fresh(out.data))
      invariant out.Contents() == before + EncNodes(EventsNodes(es[..i])) && st == Ok
    {
      ghost var now, done := out.Contents(), EncNodes(EventsNodes(es[..i]));
      st := EmitEvent(out, es[i]);
      EventsStep(es, i);
      EventsWithin(es, i + 1);
      WroteTurn(out.plenty, before, now, out.Contents(), done, EncNodes(OptMsg(11, EventNodes(es[i]))), all, st);
      if st != Ok { return; }
    }
    assert es[..|es|] == es;
    WroteDone(out.plenty, before, out.Contents(), all);
  }

  lemma {:induction false} EventsSnoc(es: seq<SpanEvent>, e: SpanEvent)
    ensures EventsNodes(es + [e]) == EventsNodes(es) + OptMsg(11, EventNodes(e))
  {
    if es == [] {
      assert es + [e] == [e];
    } else {
      assert (es + [e])[1..] == es[1..] + [e];
      EventsSnoc(es[1..], e);
    }
  }

  lemma EventsStep(es: seq<SpanEvent>, i: nat)
    requires i < |es|
    ensures EncNodes(EventsNodes(es[..i + 1])) ==
            EncNodes(EventsNodes(es[..i])) + EncNodes(OptMsg(11, EventNodes(es[i])))
  {
    hide EncNodes, EncFields, Flat, EventsNodes;
    EventsSnoc(es[..i], es[i]);
    EncNodesConcat(EventsNodes(es[..i]), OptMsg(11, EventNodes(es[i])));
    assert es[..i + 1] == es[..i] + [es[i]];
  }

  lemma {:induction false} EventsWithin(es: seq<SpanEvent>, i: nat)
    requires i <= |es|
    ensures EncNodes(EventsNodes(es[..i])) <= EncNodes(EventsNodes(es))
    decreases |es| - i
  {
    hide EncNodes, EventsNodes;
    if i < |es| {
      EventsStep(es, i);
      EventsWithin(es, i + 1);
    } else {
      assert es[..i] == es;
    }
  }

  /** One turn of the loop over links (lines 475 to 498). */
  method EmitLink(out: PbBuf, l: SpanLink) returns (st: Status)
    requires out.Valid()
    modifies out, out.data
    ensures out.Valid() && (out.data == old(out.data) || fresh(out.data))
    ensures Wrote(out.plenty, old(out.Contents()), out.Contents(), EncNodes(OptMsg(13, LinkNodes(l))), st)
  {
    hide Wrote, EncNodes, EncFields, LinkNodes;
    ghost var before, ns := out.Contents(), LinkNodes(l);
    var lk := new PbBuf(out.plenty);
    st := EncodeLink(lk, l);
    if st == Ok {
      WroteAll(out.plenty, [], lk.Contents(), EncNodes(ns));
      st := EmitMessage(out, 13, lk, ns);
    } else {
      MessageFails(out.plenty, before, lk.Contents(), 13, ns, st);
    }
    lk.Free();
  }

  /** The loop over links (lines 473 to 499). */
  method EmitLinks(out: PbBuf, ls: seq<SpanLink>) returns (st: Status)
    requires out.Valid()
    modifies out, out.data
    ensures out.Valid() && (out.data == old(out.data) || fresh(out.data))
    ensures Wrote(out.plenty, old(out.Contents()), out.Contents(), EncNodes(LinksNodes(ls)), st)
  {
    ghost var before, all := out.Contents(), EncNodes(LinksNodes(ls));
    st := Ok;
    assert EncNodes(LinksNodes([])) == [];
    hide Wrote, EncNodes, EncFields, Flat, LinksNodes, LinkNodes, OptMsg;
    for i := 0 to |ls|
      invariant out.Valid() && (out.data == old(out.data) || fresh(out.data))
      invariant out.Contents() == before + EncNodes(LinksNodes(ls[..i])) && st == Ok
    {
      ghost var now, done := out.Contents(), EncNodes(LinksNodes(ls[..i]));
      st := EmitLink(out, ls[i]);
      LinksStep(ls, i);
      LinksWithin(ls, i + 1);
      WroteTurn(out.plenty, before, now, out.Contents(), done, EncNodes(OptMsg(13, LinkNodes(ls[i]))), all, st);
      if st != Ok { return; }
    }
    assert ls[..|ls|] == ls;
    WroteDone(out.plenty, before, out.Contents(), all);
  }

  lemma {:induction false} LinksSnoc(ls: seq<SpanLink>, l: SpanLink)
    ensures LinksNodes(ls + [l]) == LinksNodes(ls) + OptMsg(13, LinkNodes(l))
  {
    if ls == [] {
      assert ls + [l] == [l];
    } else {
      assert (ls + [l])[1..] == ls[1..] + [l];
      LinksSnoc(ls[1..], l);
    }
  }

  lemma LinksStep(ls: seq<SpanLink>, i: nat)
    requires i < |ls|
    ensures EncNodes(LinksNodes(ls[..i + 1])) ==
            EncNodes(LinksNodes(ls[..i])) + EncNodes(OptMsg(13, LinkNodes(ls[i])))
  {
    hide EncNodes, EncFields, Flat, LinksNodes;
    LinksSnoc(ls[..i], ls[i]);
    EncNodesConcat(LinksNodes(ls[..i]), OptMsg(13, LinkNodes(ls[i])));
    assert ls[..i + 1] == ls[..i] + [ls[i]];
  }

  lemma {:induction false} LinksWithin(ls: seq<SpanLink>, i: nat)
    requires i <= |ls|
    ensures EncNodes(LinksNodes(ls[..i])) <= EncNodes(LinksNodes(ls))
    decreases |ls| - i
  {
    hide EncNodes, LinksNodes;
    if i < |ls| {
      LinksStep(ls, i);
      LinksWithin(ls, i + 1);
    } else {
      assert ls[..i] == ls;
    }
  }

  /** `emit_status`: nothing at all for an unset code without a message. */
  method EmitStatus(parent: PbBuf, code: uint64, message: CBytes) returns (st: Status)
    requires parent.Valid()
    modifies parent, parent.data
    ensures parent.Valid() && (parent.data == old(parent.data) || fresh(parent.data))
    ensures Wrote(parent.plenty, old(parent.Contents()), parent.Contents(),
                  EncNodes(StatusNodes(code, message)), st)
  {
    ghost var gs := StatusGroups(code, message);
    assert Flat(gs[..0]) == [] && gs[..2] == gs;
    FlatStep(gs, 0);
    FlatStep(gs, 1);
    ghost var before := parent.Contents();
    if code == 0 && |message| == 0 {
      assert EncNodes(StatusNodes(code, message)) == [];
      WroteNothing(parent.plenty, before);
      return Ok;
    }
    hide Wrote, EncNodes, Flat;
    var sub := new PbBuf(parent.plenty);
    st := EncodeStatus(sub, code, message);
    if st != Ok {
      MessageFails(parent.plenty, before, sub.Contents(), 15, Flat(gs), st);
      return;
    }
    WroteAll(parent.plenty, [], sub.Contents(), EncNodes(Flat(gs)));
    st := EmitMessage(parent, 15, sub, Flat(gs));
  }

  method EncodeStatus(sub: PbBuf, code: uint64, message: CBytes) returns (st: Status)
    requires sub.Valid()
    modifies sub, sub.data
    ensures sub.Valid() && (sub.data == old(sub.data) || fresh(sub.data))
    ensures Wrote(sub.plenty, old(sub.Contents()), sub.Contents(),
                  EncNodes(Flat(StatusGroups(code, message))), st)
  {
    hide Wrote, EncNodes, EncFields, Flat, Leaves, WroteGroups;
    ghost var before, gs := sub.Contents(), StatusGroups(code, message);
    NoGroups(before, gs);
    st := Ok;
    EncLeaves(VarintField(3, code));
    if code != 0 { st := sub.TagVarint(3, code); } else { WroteNothing(sub.plenty, before); }
    GroupDone(sub.plenty, before, before, sub.Contents(), gs, 0, st);
    if st != Ok { return; }
    ghost var c1 := sub.Contents();
    EncLeaves(LenField(2, message));
    if |message| > 0 { st := sub.TagLen(2, message); } else { WroteNothing(sub.plenty, c1); }
    GroupDone(sub.plenty, before, c1, sub.Contents(), gs, 1, st);
    if st != Ok { return; }
    AllGroups(sub.plenty, before, sub.Contents(), gs);
  }

  /** The identifiers (lines 329 to 356). */
  method EncodeSpanIds(out: PbBuf, sp: Span, ghost before: Bytes) returns (st: Status)
    requires out.Valid() && WroteGroups(before, out.Contents(), SpanGroups(sp), 0)
    modifies out, out.data
    ensures out.Valid() && (out.data == old(out.data) || fresh(out.data))
    ensures if st == Ok then WroteGroups(before, out.Contents(), SpanGroups(sp), 3)
      else Wrote(out.plenty, before, out.Contents(), EncNodes(Flat(SpanGroups(sp))), st)
  {
    hide Wrote, EncNodes, EncFields, Flat, Leaves, WroteGroups;
    ghost var gs := SpanGroups(sp);
    st := Ok;
    ghost var c0 := out.Contents();
    EncLeaves([Field(1, LenV(sp.traceId))]);
    st := out.TagLen(1, sp.traceId);
    GroupDone(out.plenty, before, c0, out.Contents(), gs, 0, st);
    if st != Ok { return; }
    ghost var c1 := out.Contents();
    EncLeaves([Field(2, LenV(sp.spanId))]);
    st := out.TagLen(2, sp.spanId);
    GroupDone(out.plenty, before, c1, out.Contents(), gs, 1, st);
    if st != Ok { return; }
    ghost var c2 := out.Contents();
    EncLeaves(ParentField(sp.parent));
    if sp.parent.Some? { st := out.TagLen(4, sp.parent.value); } else { WroteNothing(out.plenty, c2); }
    GroupDone(out.plenty, before, c2, out.Contents(), gs, 2, st);
    if st != Ok { return; }
  }

  /** Trace state, name and kind (lines 358 to 386). */
  method EncodeSpanNames(out: PbBuf, sp: Span, ghost before: Bytes) returns (st: Status)
    requires out.Valid() && WroteGroups(before, out.Contents(), SpanGroups(sp), 3)
    modifies out, out.data
    ensures out.Valid() && (out.data == old(out.data) || fresh(out.data))
    ensures if st == Ok then WroteGroups(before, out.Contents(), SpanGroups(sp), 6)
      else Wrote(out.plenty, before, out.Contents(), EncNodes(Flat(SpanGroups(sp))), st)
  {
    hide Wrote, EncNodes, EncFields, Flat, Leaves, WroteGroups;
    ghost var gs := SpanGroups(sp);
    st := Ok;
    ghost var c0 := out.Contents();
    EncLeaves(LenField(3, sp.traceState));
    if |sp.traceState| > 0 { st := out.FieldLen(3, sp.traceState); } else { WroteNothing(out.plenty, c0); }
    GroupDone(out.plenty, before, c0, out.Contents(), gs, 3, st);
    if st != Ok { return; }
    ghost var c1 := out.Contents();
    EncLeaves(LenField(5, sp.name));
    if |sp.name| > 0 { st := out.FieldLen(5, sp.name); } else { WroteNothing(out.plenty, c1); }
    GroupDone(out.plenty, before, c1, out.Contents(), gs, 4, st);
    if st != Ok { return; }
    ghost var c2 := out.Contents();
    EncLeaves(VarintField(6, sp.kind));
    if sp.kind != 0 { st := out.FieldVarint(6, sp.kind); } else { WroteNothing(out.plenty, c2); }
    GroupDone(out.plenty, before, c2, out.Contents(), gs, 5, st);
    if st != Ok { return; }
  }

  /** Start and end time, emitted even when zero (lines 388 to 410). */
  method EncodeSpanTimes(out: PbBuf, sp: Span, ghost before: Bytes) returns (st: Status)
    requires out.Valid() && WroteGroups(before, out.Contents(), SpanGroups(sp), 6)
    modifies out, out.data
    ensures out.Valid() && (out.data == old(out.data) || fresh(out.data))
    ensures if st == Ok then WroteGroups(before, out.Contents(), SpanGroups(sp), 8)
      else Wrote(out.plenty, before, out.Contents(), EncNodes(Flat(SpanGroups(sp))), st)
  {
    hide Wrote, EncNodes, EncFields, Flat, Leaves, WroteGroups;
    ghost var gs := SpanGroups(sp);
    st := Ok;
    ghost var c0 := out.Contents();
    EncLeaves(Fixed64Opt(7, sp.start));
    if sp.start.Some? { st := out.TagFixed64(7, sp.start.value); } else { WroteNothing(out.plenty, c0); }
    GroupDone(out.plenty, before, c0, out.Contents(), gs, 6, st);
    if st != Ok { return; }
    ghost var c1 := out.Contents();
    EncLeaves(Fixed64Opt(8, sp.end));
    if sp.end.Some? { st := out.TagFixed64(8, sp.end.value); } else { WroteNothing(out.plenty, c1); }
    GroupDone(out.plenty, before, c1, out.Contents(), gs, 7, st);
    if st != Ok { return; }
  }

  /** Attributes, events and links (lines 412 to 500). */
  method EncodeSpanLists(out: PbBuf, sp: Span, ghost before: Bytes) returns (st: Status)
    requires out.Valid() && WroteGroups(before, out.Contents(), SpanGroups(sp), 8)
    modifies out, out.data
    ensures out.Valid() && (out.data == old(out.data) || fresh(out.data))
    ensures if st == Ok then WroteGroups(before, out.Contents(), SpanGroups(sp), 11)
      else Wrote(out.plenty, before, out.Contents(), EncNodes(Flat(SpanGroups(sp))), st)
  {
    hide Wrote, EncNodes, EncFields, Flat, Leaves, WroteGroups;
    ghost var gs := SpanGroups(sp);
    st := Ok;
    ghost var c0 := out.Contents();
    st := EmitAttributes(out, 9, sp.attrs);
    GroupDone(out.plenty, before, c0, out.Contents(), gs, 8, st);
    if st != Ok { return; }
    ghost var c1 := out.Contents();
    st := EmitEvents(out, sp.events);
    GroupDone(out.plenty, before, c1, out.Contents(), gs, 9, st);
    if st != Ok { return; }
    ghost var c2 := out.Contents();
    st := EmitLinks(out, sp.links);
    GroupDone(out.plenty, before, c2, out.Contents(), gs, 10, st);
    if st != Ok { return; }
  }

  /** The status and the flags (lines 502 to 523). */
  method EncodeSpanEnd(out: PbBuf, sp: Span, ghost before: Bytes) returns (st: Status)
    requires out.Valid() && WroteGroups(before, out.Contents(), SpanGroups(sp), 11)
    modifies out, out.data
    ensures out.Valid() && (out.data == old(out.data) || fresh(out.data))
    ensures if st == Ok then WroteGroups(before, out.Contents(), SpanGroups(sp), 13)
      else Wrote(out.plenty, before, out.Contents(), EncNodes(Flat(SpanGroups(sp))), st)
  {
    hide Wrote, EncNodes, EncFields, Flat, Leaves, WroteGroups;
    ghost var gs := SpanGroups(sp);
    st := Ok;
    ghost var c0 := out.Contents();
    st := EmitStatus(out, sp.statusCode, sp.statusMessage);
    GroupDone(out.plenty, before, c0, out.Contents(), gs, 11, st);
    if st != Ok { return; }
    ghost var c1 := out.Contents();
    EncLeaves(FlagsField(sp.sampled));
    if sp.sampled { st := out.TagFixed32(16, 1); } else { WroteNothing(out.plenty, c1); }
    GroupDone(out.plenty, before, c1, out.Contents(), gs, 12, st);
    if st != Ok { return; }
  }

  /** `otlp_encode_span_body`. */
  method EncodeSpanBody(out: PbBuf, sp: Span) returns (st: Status)
    requires out.Valid()
    modifies out, out.data
    ensures out.Valid() && (out.data == old(out.data) || fresh(out.data))
    ensures Wrote(out.plenty, old(out.Contents()), out.Contents(), EncNodes(SpanNodes(sp)), st)
  {
    ghost var before := out.Contents();
    NoGroups(before, SpanGroups(sp));
    assert |SpanGroups(sp)| == 13;
    hide Wrote, EncNodes, Flat, WroteGroups, SpanGroups;
    st := EncodeSpanIds(out, sp, before);
    if st != Ok { return; }
    st := EncodeSpanNames(out, sp, before);
    if st != Ok { return; }
    st := EncodeSpanTimes(out, sp, before);
    if st != Ok { return; }
    st := EncodeSpanLists(out, sp, before);
    if st != Ok { return; }
    st := EncodeSpanEnd(out, sp, before);
    if st != Ok { return; }
    AllGroups(out.plenty, before, out.Contents(), SpanGroups(sp));
  }

  // ---------------------------------------------------------------- resource, scope, request

  lemma {:induction false} KeyedSnoc(attrs: seq<KeyValue>, kv: KeyValue)
    ensures KeyedAttrs(attrs + [kv]) == KeyedAttrs(attrs) + (if OrEmpty(kv.key) == [] then [] else [kv])
  {
    if attrs == [] {
      assert attrs + [kv] == [kv];
    } else {
      assert (attrs + [kv])[1..] == attrs[1..] + [kv];
      KeyedSnoc(attrs[1..], kv);
    }
  }

  lemma KeyedStep(attrs: seq<KeyValue>, i: nat)
    requires i < |attrs|
    ensures EncNodes(AttrNodes(1, KeyedAttrs(attrs[..i + 1]))) ==
            EncNodes(AttrNodes(1, KeyedAttrs(attrs[..i])))
            + (if OrEmpty(attrs[i].key) == [] then [] else EncNodes([Msg(1, KvNodes(attrs[i]))]))
  {
    var done := KeyedAttrs(attrs[..i]);
    KeyedSnoc(attrs[..i], attrs[i]);
    assert attrs[..i + 1] == attrs[..i] + [attrs[i]];
    hide EncNodes, EncFields, AttrNodes, KeyedAttrs;
    if OrEmpty(attrs[i].key) == [] {
      assert done + [] == done;
    } else {
      AttrNodesSnoc(1, done, attrs[i]);
      EncNodesConcat(AttrNodes(1, done), [Msg(1, KvNodes(attrs[i]))]);
    }
  }

  lemma {:induction false} KeyedWithin(attrs: seq<KeyValue>, i: nat)
    requires i <= |attrs|
    ensures EncNodes(AttrNodes(1, KeyedAttrs(attrs[..i]))) <= EncNodes(AttrNodes(1, KeyedAttrs(attrs)))
    decreases |attrs| - i
  {
    hide EncNodes, AttrNodes, KeyedAttrs, KvNodes;
    if i < |attrs| {
      KeyedStep(attrs, i);
      KeyedWithin(attrs, i + 1);
    } else {
      assert attrs[..i] == attrs;
    }
  }

  /** The attribute loop of `otlp_emit_resource` (lines 568 to 586): empty keys are skipped. */
  method EmitKeyedAttributes(sub: PbBuf, attrs: seq<KeyValue>) returns (st: Status)
    requires sub.Valid()
    modifies sub, sub.data
    ensures sub.Valid() && (sub.data == old(sub.data) || fresh(sub.data))
    ensures Wrote(sub.plenty, old(sub.Contents()), sub.Contents(),
                  EncNodes(AttrNodes(1, KeyedAttrs(attrs))), st)
  {
    ghost var before, all := sub.Contents(), EncNodes(AttrNodes(1, KeyedAttrs(attrs)));
    st := Ok;
    assert EncNodes(AttrNodes(1, KeyedAttrs([]))) == [];
    hide Wrote, EncNodes, EncFields, AttrNodes, KeyedAttrs, KvNodes;
    for i := 0 to |attrs|
      invariant sub.Valid() && (sub.data == old(sub.data) || fresh(sub.data)) && st == Ok
      invariant sub.Contents() == before + EncNodes(AttrNodes(1, KeyedAttrs(attrs[..i])))
    {
      KeyedStep(attrs, i);
      if |OrEmpty(attrs[i].key)| == 0 { continue; }
      ghost var now, done := sub.Contents(), EncNodes(AttrNodes(1, KeyedAttrs(attrs[..i])));
      ghost var part := EncNodes([Msg(1, KvNodes(attrs[i]))]);
      st := EncodeKeyValueField(sub, 1, attrs[i]);
      KeyedWithin(attrs, i + 1);
      WroteTurn(sub.plenty, before, now, sub.Contents(), done, part, all, st);
      if st != Ok { return; }
    }
    assert attrs[..|attrs|] == attrs;
    WroteDone(sub.plenty, before, sub.Contents(), all);
  }

  /** `otlp_emit_resource`. */
  method EmitResource(parent: PbBuf, service: CBytes, attrs: seq<KeyValue>) returns (st: Status)
    requires parent.Valid()
    modifies parent, parent.data
    ensures parent.Valid() && (parent.data == old(parent.data) || fresh(parent.data))
    ensures Wrote(parent.plenty, old(parent.Contents()), parent.Contents(),
                  EncNodes(ResourceNodes(service, attrs)), st)
  {
    ghost var serviceNodes, keyed := AttrNodes(1, ServiceAttr(service)), AttrNodes(1, KeyedAttrs(attrs));
    ghost var before, ns := parent.Contents(), serviceNodes + keyed;
    if |service| == 0 && |attrs| == 0 {
      assert EncNodes(ResourceNodes(service, attrs)) == [];
      WroteNothing(parent.plenty, before);
      return Ok;
    }
    EncNodesConcat(serviceNodes, keyed);
    hide Wrote, EncNodes;
    var sub := new PbBuf(parent.plenty);
    st := EncodeResource(sub, service, attrs);
    if st != Ok {
      MessageFails(parent.plenty, before, sub.Contents(), 1, ns, st);
      return;
    }
    WroteAll(parent.plenty, [], sub.Contents(), EncNodes(ns));
    st := EmitMessage(parent, 1, sub, ns);
  }

  /** The service name, then the attributes. */
  method EncodeResource(sub: PbBuf, service: CBytes, attrs: seq<KeyValue>) returns (st: Status)
    requires sub.Valid() && sub.Contents() == []
    modifies sub, sub.data
    ensures sub.Valid() && (sub.data == old(sub.data) || fresh(sub.data))
    ensures Wrote(sub.plenty, [], sub.Contents(),
                  EncNodes(AttrNodes(1, ServiceAttr(service))) + EncNodes(AttrNodes(1, KeyedAttrs(attrs))), st)
  {
    ghost var a, b := EncNodes(AttrNodes(1, ServiceAttr(service))), EncNodes(AttrNodes(1, KeyedAttrs(attrs)));
    assert |service| == 0 ==> a == [];
    assert |service| > 0 ==> AttrNodes(1, ServiceAttr(service)) == [Msg(1, KvNodes(ServiceAttr(service)[0]))];
    hide Wrote, EncNodes, EncFields, AttrNodes, KeyedAttrs, KvNodes;
    if |service| > 0 {
      st := EncodeKeyValueField(sub, 1, KeyValue(Some(SERVICE_NAME), StringVal(Some(service))));
      if st != Ok {
        WroteLess(sub.plenty, [], sub.Contents(), a, a + b, st);
        return;
      }
      WroteAll(sub.plenty, [], sub.Contents(), a);
    }
    ghost var mid := sub.Contents();
    st := EmitKeyedAttributes(sub, attrs);
    WroteThen(sub.plenty, [], mid, sub.Contents(), a, b, st);
  }

  /** `otlp_emit_instrumentation_scope`. */
  method EmitScope(parent: PbBuf, name: CBytes, version: CBytes) returns (st: Status)
    requires parent.Valid()
    modifies parent, parent.data
    ensures parent.Valid() && (parent.data == old(parent.data) || fresh(parent.data))
    ensures Wrote(parent.plenty, old(parent.Contents()), parent.Contents(),
                  EncNodes(ScopeNodes(name, version)), st)
  {
    ghost var a, b := Leaves(LenField(1, name)), Leaves(LenField(2, version));
    ghost var before := parent.Contents();
    if |name| == 0 && |version| == 0 {
      assert EncNodes(ScopeNodes(name, version)) == [];
      WroteNothing(parent.plenty, before);
      return Ok;
    }
    EncLeaves(LenField(1, name));
    EncLeaves(LenField(2, version));
    EncNodesConcat(a, b);
    hide Wrote, EncNodes, EncFields, Leaves;
    var sub := new PbBuf(parent.plenty);
    st := EncodeScope(sub, name, version);
    if st != Ok {
      MessageFails(parent.plenty, before, sub.Contents(), 1, a + b, st);
      return;
    }
    WroteAll(parent.plenty, [], sub.Contents(), EncNodes(a + b));
    st := EmitMessage(parent, 1, sub, a + b);
  }

  /** Its name, then its version; an empty one is left out. */
  method EncodeScope(sub: PbBuf, name: CBytes, version: CBytes) returns (st: Status)
    requires sub.Valid() && sub.Contents() == []
    modifies sub, sub.data
    ensures sub.Valid() && (sub.data == old(sub.data) || fresh(sub.data))
    ensures Wrote(sub.plenty, [], sub.Contents(),
                  EncFields(LenField(1, name)) + EncFields(LenField(2, version)), st)
  {
    ghost var a, b := EncFields(LenField(1, name)), EncFields(LenField(2, version));
    hide Wrote, LenField;
    st := Ok;
    if |name| > 0 { st := sub.FieldLen(1, name); } else { NoLenField(1); WroteNothing(sub.plenty, []); }
    if st != Ok {
      WroteLess(sub.plenty, [], sub.Contents(), a, a + b, st);
      return;
    }
    WroteAll(sub.plenty, [], sub.Contents(), a);
    ghost var mid := sub.Contents();
    if |version| > 0 { st := sub.FieldLen(2, version); } else { NoLenField(2); WroteNothing(sub.plenty, mid); }
    WroteThen(sub.plenty, [], mid, sub.Contents(), a, b, st);
  }

  lemma NoLenField(number: nat)
    ensures EncFields(LenField(number, [])) == []
  {
  }

  lemma {:induction false} SpansSnoc(spans: seq<Span>, sp: Span)
    ensures SpansNodes(spans + [sp]) == SpansNodes(spans) + [Msg(2, SpanNodes(sp))]
  {
    hide SpanNodes;
    if spans == [] {
      assert spans + [sp] == [sp];
    } else {
      assert (spans + [sp])[1..] == spans[1..] + [sp];
      SpansSnoc(spans[1..], sp);
    }
  }

  lemma SpanMsg(sp: Span)
    ensures OptMsg(2, SpanNodes(sp)) == [Msg(2, SpanNodes(sp))]
  {
    hide SpanNodes;
    SpanNodesNonEmpty(sp);
  }

  lemma SpansStep(spans: seq<Span>, i: nat)
    requires i < |spans|
    ensures EncNodes(SpansNodes(spans[..i + 1])) ==
            EncNodes(SpansNodes(spans[..i])) + EncNodes(OptMsg(2, SpanNodes(spans[i])))
  {
    hide EncNodes, EncFields, SpansNodes, SpanNodes, OptMsg;
    SpanMsg(spans[i]);
    SpansSnoc(spans[..i], spans[i]);
    EncNodesConcat(SpansNodes(spans[..i]), [Msg(2, SpanNodes(spans[i]))]);
    assert spans[..i + 1] == spans[..i] + [spans[i]];
  }

  lemma {:induction false} SpansWithin(spans: seq<Span>, i: nat)
    requires i <= |spans|
    ensures EncNodes(SpansNodes(spans[..i])) <= EncNodes(SpansNodes(spans))
    decreases |spans| - i
  {
    hide EncNodes, SpansNodes;
    if i < |spans| {
      SpansStep(spans, i);
      SpansWithin(spans, i + 1);
    } else {
      assert spans[..i] == spans;
    }
  }

  /** A span always has its identifiers, so its message is never left out. */
  lemma SpanNodesNonEmpty(sp: Span)
    ensures SpanNodes(sp) != []
  {
    var gs := SpanGroups(sp);
    FlatStep(gs, 0);
    FlatPrefix(gs, 1);
  }

  lemma {:induction false} FlatPrefix(gs: seq<Group>, n: nat)
    requires n <= |gs|
    ensures Flat(gs[..n]) <= Flat(gs)
    decreases |gs| - n
  {
    if n < |gs| {
      FlatStep(gs, n);
      FlatPrefix(gs, n + 1);
    } else {
      assert gs[..n] == gs;
    }
  }

  /** One turn of the loop over spans (lines 685 to 695). */
  method EmitSpan(sub: PbBuf, sp: Span) returns (st: Status)
    requires sub.Valid()
    modifies sub, sub.data
    ensures sub.Valid() && (sub.data == old(sub.data) || fresh(sub.data))
    ensures Wrote(sub.plenty, old(sub.Contents()), sub.Contents(), EncNodes(OptMsg(2, SpanNodes(sp))), st)
  {
    hide Wrote, EncNodes, EncFields, SpanNodes;
    ghost var before, ns := sub.Contents(), SpanNodes(sp);
    var body := new PbBuf(sub.plenty);
    st := EncodeSpanBody(body, sp);
    if st == Ok {
      WroteAll(sub.plenty, [], body.Contents(), EncNodes(ns));
      st := EmitMessage(sub, 2, body, ns);
    } else {
      MessageFails(sub.plenty, before, body.Contents(), 2, ns, st);
    }
    body.Free();
  }

  /** The loop over spans (lines 683 to 696). */
  method EmitSpans(sub: PbBuf, spans: seq<Span>) returns (st: Status)
    requires sub.Valid()
    modifies sub, sub.data
    ensures sub.Valid() && (sub.data == old(sub.data) || fresh(sub.data))
    ensures Wrote(sub.plenty, old(sub.Contents()), sub.Contents(), EncNodes(SpansNodes(spans)), st)
  {
    ghost var before, all := sub.Contents(), EncNodes(SpansNodes(spans));
    st := Ok;
    assert EncNodes(SpansNodes([])) == [];
    hide Wrote, EncNodes, EncFields, SpansNodes, SpanNodes, OptMsg;
    for i := 0 to |spans|
      invariant sub.Valid() && (sub.data == old(sub.data) || fresh(sub.data)) && st == Ok
      invariant sub.Contents() == before + EncNodes(SpansNodes(spans[..i]))
    {
      ghost var now, done := sub.Contents(), EncNodes(SpansNodes(spans[..i]));
      st := EmitSpan(sub, spans[i]);
      SpansStep(spans, i);
      SpansWithin(spans, i + 1);
      WroteTurn(sub.plenty, before, now, sub.Contents(), done, EncNodes(OptMsg(2, SpanNodes(spans[i]))), all, st);
      if st != Ok { return; }
    }
    assert spans[..|spans|] == spans;
    WroteDone(sub.plenty, before, sub.Contents(), all);
  }

  /** `emit_scope_spans`. */
  method EmitScopeSpans(parent: PbBuf, a: TraceRequestArgs) returns (st: Status)
    requires parent.Valid()
    modifies parent, parent.data
    ensures parent.Valid() && (parent.data == old(parent.data) || fresh(parent.data))
    ensures Wrote(parent.plenty, old(parent.Contents()), parent.Contents(), EncNodes(ScopeSpansNodes(a)), st)
  {
    ghost var before := parent.Contents();
    ghost var scope, spans := ScopeNodes(a.scopeName, a.scopeVersion), SpansNodes(a.spans);
    EncNodesConcat(scope, spans);
    hide Wrote, EncNodes, EncFields, SpansNodes, ScopeNodes;
    var sub := new PbBuf(parent.plenty);
    st := EmitScope(sub, a.scopeName, a.scopeVersion);
    ghost var mid := sub.Contents();
    if st != Ok {
      WroteLess(sub.plenty, [], mid, EncNodes(scope), EncNodes(scope + spans), st);
      MessageFails(parent.plenty, before, mid, 2, scope + spans, st);
      return;
    }
    WroteAll(sub.plenty, [], mid, EncNodes(scope));
    st := EmitSpans(sub, a.spans);
    WroteThen(sub.plenty, [], mid, sub.Contents(), EncNodes(scope), EncNodes(spans), st);
    if st != Ok {
      MessageFails(parent.plenty, before, sub.Contents(), 2, scope + spans, st);
      return;
    }
    WroteAll(sub.plenty, [], sub.Contents(), EncNodes(scope + spans));
    st := EmitMessage(parent, 2, sub, scope + spans);
  }

  /** `emit_resource_spans`. */
  method EmitResourceSpans(parent: PbBuf, a: TraceRequestArgs) returns (st: Status)
    requires parent.Valid()
    modifies parent, parent.data
    ensures parent.Valid() && (parent.data == old(parent.data) || fresh(parent.data))
    ensures Wrote(parent.plenty, old(parent.Contents()), parent.Contents(),
                  EncNodes(OptMsg(1, ResourceSpansNodes(a))), st)
  {
    ghost var before, ns := parent.Contents(), ResourceSpansNodes(a);
    hide Wrote, EncNodes, EncFields, ResourceSpansNodes;
    var sub := new PbBuf(parent.plenty);
    st := EncodeResourceSpans(sub, a);
    if st != Ok {
      MessageFails(parent.plenty, before, sub.Contents(), 1, ns, st);
      return;
    }
    WroteAll(parent.plenty, [], sub.Contents(), EncNodes(ns));
    st := EmitMessage(parent, 1, sub, ns);
  }

  /** Resource, scope with spans, schema URL. */
  method EncodeResourceSpans(sub: PbBuf, a: TraceRequestArgs) returns (st: Status)
    requires sub.Valid() && sub.Contents() == []
    modifies sub, sub.data
    ensures sub.Valid() && (sub.data == old(sub.data) || fresh(sub.data))
    ensures Wrote(sub.plenty, [], sub.Contents(), EncNodes(ResourceSpansNodes(a)), st)
  {
    ghost var x, y := EncNodes(ResourceNodes(a.service, a.resource)), EncNodes(ScopeSpansNodes(a));
    ghost var z := EncFields(LenField(3, a.schemaUrl));
    ResourceSpansParts(a);
    hide Wrote, EncNodes, EncFields, ScopeSpansNodes, ResourceNodes, Leaves, LenField, ResourceSpansNodes;
    st := EmitResource(sub, a.service, a.resource);
    ghost var c1 := sub.Contents();
    if st != Ok {
      WroteLess(sub.plenty, [], c1, x, x + (y + z), st);
      return;
    }
    WroteAll(sub.plenty, [], c1, x);
    st := EmitScopeSpans(sub, a);
    ghost var c2 := sub.Contents();
    if st != Ok {
      WroteLess(sub.plenty, c1, c2, y, y + z, st);
      WroteThen(sub.plenty, [], c1, c2, x, y + z, st);
      return;
    }
    WroteAll(sub.plenty, c1, c2, y);
    if |a.schemaUrl| > 0 { st := sub.FieldLen(3, a.schemaUrl); }
    else { NoLenField(3); WroteNothing(sub.plenty, c2); }
    WroteThen(sub.plenty, c1, c2, sub.Contents(), y, z, st);
    WroteThen(sub.plenty, [], c1, sub.Contents(), x, y + z, st);
  }

  lemma ResourceSpansParts(a: TraceRequestArgs)
    ensures EncNodes(ResourceSpansNodes(a)) ==
      EncNodes(ResourceNodes(a.service, a.resource))
        + (EncNodes(ScopeSpansNodes(a)) + EncFields(LenField(3, a.schemaUrl)))
  {
    var resource, scope := ResourceNodes(a.service, a.resource), ScopeSpansNodes(a);
    var url := Leaves(LenField(3, a.schemaUrl));
    EncLeaves(LenField(3, a.schemaUrl));
    hide EncNodes, EncFields, ScopeSpansNodes, ResourceNodes, Leaves;
    EncNodesConcat(scope, url);
    EncNodesConcat(resource, scope + url);
    assert resource + (scope + url) == resource + scope + url;
  }

  /** `otlp_encode_export_trace_service_request`. */
  method EncodeTraceRequest(out: PbBuf, a: TraceRequestArgs) returns (st: Status)
    requires out.Valid()
    modifies out, out.data
    ensures out.Valid() && (out.data == old(out.data) || fresh(out.data))
    ensures Wrote(out.plenty, old(out.Contents()), out.Contents(), EncNodes(TraceRequestNodes(a)), st)
  {
    if |a.spans| == 0 && |a.service| == 0 && |a.resource| == 0 {
      assert EncNodes(TraceRequestNodes(a)) == [];
      WroteNothing(out.plenty, out.Contents());
      return Ok;
    }
    hide Wrote, EncNodes, EncFields, ResourceSpansNodes;
    st := EmitResourceSpans(out, a);
  }

  /**
   End to end: what the encoder writes into an empty buffer, a reader parses back into the very
   tree of the request, in which it finds the arguments of the call; a request without spans,
   service and resource attributes is no bytes; and it is written when there is memory and room.
   */
  method EncodedRequestParses(a: TraceRequestArgs, plenty: bool) returns (st: Status, bytes: Bytes)
    ensures st == Ok ==> Parse(TraceRequest, bytes) == Some(TraceRequestNodes(a))
    ensures st == Ok ==> TraceIsRead(a, bytes)
    ensures plenty && |EncNodes(TraceRequestNodes(a))| <= ROOM ==> st == Ok
  {
    hide Wrote, EncNodes, TraceRequestNodes, Parse, TraceIsRead;
    ghost var all := EncNodes(TraceRequestNodes(a));
    var out := new PbBuf(plenty);
    st := EncodeTraceRequest(out, a);
    bytes := out.data[..out.len];
    WroteAnswers(plenty, bytes, all, st);
    if st == Ok {
      TraceRequestRoundTrip(a);
      TraceBytesRead(a);
    }
  }

  /** A reader of these bytes finds the arguments; no bytes if there was nothing to send. */
  ghost predicate TraceIsRead(a: TraceRequestArgs, bytes: Bytes) {
    if a.spans == [] && a.service == [] && a.resource == [] then bytes == []
    else
      && Parse(TraceRequest, bytes).Some?
      && R.TraceHeld(a, R.EnvelopeOf(Parse(TraceRequest, bytes).value))
  }

  lemma TraceBytesRead(a: TraceRequestArgs)
    requires |EncNodes(TraceRequestNodes(a))| <= SIZE_MAX
    ensures TraceIsRead(a, EncNodes(TraceRequestNodes(a)))
  {
    hide Parse, R.TraceHeld, R.EnvelopeOf;
    R.TraceRequestReadBack(a);
    EncNothing(TraceRequestNodes(a));
  }

  lemma WroteAnswers(plenty: bool, bytes: Bytes, all: Bytes, st: Status)
    requires Wrote(plenty, [], bytes, all, st)
    ensures st == Ok ==> bytes == all
    ensures plenty && |all| <= ROOM ==> st == Ok
  {
  }
}
