/** The methods that write metrics (src/otlp_metrics_encoder.c). */
module MetricsEncode {
  import opened Common
  import opened PbWire
  import opened PbTree
  import opened PbEncode
  import opened AnyValueModel
  import opened OtlpMessages
  import opened TraceEncode
  import opened OtlpMetrics
  import R = RequestReadBack

  // ---------------------------------------------------------------- packed fields

  lemma PackedLonger(number: nat, b: Bytes)
    ensures |b| <= |EncFields(LenField(number, b))|
  {
    EncOneField(Field(number, LenV(b)));
  }

  lemma PackCountsStep(vs: seq<uint64>, i: nat)
    requires i < |vs|
    ensures PackVarints(vs[..i + 1]) == PackVarints(vs[..i]) + EncVarint(vs[i])
  {
    assert vs[..i + 1][..i] == vs[..i];
  }

  lemma {:induction false} PackCountsWithin(vs: seq<uint64>, i: nat)
    requires i <= |vs|
    ensures PackVarints(vs[..i]) <= PackVarints(vs)
    decreases |vs| - i
  {
    hide PackVarints;
    if i < |vs| {
      PackCountsStep(vs, i);
      PackCountsWithin(vs, i + 1);
    } else {
      assert vs[..i] == vs;
    }
  }

  /** The loop over bucket counts, each a varint. */
  method PackCounts(packed: PbBuf, vs: seq<uint64>) returns (st: Status)
    requires packed.Valid() && packed.Contents() == []
    modifies packed, packed.data
    ensures packed.Valid() && (packed.data == old(packed.data) || fresh(packed.data))
    ensures Wrote(packed.plenty, [], packed.Contents(), PackVarints(vs), st)
  {
    assert PackVarints([]) == [];
    hide Wrote, EncVarint, EncFixed, PackVarints;
    st := Ok;
    for i := 0 to |vs|
      invariant packed.Valid() && (packed.data == old(packed.data) || fresh(packed.data))
      invariant st == Ok && packed.Contents() == PackVarints(vs[..i])
    {
      ghost var done := packed.Contents();
      st := packed.Varint(vs[i]);
      PackCountsStep(vs, i);
      PackCountsWithin(vs, i + 1);
      WroteTurn(packed.plenty, [], done, packed.Contents(), done, EncVarint(vs[i]), PackVarints(vs), st);
      if st != Ok { return; }
    }
    assert vs[..|vs|] == vs;
    WroteDone(packed.plenty, [], packed.Contents(), PackVarints(vs));
  }

  /** A packed field from a buffer of its own; nothing when it is empty. */
  method EmitPackCounts(parent: PbBuf, number: uint32, vs: seq<uint64>) returns (st: Status)
    requires parent.Valid() && number > 0
    modifies parent, parent.data
    ensures parent.Valid() && (parent.data == old(parent.data) || fresh(parent.data))
    ensures Wrote(parent.plenty, old(parent.Contents()), parent.Contents(),
                  EncFields(LenField(number, PackVarints(vs))), st)
  {
    hide Wrote, PackVarints, LenField, EncFields;
    ghost var before, all := parent.Contents(), PackVarints(vs);
    var packed := new PbBuf(parent.plenty);
    st := PackCounts(packed, vs);
    if st == Ok {
      WroteAll(parent.plenty, [], packed.Contents(), all);
      var bytes := packed.data[..packed.len];
      assert bytes == all;
      st := parent.FieldLen(number, bytes);
    } else {
      PackedLonger(number, all);
      WroteAside(parent.plenty, before, [], packed.Contents(), all, EncFields(LenField(number, all)), st);
    }
    packed.Free();
  }

  lemma PackNumbersStep(vs: seq<uint64>, i: nat)
    requires i < |vs|
    ensures PackFixed64(vs[..i + 1]) == PackFixed64(vs[..i]) + EncFixed(vs[i], 8)
  {
    assert vs[..i + 1][..i] == vs[..i];
  }

  lemma {:induction false} PackNumbersWithin(vs: seq<uint64>, i: nat)
    requires i <= |vs|
    ensures PackFixed64(vs[..i]) <= PackFixed64(vs)
    decreases |vs| - i
  {
    hide PackFixed64;
    if i < |vs| {
      PackNumbersStep(vs, i);
      PackNumbersWithin(vs, i + 1);
    } else {
      assert vs[..i] == vs;
    }
  }

  /** The loop over 64-bit numbers of fixed width. */
  method PackNumbers(packed: PbBuf, vs: seq<uint64>) returns (st: Status)
    requires packed.Valid() && packed.Contents() == []
    modifies packed, packed.data
    ensures packed.Valid() && (packed.data == old(packed.data) || fresh(packed.data))
    ensures Wrote(packed.plenty, [], packed.Contents(), PackFixed64(vs), st)
  {
    assert PackFixed64([]) == [];
    hide Wrote, EncVarint, EncFixed, PackFixed64;
    st := Ok;
    for i := 0 to |vs|
      invariant packed.Valid() && (packed.data == old(packed.data) || fresh(packed.data))
      invariant st == Ok && packed.Contents() == PackFixed64(vs[..i])
    {
      ghost var done := packed.Contents();
      st := packed.Fixed64(vs[i]);
      PackNumbersStep(vs, i);
      PackNumbersWithin(vs, i + 1);
      WroteTurn(packed.plenty, [], done, packed.Contents(), done, EncFixed(vs[i], 8), PackFixed64(vs), st);
      if st != Ok { return; }
    }
    assert vs[..|vs|] == vs;
    WroteDone(packed.plenty, [], packed.Contents(), PackFixed64(vs));
  }

  /** A packed field from a buffer of its own; nothing when it is empty. */
  method EmitPackNumbers(parent: PbBuf, number: uint32, vs: seq<uint64>) returns (st: Status)
    requires parent.Valid() && number > 0
    modifies parent, parent.data
    ensures parent.Valid() && (parent.data == old(parent.data) || fresh(parent.data))
    ensures Wrote(parent.plenty, old(parent.Contents()), parent.Contents(),
                  EncFields(LenField(number, PackFixed64(vs))), st)
  {
    hide Wrote, PackFixed64, LenField, EncFields;
    ghost var before, all := parent.Contents(), PackFixed64(vs);
    var packed := new PbBuf(parent.plenty);
    st := PackNumbers(packed, vs);
    if st == Ok {
      WroteAll(parent.plenty, [], packed.Contents(), all);
      var bytes := packed.data[..packed.len];
      assert bytes == all;
      st := parent.FieldLen(number, bytes);
    } else {
      PackedLonger(number, all);
      WroteAside(parent.plenty, before, [], packed.Contents(), all, EncFields(LenField(number, all)), st);
    }
    packed.Free();
  }

  // ---------------------------------------------------------------- exemplars

  /** The value of an exemplar. */
  method EncodeExemplarValue(sub: PbBuf, x: MetricExemplar, ghost before: Bytes) returns (st: Status)
    requires sub.Valid()
    requires WroteGroups(before, sub.Contents(), ExemplarGroups(x), 0)
    modifies sub, sub.data
    ensures sub.Valid() && (sub.data == old(sub.data) || fresh(sub.data))
    ensures if st == Ok then WroteGroups(before, sub.Contents(), ExemplarGroups(x), 2)
      else Wrote(sub.plenty, before, sub.Contents(), EncNodes(Flat(ExemplarGroups(x))), st)
  {
    hide Wrote, EncNodes, EncFields, Flat, Leaves, WroteGroups;
    ghost var gs := ExemplarGroups(x);
    st := Ok;
    ghost var c0 := sub.Contents();
    EncLeaves(if x.value.AsDouble? then [Field(3, Fixed64V(x.value.bits))] else []);
    if x.value.AsDouble? { st := sub.TagFixed64(3, x.value.bits); } else { WroteNothing(sub.plenty, c0); }
    GroupDone(sub.plenty, before, c0, sub.Contents(), gs, 0, st);
    if st != Ok { return; }
    ghost var c1 := sub.Contents();
    EncLeaves(if x.value.AsInt? then [Field(6, Fixed64V(ToUint64(x.value.i)))] else []);
    if x.value.AsInt? { st := sub.TagFixed64(6, ToUint64(x.value.i)); } else { WroteNothing(sub.plenty, c1); }
    GroupDone(sub.plenty, before, c1, sub.Contents(), gs, 1, st);
    if st != Ok { return; }
  }

  /** Its identifiers and its time. */
  method EncodeExemplarIds(sub: PbBuf, x: MetricExemplar, ghost before: Bytes) returns (st: Status)
    requires sub.Valid()
    requires WroteGroups(before, sub.Contents(), ExemplarGroups(x), 2)
    modifies sub, sub.data
    ensures sub.Valid() && (sub.data == old(sub.data) || fresh(sub.data))
    ensures if st == Ok then WroteGroups(before, sub.Contents(), ExemplarGroups(x), 5)
      else Wrote(sub.plenty, before, sub.Contents(), EncNodes(Flat(ExemplarGroups(x))), st)
  {
    hide Wrote, EncNodes, EncFields, Flat, Leaves, WroteGroups;
    ghost var gs := ExemplarGroups(x);
    st := Ok;
    ghost var c0 := sub.Contents();
    EncLeaves(if x.traceId.Some? then [Field(5, LenV(x.traceId.value))] else []);
    if x.traceId.Some? { st := sub.FieldLen(5, x.traceId.value); } else { WroteNothing(sub.plenty, c0); }
    GroupDone(sub.plenty, before, c0, sub.Contents(), gs, 2, st);
    if st != Ok { return; }
    ghost var c1 := sub.Contents();
    EncLeaves(if x.spanId.Some? then [Field(4, LenV(x.spanId.value))] else []);
    if x.spanId.Some? { st := sub.FieldLen(4, x.spanId.value); } else { WroteNothing(sub.plenty, c1); }
    GroupDone(sub.plenty, before, c1, sub.Contents(), gs, 3, st);
    if st != Ok { return; }
    ghost var c2 := sub.Contents();
    EncLeaves(TimeField(2, x.time));
    if x.time.Some? { st := sub.FieldFixed64(2, x.time.value); } else { WroteNothing(sub.plenty, c2); }
    GroupDone(sub.plenty, before, c2, sub.Contents(), gs, 4, st);
    if st != Ok { return; }
  }

  lemma ExemplarNonEmpty(x: MetricExemplar)
    ensures Leaves(ExemplarFields(x)) != []
  {
  }

  /** emit_exemplar */
  method EmitExemplar(parent: PbBuf, number: uint32, x: MetricExemplar) returns (st: Status)
    requires parent.Valid() && number > 0
    modifies parent, parent.data
    ensures parent.Valid() && (parent.data == old(parent.data) || fresh(parent.data))
    ensures Wrote(parent.plenty, old(parent.Contents()), parent.Contents(),
                  EncNodes([Msg(number, Leaves(ExemplarFields(x)))]), st)
  {
    ghost var gs, ns := ExemplarGroups(x), Leaves(ExemplarFields(x));
    assert |gs| == 5;
    ExemplarNonEmpty(x);
    ExemplarIsFlat(x);
    NoGroups([], gs);
    hide Wrote, EncNodes, EncFields, Flat, WroteGroups, Leaves, ExemplarGroups, ExemplarFields;
    ghost var before := parent.Contents();
    var sub := new PbBuf(parent.plenty);
    st := EncodeExemplarValue(sub, x, []);
    if st == Ok { st := EncodeExemplarIds(sub, x, []); }
    if st == Ok {
      AllGroups(parent.plenty, [], sub.Contents(), gs);
      assert sub.Contents() == EncNodes(ns);
      st := EmitMessage(parent, number, sub, ns);
    } else {
      MessageFails(parent.plenty, before, sub.Contents(), number, ns, st);
    }
    sub.Free();
  }

  lemma ExemplarsStep(number: nat, xs: seq<MetricExemplar>, i: nat)
    requires i < |xs|
    ensures EncNodes(ExemplarsNodes(number, xs[..i + 1])) ==
      EncNodes(ExemplarsNodes(number, xs[..i]))
        + EncNodes([Msg(number, Leaves(ExemplarFields(xs[i])))])
  {
    assert xs[..i + 1][..i] == xs[..i];
    hide EncNodes, Leaves, ExemplarFields;
    EncNodesConcat(ExemplarsNodes(number, xs[..i]), [Msg(number, Leaves(ExemplarFields(xs[i])))]);
  }

  lemma {:induction false} ExemplarsWithin(number: nat, xs: seq<MetricExemplar>, i: nat)
    requires i <= |xs|
    ensures EncNodes(ExemplarsNodes(number, xs[..i])) <= EncNodes(ExemplarsNodes(number, xs))
    decreases |xs| - i
  {
    hide EncNodes, ExemplarsNodes, Leaves, ExemplarFields;
    if i < |xs| {
      ExemplarsStep(number, xs, i);
      ExemplarsWithin(number, xs, i + 1);
    } else {
      assert xs[..i] == xs;
    }
  }

  /** The loop over exemplars. */
  method EmitExemplars(parent: PbBuf, number: uint32, xs: seq<MetricExemplar>) returns (st: Status)
    requires parent.Valid() && number > 0
    modifies parent, parent.data
    ensures parent.Valid() && (parent.data == old(parent.data) || fresh(parent.data))
    ensures Wrote(parent.plenty, old(parent.Contents()), parent.Contents(),
                  EncNodes(ExemplarsNodes(number, xs)), st)
  {
    ghost var before, all := parent.Contents(), EncNodes(ExemplarsNodes(number, xs));
    st := Ok;
    assert EncNodes(ExemplarsNodes(number, [])) == [];
    hide Wrote, EncNodes, ExemplarsNodes, Leaves, ExemplarFields;
    for i := 0 to |xs|
      invariant parent.Valid() && (parent.data == old(parent.data) || fresh(parent.data))
      invariant st == Ok && parent.Contents() == before + EncNodes(ExemplarsNodes(number, xs[..i]))
    {
      ghost var now, done := parent.Contents(), EncNodes(ExemplarsNodes(number, xs[..i]));
      ghost var part := EncNodes([Msg(number, Leaves(ExemplarFields(xs[i])))]);
      st := EmitExemplar(parent, number, xs[i]);
      ExemplarsStep(number, xs, i);
      ExemplarsWithin(number, xs, i + 1);
      WroteTurn(parent.plenty, before, now, parent.Contents(), done, part, all, st);
      if st != Ok { return; }
    }
    assert xs[..|xs|] == xs;
    WroteDone(parent.plenty, before, parent.Contents(), all);
  }

  // ---------------------------------------------------------------- data points

  /** The number data point, but for its value. */
  method EncodeNumberLists(sub: PbBuf, m: Metric, ghost before: Bytes) returns (st: Status)
    requires sub.Valid()
    requires m.point.NumberP?
    requires WroteGroups(before, sub.Contents(), NumberGroups(m), 0)
    modifies sub, sub.data
    ensures sub.Valid() && (sub.data == old(sub.data) || fresh(sub.data))
    ensures if st == Ok then WroteGroups(before, sub.Contents(), NumberGroups(m), 3)
      else Wrote(sub.plenty, before, sub.Contents(), EncNodes(Flat(NumberGroups(m))), st)
  {
    hide Wrote, EncNodes, EncFields, Flat, Leaves, WroteGroups, AttrNodes, ExemplarsNodes;
    ghost var gs := NumberGroups(m);
    st := Ok;
    ghost var c0 := sub.Contents();
    st := EmitAttributes(sub, 7, m.attrs);
    GroupDone(sub.plenty, before, c0, sub.Contents(), gs, 0, st);
    if st != Ok { return; }
    ghost var c1 := sub.Contents();
    st := EmitExemplars(sub, 5, m.exemplars);
    GroupDone(sub.plenty, before, c1, sub.Contents(), gs, 1, st);
    if st != Ok { return; }
    ghost var c2 := sub.Contents();
    EncLeaves(TimeField(2, m.start));
    if m.start.Some? { st := sub.FieldFixed64(2, m.start.value); } else { WroteNothing(sub.plenty, c2); }
    GroupDone(sub.plenty, before, c2, sub.Contents(), gs, 2, st);
    if st != Ok { return; }
  }

  /** Its time and value. */
  method EncodeNumberValue(sub: PbBuf, m: Metric, ghost before: Bytes) returns (st: Status)
    requires sub.Valid()
    requires m.point.NumberP?
    requires WroteGroups(before, sub.Contents(), NumberGroups(m), 3)
    modifies sub, sub.data
    ensures sub.Valid() && (sub.data == old(sub.data) || fresh(sub.data))
    ensures if st == Ok then WroteGroups(before, sub.Contents(), NumberGroups(m), 5)
      else Wrote(sub.plenty, before, sub.Contents(), EncNodes(Flat(NumberGroups(m))), st)
  {
    hide Wrote, EncNodes, EncFields, Flat, Leaves, WroteGroups, AttrNodes, ExemplarsNodes;
    ghost var gs := NumberGroups(m);
    st := Ok;
    ghost var c0 := sub.Contents();
    EncLeaves(TimeField(3, m.time));
    if m.time.Some? { st := sub.FieldFixed64(3, m.time.value); } else { WroteNothing(sub.plenty, c0); }
    GroupDone(sub.plenty, before, c0, sub.Contents(), gs, 3, st);
    if st != Ok { return; }
    ghost var c1 := sub.Contents();
    EncLeaves([Field(4, Fixed64V(m.point.value))]);
    st := sub.TagFixed64(4, m.point.value);
    GroupDone(sub.plenty, before, c1, sub.Contents(), gs, 4, st);
    if st != Ok { return; }
  }

  /** Attributes, exemplars and times of a histogram point. */
  method EncodeHistogramFront(sub: PbBuf, m: Metric, ghost before: Bytes) returns (st: Status)
    requires sub.Valid()
    requires WroteGroups(before, sub.Contents(), HistogramFront(m), 0)
    modifies sub, sub.data
    ensures sub.Valid() && (sub.data == old(sub.data) || fresh(sub.data))
    ensures if st == Ok then WroteGroups(before, sub.Contents(), HistogramFront(m), 4)
      else Wrote(sub.plenty, before, sub.Contents(), EncNodes(Flat(HistogramFront(m))), st)
  {
    hide Wrote, EncNodes, EncFields, Flat, Leaves, WroteGroups, AttrNodes, ExemplarsNodes;
    ghost var gs := HistogramFront(m);
    st := Ok;
    ghost var c0 := sub.Contents();
    st := EmitAttributes(sub, 9, m.attrs);
    GroupDone(sub.plenty, before, c0, sub.Contents(), gs, 0, st);
    if st != Ok { return; }
    ghost var c1 := sub.Contents();
    st := EmitExemplars(sub, 8, m.exemplars);
    GroupDone(sub.plenty, before, c1, sub.Contents(), gs, 1, st);
    if st != Ok { return; }
    ghost var c2 := sub.Contents();
    EncLeaves(TimeField(2, m.start));
    if m.start.Some? { st := sub.FieldFixed64(2, m.start.value); } else { WroteNothing(sub.plenty, c2); }
    GroupDone(sub.plenty, before, c2, sub.Contents(), gs, 2, st);
    if st != Ok { return; }
    ghost var c3 := sub.Contents();
    EncLeaves(TimeField(3, m.time));
    if m.time.Some? { st := sub.FieldFixed64(3, m.time.value); } else { WroteNothing(sub.plenty, c3); }
    GroupDone(sub.plenty, before, c3, sub.Contents(), gs, 3, st);
    if st != Ok { return; }
  }

  /** Its count, sum, buckets and bounds. */
  method EncodeHistogramLists(sub: PbBuf, p: Point, ghost before: Bytes) returns (st: Status)
    requires sub.Valid()
    requires p.HistogramP?
    requires WroteGroups(before, sub.Contents(), HistogramBack(p), 0)
    modifies sub, sub.data
    ensures sub.Valid() && (sub.data == old(sub.data) || fresh(sub.data))
    ensures if st == Ok then WroteGroups(before, sub.Contents(), HistogramBack(p), 4)
      else Wrote(sub.plenty, before, sub.Contents(), EncNodes(Flat(HistogramBack(p))), st)
  {
    hide Wrote, EncNodes, EncFields, Flat, Leaves, WroteGroups, PackFixed64;
    ghost var gs := HistogramBack(p);
    NothingPacked();
    st := Ok;
    ghost var c0 := sub.Contents();
    EncLeaves(Fixed64Field(4, p.count));
    st := sub.FieldFixed64(4, p.count);
    GroupDone(sub.plenty, before, c0, sub.Contents(), gs, 0, st);
    if st != Ok { return; }
    ghost var c1 := sub.Contents();
    EncLeaves([Field(5, Fixed64V(p.sum))]);
    st := sub.TagFixed64(5, p.sum);
    GroupDone(sub.plenty, before, c1, sub.Contents(), gs, 1, st);
    if st != Ok { return; }
    ghost var c2 := sub.Contents();
    EncLeaves(BucketsField(p.buckets, p.bounds));
    if |p.bounds| > 0 { st := EmitPackNumbers(sub, 6, p.buckets); } else { WroteNothing(sub.plenty, c2); }
    GroupDone(sub.plenty, before, c2, sub.Contents(), gs, 2, st);
    if st != Ok { return; }
    ghost var c3 := sub.Contents();
    EncLeaves(LenField(7, PackFixed64(p.bounds)));
    if |p.bounds| > 0 { st := EmitPackNumbers(sub, 7, p.bounds); } else { WroteNothing(sub.plenty, c3); }
    GroupDone(sub.plenty, before, c3, sub.Contents(), gs, 3, st);
    if st != Ok { return; }
  }

  /** Its minimum and maximum. */
  method EncodeHistogramMinMax(sub: PbBuf, p: Point, ghost before: Bytes) returns (st: Status)
    requires sub.Valid()
    requires p.HistogramP?
    requires WroteGroups(before, sub.Contents(), HistogramBack(p), 4)
    modifies sub, sub.data
    ensures sub.Valid() && (sub.data == old(sub.data) || fresh(sub.data))
    ensures if st == Ok then WroteGroups(before, sub.Contents(), HistogramBack(p), 6)
      else Wrote(sub.plenty, before, sub.Contents(), EncNodes(Flat(HistogramBack(p))), st)
  {
    hide Wrote, EncNodes, EncFields, Flat, Leaves, WroteGroups, PackFixed64;
    ghost var gs := HistogramBack(p);
    st := Ok;
    ghost var c0 := sub.Contents();
    EncLeaves(MinMaxField(11, p.minMax, false));
    if p.minMax.Some? { st := sub.TagFixed64(11, p.minMax.value.0); } else { WroteNothing(sub.plenty, c0); }
    GroupDone(sub.plenty, before, c0, sub.Contents(), gs, 4, st);
    if st != Ok { return; }
    ghost var c1 := sub.Contents();
    EncLeaves(MinMaxField(12, p.minMax, true));
    if p.minMax.Some? { st := sub.TagFixed64(12, p.minMax.value.1); } else { WroteNothing(sub.plenty, c1); }
    GroupDone(sub.plenty, before, c1, sub.Contents(), gs, 5, st);
    if st != Ok { return; }
  }

  lemma NothingPacked()
    ensures PackFixed64([]) == []
  {
  }

  /** The messages of exponential buckets. */
  method EncodeBuckets(sub: PbBuf, offset: int32, counts: seq<uint64>, ghost before: Bytes) returns (st: Status)
    requires sub.Valid()
    requires WroteGroups(before, sub.Contents(), BucketGroups(offset, counts), 0)
    modifies sub, sub.data
    ensures sub.Valid() && (sub.data == old(sub.data) || fresh(sub.data))
    ensures if st == Ok then WroteGroups(before, sub.Contents(), BucketGroups(offset, counts), 2)
      else Wrote(sub.plenty, before, sub.Contents(), EncNodes(Flat(BucketGroups(offset, counts))), st)
  {
    hide Wrote, EncNodes, EncFields, Flat, Leaves, WroteGroups, PackVarints;
    ghost var gs := BucketGroups(offset, counts);
    st := Ok;
    ghost var c0 := sub.Contents();
    EncLeaves(VarintField(1, Zigzag(offset)));
    st := sub.FieldVarint(1, Zigzag(offset));
    GroupDone(sub.plenty, before, c0, sub.Contents(), gs, 0, st);
    if st != Ok { return; }
    ghost var c1 := sub.Contents();
    EncLeaves(LenField(2, PackVarints(counts)));
    st := EmitPackCounts(sub, 2, counts);
    GroupDone(sub.plenty, before, c1, sub.Contents(), gs, 1, st);
    if st != Ok { return; }
  }

  lemma BucketsNonEmpty(offset: int32, counts: seq<uint64>)
    requires counts != []
    ensures Flat(BucketGroups(offset, counts)) != []
  {
    BucketsReadBack(offset, counts);
  }

  /** emit_exp_histogram_buckets: nothing without counts */
  method EmitBuckets(parent: PbBuf, number: uint32, offset: int32, counts: seq<uint64>)
    returns (st: Status)
    requires parent.Valid() && number > 0
    modifies parent, parent.data
    ensures parent.Valid() && (parent.data == old(parent.data) || fresh(parent.data))
    ensures Wrote(parent.plenty, old(parent.Contents()), parent.Contents(),
                  EncNodes(BucketsNodes(number, offset, counts)), st)
  {
    if |counts| == 0 {
      assert EncNodes(BucketsNodes(number, offset, counts)) == [];
      WroteNothing(parent.plenty, parent.Contents());
      return Ok;
    }
    ghost var gs := BucketGroups(offset, counts);
    BucketsNonEmpty(offset, counts);
    NoGroups([], gs);
    hide Wrote, EncNodes, EncFields, Flat, WroteGroups, Leaves, BucketGroups;
    ghost var before := parent.Contents();
    var sub := new PbBuf(parent.plenty);
    st := EncodeBuckets(sub, offset, counts, []);
    if st == Ok {
      AllGroups(parent.plenty, [], sub.Contents(), gs);
      assert sub.Contents() == EncNodes(Flat(gs));
      st := EmitMessage(parent, number, sub, Flat(gs));
    } else {
      MessageFails(parent.plenty, before, sub.Contents(), number, Flat(gs), st);
    }
    sub.Free();
  }

  /** Attributes and times of an exponential histogram point. */
  method EncodeExpFront(sub: PbBuf, m: Metric, ghost before: Bytes) returns (st: Status)
    requires sub.Valid()
    requires WroteGroups(before, sub.Contents(), ExpHistogramFront(m), 0)
    modifies sub, sub.data
    ensures sub.Valid() && (sub.data == old(sub.data) || fresh(sub.data))
    ensures if st == Ok then WroteGroups(before, sub.Contents(), ExpHistogramFront(m), 3)
      else Wrote(sub.plenty, before, sub.Contents(), EncNodes(Flat(ExpHistogramFront(m))), st)
  {
    hide Wrote, EncNodes, EncFields, Flat, Leaves, WroteGroups, AttrNodes, ExemplarsNodes;
    ghost var gs := ExpHistogramFront(m);
    st := Ok;
    ghost var c0 := sub.Contents();
    st := EmitAttributes(sub, 1, m.attrs);
    GroupDone(sub.plenty, before, c0, sub.Contents(), gs, 0, st);
    if st != Ok { return; }
    ghost var c1 := sub.Contents();
    EncLeaves(TimeField(2, m.start));
    if m.start.Some? { st := sub.FieldFixed64(2, m.start.value); } else { WroteNothing(sub.plenty, c1); }
    GroupDone(sub.plenty, before, c1, sub.Contents(), gs, 1, st);
    if st != Ok { return; }
    ghost var c2 := sub.Contents();
    EncLeaves(TimeField(3, m.time));
    if m.time.Some? { st := sub.FieldFixed64(3, m.time.value); } else { WroteNothing(sub.plenty, c2); }
    GroupDone(sub.plenty, before, c2, sub.Contents(), gs, 2, st);
    if st != Ok { return; }
  }

  /** Its count, sum, scale and zero count. */
  method EncodeExpNumbers(sub: PbBuf, p: Point, ghost before: Bytes) returns (st: Status)
    requires sub.Valid()
    requires p.ExpHistogramP?
    requires WroteGroups(before, sub.Contents(), ExpHistogramBack(p), 0)
    modifies sub, sub.data
    ensures sub.Valid() && (sub.data == old(sub.data) || fresh(sub.data))
    ensures if st == Ok then WroteGroups(before, sub.Contents(), ExpHistogramBack(p), 4)
      else Wrote(sub.plenty, before, sub.Contents(), EncNodes(Flat(ExpHistogramBack(p))), st)
  {
    hide Wrote, EncNodes, EncFields, Flat, Leaves, WroteGroups, BucketsNodes;
    ghost var gs := ExpHistogramBack(p);
    st := Ok;
    ghost var c0 := sub.Contents();
    EncLeaves(Fixed64Field(4, p.count));
    st := sub.FieldFixed64(4, p.count);
    GroupDone(sub.plenty, before, c0, sub.Contents(), gs, 0, st);
    if st != Ok { return; }
    ghost var c1 := sub.Contents();
    EncLeaves([Field(5, Fixed64V(p.sum))]);
    st := sub.TagFixed64(5, p.sum);
    GroupDone(sub.plenty, before, c1, sub.Contents(), gs, 1, st);
    if st != Ok { return; }
    ghost var c2 := sub.Contents();
    EncLeaves(ScaleField(p.scale));
    if p.scale.Some? { st := sub.FieldVarint(6, Zigzag(p.scale.value)); } else { WroteNothing(sub.plenty, c2); }
    GroupDone(sub.plenty, before, c2, sub.Contents(), gs, 2, st);
    if st != Ok { return; }
    ghost var c3 := sub.Contents();
    EncLeaves(Fixed64Field(7, p.zeroCount));
    if p.zeroCount > 0 { st := sub.FieldFixed64(7, p.zeroCount); } else { WroteNothing(sub.plenty, c3); }
    GroupDone(sub.plenty, before, c3, sub.Contents(), gs, 3, st);
    if st != Ok { return; }
  }

  /** Its buckets. */
  method EncodeExpBuckets(sub: PbBuf, p: Point, ghost before: Bytes) returns (st: Status)
    requires sub.Valid()
    requires p.ExpHistogramP?
    requires WroteGroups(before, sub.Contents(), ExpHistogramBack(p), 4)
    modifies sub, sub.data
    ensures sub.Valid() && (sub.data == old(sub.data) || fresh(sub.data))
    ensures if st == Ok then WroteGroups(before, sub.Contents(), ExpHistogramBack(p), 6)
      else Wrote(sub.plenty, before, sub.Contents(), EncNodes(Flat(ExpHistogramBack(p))), st)
  {
    hide Wrote, EncNodes, EncFields, Flat, Leaves, WroteGroups, BucketsNodes;
    ghost var gs := ExpHistogramBack(p);
    st := Ok;
    ghost var c0 := sub.Contents();
    st := EmitBuckets(sub, 8, p.posOffset, p.pos);
    GroupDone(sub.plenty, before, c0, sub.Contents(), gs, 4, st);
    if st != Ok { return; }
    ghost var c1 := sub.Contents();
    st := EmitBuckets(sub, 9, p.negOffset, p.neg);
    GroupDone(sub.plenty, before, c1, sub.Contents(), gs, 5, st);
    if st != Ok { return; }
  }

  lemma {:induction false} FlatConcat(a: seq<Group>, b: seq<Group>)
    ensures Flat(a + b) == Flat(a) + Flat(b)
    decreases |b|
  {
    if b == [] {
      assert a + b == a;
    } else {
      var n := |b| - 1;
      FlatConcat(a, b[..n]);
      assert (a + b)[..|a + b| - 1] == a + b[..n] && (a + b)[|a + b| - 1] == b[n];
      assert Flat(a + b) == Flat(a) + Flat(b[..n]) + b[n].nodes;
    }
  }

  lemma FlatWritten(a: seq<Group>, b: seq<Group>)
    ensures EncNodes(Flat(a + b)) == EncNodes(Flat(a)) + EncNodes(Flat(b))
  {
    hide EncNodes, Flat;
    FlatConcat(a, b);
    EncNodesConcat(Flat(a), Flat(b));
  }

  /** The data point of a kind, into a buffer of its own. */
  method EncodePoint(sub: PbBuf, m: Metric) returns (st: Status)
    requires sub.Valid() && MetricOk(m) && sub.Contents() == []
    modifies sub, sub.data
    ensures sub.Valid() && (sub.data == old(sub.data) || fresh(sub.data))
    ensures Wrote(sub.plenty, [], sub.Contents(), EncNodes(Flat(PointGroups(m))), st)
  {
    hide Wrote, EncNodes, Flat, WroteGroups;
    match m.kind {
      case HistogramKind => st := EncodeHistogram(sub, m);
      case ExpHistogramKind => st := EncodeExpHistogram(sub, m);
      case _ => st := EncodeNumber(sub, m);
    }
  }

  method EncodeNumber(sub: PbBuf, m: Metric) returns (st: Status)
    requires sub.Valid() && m.point.NumberP? && sub.Contents() == []
    modifies sub, sub.data
    ensures sub.Valid() && (sub.data == old(sub.data) || fresh(sub.data))
    ensures Wrote(sub.plenty, [], sub.Contents(), EncNodes(Flat(NumberGroups(m))), st)
  {
    ghost var gs := NumberGroups(m);
    assert |gs| == 5;
    NoGroups([], gs);
    hide Wrote, EncNodes, Flat, WroteGroups, NumberGroups;
    st := EncodeNumberLists(sub, m, []);
    if st != Ok { return; }
    st := EncodeNumberValue(sub, m, []);
    if st != Ok { return; }
    AllGroups(sub.plenty, [], sub.Contents(), gs);
  }

  method EncodeHistogramBack(sub: PbBuf, p: Point) returns (st: Status)
    requires sub.Valid() && p.HistogramP?
    modifies sub, sub.data
    ensures sub.Valid() && (sub.data == old(sub.data) || fresh(sub.data))
    ensures Wrote(sub.plenty, old(sub.Contents()), sub.Contents(), EncNodes(Flat(HistogramBack(p))), st)
  {
    ghost var before, b := sub.Contents(), HistogramBack(p);
    assert |b| == 6;
    NoGroups(before, b);
    hide Wrote, EncNodes, Flat, WroteGroups, HistogramBack;
    st := EncodeHistogramLists(sub, p, before);
    if st != Ok { return; }
    st := EncodeHistogramMinMax(sub, p, before);
    if st != Ok { return; }
    AllGroups(sub.plenty, before, sub.Contents(), b);
  }

  method EncodeHistogram(sub: PbBuf, m: Metric) returns (st: Status)
    requires sub.Valid() && m.point.HistogramP? && sub.Contents() == []
    modifies sub, sub.data
    ensures sub.Valid() && (sub.data == old(sub.data) || fresh(sub.data))
    ensures Wrote(sub.plenty, [], sub.Contents(), EncNodes(Flat(HistogramGroups(m))), st)
  {
    ghost var a, b := HistogramFront(m), HistogramBack(m.point);
    assert |a| == 4 && |b| == 6;
    NoGroups([], a);
    FlatWritten(a, b);
    hide Wrote, EncNodes, Flat, WroteGroups, HistogramFront, HistogramBack;
    ghost var x, y := EncNodes(Flat(a)), EncNodes(Flat(b));
    st := EncodeHistogramFront(sub, m, []);
    if st != Ok {
      WroteLess(sub.plenty, [], sub.Contents(), x, x + y, st);
      return;
    }
    AllGroups(sub.plenty, [], sub.Contents(), a);
    ghost var mid := sub.Contents();
    st := EncodeHistogramBack(sub, m.point);
    WroteThen(sub.plenty, [], mid, sub.Contents(), x, y, st);
  }

  method EncodeExpHistogramBack(sub: PbBuf, p: Point) returns (st: Status)
    requires sub.Valid() && p.ExpHistogramP?
    modifies sub, sub.data
    ensures sub.Valid() && (sub.data == old(sub.data) || fresh(sub.data))
    ensures Wrote(sub.plenty, old(sub.Contents()), sub.Contents(), EncNodes(Flat(ExpHistogramBack(p))), st)
  {
    ghost var before, b := sub.Contents(), ExpHistogramBack(p);
    assert |b| == 6;
    NoGroups(before, b);
    hide Wrote, EncNodes, Flat, WroteGroups, ExpHistogramBack;
    st := EncodeExpNumbers(sub, p, before);
    if st != Ok { return; }
    st := EncodeExpBuckets(sub, p, before);
    if st != Ok { return; }
    AllGroups(sub.plenty, before, sub.Contents(), b);
  }

  method EncodeExpHistogram(sub: PbBuf, m: Metric) returns (st: Status)
    requires sub.Valid() && m.point.ExpHistogramP? && sub.Contents() == []
    modifies sub, sub.data
    ensures sub.Valid() && (sub.data == old(sub.data) || fresh(sub.data))
    ensures Wrote(sub.plenty, [], sub.Contents(), EncNodes(Flat(ExpHistogramGroups(m))), st)
  {
    ghost var a, b := ExpHistogramFront(m), ExpHistogramBack(m.point);
    assert |a| == 3 && |b| == 6;
    NoGroups([], a);
    FlatWritten(a, b);
    hide Wrote, EncNodes, Flat, WroteGroups, ExpHistogramFront, ExpHistogramBack;
    ghost var x, y := EncNodes(Flat(a)), EncNodes(Flat(b));
    st := EncodeExpFront(sub, m, []);
    if st != Ok {
      WroteLess(sub.plenty, [], sub.Contents(), x, x + y, st);
      return;
    }
    AllGroups(sub.plenty, [], sub.Contents(), a);
    ghost var mid := sub.Contents();
    st := EncodeExpHistogramBack(sub, m.point);
    WroteThen(sub.plenty, [], mid, sub.Contents(), x, y, st);
  }

  /** A point always has its value or its sum. */
  lemma PointNonEmpty(m: Metric)
    requires MetricOk(m)
    ensures Flat(PointGroups(m)) != []
  {
    hide Flat;
    PointReadBack(m);
    NothingReadBack(m.kind);
  }

  lemma NothingReadBack(k: Kind)
    ensures PointOf(k, []).NumberR? ==> PointOf(k, []).value == None
    ensures !PointOf(k, []).NumberR? ==> PointOf(k, []).sum == None
  {
  }

  /** The data point as a message of the wrapper. */
  method EmitPoint(wrapper: PbBuf, m: Metric) returns (st: Status)
    requires wrapper.Valid() && MetricOk(m)
    modifies wrapper, wrapper.data
    ensures wrapper.Valid() && (wrapper.data == old(wrapper.data) || fresh(wrapper.data))
    ensures Wrote(wrapper.plenty, old(wrapper.Contents()), wrapper.Contents(),
                  EncNodes([Msg(1, Flat(PointGroups(m)))]), st)
  {
    PointNonEmpty(m);
    hide Wrote, EncNodes, Flat, PointGroups, MetricOk;
    ghost var before, ns := wrapper.Contents(), Flat(PointGroups(m));
    var sub := new PbBuf(wrapper.plenty);
    st := EncodePoint(sub, m);
    if st == Ok {
      WroteAll(wrapper.plenty, [], sub.Contents(), EncNodes(ns));
      st := EmitMessage(wrapper, 1, sub, ns);
    } else {
      MessageFails(wrapper.plenty, before, sub.Contents(), 1, ns, st);
    }
    sub.Free();
  }

  // ---------------------------------------------------------------- metrics

  /** The wrapper of a kind: the data point, then emit_kind_extra_fields. */
  method EncodeData(wrapper: PbBuf, m: Metric, ghost before: Bytes) returns (st: Status)
    requires wrapper.Valid()
    requires MetricOk(m)
    requires WroteGroups(before, wrapper.Contents(), DataGroups(m), 0)
    modifies wrapper, wrapper.data
    ensures wrapper.Valid() && (wrapper.data == old(wrapper.data) || fresh(wrapper.data))
    ensures if st == Ok then WroteGroups(before, wrapper.Contents(), DataGroups(m), 3)
      else Wrote(wrapper.plenty, before, wrapper.Contents(), EncNodes(Flat(DataGroups(m))), st)
  {
    hide Wrote, EncNodes, EncFields, Flat, Leaves, WroteGroups, PointGroups, MetricOk;
    ghost var gs := DataGroups(m);
    st := Ok;
    ghost var c0 := wrapper.Contents();
    st := EmitPoint(wrapper, m);
    GroupDone(wrapper.plenty, before, c0, wrapper.Contents(), gs, 0, st);
    if st != Ok { return; }
    ghost var c1 := wrapper.Contents();
    EncLeaves(if m.kind.GaugeKind? then [] else VarintField(2, m.aggTemp));
    if !m.kind.GaugeKind? {
      st := wrapper.FieldVarint(2, m.aggTemp);
    } else {
      WroteNothing(wrapper.plenty, c1);
    }
    GroupDone(wrapper.plenty, before, c1, wrapper.Contents(), gs, 1, st);
    if st != Ok { return; }
    ghost var c2 := wrapper.Contents();
    EncLeaves(if m.kind.Counter? then VarintField(3, if m.monotonic then 1 else 0) else []);
    if m.kind.Counter? {
      st := wrapper.FieldVarint(3, if m.monotonic then 1 else 0);
    } else {
      WroteNothing(wrapper.plenty, c2);
    }
    GroupDone(wrapper.plenty, before, c2, wrapper.Contents(), gs, 2, st);
    if st != Ok { return; }
  }

  lemma DataNonEmpty(m: Metric)
    requires MetricOk(m)
    ensures Flat(DataGroups(m)) != [] && |DataGroups(m)| == 3
  {
    var gs := DataGroups(m);
    FlatPrefix(gs, 1);
    FlatStep(gs, 0);
  }

  /** Wrapper and its contents, as the field of the kind. */
  method EmitData(sub: PbBuf, m: Metric) returns (st: Status)
    requires sub.Valid() && MetricOk(m)
    modifies sub, sub.data
    ensures sub.Valid() && (sub.data == old(sub.data) || fresh(sub.data))
    ensures Wrote(sub.plenty, old(sub.Contents()), sub.Contents(),
                  EncNodes([Msg(KindField(m.kind), Flat(DataGroups(m)))]), st)
  {
    ghost var gs := DataGroups(m);
    DataNonEmpty(m);
    NoGroups([], gs);
    hide Wrote, EncNodes, Flat, WroteGroups, DataGroups, MetricOk;
    ghost var before := sub.Contents();
    var wrapper := new PbBuf(sub.plenty);
    st := EncodeData(wrapper, m, []);
    if st == Ok {
      AllGroups(sub.plenty, [], wrapper.Contents(), gs);
      assert wrapper.Contents() == EncNodes(Flat(gs));
      st := EmitMessage(sub, KindField(m.kind), wrapper, Flat(gs));
    } else {
      MessageFails(sub.plenty, before, wrapper.Contents(), KindField(m.kind), Flat(gs), st);
    }
    wrapper.Free();
  }

  /** The fields of a metric. */
  method EncodeMetric(sub: PbBuf, m: Metric, ghost before: Bytes) returns (st: Status)
    requires sub.Valid()
    requires MetricOk(m)
    requires WroteGroups(before, sub.Contents(), MetricGroups(m), 0)
    modifies sub, sub.data
    ensures sub.Valid() && (sub.data == old(sub.data) || fresh(sub.data))
    ensures if st == Ok then WroteGroups(before, sub.Contents(), MetricGroups(m), 4)
      else Wrote(sub.plenty, before, sub.Contents(), EncNodes(Flat(MetricGroups(m))), st)
  {
    hide Wrote, EncNodes, EncFields, Flat, Leaves, WroteGroups, DataGroups, MetricOk;
    ghost var gs := MetricGroups(m);
    st := Ok;
    ghost var c0 := sub.Contents();
    EncLeaves([Field(1, LenV(m.name))]);
    st := sub.TagLen(1, m.name);
    GroupDone(sub.plenty, before, c0, sub.Contents(), gs, 0, st);
    if st != Ok { return; }
    ghost var c1 := sub.Contents();
    EncLeaves(LenField(2, m.description));
    if |m.description| > 0 { st := sub.FieldLen(2, m.description); } else { WroteNothing(sub.plenty, c1); }
    GroupDone(sub.plenty, before, c1, sub.Contents(), gs, 1, st);
    if st != Ok { return; }
    ghost var c2 := sub.Contents();
    EncLeaves(LenField(3, m.unit));
    if |m.unit| > 0 { st := sub.FieldLen(3, m.unit); } else { WroteNothing(sub.plenty, c2); }
    GroupDone(sub.plenty, before, c2, sub.Contents(), gs, 2, st);
    if st != Ok { return; }
    ghost var c3 := sub.Contents();
    st := EmitData(sub, m);
    GroupDone(sub.plenty, before, c3, sub.Contents(), gs, 3, st);
    if st != Ok { return; }
  }

  lemma MetricNonEmpty(m: Metric)
    requires MetricOk(m)
    ensures OptMsg(2, MetricNodes(m)) == [Msg(2, MetricNodes(m))]
    ensures MetricNodes(m) == Flat(MetricGroups(m)) && |MetricGroups(m)| == 4
  {
    var gs := MetricGroups(m);
    FlatPrefix(gs, 1);
    FlatStep(gs, 0);
  }

  /** emit_metric */
  method EmitMetric(parent: PbBuf, m: Metric) returns (st: Status)
    requires parent.Valid() && MetricOk(m)
    modifies parent, parent.data
    ensures parent.Valid() && (parent.data == old(parent.data) || fresh(parent.data))
    ensures Wrote(parent.plenty, old(parent.Contents()), parent.Contents(),
                  EncNodes([Msg(2, MetricNodes(m))]), st)
  {
    hide Wrote, EncNodes, Flat, WroteGroups, MetricGroups, MetricNodes, MetricOk, OptMsg;
    ghost var before, gs, ns := parent.Contents(), MetricGroups(m), MetricNodes(m);
    MetricNonEmpty(m);
    NoGroups([], gs);
    var sub := new PbBuf(parent.plenty);
    st := EncodeMetric(sub, m, []);
    if st == Ok {
      AllGroups(parent.plenty, [], sub.Contents(), gs);
      st := EmitMessage(parent, 2, sub, ns);
    } else {
      MessageFails(parent.plenty, before, sub.Contents(), 2, ns, st);
    }
    sub.Free();
  }

  lemma MetricsStep(ms: seq<Metric>, i: nat)
    requires i < |ms| && AllOk(ms)
    ensures EncNodes(MetricsNodes(ms[..i + 1])) ==
      EncNodes(MetricsNodes(ms[..i])) + EncNodes([Msg(2, MetricNodes(ms[i]))])
  {
    var done := ms[..i];
    var now := ms[..i + 1];
    assert now[..i] == done && now[i] == ms[i] && AllOk(done) && AllOk(now);
    hide EncNodes, MetricNodes, MetricOk, AllOk;
    assert MetricsNodes(now) == MetricsNodes(done) + [Msg(2, MetricNodes(ms[i]))];
    hide MetricsNodes;
    EncNodesConcat(MetricsNodes(ms[..i]), [Msg(2, MetricNodes(ms[i]))]);
  }

  lemma {:induction false} MetricsWithin(ms: seq<Metric>, i: nat)
    requires i <= |ms| && AllOk(ms)
    ensures EncNodes(MetricsNodes(ms[..i])) <= EncNodes(MetricsNodes(ms))
    decreases |ms| - i
  {
    hide EncNodes, MetricsNodes, MetricOk;
    if i < |ms| {
      MetricsStep(ms, i);
      MetricsWithin(ms, i + 1);
    } else {
      assert ms[..i] == ms;
    }
  }

  /** The loop over metrics. */
  method EmitMetrics(sm: PbBuf, ms: seq<Metric>) returns (st: Status)
    requires sm.Valid() && AllOk(ms)
    modifies sm, sm.data
    ensures sm.Valid() && (sm.data == old(sm.data) || fresh(sm.data))
    ensures Wrote(sm.plenty, old(sm.Contents()), sm.Contents(), EncNodes(MetricsNodes(ms)), st)
  {
    ghost var before, all := sm.Contents(), EncNodes(MetricsNodes(ms));
    st := Ok;
    assert EncNodes(MetricsNodes([])) == [];
    hide Wrote, EncNodes, MetricsNodes, MetricNodes, MetricOk;
    for i := 0 to |ms|
      invariant sm.Valid() && (sm.data == old(sm.data) || fresh(sm.data))
      invariant st == Ok && sm.Contents() == before + EncNodes(MetricsNodes(ms[..i]))
    {
      ghost var now, done := sm.Contents(), EncNodes(MetricsNodes(ms[..i]));
      st := EmitMetric(sm, ms[i]);
      MetricsStep(ms, i);
      MetricsWithin(ms, i + 1);
      WroteTurn(sm.plenty, before, now, sm.Contents(), done, EncNodes([Msg(2, MetricNodes(ms[i]))]), all, st);
      if st != Ok { return; }
    }
    assert ms[..|ms|] == ms;
    WroteDone(sm.plenty, before, sm.Contents(), all);
  }

  /** Scope and metrics into one buffer, and that as a field of the resource. */
  method EmitScopeMetrics(rm: PbBuf, a: MetricsArgs) returns (st: Status)
    requires rm.Valid() && AllOk(a.metrics)
    modifies rm, rm.data
    ensures rm.Valid() && (rm.data == old(rm.data) || fresh(rm.data))
    ensures Wrote(rm.plenty, old(rm.Contents()), rm.Contents(), EncNodes(ScopeMetricsNodes(a)), st)
  {
    ghost var before := rm.Contents();
    ghost var scope, metrics := ScopeNodes(a.scopeName, a.scopeVersion), MetricsNodes(a.metrics);
    EncNodesConcat(scope, metrics);
    hide Wrote, EncNodes, EncFields, MetricsNodes, ScopeNodes, AllOk;
    var sm := new PbBuf(rm.plenty);
    st := EmitScope(sm, a.scopeName, a.scopeVersion);
    ghost var mid := sm.Contents();
    if st != Ok {
      WroteLess(sm.plenty, [], mid, EncNodes(scope), EncNodes(scope + metrics), st);
      MessageFails(rm.plenty, before, mid, 2, scope + metrics, st);
      return;
    }
    WroteAll(sm.plenty, [], mid, EncNodes(scope));
    st := EmitMetrics(sm, a.metrics);
    WroteThen(sm.plenty, [], mid, sm.Contents(), EncNodes(scope), EncNodes(metrics), st);
    if st != Ok {
      MessageFails(rm.plenty, before, sm.Contents(), 2, scope + metrics, st);
      return;
    }
    WroteAll(sm.plenty, [], sm.Contents(), EncNodes(scope + metrics));
    st := EmitMessage(rm, 2, sm, scope + metrics);
  }

  /** Resource, scope metrics and schema URL, as the field of the request. */
  method EmitResourceMetrics(out: PbBuf, a: MetricsArgs) returns (st: Status)
    requires out.Valid() && AllOk(a.metrics)
    modifies out, out.data
    ensures out.Valid() && (out.data == old(out.data) || fresh(out.data))
    ensures Wrote(out.plenty, old(out.Contents()), out.Contents(),
                  EncNodes(OptMsg(1, ResourceMetricsNodes(a))), st)
  {
    ghost var before, ns := out.Contents(), ResourceMetricsNodes(a);
    hide Wrote, EncNodes, EncFields, ResourceMetricsNodes, AllOk;
    var rm := new PbBuf(out.plenty);
    st := EncodeResourceMetrics(rm, a);
    if st != Ok {
      MessageFails(out.plenty, before, rm.Contents(), 1, ns, st);
      return;
    }
    WroteAll(out.plenty, [], rm.Contents(), EncNodes(ns));
    st := EmitMessage(out, 1, rm, ns);
  }

  /** Into one buffer: resource, scope metrics, schema URL. */
  method EncodeResourceMetrics(rm: PbBuf, a: MetricsArgs) returns (st: Status)
    requires rm.Valid() && AllOk(a.metrics) && rm.Contents() == []
    modifies rm, rm.data
    ensures rm.Valid() && (rm.data == old(rm.data) || fresh(rm.data))
    ensures Wrote(rm.plenty, [], rm.Contents(), EncNodes(ResourceMetricsNodes(a)), st)
  {
    ghost var x, y := EncNodes(ResourceNodes(a.service, a.resource)), EncNodes(ScopeMetricsNodes(a));
    ghost var z := EncFields(LenField(3, a.schemaUrl));
    ResourceMetricsParts(a);
    hide Wrote, EncNodes, EncFields, ScopeMetricsNodes, ResourceNodes, LenField, ResourceMetricsNodes, AllOk;
    st := EmitResource(rm, a.service, a.resource);
    ghost var c1 := rm.Contents();
    if st != Ok {
      WroteLess(rm.plenty, [], c1, x, x + (y + z), st);
      return;
    }
    WroteAll(rm.plenty, [], c1, x);
    st := EmitScopeMetrics(rm, a);
    ghost var c2 := rm.Contents();
    if st != Ok {
      WroteLess(rm.plenty, c1, c2, y, y + z, st);
      WroteThen(rm.plenty, [], c1, c2, x, y + z, st);
      return;
    }
    WroteAll(rm.plenty, c1, c2, y);
    if |a.schemaUrl| > 0 { st := rm.FieldLen(3, a.schemaUrl); }
    else { NoLenField(3); WroteNothing(rm.plenty, c2); }
    WroteThen(rm.plenty, c1, c2, rm.Contents(), y, z, st);
    WroteThen(rm.plenty, [], c1, rm.Contents(), x, y + z, st);
  }

  lemma ResourceMetricsParts(a: MetricsArgs)
    requires AllOk(a.metrics)
    ensures EncNodes(ResourceMetricsNodes(a)) ==
      EncNodes(ResourceNodes(a.service, a.resource))
        + (EncNodes(ScopeMetricsNodes(a)) + EncFields(LenField(3, a.schemaUrl)))
  {
    var resource, scope := ResourceNodes(a.service, a.resource), ScopeMetricsNodes(a);
    var url := Leaves(LenField(3, a.schemaUrl));
    EncLeaves(LenField(3, a.schemaUrl));
    hide EncNodes, EncFields, ScopeMetricsNodes, ResourceNodes, Leaves, AllOk;
    EncNodesConcat(scope, url);
    EncNodesConcat(resource, scope + url);
    assert resource + (scope + url) == resource + scope + url;
  }

  /** otlp_encode_export_metrics_service_request */
  method EncodeMetricsRequest(out: PbBuf, a: MetricsArgs) returns (st: Status)
    requires out.Valid() && AllOk(a.metrics)
    modifies out, out.data
    ensures out.Valid() && (out.data == old(out.data) || fresh(out.data))
    ensures Wrote(out.plenty, old(out.Contents()), out.Contents(), EncNodes(MetricsRequestNodes(a)), st)
  {
    if |a.metrics| == 0 && |a.service| == 0 && |a.resource| == 0 {
      assert EncNodes(MetricsRequestNodes(a)) == [];
      WroteNothing(out.plenty, out.Contents());
      return Ok;
    }
    hide Wrote, EncNodes, EncFields, ResourceMetricsNodes, AllOk;
    st := EmitResourceMetrics(out, a);
  }

  /**
   End to end: what the encoder writes into an empty buffer is parsed back to its tree, in which a
   reader finds the arguments of the call; a request without metrics, service and resource
   attributes is no bytes; and it is written when there is memory and room.
   */
  method EncodedMetricsParse(a: MetricsArgs, plenty: bool) returns (st: Status, bytes: Bytes)
    requires AllOk(a.metrics)
    ensures st == Ok ==> Parse(MetricsRequest, bytes) == Some(MetricsRequestNodes(a))
    ensures st == Ok ==> MetricsAreRead(a, bytes)
    ensures plenty && |EncNodes(MetricsRequestNodes(a))| <= ROOM ==> st == Ok
  {
    hide Wrote, EncNodes, MetricsRequestNodes, Parse, AllOk, MetricsAreRead;
    ghost var all := EncNodes(MetricsRequestNodes(a));
    var out := new PbBuf(plenty);
    st := EncodeMetricsRequest(out, a);
    bytes := out.data[..out.len];
    WroteAnswers(plenty, bytes, all, st);
    if st == Ok {
      MetricsRequestRoundTrip(a);
      MetricsBytesRead(a);
    }
  }

  /** A reader of these bytes finds the arguments; no bytes if there was nothing to send. */
  ghost predicate MetricsAreRead(a: MetricsArgs, bytes: Bytes)
    requires AllOk(a.metrics)
  {
    if a.metrics == [] && a.service == [] && a.resource == [] then bytes == []
    else
      && Parse(MetricsRequest, bytes).Some?
      && R.MetricsRequestHeld(a, R.EnvelopeOf(Parse(MetricsRequest, bytes).value))
  }

  lemma MetricsBytesRead(a: MetricsArgs)
    requires AllOk(a.metrics) && |EncNodes(MetricsRequestNodes(a))| <= SIZE_MAX
    ensures MetricsAreRead(a, EncNodes(MetricsRequestNodes(a)))
  {
    hide AllOk, Parse, R.MetricsRequestHeld, R.EnvelopeOf;
    R.MetricsRequestReadBack(a);
    EncNothing(MetricsRequestNodes(a));
  }
}
