/**
 What the encoder of src/otlp_messages.c sees of an attribute tree of src/internal_util.c: only
 its structure, so that a deep copy is encoded as its original.
 */
module AttrEncode {
  import opened Common
  import opened AttrCopy
  import opened PbWire
  import AV = AnyValueModel

  lemma AttrParts(a: Attribute)
    ensures AttrOk(a) <==> TextOk(a.key) && ValueOk(a.value)
    ensures Erase(a) == Attribute(EraseText(a.key), EraseValue(a.value))
  {
  }

  /** The last of the items, and those before it. */
  lemma LastItem(xs: seq<Attribute>)
    requires xs != []
    ensures var n := |xs| - 1;
      |EraseItems(xs)| == n + 1 && EraseItems(xs)[..n] == EraseItems(xs[..n]) &&
      EraseItems(xs)[n] == Erase(xs[n])
    ensures ItemsOk(xs) ==> ItemsOk(xs[..|xs| - 1]) && AttrOk(xs[|xs| - 1])
    ensures |xs| <= SIZE_MAX && ItemsOk(xs[..|xs| - 1]) && AttrOk(xs[|xs| - 1]) ==> ItemsOk(xs)
  {
    var n := |xs| - 1;
    assert forall i :: 0 <= i < n ==> xs[i] == xs[..n][i];
  }

  lemma LastEntry(es: seq<Entry>)
    requires es != []
    ensures var n := |es| - 1;
      |EraseEntries(es)| == n + 1 && EraseEntries(es)[..n] == EraseEntries(es[..n]) &&
      EraseEntries(es)[n] == EraseEntry(es[n])
    ensures EntriesOk(es) ==> EntriesOk(es[..|es| - 1]) && EntryOk(es[|es| - 1])
    ensures |es| <= SIZE_MAX && EntriesOk(es[..|es| - 1]) && EntryOk(es[|es| - 1]) ==> EntriesOk(es)
  {
    var n := |es| - 1;
    assert forall i :: 0 <= i < n ==> es[i] == es[..n][i];
  }

  function ToText(t: Text): Option<CBytes>
    requires TextOk(t)
  {
    if t.NoText? then None else Some(t.bytes)
  }

  /** The value that the encoder reads; keys of array items are not part of it. */
  function ToAny(v: Value): AV.AnyValue
    requires ValueOk(v)
    decreases v, 0
  {
    match v
    case StringVal(s) => AV.StringVal(ToText(s))
    case BoolVal(b) => AV.BoolVal(b)
    case IntVal(i) => AV.IntVal(i)
    case DoubleVal(bits) => AV.DoubleVal(bits)
    case BytesVal(data, len) => AV.BytesVal(if len == 0 then [] else data.bytes)
    case ArrayVal(arr) => if arr.NoArray? then AV.NullArrayVal else AV.ArrayVal(ToItems(arr.elems))
    case KvListVal(kvl) =>
      if kvl.NoKvList? then AV.NullKvListVal else AV.KvListVal(ToEntries(kvl.list))
  }

  function ToItem(a: Attribute): AV.AnyValue
    requires AttrOk(a)
    decreases a, 1
  {
    ToAny(a.value)
  }

  function ToEntry(e: Entry): AV.KeyValue
    requires EntryOk(e)
    decreases e, 0
  {
    AV.KeyValue(ToText(e.key), ToItem(e.value))
  }

  function ToItems(xs: seq<Attribute>): seq<AV.AnyValue>
    requires ItemsOk(xs)
    decreases xs, 0
  {
    if xs == [] then []
    else
      LastItem(xs);
      ToItems(xs[..|xs| - 1]) + [ToItem(xs[|xs| - 1])]
  }

  function ToEntries(es: seq<Entry>): seq<AV.KeyValue>
    requires EntriesOk(es)
    decreases es, 0
  {
    if es == [] then []
    else
      LastEntry(es);
      ToEntries(es[..|es| - 1]) + [ToEntry(es[|es| - 1])]
  }

  lemma SameText(t: Text, u: Text)
    requires TextOk(t) && TextOk(u) && EraseText(t) == EraseText(u)
    ensures ToText(t) == ToText(u)
  {
  }

  lemma {:induction false} SameAny(v: Value, w: Value)
    requires ValueOk(v) && ValueOk(w) && EraseValue(v) == EraseValue(w)
    ensures ToAny(v) == ToAny(w)
    decreases v, 0
  {
    match (v, w) {
      case (StringVal(s), StringVal(t)) => SameText(s, t);
      case (ArrayVal(a), ArrayVal(b)) => if a.Array? { SameItems(a.elems, b.elems); }
      case (KvListVal(a), KvListVal(b)) => if a.KvList? { SameEntries(a.list, b.list); }
      case _ =>
    }
  }

  lemma {:induction false} SameItem(a: Attribute, b: Attribute)
    requires AttrOk(a) && AttrOk(b) && Erase(a) == Erase(b)
    ensures ToItem(a) == ToItem(b)
    decreases a, 1
  {
    SameAny(a.value, b.value);
  }

  lemma {:induction false} SameEntry(a: Entry, b: Entry)
    requires EntryOk(a) && EntryOk(b) && EraseEntry(a) == EraseEntry(b)
    ensures ToEntry(a) == ToEntry(b)
    decreases a, 0
  {
    SameText(a.key, b.key);
    SameItem(a.value, b.value);
  }

  lemma {:induction false} SameItems(xs: seq<Attribute>, ys: seq<Attribute>)
    requires ItemsOk(xs) && ItemsOk(ys) && EraseItems(xs) == EraseItems(ys)
    ensures ToItems(xs) == ToItems(ys)
    decreases xs, 0
  {
    assert |xs| == |EraseItems(xs)| == |ys|;
    if xs != [] {
      var n := |xs| - 1;
      LastItem(xs);
      LastItem(ys);
      SameItems(xs[..n], ys[..n]);
      SameItem(xs[n], ys[n]);
    }
  }

  lemma {:induction false} SameEntries(xs: seq<Entry>, ys: seq<Entry>)
    requires EntriesOk(xs) && EntriesOk(ys) && EraseEntries(xs) == EraseEntries(ys)
    ensures ToEntries(xs) == ToEntries(ys)
    decreases xs, 0
  {
    assert |xs| == |EraseEntries(xs)| == |ys|;
    if xs != [] {
      var n := |xs| - 1;
      LastEntry(xs);
      LastEntry(ys);
      SameEntries(xs[..n], ys[..n]);
      SameEntry(xs[n], ys[n]);
    }
  }

  /** What a deep copy leaves in the destination is a tree the source may be given again. */
  lemma {:induction false} CopyIsOk(v: Value, w: Value)
    requires ValueOk(v) && EraseValue(v) == EraseValue(w)
    ensures ValueOk(w)
    decreases v, 0
  {
    match (v, w) {
      case (ArrayVal(a), ArrayVal(b)) => if a.Array? { ItemsAreOk(a.elems, b.elems); }
      case (KvListVal(a), KvListVal(b)) => if a.KvList? { EntriesAreOk(a.list, b.list); }
      case _ =>
    }
  }

  lemma {:induction false} ItemIsOk(a: Attribute, b: Attribute)
    requires AttrOk(a) && Erase(a) == Erase(b)
    ensures AttrOk(b)
    decreases a, 1
  {
    CopyIsOk(a.value, b.value);
  }

  lemma {:induction false} EntryIsOk(a: Entry, b: Entry)
    requires EntryOk(a) && EraseEntry(a) == EraseEntry(b)
    ensures EntryOk(b)
    decreases a, 0
  {
    ItemIsOk(a.value, b.value);
  }

  lemma {:induction false} ItemsAreOk(xs: seq<Attribute>, ys: seq<Attribute>)
    requires ItemsOk(xs) && EraseItems(xs) == EraseItems(ys)
    ensures ItemsOk(ys)
    decreases xs, 0
  {
    assert |xs| == |EraseItems(xs)| == |ys|;
    if xs != [] {
      var n := |xs| - 1;
      LastItem(xs);
      LastItem(ys);
      ItemsAreOk(xs[..n], ys[..n]);
      ItemIsOk(xs[n], ys[n]);
    }
  }

  lemma {:induction false} EntriesAreOk(xs: seq<Entry>, ys: seq<Entry>)
    requires EntriesOk(xs) && EraseEntries(xs) == EraseEntries(ys)
    ensures EntriesOk(ys)
    decreases xs, 0
  {
    assert |xs| == |EraseEntries(xs)| == |ys|;
    if xs != [] {
      var n := |xs| - 1;
      LastEntry(xs);
      LastEntry(ys);
      EntriesAreOk(xs[..n], ys[..n]);
      EntryIsOk(xs[n], ys[n]);
    }
  }

  /** A deep copy has the bytes of its original on the wire. */
  lemma CopyEncodesAlike(src: Attribute, dst: Attribute)
    requires AttrOk(src) && Erase(dst) == Erase(src)
    ensures AttrOk(dst)
    ensures AV.EncodeAny(ToItem(dst)) == AV.EncodeAny(ToItem(src))
    ensures ToText(dst.key) == ToText(src.key)
  {
    ItemIsOk(src, dst);
    SameItem(dst, src);
    AttrParts(src);
    AttrParts(dst);
    SameText(dst.key, src.key);
  }
}
