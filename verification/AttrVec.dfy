/**
 The attribute vector of src/internal_util.c (otlp_attr_vec_*): an insertion-ordered map with
 last write wins, whose slots and payloads live on the heap.
 */
module AttrVecModel {
  import opened Common
  import opened AttrCopy
  import AnyValueModel
  import Utf8

  /** otlp_value_t: a scalar of the caller; Unknown stands for any other type tag. */
  datatype Scalar =
    | Str(s: Option<Bytes>)
    | Bool(b: bool)
    | Int(i: AnyValueModel.int64)
    | Double(bits: uint64)
    | Raw(data: Option<Bytes>, len: nat)
    | Unknown

  /** Strings are C strings; bytes are there when the pointer is not NULL. */
  predicate ScalarOk(v: Scalar) {
    (v.Str? && v.s.Some? ==> Utf8.CString(v.s.value) && |v.s.value| < SIZE_MAX) &&
    (v.Raw? ==> v.len <= SIZE_MAX && (v.data.Some? ==> |v.data.value| == v.len))
  }

  function OrEmpty(s: Option<Bytes>): Bytes { if s.Some? then s.value else [] }

  /** What an attribute holds, without addresses: the value that a reader sees. */
  function Stored(v: Scalar): Value
    requires !v.Unknown? && (v.Raw? && v.len > 0 ==> v.data.Some?)
  {
    match v
    case Str(s) => StringVal(Text(0, OrEmpty(s)))
    case Bool(b) => BoolVal(b)
    case Int(i) => IntVal(i)
    case Double(bits) => DoubleVal(bits)
    case Raw(data, len) => BytesVal(if len == 0 then NoText else Text(0, data.value), len)
  }

  predicate StringOk(s: Option<Bytes>) { s.Some? ==> Utf8.Valid(s.value) }

  // ---------------------------------------------------------------- the map

  /** An insertion-ordered map: the entries in the order in which their keys first came. */
  type View = seq<(Bytes, Value)>

  predicate HasKey(m: View, key: Bytes) { exists i :: 0 <= i < |m| && m[i].0 == key }

  predicate KeysDistinct(m: View) {
    forall i, j :: 0 <= i < j < |m| ==> m[i].0 != m[j].0
  }

  predicate KeysUtf8(m: View) { forall i :: 0 <= i < |m| ==> Utf8.Valid(m[i].0) }

  /** The position of a key, or |m|. */
  function Find(m: View, key: Bytes): (i: nat)
    ensures i <= |m| && (i < |m| ==> m[i].0 == key)
    ensures forall j :: 0 <= j < i ==> m[j].0 != key
  {
    FindFrom(m, key, 0)
  }

  function FindFrom(m: View, key: Bytes, from: nat): (i: nat)
    requires from <= |m|
    ensures from <= i <= |m| && (i < |m| ==> m[i].0 == key)
    ensures forall j :: from <= j < i ==> m[j].0 != key
    decreases |m| - from
  {
    if from == |m| || m[from].0 == key then from else FindFrom(m, key, from + 1)
  }

  /** Last write wins, at the position of the first. */
  function Upsert(m: View, key: Bytes, v: Value): View {
    var i := Find(m, key);
    if i < |m| then m[i := (key, v)] else m + [(key, v)]
  }

  /** What the map says of a key. */
  function Lookup(m: View, key: Bytes): Option<Value> {
    if Find(m, key) < |m| then Some(m[Find(m, key)].1) else None
  }

  /** A written key reads back; every other key, and every position, stays as it was. */
  lemma {:induction false} UpsertIsMapUpdate(m: View, key: Bytes, v: Value, other: Bytes)
    requires KeysDistinct(m)
    ensures var m' := Upsert(m, key, v);
      KeysDistinct(m') && Lookup(m', other) == (if other == key then Some(v) else Lookup(m, other)) &&
      (forall i :: 0 <= i < |m| ==> m'[i].0 == m[i].0) &&
      |m'| == if HasKey(m, key) then |m| else |m| + 1
  {
    var m' := Upsert(m, key, v);
    var i := Find(m', other);
    var j := Find(m, other);
    var k := Find(m, key);
    assert k < |m| ==> HasKey(m, key);
    if other == key {
      assert m'[k] == (key, v);
      assert i <= k;
    } else if j < |m| {
      assert m'[j] == m[j];
      assert i <= j;
    }
  }

  /** Writing a key twice is writing it once. */
  lemma {:induction false} UpsertTwice(m: View, key: Bytes, v: Value, w: Value)
    ensures Upsert(Upsert(m, key, v), key, w) == Upsert(m, key, w)
  {
    var m1 := Upsert(m, key, v);
    var k := Find(m, key);
    assert Find(m1, key) == k;
  }

  // ---------------------------------------------------------------- values of the caller

  predicate Storable(v: Scalar) { !v.Unknown? && (v.Raw? && v.len > 0 ==> v.data.Some?) }

  /** Does the value meet what the source checks before it stores it? */
  predicate Acceptable(v: Scalar) { Storable(v) && (v.Str? ==> StringOk(v.s)) }

  /** What the source finds wrong with a value; `missing` is its word for absent bytes. */
  function Fault(v: Scalar, missing: Status): (st: Status)
    requires missing != Ok
    ensures st == Ok <==> Acceptable(v)
  {
    if v.Unknown? then ErrInvalidArgument
    else if v.Str? && !StringOk(v.s) then ErrUtf8
    else if v.Raw? && v.len > 0 && v.data.None? then missing
    else Ok
  }

  /** A NULL string is stored as the empty one. */
  method CopyString(heap: Heap, s: Option<Bytes>) returns (st: Status, value: Value)
    requires heap.Valid()
    modifies heap
    ensures heap.Valid() && heap.live == old(heap.live) + ValueBlocks(value)
    ensures st == Ok ==> StringOk(s) && EraseValue(value) == Stored(Str(s))
    ensures st != Ok ==> heap.live == old(heap.live) && value == StringVal(NoText)
    ensures if StringOk(s) then st in {Ok, ErrNoMem} else st == ErrUtf8
  {
    if s.Some? && !Utf8.Valid(s.value) { return ErrUtf8, StringVal(NoText); }
    var t := heap.Dup(OrEmpty(s), |OrEmpty(s)| + 1);
    return if t.NoText? then ErrNoMem else Ok, StringVal(t);
  }

  method CopyBytes(heap: Heap, data: Option<Bytes>, len: nat, missing: Status)
    returns (st: Status, value: Value)
    requires heap.Valid() && missing in {ErrNull, ErrNoMem} && ScalarOk(Raw(data, len))
    modifies heap
    ensures heap.Valid() && heap.live == old(heap.live) + ValueBlocks(value)
    ensures st == Ok ==> (len > 0 ==> data.Some?) && EraseValue(value) == Stored(Raw(data, len))
    ensures st != Ok ==> heap.live == old(heap.live) && value == StringVal(NoText)
    ensures if len > 0 && data.None? then st == missing else st in {Ok, ErrNoMem}
  {
    if len == 0 { return Ok, BytesVal(NoText, 0); }
    if data.None? { return missing, StringVal(NoText); }
    var t := heap.Dup(data.value, len);
    if t.NoText? { return ErrNoMem, StringVal(NoText); }
    return Ok, BytesVal(t, len);
  }

  /** The payload is copied before the slot is taken. A payload that is missing is `missing`. */
  method CopyPayload(heap: Heap, v: Scalar, missing: Status) returns (st: Status, value: Value)
    requires heap.Valid() && ScalarOk(v) && missing in {ErrNull, ErrNoMem}
    modifies heap
    ensures heap.Valid() && heap.live == old(heap.live) + ValueBlocks(value)
    ensures st == Ok ==> Acceptable(v) && EraseValue(value) == Stored(v)
    ensures st != Ok ==> heap.live == old(heap.live) && value == StringVal(NoText)
    ensures st == Fault(v, missing) || (st == ErrNoMem && Acceptable(v))
  {
    hide StringOk;
    match v {
      case Str(s) => st, value := CopyString(heap, s);
      case Raw(data, len) => st, value := CopyBytes(heap, data, len, missing);
      case Bool(b) => return Ok, BoolVal(b);
      case Int(i) => return Ok, IntVal(i);
      case Double(bits) => return Ok, DoubleVal(bits);
      case Unknown => return ErrInvalidArgument, StringVal(NoText);
    }
  }

  // ---------------------------------------------------------------- array and kvlist builders

  predicate AllScalarOk(vs: seq<Scalar>) { forall i :: 0 <= i < |vs| ==> ScalarOk(vs[i]) }
  predicate AllAcceptable(vs: seq<Scalar>) { forall i :: 0 <= i < |vs| ==> Acceptable(vs[i]) }

  /** The fault of the first value that has one. */
  function FirstFault(vs: seq<Scalar>): (st: Status)
    ensures st == Ok <==> AllAcceptable(vs)
  {
    if vs == [] then Ok
    else
      var st := FirstFault(vs[..|vs| - 1]);
      if st != Ok then st else Fault(vs[|vs| - 1], ErrNoMem)
  }

  lemma {:induction false} FirstFaultAt(vs: seq<Scalar>, i: nat)
    requires i < |vs| && AllAcceptable(vs[..i]) && !Acceptable(vs[i])
    ensures FirstFault(vs) == Fault(vs[i], ErrNoMem)
  {
    hide Fault, Acceptable;
    var n := |vs| - 1;
    if i == n {
      assert FirstFault(vs[..n]) == Ok;
    } else {
      assert vs[..n][..i] == vs[..i];
      FirstFaultAt(vs[..n], i);
    }
  }

  function ArrayFault(vs: seq<Scalar>): (st: Status)
    ensures st == Ok <==> AllAcceptable(vs) && |vs| <= SIZE_MAX / SIZEOF_ATTRIBUTE
  {
    if |vs| > SIZE_MAX / SIZEOF_ATTRIBUTE then ErrInvalidArgument else FirstFault(vs)
  }

  function StoredItems(vs: seq<Scalar>): (r: seq<Attribute>)
    requires AllAcceptable(vs)
    ensures |r| == |vs|
  {
    if vs == [] then []
    else StoredItems(vs[..|vs| - 1]) + [Attribute(NoText, Stored(vs[|vs| - 1]))]
  }

  function StoredArray(vs: seq<Scalar>): Value
    requires AllAcceptable(vs)
  {
    ArrayVal(Array(0, None, StoredItems(vs)))
  }

  /** otlp_attr_array_build */
  method BuildArray(heap: Heap, vs: seq<Scalar>) returns (st: Status, arr: Array)
    requires heap.Valid() && AllScalarOk(vs) && |vs| <= SIZE_MAX
    modifies heap
    ensures heap.Valid() && heap.live == old(heap.live) + ArrayBlocks(arr)
    ensures st == Ok ==> AllAcceptable(vs) && EraseValue(ArrayVal(arr)) == StoredArray(vs)
    ensures st != Ok ==> arr == NoArray && heap.live == old(heap.live)
    ensures st in {ArrayFault(vs), ErrNoMem}
    ensures |vs| > SIZE_MAX / SIZEOF_ATTRIBUTE ==> st == ErrInvalidArgument
  {
    hide ItemBlocks, EraseItems, StoredItems, FirstFault;
    ghost var before := heap.live;
    if |vs| > SIZE_MAX / SIZEOF_ATTRIBUTE { return ErrInvalidArgument, NoArray; }
    var node := heap.Calloc(1, 16);
    if node.None? { return ErrNoMem, NoArray; }
    var items: Option<Ptr> := None;
    if |vs| > 0 {
      items := heap.Calloc(|vs|, SIZEOF_ATTRIBUTE);
      if items.None? {
        heap.Free(node.value, before);
        return ErrNoMem, NoArray;
      }
    }
    var elems;
    st, elems := FillItems(heap, vs);
    if st != Ok {
      heap.FreePtr(items, before + multiset{node.value});
      heap.Free(node.value, before);
      return st, NoArray;
    }
    arr := Array(node.value, items, elems);
  }

  method FillItems(heap: Heap, vs: seq<Scalar>) returns (st: Status, elems: seq<Attribute>)
    requires heap.Valid() && AllScalarOk(vs)
    modifies heap
    ensures heap.Valid()
    ensures st == Ok ==>
      heap.live == old(heap.live) + ItemBlocks(elems) &&
      AllAcceptable(vs) && EraseItems(elems) == StoredItems(vs)
    ensures st != Ok ==> heap.live == old(heap.live)
    ensures st in {FirstFault(vs), ErrNoMem}
  {
    hide ItemBlocks, EraseItems, StoredItems, Acceptable, ScalarOk, Blocks, Erase, Fault, FirstFault;
    elems := seq(|vs|, i => ZERO);
    var i := 0;
    NoItems(elems[..0]);
    assert vs[..0] == [];
    while i < |vs|
      invariant 0 <= i <= |vs| == |elems| && heap.Valid()
      invariant heap.live == old(heap.live) + ItemBlocks(elems[..i])
      invariant AllAcceptable(vs[..i]) && EraseItems(elems[..i]) == StoredItems(vs[..i])
    {
      ghost var done := elems[..i];
      var item;
      st, item := FillItem(heap, vs[i]);
      elems := elems[i := item];
      assert elems[..i] == done;
      NextItem(elems, i);
      if st != Ok {
        if !Acceptable(vs[i]) { FirstFaultAt(vs, i); }
        heap.FreeItemsDownFrom(elems, i, old(heap.live));
        return;
      }
      NextStored(vs, i);
      i := i + 1;
    }
    assert elems[..i] == elems && vs[..i] == vs;
    st := Ok;
  }

  /** value_fill */
  method FillItem(heap: Heap, v: Scalar) returns (st: Status, item: Attribute)
    requires heap.Valid() && ScalarOk(v)
    modifies heap
    ensures heap.Valid() && heap.live == old(heap.live) + Blocks(item)
    ensures st == Ok ==> Acceptable(v) && Erase(item) == Attribute(NoText, Stored(v))
    ensures st == Fault(v, ErrNoMem) || (st == ErrNoMem && Acceptable(v))
  {
    hide Stored, EraseValue, ValueBlocks;
    var value;
    st, value := CopyPayload(heap, v, ErrNoMem);
    item := Attribute(NoText, value);
  }

  lemma NoItems(xs: seq<Attribute>)
    requires xs == []
    ensures ItemBlocks(xs) == multiset{} && EraseItems(xs) == [] == StoredItems([])
  {
  }

  lemma NextStored(vs: seq<Scalar>, i: nat)
    requires i < |vs| && AllAcceptable(vs[..i]) && Acceptable(vs[i])
    ensures AllAcceptable(vs[..i + 1])
    ensures StoredItems(vs[..i + 1]) == StoredItems(vs[..i]) + [Attribute(NoText, Stored(vs[i]))]
  {
    hide Acceptable, Stored;
    assert vs[..i + 1][..i] == vs[..i] && vs[..i + 1] == vs[..i] + [vs[i]];
  }

  /** otlp_kv_t */
  datatype Pair = Pair(key: Option<Bytes>, value: Scalar)

  predicate PairOk(kv: Pair) {
    ScalarOk(kv.value) && (kv.key.Some? ==> Utf8.CString(kv.key.value) && |kv.key.value| < SIZE_MAX)
  }

  predicate PairAcceptable(kv: Pair) {
    kv.key.Some? && Utf8.Valid(kv.key.value) && Acceptable(kv.value)
  }

  predicate AllPairOk(kvs: seq<Pair>) { forall i :: 0 <= i < |kvs| ==> PairOk(kvs[i]) }

  predicate AllPairAcceptable(kvs: seq<Pair>) {
    forall i :: 0 <= i < |kvs| ==> PairAcceptable(kvs[i])
  }

  function PairFault(kv: Pair): (st: Status)
    ensures st == Ok <==> PairAcceptable(kv)
  {
    if kv.key.None? then ErrNull
    else if !Utf8.Valid(kv.key.value) then ErrUtf8
    else Fault(kv.value, ErrNoMem)
  }

  function FirstPairFault(kvs: seq<Pair>): (st: Status)
    ensures st == Ok <==> AllPairAcceptable(kvs)
  {
    if kvs == [] then Ok
    else
      var st := FirstPairFault(kvs[..|kvs| - 1]);
      if st != Ok then st else PairFault(kvs[|kvs| - 1])
  }

  lemma {:induction false} FirstPairFaultAt(kvs: seq<Pair>, i: nat)
    requires i < |kvs| && AllPairAcceptable(kvs[..i]) && !PairAcceptable(kvs[i])
    ensures FirstPairFault(kvs) == PairFault(kvs[i])
  {
    hide PairFault, PairAcceptable;
    var n := |kvs| - 1;
    if i == n {
      assert FirstPairFault(kvs[..n]) == Ok;
    } else {
      assert kvs[..n][..i] == kvs[..i];
      FirstPairFaultAt(kvs[..n], i);
    }
  }

  function KvListFault(kvs: seq<Pair>): (st: Status)
    ensures st == Ok <==> AllPairAcceptable(kvs) && |kvs| <= SIZE_MAX / SIZEOF_ENTRY
  {
    if |kvs| > SIZE_MAX / SIZEOF_ENTRY then ErrInvalidArgument else FirstPairFault(kvs)
  }

  function StoredEntry(kv: Pair): Entry
    requires PairAcceptable(kv)
  {
    Entry(Text(0, kv.key.value), Attribute(NoText, Stored(kv.value)))
  }

  function StoredEntries(kvs: seq<Pair>): (r: seq<Entry>)
    requires AllPairAcceptable(kvs)
    ensures |r| == |kvs|
  {
    if kvs == [] then [] else StoredEntries(kvs[..|kvs| - 1]) + [StoredEntry(kvs[|kvs| - 1])]
  }

  function StoredKvList(kvs: seq<Pair>): Value
    requires AllPairAcceptable(kvs)
  {
    KvListVal(KvList(0, None, StoredEntries(kvs)))
  }

  /** One entry: the key is checked, the value is filled, then the key is copied. */
  method FillEntry(heap: Heap, kv: Pair) returns (st: Status, e: Entry)
    requires heap.Valid() && PairOk(kv)
    modifies heap
    ensures heap.Valid() && heap.live == old(heap.live) + EntryBlock(e)
    ensures st == Ok ==> PairAcceptable(kv) && EraseEntry(e) == StoredEntry(kv)
    ensures st == PairFault(kv) || (st == ErrNoMem && PairAcceptable(kv))
  {
    hide Stored, EraseValue, ValueBlocks;
    ZeroEntryOwnsNothing();
    e := ZERO_ENTRY;
    if kv.key.None? { return ErrNull, e; }
    if !Utf8.Valid(kv.key.value) { return ErrUtf8, e; }
    var value;
    st, value := CopyPayload(heap, kv.value, ErrNoMem);
    e := Entry(NoText, Attribute(NoText, value));
    if st != Ok { return; }
    var key := heap.Dup(kv.key.value, |kv.key.value| + 1);
    e := e.(key := key);
    st := if key.NoText? then ErrNoMem else Ok;
  }

  lemma ZeroEntryOwnsNothing()
    ensures EntryBlock(ZERO_ENTRY) == multiset{}
  {
  }

  method FillEntries(heap: Heap, kvs: seq<Pair>) returns (st: Status, list: seq<Entry>)
    requires heap.Valid() && AllPairOk(kvs)
    modifies heap
    ensures heap.Valid()
    ensures st == Ok ==>
      heap.live == old(heap.live) + EntryBlocks(list) &&
      AllPairAcceptable(kvs) && EraseEntries(list) == StoredEntries(kvs)
    ensures st != Ok ==> heap.live == old(heap.live)
    ensures st in {FirstPairFault(kvs), ErrNoMem}
  {
    hide EntryBlock, EraseEntry, StoredEntry, PairAcceptable, PairOk, EntryBlocks, EraseEntries,
      StoredEntries, PairFault, FirstPairFault;
    list := seq(|kvs|, i => ZERO_ENTRY);
    var i := 0;
    NoEntries(list[..0]);
    assert kvs[..0] == [];
    while i < |kvs|
      invariant 0 <= i <= |kvs| == |list| && heap.Valid()
      invariant heap.live == old(heap.live) + EntryBlocks(list[..i])
      invariant AllPairAcceptable(kvs[..i]) && EraseEntries(list[..i]) == StoredEntries(kvs[..i])
    {
      var e;
      ghost var done := list[..i];
      st, e := FillEntry(heap, kvs[i]);
      list := list[i := e];
      assert list[..i] == done;
      NextEntry(list, i);
      if st != Ok {
        if !PairAcceptable(kvs[i]) { FirstPairFaultAt(kvs, i); }
        heap.FreeEntriesDownFrom(list, i, old(heap.live));
        return;
      }
      NextStoredEntry(kvs, i);
      i := i + 1;
    }
    assert list[..i] == list && kvs[..i] == kvs;
    st := Ok;
  }

  lemma NoEntries(es: seq<Entry>)
    requires es == []
    ensures EntryBlocks(es) == multiset{} && EraseEntries(es) == [] == StoredEntries([])
  {
  }

  lemma NextStoredEntry(kvs: seq<Pair>, i: nat)
    requires i < |kvs| && AllPairAcceptable(kvs[..i]) && PairAcceptable(kvs[i])
    ensures AllPairAcceptable(kvs[..i + 1])
    ensures StoredEntries(kvs[..i + 1]) == StoredEntries(kvs[..i]) + [StoredEntry(kvs[i])]
  {
    hide PairAcceptable, StoredEntry;
    assert kvs[..i + 1][..i] == kvs[..i] && kvs[..i + 1] == kvs[..i] + [kvs[i]];
  }

  /** otlp_attr_kvlist_build */
  method BuildKvList(heap: Heap, kvs: seq<Pair>) returns (st: Status, kvl: KvList)
    requires heap.Valid() && AllPairOk(kvs) && |kvs| <= SIZE_MAX
    modifies heap
    ensures heap.Valid() && heap.live == old(heap.live) + KvListBlocks(kvl)
    ensures st == Ok ==> AllPairAcceptable(kvs) && EraseValue(KvListVal(kvl)) == StoredKvList(kvs)
    ensures st != Ok ==> kvl == NoKvList && heap.live == old(heap.live)
    ensures st in {KvListFault(kvs), ErrNoMem}
    ensures |kvs| > SIZE_MAX / SIZEOF_ENTRY ==> st == ErrInvalidArgument
  {
    hide EntryBlocks, EraseEntries, StoredEntries, FirstPairFault;
    ghost var before := heap.live;
    if |kvs| > SIZE_MAX / SIZEOF_ENTRY { return ErrInvalidArgument, NoKvList; }
    var node := heap.Calloc(1, 16);
    if node.None? { return ErrNoMem, NoKvList; }
    var entries: Option<Ptr> := None;
    if |kvs| > 0 {
      entries := heap.Calloc(|kvs|, SIZEOF_ENTRY);
      if entries.None? {
        heap.Free(node.value, before);
        return ErrNoMem, NoKvList;
      }
    }
    var list;
    st, list := FillEntries(heap, kvs);
    if st != Ok {
      heap.FreePtr(entries, before + multiset{node.value});
      heap.Free(node.value, before);
      return st, NoKvList;
    }
    kvl := KvList(node.value, entries, list);
  }

  // ---------------------------------------------------------------- sequences of sets

  /** A call of one of the three setters. */
  datatype SetOp =
    | SetScalar(key: Bytes, v: Scalar)
    | SetItems(key: Bytes, vs: seq<Scalar>)
    | SetEntries(key: Bytes, kvs: seq<Pair>)

  /** What is wrong with the payload, which is built before the slot is taken. */
  function PayloadFault(op: SetOp): Status {
    match op
    case SetScalar(_, v) => Fault(v, ErrNull)
    case SetItems(_, vs) => ArrayFault(vs)
    case SetEntries(_, kvs) => KvListFault(kvs)
  }

  function Payload(op: SetOp): Value
    requires PayloadFault(op) == Ok
  {
    match op
    case SetScalar(_, v) => Stored(v)
    case SetItems(_, vs) => StoredArray(vs)
    case SetEntries(_, kvs) => StoredKvList(kvs)
  }

  /** Why a key gets no slot: the map is full, or the key is not UTF-8; a known key has its slot. */
  function SlotFault(m: View, max: nat, key: Bytes): Status {
    if HasKey(m, key) then Ok
    else if |m| >= max then ErrOverflow
    else if !Utf8.Valid(key) then ErrUtf8
    else Ok
  }

  /** The answer of a setter to which the allocator refuses nothing. */
  function Answer(m: View, max: nat, op: SetOp): Status {
    if PayloadFault(op) != Ok then PayloadFault(op) else SlotFault(m, max, op.key)
  }

  /** The map after a set that answered `st`. */
  function Applied(m: View, op: SetOp, st: Status): View
    requires st == Ok ==> PayloadFault(op) == Ok
  {
    if st == Ok then Upsert(m, op.key, Payload(op)) else m
  }

  /** Answers that a sequence of sets can have: the right one, or out of memory. */
  predicate Answers(m: View, max: nat, ops: seq<SetOp>, sts: seq<Status>)
    decreases |ops|, 0
  {
    |ops| == |sts| &&
    (ops == [] ||
      var n := |ops| - 1;
      Answers(m, max, ops[..n], sts[..n]) &&
      sts[n] in {Answer(Replay(m, max, ops[..n], sts[..n]), max, ops[n]), ErrNoMem})
  }

  function Replay(m: View, max: nat, ops: seq<SetOp>, sts: seq<Status>): View
    requires Answers(m, max, ops, sts)
    decreases |ops|, 1
  {
    if ops == [] then m
    else
      var n := |ops| - 1;
      Applied(Replay(m, max, ops[..n], sts[..n]), ops[n], sts[n])
  }

  /** The last set of a key that succeeded, or -1. */
  function LastSet(ops: seq<SetOp>, sts: seq<Status>, key: Bytes): (i: int)
    requires |ops| == |sts|
    ensures -1 <= i < |ops| && (i >= 0 ==> sts[i] == Ok && ops[i].key == key)
    ensures forall j :: i < j < |ops| && ops[j].key == key ==> sts[j] != Ok
  {
    if ops == [] then -1
    else
      var n := |ops| - 1;
      if sts[n] == Ok && ops[n].key == key then n else LastSet(ops[..n], sts[..n], key)
  }

  /**
   Any sequence of sets leaves a map within its bounds in which each key has the value of the last
   set of it that succeeded, or the one it had, and every key keeps its position.
   */
  lemma {:induction false} ReplayIsLastWrite(m: View, max: nat, ops: seq<SetOp>, sts: seq<Status>,
      key: Bytes)
    requires KeysDistinct(m) && |m| <= max && Answers(m, max, ops, sts)
    ensures var m' := Replay(m, max, ops, sts);
      KeysDistinct(m') && |m| <= |m'| <= max &&
      (forall i :: 0 <= i < |m| ==> m'[i].0 == m[i].0)
    ensures var i := LastSet(ops, sts, key);
      if i < 0 then Lookup(Replay(m, max, ops, sts), key) == Lookup(m, key)
      else (
        PayloadFault(ops[i]) == Ok &&
        Lookup(Replay(m, max, ops, sts), key) == Some(Payload(ops[i])))
    decreases |ops|
  {
    hide PayloadFault, Payload, Upsert, Lookup, KeysDistinct, Find;
    if ops != [] {
      var n := |ops| - 1;
      ReplayIsLastWrite(m, max, ops[..n], sts[..n], key);
      if sts[n] == Ok {
        UpsertIsMapUpdate(Replay(m, max, ops[..n], sts[..n]), ops[n].key, Payload(ops[n]), key);
      }
    }
  }

  /** A key once there is never refused for want of room. */
  lemma {:induction false} KnownKeyKeepsItsSlot(m: View, max: nat, ops: seq<SetOp>,
      sts: seq<Status>, i: nat)
    requires KeysDistinct(m) && |m| <= max && Answers(m, max, ops, sts)
    requires i < |ops| && PayloadFault(ops[i]) == Ok
    requires HasKey(m, ops[i].key) || LastSet(ops[..i], sts[..i], ops[i].key) >= 0
    ensures sts[i] in {Ok, ErrNoMem}
    decreases |ops|
  {
    hide PayloadFault, Payload, Upsert, KeysDistinct, Lookup;
    var n := |ops| - 1;
    if i < n {
      assert ops[..n][..i] == ops[..i] && sts[..n][..i] == sts[..i];
      KnownKeyKeepsItsSlot(m, max, ops[..n], sts[..n], i);
    } else {
      var key := ops[i].key;
      var m' := Replay(m, max, ops[..n], sts[..n]);
      ReplayIsLastWrite(m, max, ops[..n], sts[..n], key);
      LookupHasKey(m, key);
      LookupHasKey(m', key);
    }
  }

  lemma LookupHasKey(m: View, key: Bytes)
    ensures Lookup(m, key).Some? <==> HasKey(m, key)
  {
    if Find(m, key) < |m| { assert m[Find(m, key)].0 == key; }
  }

  // ---------------------------------------------------------------- the vector

  predicate KeysPresent(xs: seq<Attribute>) { forall i :: 0 <= i < |xs| ==> xs[i].key.Text? }

  function ViewOf(xs: seq<Attribute>): (m: View)
    requires KeysPresent(xs)
    ensures |m| == |xs|
  {
    seq(|xs|, i requires 0 <= i < |xs| => (xs[i].key.bytes, EraseValue(xs[i].value)))
  }

  /** Replacing an item replaces its blocks. */
  lemma {:induction false} ItemReplaced(xs: seq<Attribute>, k: nat, a: Attribute)
    requires k < |xs|
    ensures ItemBlocks(xs[k := a]) + Blocks(xs[k]) == ItemBlocks(xs) + Blocks(a)
  {
    hide Blocks;
    var ys := xs[k := a];
    var n := |xs| - 1;
    if k == n {
      assert ys[..n] == xs[..n];
    } else {
      assert ys[..n] == xs[..n][k := a];
      ItemReplaced(xs[..n], k, a);
      var b := Blocks(xs[k]);
      assert ItemBlocks(ys) + b == ItemBlocks(ys[..n]) + b + Blocks(xs[n]);
      assert ItemBlocks(xs) + Blocks(a) == ItemBlocks(xs[..n]) + Blocks(a) + Blocks(xs[n]);
    }
  }

  lemma ItemAppended(xs: seq<Attribute>, a: Attribute)
    ensures ItemBlocks(xs + [a]) == ItemBlocks(xs) + Blocks(a)
  {
    assert (xs + [a])[..|xs|] == xs;
  }

  lemma ValueReplaced(xs: seq<Attribute>, k: nat, v: Value)
    requires k < |xs|
    ensures ItemBlocks(xs[k := xs[k].(value := v)]) + ValueBlocks(xs[k].value)
      == ItemBlocks(xs) + ValueBlocks(v)
  {
    hide ValueBlocks, ItemBlocks;
    ItemReplaced(xs, k, xs[k].(value := v));
    var others := TextBlocks(xs[k].key);
    CancelBlocks(ItemBlocks(xs[k := xs[k].(value := v)]), ValueBlocks(xs[k].value),
                 ItemBlocks(xs), ValueBlocks(v), others);
  }

  lemma CancelBlocks(a: multiset<Ptr>, b: multiset<Ptr>, c: multiset<Ptr>, d: multiset<Ptr>,
      e: multiset<Ptr>)
    requires a + (e + b) == c + (e + d)
    ensures a + b == c + d
  {
    forall p ensures (a + b)[p] == (c + d)[p] {
      assert (a + (e + b))[p] == (c + (e + d))[p];
    }
  }

  lemma EmptyText()
    ensures EraseValue(StringVal(NoText)) == StringVal(NoText)
    ensures ValueBlocks(StringVal(NoText)) == multiset{}
  {
  }

  lemma ViewAppended(xs: seq<Attribute>, a: Attribute)
    requires KeysPresent(xs) && a.key.Text?
    ensures KeysPresent(xs + [a])
    ensures ViewOf(xs + [a]) == ViewOf(xs) + [(a.key.bytes, EraseValue(a.value))]
  {
    hide EraseValue;
  }

  /** What an upsert does with the slot of the key. */
  lemma SlotOfKey(m: View, key: Bytes)
    requires KeysDistinct(m) && KeysUtf8(m)
    ensures HasKey(m, key) <==> Find(m, key) < |m|
    ensures Find(m, key) < |m| ==>
      forall v :: Upsert(m, key, v) == m[Find(m, key) := (key, v)]
    ensures Find(m, key) == |m| ==> forall v :: Upsert(m, key, v) == m + [(key, v)]
    ensures Find(m, key) < |m| ==> Utf8.Valid(key)
    ensures forall v :: KeysDistinct(Upsert(m, key, v))
    ensures forall v :: Utf8.Valid(key) ==> KeysUtf8(Upsert(m, key, v))
  {
    forall v ensures KeysDistinct(Upsert(m, key, v)) {
      UpsertIsMapUpdate(m, key, v, key);
    }
  }

  class AttrVec {
    const heap: Heap
    /** The block of the slots; `items` are the slots in use. */
    var block: Option<Ptr>
    var items: seq<Attribute>
    var cap: nat

    ghost predicate Valid(max: nat)
      reads this, heap
    {
      heap.Valid() && KeysPresent(items) && |items| <= cap <= max &&
      KeysDistinct(ViewOf(items)) && KeysUtf8(ViewOf(items))
    }

    /** The blocks of the vector. */
    ghost function Owned(): multiset<Ptr>
      reads this
    {
      PtrBlocks(block) + ItemBlocks(items)
    }

    constructor (heap: Heap)
      requires heap.Valid()
      ensures forall max :: Valid(max)
      ensures this.heap == heap && items == [] && Owned() == multiset{}
    {
      this.heap := heap;
      block, items, cap := None, [], 0;
    }

    /** otlp_attr_list_find */
    method FindKey(key: Bytes) returns (i: nat)
      requires KeysPresent(items)
      ensures i == Find(ViewOf(items), key)
    {
      i := 0;
      while i < |items| && items[i].key.bytes != key
        invariant i <= |items| && Find(ViewOf(items), key) == FindFrom(ViewOf(items), key, i)
      {
        i := i + 1;
      }
    }

    /** The slots grow: 4 at first, then doubled, never beyond `max`. */
    method Grow(max: nat, ghost rest: multiset<Ptr>) returns (grown: bool)
      requires heap.Valid() && heap.live == rest + Owned() && |items| <= cap < max
      modifies this, heap
      ensures heap.Valid() && heap.live == rest + Owned() && items == old(items)
      ensures cap == if grown then Min(if old(cap) > 0 then 2 * old(cap) else 4, max) else old(cap)
    {
      hide ItemBlocks;
      var newCap := if cap > 0 then cap * 2 else if 4 < max then 4 else max;
      if newCap > max { newCap := max; }
      var p := heap.Realloc(block, newCap * SIZEOF_ATTRIBUTE, rest + ItemBlocks(items));
      if p.None? { return false; }
      block, cap := p, newCap;
      return true;
    }

    /** otlp_attr_vec_reserve: the slot of the key, emptied, or a new one at the end. */
    method Reserve(max: nat, key: Bytes, ghost rest: multiset<Ptr>) returns (st: Status, at: nat)
      requires Valid(max) && heap.live == rest + Owned() && |key| < SIZE_MAX
      modifies this, heap
      ensures Valid(max) && heap.live == rest + Owned()
      ensures st == Ok ==>
        at < |items| && at == Find(old(ViewOf(items)), key) &&
        items[at].value == StringVal(NoText) && Utf8.Valid(key) &&
        ViewOf(items) == Upsert(old(ViewOf(items)), key, StringVal(NoText))
      ensures st != Ok ==> items == old(items)
      ensures HasKey(old(ViewOf(items)), key) ==> st == Ok
      ensures st == ErrOverflow <==> !HasKey(old(ViewOf(items)), key) && old(|items|) >= max
      ensures st in {SlotFault(old(ViewOf(items)), max, key), ErrNoMem}
    {
      hide ItemBlocks, EraseValue, Upsert, Find, KeysDistinct, KeysUtf8;
      ghost var m := ViewOf(items);
      at := FindKey(key);
      SlotOfKey(m, key);
      if at < |items| {
        ClearSlot(at, rest);
        EmptyText();
        assert ViewOf(items) == m[at := (key, StringVal(NoText))];
        return Ok, at;
      }
      if |items| >= max { return ErrOverflow, 0; }
      st := NewSlot(max, key, rest);
      at := if st == Ok then |items| - 1 else 0;
    }

    /** A slot for a new key; the slots have grown before the key is checked. */
    method NewSlot(max: nat, key: Bytes, ghost rest: multiset<Ptr>) returns (st: Status)
      requires heap.Valid() && KeysPresent(items) && |items| <= cap <= max && |items| < max
      requires heap.live == rest + Owned() && |key| < SIZE_MAX
      modifies this, heap
      ensures heap.Valid() && KeysPresent(items) && |items| <= cap <= max
      ensures heap.live == rest + Owned()
      ensures if st == Ok then
          |items| == old(|items|) + 1 && items[old(|items|)].value == StringVal(NoText) &&
          Utf8.Valid(key) && ViewOf(items) == old(ViewOf(items)) + [(key, StringVal(NoText))]
        else items == old(items)
      ensures st == ErrNoMem || st == if Utf8.Valid(key) then Ok else ErrUtf8
    {
      hide ItemBlocks, EraseValue, ViewOf, KeysPresent, Utf8.Valid;
      ghost var xs := items;
      if |items| == cap {
        var grown := Grow(max, rest);
        if !grown { return ErrNoMem; }
      }
      if !Utf8.Valid(key) { return ErrUtf8; }
      var kc := heap.Dup(key, |key| + 1);
      if kc.NoText? { return ErrNoMem; }
      AppendSlot(kc, rest);
      EmptyText();
      ViewAppended(xs, Attribute(kc, StringVal(NoText)));
      return Ok;
    }

    method ClearSlot(at: nat, ghost rest: multiset<Ptr>)
      requires heap.Valid() && heap.live == rest + Owned() && at < |items|
      modifies this, heap
      ensures heap.Valid() && heap.live == rest + Owned()
      ensures block == old(block) && cap == old(cap)
      ensures items == old(items)[at := old(items)[at].(value := StringVal(NoText))]
    {
      hide ItemBlocks;
      ghost var cleared := items[at := items[at].(value := StringVal(NoText))];
      ValueReplaced(items, at, StringVal(NoText));
      ghost var kept := rest + PtrBlocks(block) + ItemBlocks(cleared);
      EmptyText();
      assert ItemBlocks(items) == ItemBlocks(cleared) + ValueBlocks(items[at].value);
      assert rest + Owned() == kept + ValueBlocks(items[at].value);
      var empty := heap.ReleaseValue(items[at].value, kept);
      items := items[at := items[at].(value := empty)];
    }

    method AppendSlot(key: Text, ghost rest: multiset<Ptr>)
      requires heap.Valid() && heap.live == rest + Owned() + TextBlocks(key)
      modifies this
      ensures heap.Valid() && heap.live == rest + Owned()
      ensures block == old(block) && cap == old(cap)
      ensures items == old(items) + [Attribute(key, StringVal(NoText))]
    {
      hide ItemBlocks;
      ItemAppended(items, Attribute(key, StringVal(NoText)));
      items := items + [Attribute(key, StringVal(NoText))];
    }

    /** The slot that was reserved takes the value; this cannot fail. */
    method FillSlot(at: nat, value: Value, ghost rest: multiset<Ptr>)
      requires heap.Valid() && at < |items| && items[at].value == StringVal(NoText)
      requires heap.live == rest + Owned() + ValueBlocks(value)
      modifies this
      ensures heap.Valid() && heap.live == rest + Owned()
      ensures block == old(block) && cap == old(cap)
      ensures items == old(items)[at := old(items)[at].(value := value)]
    {
      hide ItemBlocks;
      ValueReplaced(items, at, value);
      var filled := items[at := items[at].(value := value)];
      EmptyText();
      assert ItemBlocks(filled) == ItemBlocks(items) + ValueBlocks(value);
      assert rest + Owned() + ValueBlocks(value) == rest + (PtrBlocks(block) + ItemBlocks(filled));
      items := filled;
    }

    /**
     What the three setters share, once the value is built: the slot, then the value; when there
     is no slot the value is freed.
     */
    method Store(max: nat, key: Bytes, value: Value, ghost rest: multiset<Ptr>) returns (st: Status)
      requires Valid(max) && heap.live == rest + Owned() + ValueBlocks(value) && |key| < SIZE_MAX
      modifies this, heap
      ensures Valid(max) && heap.live == rest + Owned()
      ensures st == Ok ==>
        Utf8.Valid(key) &&
        ViewOf(items) == Upsert(old(ViewOf(items)), key, EraseValue(value))
      ensures st != Ok ==> items == old(items)
      ensures HasKey(old(ViewOf(items)), key) ==> st == Ok
      ensures st == ErrOverflow <==> !HasKey(old(ViewOf(items)), key) && old(|items|) >= max
      ensures st in {SlotFault(old(ViewOf(items)), max, key), ErrNoMem}
    {
      hide ItemBlocks, ValueBlocks, EraseValue, Upsert, Find, HasKey, KeysDistinct, KeysUtf8, ViewOf;
      ghost var m := ViewOf(items);
      var at;
      st, at := Reserve(max, key, rest + ValueBlocks(value));
      if st != Ok {
        var empty := heap.ReleaseValue(value, rest + Owned());
        return;
      }
      ghost var xs := items;
      FillSlot(at, value, rest);
      SlotFilled(m, key, xs, at, value);
    }

    /** The view after the slot of the key has taken the value. */
    static lemma SlotFilled(m: View, key: Bytes, xs: seq<Attribute>, at: nat, value: Value)
      requires at < |xs| && KeysPresent(xs) && at == Find(m, key) && Utf8.Valid(key)
      requires KeysDistinct(m) && KeysUtf8(ViewOf(xs))
      requires ViewOf(xs) == Upsert(m, key, StringVal(NoText))
      ensures var ys := xs[at := xs[at].(value := value)];
        KeysPresent(ys) && ViewOf(ys) == Upsert(m, key, EraseValue(value)) &&
        KeysDistinct(ViewOf(ys)) && KeysUtf8(ViewOf(ys))
    {
      hide EraseValue, KeysDistinct;
      var m1 := ViewOf(xs);
      UpsertTwice(m, key, StringVal(NoText), EraseValue(value));
      UpsertIsMapUpdate(m, key, EraseValue(value), key);
      assert m1[at].0 == key;
      assert ViewOf(xs[at := xs[at].(value := value)]) == m1[at := (key, EraseValue(value))];
    }

    /** otlp_attr_vec_set */
    method Set(max: nat, key: Bytes, v: Scalar, ghost rest: multiset<Ptr>) returns (st: Status)
      requires Valid(max) && heap.live == rest + Owned() && |key| < SIZE_MAX && ScalarOk(v)
      modifies this, heap
      ensures Valid(max) && heap.live == rest + Owned()
      ensures var op := SetScalar(key, v);
        st in {Answer(old(ViewOf(items)), max, op), ErrNoMem} &&
        (Fault(v, ErrNull) != Ok ==> st == Fault(v, ErrNull)) &&
        ViewOf(items) == Applied(old(ViewOf(items)), op, st)
      ensures st != Ok ==> items == old(items)
    {
      hide ItemBlocks, ValueBlocks, EraseValue, Stored, Upsert, HasKey;
      ghost var owned := Owned();
      var value;
      st, value := CopyPayload(heap, v, ErrNull);
      if st != Ok { return; }
      st := Store(max, key, value, rest);
    }

    /** otlp_attr_vec_set_array */
    method SetArray(max: nat, key: Bytes, vs: seq<Scalar>, ghost rest: multiset<Ptr>)
      returns (st: Status)
      requires Valid(max) && heap.live == rest + Owned() && |key| < SIZE_MAX
      requires AllScalarOk(vs) && |vs| <= SIZE_MAX
      modifies this, heap
      ensures Valid(max) && heap.live == rest + Owned()
      ensures var op := SetItems(key, vs);
        st in {Answer(old(ViewOf(items)), max, op), ErrNoMem} &&
        ViewOf(items) == Applied(old(ViewOf(items)), op, st)
      ensures st != Ok ==> items == old(items)
    {
      hide ItemBlocks, ArrayBlocks, EraseItems, StoredArray, FirstFault, Upsert, HasKey;
      var arr;
      st, arr := BuildArray(heap, vs);
      if st != Ok { return; }
      st := Store(max, key, ArrayVal(arr), rest);
    }

    /** otlp_attr_vec_set_kvlist */
    method SetKvList(max: nat, key: Bytes, kvs: seq<Pair>, ghost rest: multiset<Ptr>)
      returns (st: Status)
      requires Valid(max) && heap.live == rest + Owned() && |key| < SIZE_MAX
      requires AllPairOk(kvs) && |kvs| <= SIZE_MAX
      modifies this, heap
      ensures Valid(max) && heap.live == rest + Owned()
      ensures var op := SetEntries(key, kvs);
        st in {Answer(old(ViewOf(items)), max, op), ErrNoMem} &&
        ViewOf(items) == Applied(old(ViewOf(items)), op, st)
      ensures st != Ok ==> items == old(items)
    {
      hide ItemBlocks, KvListBlocks, EraseEntries, StoredKvList, FirstPairFault, Upsert, HasKey;
      var kvl;
      st, kvl := BuildKvList(heap, kvs);
      if st != Ok { return; }
      st := Store(max, key, KvListVal(kvl), rest);
    }

    /** otlp_attr_vec_free */
    method FreeAll(ghost rest: multiset<Ptr>)
      requires heap.Valid() && heap.live == rest + Owned()
      modifies this, heap
      ensures heap.Valid() && heap.live == rest && items == [] && Owned() == multiset{}
    {
      hide Blocks;
      heap.FreeItems(items, rest + PtrBlocks(block));
      heap.FreePtr(block, rest);
      block, items, cap := None, [], 0;
    }
  }
}
