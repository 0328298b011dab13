/**
 Attribute trees and their deep copy (src/internal_util.c). An attribute owns the blocks its
 pointers name. The heap keeps the blocks that are live; an allocation may fail at any point,
 and only a live block may be freed.
 */
module AttrCopy {
  import opened Common
  import AnyValueModel

  /** The address of a block. */
  type Ptr = nat

  /** A `char *` or a `uint8_t *`: NULL, or a block with its contents. */
  datatype Text = NoText | Text(block: Ptr, bytes: Bytes)

  /** struct otlp_attribute */
  datatype Attribute = Attribute(key: Text, value: Value)

  datatype Value =
    | StringVal(s: Text)
    | BoolVal(b: bool)
    | IntVal(i: AnyValueModel.int64)
    | DoubleVal(bits: uint64)
    | BytesVal(data: Text, len: nat)
    | ArrayVal(arr: Array)
    | KvListVal(kvl: KvList)

  /** struct otlp_attr_array *: NULL, or its block and that of its items. */
  datatype Array = NoArray | Array(node: Ptr, items: Option<Ptr>, elems: seq<Attribute>)

  /** struct otlp_attr_kvlist * */
  datatype KvList = NoKvList | KvList(node: Ptr, entries: Option<Ptr>, list: seq<Entry>)

  datatype Entry = Entry(key: Text, value: Attribute)

  /** What calloc leaves in an item. */
  const ZERO := Attribute(NoText, StringVal(NoText))
  const ZERO_ENTRY := Entry(NoText, ZERO)

  const SIZEOF_ATTRIBUTE: nat := 32
  const SIZEOF_ENTRY: nat := 40

  // ---------------------------------------------------------------- ownership

  function TextBlocks(t: Text): multiset<Ptr> {
    if t.NoText? then multiset{} else multiset{t.block}
  }

  function PtrBlocks(p: Option<Ptr>): multiset<Ptr> {
    if p.None? then multiset{} else multiset{p.value}
  }

  /** The blocks that an attribute owns, each as often as it is named. */
  function Blocks(a: Attribute): multiset<Ptr>
    decreases a, 1
  {
    TextBlocks(a.key) + ValueBlocks(a.value)
  }

  function ValueBlocks(v: Value): multiset<Ptr>
    decreases v, 0
  {
    match v
    case StringVal(s) => TextBlocks(s)
    case BytesVal(data, _) => TextBlocks(data)
    case ArrayVal(arr) => ArrayBlocks(arr)
    case KvListVal(kvl) => KvListBlocks(kvl)
    case _ => multiset{}
  }

  function ArrayBlocks(arr: Array): multiset<Ptr>
    decreases arr, 0
  {
    if arr.NoArray? then multiset{}
    else multiset{arr.node} + PtrBlocks(arr.items) + ItemBlocks(arr.elems)
  }

  function KvListBlocks(kvl: KvList): multiset<Ptr>
    decreases kvl, 0
  {
    if kvl.NoKvList? then multiset{}
    else multiset{kvl.node} + PtrBlocks(kvl.entries) + EntryBlocks(kvl.list)
  }

  function ItemBlocks(xs: seq<Attribute>): multiset<Ptr>
    decreases xs, 0
  {
    if xs == [] then multiset{}
    else ItemBlocks(xs[..|xs| - 1]) + Blocks(xs[|xs| - 1])
  }

  function EntryBlock(e: Entry): multiset<Ptr>
    decreases e, 0
  {
    TextBlocks(e.key) + Blocks(e.value)
  }

  function EntryBlocks(es: seq<Entry>): multiset<Ptr>
    decreases es, 0
  {
    if es == [] then multiset{}
    else EntryBlocks(es[..|es| - 1]) + EntryBlock(es[|es| - 1])
  }

  // ---------------------------------------------------------------- structure

  /** The attribute without the addresses: what a reader of the tree can see. */
  function Erase(a: Attribute): Attribute
    decreases a, 1
  {
    Attribute(EraseText(a.key), EraseValue(a.value))
  }

  function EraseText(t: Text): Text { if t.NoText? then t else Text(0, t.bytes) }

  function EraseValue(v: Value): Value
    decreases v, 0
  {
    match v
    case StringVal(s) => StringVal(EraseText(s))
    case BytesVal(data, len) => BytesVal(if len == 0 then NoText else EraseText(data), len)
    case ArrayVal(arr) => ArrayVal(EraseArray(arr))
    case KvListVal(kvl) => KvListVal(EraseKvList(kvl))
    case _ => v
  }

  function EraseArray(arr: Array): Array
    decreases arr, 0
  {
    if arr.NoArray? then NoArray else Array(0, None, EraseItems(arr.elems))
  }

  function EraseKvList(kvl: KvList): KvList
    decreases kvl, 0
  {
    if kvl.NoKvList? then NoKvList else KvList(0, None, EraseEntries(kvl.list))
  }

  function EraseItems(xs: seq<Attribute>): (r: seq<Attribute>)
    ensures |r| == |xs|
    decreases xs, 0
  {
    if xs == [] then [] else EraseItems(xs[..|xs| - 1]) + [Erase(xs[|xs| - 1])]
  }

  function EraseEntry(e: Entry): Entry
    decreases e, 0
  {
    Entry(EraseText(e.key), Erase(e.value))
  }

  function EraseEntries(es: seq<Entry>): (r: seq<Entry>)
    ensures |r| == |es|
    decreases es, 0
  {
    if es == [] then [] else EraseEntries(es[..|es| - 1]) + [EraseEntry(es[|es| - 1])]
  }

  lemma NextItem(xs: seq<Attribute>, i: nat)
    requires i < |xs|
    ensures ItemBlocks(xs[..i + 1]) == ItemBlocks(xs[..i]) + Blocks(xs[i])
    ensures EraseItems(xs[..i + 1]) == EraseItems(xs[..i]) + [Erase(xs[i])]
  {
    hide Blocks, Erase;
    assert xs[..i + 1][..i] == xs[..i];
  }

  lemma NextEntry(es: seq<Entry>, i: nat)
    requires i < |es|
    ensures EntryBlocks(es[..i + 1]) == EntryBlocks(es[..i]) + EntryBlock(es[i])
    ensures EraseEntries(es[..i + 1]) == EraseEntries(es[..i]) + [EraseEntry(es[i])]
  {
    hide EntryBlock, EraseEntry;
    assert es[..i + 1][..i] == es[..i];
  }

  // ---------------------------------------------------------------- well-formed trees

  predicate TextOk(t: Text) { t.Text? ==> |t.bytes| <= SIZE_MAX }

  /** What the source relies on: bytes are there when there are some, sizes fit a size_t. */
  predicate AttrOk(a: Attribute)
    decreases a, 1
  {
    TextOk(a.key) && ValueOk(a.value)
  }

  predicate ValueOk(v: Value)
    decreases v, 0
  {
    match v
    case StringVal(s) => TextOk(s)
    case BytesVal(data, len) => len <= SIZE_MAX && (len > 0 ==> data.Text? && |data.bytes| == len)
    case ArrayVal(arr) => arr.NoArray? || ItemsOk(arr.elems)
    case KvListVal(kvl) => kvl.NoKvList? || EntriesOk(kvl.list)
    case _ => true
  }

  predicate ItemsOk(xs: seq<Attribute>)
    decreases xs, 0
  {
    |xs| <= SIZE_MAX && forall i :: 0 <= i < |xs| ==> AttrOk(xs[i])
  }

  predicate EntriesOk(es: seq<Entry>)
    decreases es, 0
  {
    |es| <= SIZE_MAX && forall i :: 0 <= i < |es| ==> EntryOk(es[i])
  }

  predicate EntryOk(e: Entry)
    decreases e, 0
  {
    TextOk(e.key) && AttrOk(e.value)
  }

  // ---------------------------------------------------------------- the heap

  class Heap {
    var live: multiset<Ptr>
    var brk: Ptr

    ghost predicate Valid()
      reads this
    {
      forall p :: p in live ==> live[p] == 1 && p < brk
    }

    constructor ()
      ensures Valid() && live == multiset{}
    {
      live, brk := multiset{}, 0;
    }

    /** malloc: it may fail, for every size. */
    method Malloc(n: nat) returns (p: Option<Ptr>)
      requires Valid()
      modifies this
      ensures Valid() && live == old(live) + PtrBlocks(p)
      ensures p.Some? ==> p.value !in old(live)
    {
      var fails: bool := *;
      if fails { return None; }
      p := Some(brk);
      live := live + multiset{brk};
      brk := brk + 1;
    }

    /** free: only a live block may be freed; `rest` is what stays live. */
    method Free(p: Ptr, ghost rest: multiset<Ptr>)
      requires Valid() && live == rest + multiset{p}
      modifies this
      ensures Valid() && live == rest
    {
      live := live - multiset{p};
    }

    method FreePtr(p: Option<Ptr>, ghost rest: multiset<Ptr>)
      requires Valid() && live == rest + PtrBlocks(p)
      modifies this
      ensures Valid() && live == rest
    {
      if p.Some? { Free(p.value, rest); }
    }

    /** realloc: a failure leaves the old block as it is. */
    method Realloc(p: Option<Ptr>, n: nat, ghost rest: multiset<Ptr>) returns (q: Option<Ptr>)
      requires Valid() && live == rest + PtrBlocks(p)
      modifies this
      ensures Valid() && live == rest + PtrBlocks(if q.Some? then q else p)
    {
      q := Malloc(n);
      if q.Some? { FreePtr(p, rest + PtrBlocks(q)); }
    }

    method FreeText(t: Text, ghost rest: multiset<Ptr>)
      requires Valid() && live == rest + TextBlocks(t)
      modifies this
      ensures Valid() && live == rest
    {
      if t.Text? { Free(t.block, rest); }
    }

    /** otlp_dup_str, otlp_dup_bytes */
    method Dup(bytes: Bytes, size: nat) returns (t: Text)
      requires Valid()
      modifies this
      ensures Valid() && live == old(live) + TextBlocks(t)
      ensures t.Text? ==> t.bytes == bytes
    {
      if size > SIZE_MAX { return NoText; }
      var p := Malloc(size);
      t := if p.None? then NoText else Text(p.value, bytes);
    }

    // -------------------------------------------------------------- free

    /** otlp_attribute_release_value; the slot is left as an empty string. */
    method ReleaseValue(v: Value, ghost rest: multiset<Ptr>) returns (empty: Value)
      requires Valid() && live == rest + ValueBlocks(v)
      modifies this
      ensures Valid() && live == rest && empty == StringVal(NoText)
      decreases v, 1
    {
      empty := StringVal(NoText);
      match v {
        case StringVal(s) => FreeText(s, rest);
        case BytesVal(data, _) => FreeText(data, rest);
        case ArrayVal(arr) => FreeArray(arr, rest);
        case KvListVal(kvl) => FreeKvList(kvl, rest);
        case _ =>
      }
    }

    method FreeArray(arr: Array, ghost rest: multiset<Ptr>)
      requires Valid() && live == rest + ArrayBlocks(arr)
      modifies this
      ensures Valid() && live == rest
      decreases arr, 1
    {
      if arr.NoArray? { return; }
      FreeItems(arr.elems, rest + multiset{arr.node} + PtrBlocks(arr.items));
      FreePtr(arr.items, rest + multiset{arr.node});
      Free(arr.node, rest);
    }

    method FreeKvList(kvl: KvList, ghost rest: multiset<Ptr>)
      requires Valid() && live == rest + KvListBlocks(kvl)
      modifies this
      ensures Valid() && live == rest
      decreases kvl, 1
    {
      if kvl.NoKvList? { return; }
      FreeEntries(kvl.list, rest + multiset{kvl.node} + PtrBlocks(kvl.entries));
      FreePtr(kvl.entries, rest + multiset{kvl.node});
      Free(kvl.node, rest);
    }

    /** The items one after the other, the first one first. */
    method FreeItems(xs: seq<Attribute>, ghost rest: multiset<Ptr>)
      requires Valid() && live == rest + ItemBlocks(xs)
      modifies this
      ensures Valid() && live == rest
      decreases xs, 1
    {
      hide Blocks;
      var i := 0;
      ItemBlocksFrom(xs, 0);
      while i < |xs|
        invariant 0 <= i <= |xs| && Valid() && live == rest + ItemsFrom(xs, i)
      {
        FreeAttribute(xs[i], rest + ItemsFrom(xs, i + 1));
        i := i + 1;
      }
    }

    method FreeEntries(es: seq<Entry>, ghost rest: multiset<Ptr>)
      requires Valid() && live == rest + EntryBlocks(es)
      modifies this
      ensures Valid() && live == rest
      decreases es, 1
    {
      hide EntryBlock;
      var i := 0;
      EntryBlocksFrom(es, 0);
      while i < |es|
        invariant 0 <= i <= |es| && Valid() && live == rest + EntriesFrom(es, i)
      {
        FreeEntry(es[i], rest + EntriesFrom(es, i + 1));
        i := i + 1;
      }
    }

    method FreeEntry(e: Entry, ghost rest: multiset<Ptr>)
      requires Valid() && live == rest + EntryBlock(e)
      modifies this
      ensures Valid() && live == rest
      decreases e, 1
    {
      FreeText(e.key, rest + Blocks(e.value));
      FreeAttribute(e.value, rest);
    }

    /** otlp_attribute_free */
    method FreeAttribute(a: Attribute, ghost rest: multiset<Ptr>)
      requires Valid() && live == rest + Blocks(a)
      modifies this
      ensures Valid() && live == rest
      decreases a, 2
    {
      var empty := ReleaseValue(a.value, rest + TextBlocks(a.key));
      FreeText(a.key, rest);
    }

    /** do free(items[i]) while (i-- > 0) */
    method FreeItemsDownFrom(xs: seq<Attribute>, i: nat, ghost rest: multiset<Ptr>)
      requires i < |xs| && Valid() && live == rest + ItemBlocks(xs[..i + 1])
      modifies this
      ensures Valid() && live == rest
    {
      hide Blocks;
      var j := i;
      NextItem(xs, j);
      FreeAttribute(xs[j], rest + ItemBlocks(xs[..j]));
      while j > 0
        invariant 0 <= j <= i && Valid() && live == rest + ItemBlocks(xs[..j])
      {
        j := j - 1;
        NextItem(xs, j);
        FreeAttribute(xs[j], rest + ItemBlocks(xs[..j]));
      }
    }

    method FreeEntriesDownFrom(es: seq<Entry>, i: nat, ghost rest: multiset<Ptr>)
      requires i < |es| && Valid() && live == rest + EntryBlocks(es[..i + 1])
      modifies this
      ensures Valid() && live == rest
    {
      hide EntryBlock;
      var j := i;
      NextEntry(es, j);
      FreeEntry(es[j], rest + EntryBlocks(es[..j]));
      while j > 0
        invariant 0 <= j <= i && Valid() && live == rest + EntryBlocks(es[..j])
      {
        j := j - 1;
        NextEntry(es, j);
        FreeEntry(es[j], rest + EntryBlocks(es[..j]));
      }
    }

    // -------------------------------------------------------------- copy

    /** A pointer to a string, copied if it is not NULL. */
    method CopyText(src: Text) returns (st: Status, dst: Text)
      requires Valid() && TextOk(src)
      modifies this
      ensures Valid() && live == old(live) + TextBlocks(dst) && st in {Status.Ok, ErrNoMem}
      ensures st == Status.Ok ==> EraseText(dst) == EraseText(src)
    {
      if src.NoText? { return Status.Ok, NoText; }
      dst := Dup(src.bytes, |src.bytes| + 1);
      return if dst.NoText? then ErrNoMem else Status.Ok, dst;
    }

    /** attr_copy_one: when it fails, what was built so far is owned by the copy. */
    method CopyOne(src: Attribute) returns (st: Status, dst: Attribute)
      requires Valid() && AttrOk(src)
      modifies this
      ensures Valid() && live == old(live) + Blocks(dst) && st in {Status.Ok, ErrNoMem}
      ensures st == Status.Ok ==> Erase(dst) == Erase(src)
      decreases src, 2
    {
      dst := ZERO;
      var key;
      st, key := CopyText(src.key);
      dst := dst.(key := key);
      if st != Status.Ok { return; }
      var value;
      st, value := CopyValue(src.value);
      dst := dst.(value := value);
    }

    method CopyValue(src: Value) returns (st: Status, dst: Value)
      requires Valid() && ValueOk(src)
      modifies this
      ensures Valid() && live == old(live) + ValueBlocks(dst) && st in {Status.Ok, ErrNoMem}
      ensures st == Status.Ok ==> EraseValue(dst) == EraseValue(src)
      decreases src, 1
    {
      match src {
        case StringVal(s) =>
          var t;
          st, t := CopyText(s);
          dst := StringVal(t);
        case BytesVal(data, len) =>
          if len == 0 { return Status.Ok, BytesVal(NoText, 0); }
          var t := Dup(data.bytes, len);
          return if t.NoText? then ErrNoMem else Status.Ok, BytesVal(t, len);
        case ArrayVal(arr) =>
          var copy;
          st, copy := CopyArray(arr);
          dst := ArrayVal(copy);
        case KvListVal(kvl) =>
          var copy;
          st, copy := CopyKvList(kvl);
          dst := KvListVal(copy);
        case _ =>
          return Status.Ok, src;
      }
    }

    /** calloc of `n` items; it fails for n == 0 where malloc(0) answers NULL. */
    method Calloc(n: nat, size: nat) returns (p: Option<Ptr>)
      requires Valid()
      modifies this
      ensures Valid() && live == old(live) + PtrBlocks(p)
    {
      p := Malloc(n * size % (SIZE_MAX + 1));
    }

    method CopyArray(src: Array) returns (st: Status, dst: Array)
      requires Valid() && (src.NoArray? || ItemsOk(src.elems))
      modifies this
      ensures Valid() && live == old(live) + ArrayBlocks(dst) && st in {Status.Ok, ErrNoMem}
      ensures st == Status.Ok ==> EraseArray(dst) == EraseArray(src)
      ensures st != Status.Ok ==> dst == NoArray && live == old(live)
      decreases src, 1
    {
      hide ItemBlocks, EraseItems, EraseEntries, EraseValue;
      ghost var before := live;
      if src.NoArray? { return Status.Ok, NoArray; }
      var node := Calloc(1, 16);
      if node.None? { return ErrNoMem, NoArray; }
      if |src.elems| > SIZE_MAX / SIZEOF_ATTRIBUTE {
        Free(node.value, before);
        return ErrNoMem, NoArray;
      }
      var items := Calloc(|src.elems|, SIZEOF_ATTRIBUTE);
      if items.None? {
        Free(node.value, before);
        return ErrNoMem, NoArray;
      }
      var elems;
      st, elems := CopyItems(src.elems);
      if st != Status.Ok {
        Free(items.value, before + multiset{node.value});
        Free(node.value, before);
        return ErrNoMem, NoArray;
      }
      dst := Array(node.value, items, elems);
    }

    /** The loop over the items: a failure frees the item it is at and those before it. */
    method CopyItems(src: seq<Attribute>) returns (st: Status, dst: seq<Attribute>)
      requires Valid() && ItemsOk(src)
      modifies this
      ensures Valid() && st in {Status.Ok, ErrNoMem}
      ensures st == Status.Ok ==>
        live == old(live) + ItemBlocks(dst) && EraseItems(dst) == EraseItems(src)
      ensures st != Status.Ok ==> live == old(live)
      decreases src, 1
    {
      hide Blocks, Erase;
      dst := seq(|src|, i => ZERO);
      var i := 0;
      assert dst[..0] == [] == src[..0];
      while i < |src|
        invariant 0 <= i <= |src| == |dst| && Valid()
        invariant live == old(live) + ItemBlocks(dst[..i])
        invariant EraseItems(dst[..i]) == EraseItems(src[..i])
      {
        var item;
        ghost var done := dst[..i];
        st, item := CopyOne(src[i]);
        dst := dst[i := item];
        assert dst[..i] == done;
        NextItem(dst, i);
        NextItem(src, i);
        if st != Status.Ok {
          FreeItemsDownFrom(dst, i, old(live));
          return ErrNoMem, dst;
        }
        i := i + 1;
      }
      assert dst[..i] == dst && src[..i] == src;
      return Status.Ok, dst;
    }

    method CopyKvList(src: KvList) returns (st: Status, dst: KvList)
      requires Valid() && (src.NoKvList? || EntriesOk(src.list))
      modifies this
      ensures Valid() && live == old(live) + KvListBlocks(dst) && st in {Status.Ok, ErrNoMem}
      ensures st == Status.Ok ==> EraseKvList(dst) == EraseKvList(src)
      ensures st != Status.Ok ==> dst == NoKvList && live == old(live)
      decreases src, 1
    {
      hide EntryBlocks, EraseEntries, EntriesOk, EraseItems, EraseValue;
      ghost var before := live;
      if src.NoKvList? { return Status.Ok, NoKvList; }
      var node := Calloc(1, 16);
      if node.None? { return ErrNoMem, NoKvList; }
      if |src.list| > SIZE_MAX / SIZEOF_ENTRY {
        Free(node.value, before);
        return ErrNoMem, NoKvList;
      }
      var entries := Calloc(|src.list|, SIZEOF_ENTRY);
      if entries.None? {
        Free(node.value, before);
        return ErrNoMem, NoKvList;
      }
      var list;
      st, list := CopyEntries(src.list);
      if st != Status.Ok {
        Free(entries.value, before + multiset{node.value});
        Free(node.value, before);
        return ErrNoMem, NoKvList;
      }
      dst := KvList(node.value, entries, list);
    }

    method CopyEntries(src: seq<Entry>) returns (st: Status, dst: seq<Entry>)
      requires Valid() && EntriesOk(src)
      modifies this
      ensures Valid() && st in {Status.Ok, ErrNoMem}
      ensures st == Status.Ok ==>
        live == old(live) + EntryBlocks(dst) && EraseEntries(dst) == EraseEntries(src)
      ensures st != Status.Ok ==> live == old(live)
      decreases src, 1
    {
      hide EntryBlock, EraseEntry;
      dst := seq(|src|, i => ZERO_ENTRY);
      var i := 0;
      assert dst[..0] == [] == src[..0];
      while i < |src|
        invariant 0 <= i <= |src| == |dst| && Valid()
        invariant live == old(live) + EntryBlocks(dst[..i])
        invariant EraseEntries(dst[..i]) == EraseEntries(src[..i])
      {
        var entry;
        ghost var done := dst[..i];
        st, entry := CopyEntry(src[i]);
        dst := dst[i := entry];
        assert dst[..i] == done;
        NextEntry(dst, i);
        NextEntry(src, i);
        if st != Status.Ok {
          FreeEntriesDownFrom(dst, i, old(live));
          return ErrNoMem, dst;
        }
        i := i + 1;
      }
      assert dst[..i] == dst && src[..i] == src;
      return Status.Ok, dst;
    }

    /** Key, then value; when the key fails the value is still the zeroed one. */
    method CopyEntry(src: Entry) returns (st: Status, dst: Entry)
      requires Valid() && EntryOk(src)
      modifies this
      ensures Valid() && live == old(live) + EntryBlock(dst) && st in {Status.Ok, ErrNoMem}
      ensures st == Status.Ok ==> EraseEntry(dst) == EraseEntry(src)
      decreases src, 1
    {
      dst := ZERO_ENTRY;
      var key;
      st, key := CopyText(src.key);
      dst := dst.(key := key);
      if st != Status.Ok { return; }
      var value;
      st, value := CopyOne(src.value);
      dst := dst.(value := value);
    }

    /**
     otlp_attribute_copy_all: on success the copies have the structure of the originals and own
     blocks of their own; on failure every block of the call was freed, once.
     */
    method CopyAll(src: seq<Attribute>) returns (st: Status, dst: seq<Attribute>)
      requires Valid() && ItemsOk(src)
      modifies this
      ensures Valid() && st in {Status.Ok, ErrNoMem}
      ensures st == Status.Ok ==>
        live == old(live) + ItemBlocks(dst) && EraseItems(dst) == EraseItems(src)
      ensures st == Status.Ok ==>
        forall p :: p in ItemBlocks(dst) ==> ItemBlocks(dst)[p] == 1 && p !in old(live)
      ensures st == Status.Ok && ItemBlocks(src) <= old(live) ==> ItemBlocks(dst) !! ItemBlocks(src)
      ensures st != Status.Ok ==> live == old(live)
    {
      hide ItemBlocks, EraseItems;
      st, dst := CopyItems(src);
      if st == Status.Ok {
        CopyOwnsItsBlocks(old(live), live, dst);
        if ItemBlocks(src) <= old(live) { CopySharesNothing(old(live), dst, src); }
      }
    }
  }

  function ItemsFrom(xs: seq<Attribute>, i: nat): multiset<Ptr>
    requires i <= |xs|
    decreases |xs| - i
  {
    if i == |xs| then multiset{} else Blocks(xs[i]) + ItemsFrom(xs, i + 1)
  }

  lemma {:induction false} ItemBlocksFrom(xs: seq<Attribute>, i: nat)
    requires i <= |xs|
    ensures ItemBlocks(xs) == ItemBlocks(xs[..i]) + ItemsFrom(xs, i)
    ensures i == 0 ==> ItemBlocks(xs) == ItemsFrom(xs, 0)
    decreases |xs| - i
  {
    hide Blocks;
    if i < |xs| {
      NextItem(xs, i);
      ItemBlocksFrom(xs, i + 1);
    }
    assert xs[..|xs|] == xs;
  }

  function EntriesFrom(es: seq<Entry>, i: nat): multiset<Ptr>
    requires i <= |es|
    decreases |es| - i
  {
    if i == |es| then multiset{} else EntryBlock(es[i]) + EntriesFrom(es, i + 1)
  }

  lemma {:induction false} EntryBlocksFrom(es: seq<Entry>, i: nat)
    requires i <= |es|
    ensures EntryBlocks(es) == EntryBlocks(es[..i]) + EntriesFrom(es, i)
    ensures i == 0 ==> EntryBlocks(es) == EntriesFrom(es, 0)
    decreases |es| - i
  {
    hide EntryBlock;
    if i < |es| {
      NextEntry(es, i);
      EntryBlocksFrom(es, i + 1);
    }
    assert es[..|es|] == es;
  }

  // ---------------------------------------------------------------- what a copy shares

  /** The copy names each of its blocks once, and none that was live before the call. */
  lemma CopyOwnsItsBlocks(before: multiset<Ptr>, live: multiset<Ptr>, dst: seq<Attribute>)
    requires forall p :: p in live ==> live[p] == 1
    requires live == before + ItemBlocks(dst)
    ensures forall p :: p in ItemBlocks(dst) ==> ItemBlocks(dst)[p] == 1 && p !in before
  {
    hide ItemBlocks;
    forall p | p in ItemBlocks(dst) ensures ItemBlocks(dst)[p] == 1 && p !in before {
      assert p in live;
      assert live[p] == before[p] + ItemBlocks(dst)[p];
    }
  }

  lemma CopySharesNothing(before: multiset<Ptr>, dst: seq<Attribute>, src: seq<Attribute>)
    requires ItemBlocks(src) <= before
    requires forall p :: p in ItemBlocks(dst) ==> p !in before
    ensures ItemBlocks(dst) !! ItemBlocks(src)
  {
    hide ItemBlocks;
    assert forall p :: p in ItemBlocks(src) ==> p in before;
  }
}
