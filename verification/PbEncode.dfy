/**
 The growing encode buffer of src/protobuf_encode.c. Allocation may fail at any call: whether
 it does is chosen by `Allocate`. Only of an allocator that has `plenty` is it known that it
 refuses nothing; then an encoding that fits into ROOM bytes must succeed.
 */
module PbEncode {
  import opened Common
  import opened PbWire

  const SBO_SIZE: nat := 192

  /** `buf_reserve`, lines 41 to 47: doubling until there is room; None on overflow. */
  function GrownCap(cap: nat, need: nat): (r: Option<nat>)
    requires cap > 0
    ensures r.Some? ==> r.value >= need && r.value >= cap
    ensures r.Some? && cap < need ==> r.value < 2 * need
    ensures r.Some? && cap <= SIZE_MAX && need <= SIZE_MAX ==> r.value <= SIZE_MAX
    decreases need - cap
  {
    if cap >= need then Some(cap)
    else if cap > SIZE_MAX / 2 then None
    else GrownCap(2 * cap, need)
  }

  /** Growth overflows only for a need beyond half the address space. */
  lemma {:induction false} GrowthOverflow(cap: nat, need: nat)
    requires 0 < cap && need <= SIZE_MAX && GrownCap(cap, need).None?
    ensures need > SIZE_MAX / 2 + 1
    decreases need - cap
  {
    if cap <= SIZE_MAX / 2 { GrowthOverflow(2 * cap, need); }
  }

  /** Up to this length doubling reaches the length before it overflows. */
  const ROOM: nat := SIZE_MAX / 2 + 1

  /**
   The bytes `all` were to be written behind `before` and `st` was answered: all of them when it
   is Ok, otherwise a prefix; and it is Ok when there is memory and room for all of them.
   */
  ghost predicate Wrote(plenty: bool, before: Bytes, after: Bytes, all: Bytes, st: Status) {
    && before <= after <= before + all
    && (st == Ok ==> after == before + all)
    && (plenty && |before| + |all| <= ROOM ==> st == Ok)
  }

  lemma WroteNothing(plenty: bool, before: Bytes)
    ensures Wrote(plenty, before, before, [], Ok)
  {
  }

  lemma WroteAll(plenty: bool, before: Bytes, after: Bytes, all: Bytes)
    requires Wrote(plenty, before, after, all, Ok)
    ensures after == before + all
  {
  }

  /** After `x` was written, `y` was tried. */
  lemma WroteThen(plenty: bool, before: Bytes, mid: Bytes, after: Bytes, x: Bytes, y: Bytes,
      st: Status)
    requires mid == before + x && Wrote(plenty, mid, after, y, st)
    ensures Wrote(plenty, before, after, x + y, st)
  {
    assert before + (x + y) == before + x + y;
  }

  lemma WroteDone(plenty: bool, before: Bytes, after: Bytes, all: Bytes)
    requires after == before + all
    ensures Wrote(plenty, before, after, all, Ok)
  {
  }

  /** One turn of a loop that writes `all` part by part: `part` after what was done before. */
  lemma WroteTurn(plenty: bool, before: Bytes, now: Bytes, after: Bytes, done: Bytes, part: Bytes,
      all: Bytes, st: Status)
    requires now == before + done && Wrote(plenty, now, after, part, st) && done + part <= all
    ensures if st == Ok then after == before + (done + part) else Wrote(plenty, before, after, all, st)
  {
    WroteThen(plenty, before, now, after, done, part, st);
    if st != Ok { WroteLess(plenty, before, after, done + part, all, st); }
  }

  /** A part of an encoding that fails fails the whole. */
  lemma WroteLess(plenty: bool, before: Bytes, after: Bytes, x: Bytes, all: Bytes, st: Status)
    requires Wrote(plenty, before, after, x, st) && st != Ok && x <= all
    ensures Wrote(plenty, before, after, all, st)
  {
    assert before + x <= before + all;
  }

  /** So does a part that was built in a buffer of its own; nothing is written then. */
  lemma WroteAside(plenty: bool, before: Bytes, a: Bytes, b: Bytes, x: Bytes, all: Bytes, st: Status)
    requires Wrote(plenty, a, b, x, st) && st != Ok && |a| + |x| <= |all|
    ensures Wrote(plenty, before, before, all, st)
  {
  }

  class PbBuf {
    var data: array<byte>
    var len: nat
    var ownsHeap: bool
    const sbo: array<byte>
    /** Whether the allocator has memory for every request. */
    const plenty: bool

    ghost predicate Valid()
      reads this
    {
      && len <= data.Length <= SIZE_MAX
      && sbo.Length == SBO_SIZE
      && (!ownsHeap ==> data == sbo || data.Length == 0)
    }

    /** The bytes written so far. */
    ghost function Contents(): Bytes
      requires Valid()
      reads this, data
    {
      data[..len]
    }

    /** The frame of every write: this buffer, with its own or a fresh byte array. */
    twostate predicate Kept()
      reads this
    {
      data == old(data) || fresh(data)
    }

    /** `otlp_pb_buf_init` with no capacity asked for beyond the inline bytes. */
    constructor (plenty: bool)
      ensures Valid() && Contents() == [] && fresh(data) && data.Length == SBO_SIZE && !ownsHeap
      ensures this.plenty == plenty
    {
      this.plenty := plenty;
      var inline := new byte[SBO_SIZE](_ => 0);
      sbo := inline;
      data := inline;
      len := 0;
      ownsHeap := false;
    }

    /** `otlp_malloc` or `otlp_realloc`: it may fail unless there is plenty. */
    method Allocate(n: nat) returns (p: array?<byte>)
      ensures p != null ==> fresh(p) && p.Length == n
      ensures plenty ==> p != null
    {
      var fails: bool := *;
      if fails && !plenty { p := null; } else { p := new byte[n](_ => 0); }
    }

    /** `otlp_pb_buf_init` with an initial capacity (lines 101 to 113). */
    method Init(initialCap: nat) returns (st: Status)
      requires sbo.Length == SBO_SIZE && initialCap <= SIZE_MAX
      modifies this
      ensures Valid() && len == 0 && (data == sbo || fresh(data))
      ensures st == Ok || (st == ErrNoMem && !plenty && initialCap > SBO_SIZE && data == sbo)
      ensures st == Ok ==> data.Length == if initialCap > SBO_SIZE then initialCap else SBO_SIZE
    {
      data, len, ownsHeap := sbo, 0, false;
      if initialCap > SBO_SIZE {
        var p := Allocate(initialCap);
        if p == null { return ErrNoMem; }
        data, ownsHeap := p, true;
      }
      st := Ok;
    }

    /** `otlp_pb_buf_free`: the buffer is empty and owns nothing; a later write allocates. */
    method Free()
      requires Valid()
      modifies this
      ensures Valid() && Contents() == [] && !ownsHeap && data.Length == 0 && fresh(data)
    {
      data := new byte[0];
      len, ownsHeap := 0, false;
    }

    /** `otlp_pb_buf_reset`. */
    method Reset()
      requires Valid()
      modifies this`len
      ensures Valid() && Contents() == []
    {
      len := 0;
    }

    /** `buf_reserve`: room for `additional` more bytes, or a buffer that has not changed. The
        capacity never shrinks, on any path. */
    method Reserve(additional: nat) returns (st: Status)
      requires Valid()
      modifies this
      ensures Valid() && Kept() && Contents() == old(Contents()) && len == old(len)
      ensures data.Length >= old(data.Length)
      ensures st == Ok ==> len + additional <= data.Length
      ensures st == Ok && old(len) + additional <= old(data.Length) ==> data == old(data)
      ensures st != Ok ==> data == old(data) && ownsHeap == old(ownsHeap)
      ensures st == ErrOverflow ==> old(len) + additional > ROOM
      ensures st == Ok || st == ErrOverflow || (st == ErrNoMem && !plenty)
    {
      if additional > SIZE_MAX - len { return ErrOverflow; }
      var need := len + additional;
      if need <= data.Length { return Ok; }
      var newCap := if data.Length > 0 then data.Length else SBO_SIZE;
      ghost var startCap := newCap;
      while newCap < need
        invariant 0 < newCap <= SIZE_MAX && newCap >= startCap >= data.Length
        invariant GrownCap(startCap, need) == GrownCap(newCap, need)
        decreases need - newCap
      {
        if newCap > SIZE_MAX / 2 {
          GrowthOverflow(startCap, need);
          return ErrOverflow;
        }
        newCap := newCap * 2;
      }
      var p := Allocate(newCap);
      if p == null { return ErrNoMem; }
      CopyInto(p);
      data, ownsHeap := p, true;
      st := Ok;
    }

    /** The `memcpy` of the old contents, which `realloc` performs when the buffer is on the heap. */
    method CopyInto(p: array<byte>)
      requires Valid() && p != data && len <= p.Length
      modifies p
      ensures p[..len] == Contents()
    {
      for i := 0 to len
        invariant p[..i] == data[..i]
      {
        p[i] := data[i];
      }
    }

    /** `buf_append`. */
    method Append(bytes: Bytes) returns (st: Status)
      requires Valid()
      modifies this, data
      ensures st in {Ok, ErrOverflow, ErrNoMem}
      ensures Valid() && Kept() && data.Length >= old(data.Length)
      ensures Contents() == old(Contents()) + (if st == Ok then bytes else [])
      ensures Wrote(plenty, old(Contents()), Contents(), bytes, st)
      ensures st == Ok ==> |old(Contents())| + |bytes| <= SIZE_MAX
    {
      if |bytes| == 0 { return Ok; }
      st := Reserve(|bytes|);
      if st != Ok { return; }
      var buffer, start := data, len;
      ghost var before := buffer[..start];
      for i := 0 to |bytes|
        invariant buffer[..start] == before && buffer[start..start + i] == bytes[..i]
        modifies buffer
      {
        buffer[start + i] := bytes[i];
      }
      len := start + |bytes|;
      assert bytes[..|bytes|] == bytes;
      assert buffer[..len] == buffer[..start] + buffer[start..len] == before + bytes;
    }

    /** `otlp_pb_varint`: seven bits at a time into a ten-byte scratch array. */
    method Varint(value: uint64) returns (st: Status)
      requires Valid()
      modifies this, data
      ensures st in {Ok, ErrOverflow, ErrNoMem}
      ensures Valid() && Kept() && data.Length >= old(data.Length)
      ensures Contents() == old(Contents()) + (if st == Ok then EncVarint(value) else [])
      ensures Wrote(plenty, old(Contents()), Contents(), EncVarint(value), st)
    {
      hide Wrote, EncVarint;
      var tmp, n := VarintBytes(value);
      var bytes := tmp[..n];
      st := Append(bytes);
    }

    /** Its loop. */
    static method VarintBytes(value: uint64) returns (tmp: array<byte>, n: nat)
      ensures fresh(tmp) && n <= tmp.Length && tmp[..n] == EncVarint(value)
    {
      tmp := new byte[10](_ => 0);
      var v: nat := value;
      n := 0;
      ghost var limit := 10;
      VarintLimits();
      while true
        invariant 0 <= n < 10 && limit == 10 - n && v < VarintLimit(limit)
        invariant tmp[..n] + EncVarint(v) == EncVarint(value)
        modifies tmp
        decreases 10 - n
      {
        ghost var v0, before := v, tmp[..n];
        tmp[n] := v % 128 + 128;
        n, v := n + 1, v / 128;
        assert tmp[..n] == before + [v0 % 128 + 128];
        if !(v != 0 && n < 10) {
          tmp[n - 1] := tmp[n - 1] % 128;
          assert tmp[..n] == before + [v0 % 128];
          break;
        }
        NextVarintByte(before, v0);
        limit := limit - 1;
      }
    }

    /** `otlp_pb_fixed64`: least significant byte first. */
    method Fixed64(value: uint64) returns (st: Status)
      requires Valid()
      modifies this, data
      ensures Valid() && Kept() && data.Length >= old(data.Length)
      ensures Contents() == old(Contents()) + (if st == Ok then EncFixed(value, 8) else [])
      ensures Wrote(plenty, old(Contents()), Contents(), EncFixed(value, 8), st)
    {
      hide Wrote, EncFixed;
      var tmp := LittleEndian(value, 8);
      st := Append(tmp);
    }

    /** `otlp_pb_fixed32`. */
    method Fixed32(value: uint32) returns (st: Status)
      requires Valid()
      modifies this, data
      ensures Valid() && Kept() && data.Length >= old(data.Length)
      ensures Contents() == old(Contents()) + (if st == Ok then EncFixed(value, 4) else [])
      ensures Wrote(plenty, old(Contents()), Contents(), EncFixed(value, 4), st)
    {
      hide Wrote, EncFixed;
      var tmp := LittleEndian(value, 4);
      st := Append(tmp);
    }

    /** `otlp_pb_bytes` and `otlp_pb_string`: the length, then the bytes. */
    method LenBytes(bytes: CBytes) returns (st: Status)
      requires Valid()
      modifies this, data
      ensures Valid() && Kept() && data.Length >= old(data.Length)
      ensures Wrote(plenty, old(Contents()), Contents(), EncVarint(|bytes|) + bytes, st)
    {
      hide Wrote, EncVarint;
      ghost var before, head := Contents(), EncVarint(|bytes|);
      st := Varint(|bytes|);
      if st != Ok || |bytes| == 0 {
        LenBytesEnd(plenty, before, Contents(), head, bytes, st);
        return;
      }
      ghost var mid := Contents();
      st := Append(bytes);
      WroteThen(plenty, before, mid, Contents(), head, bytes, st);
    }

    static lemma LenBytesEnd(plenty: bool, before: Bytes, after: Bytes, head: Bytes, bytes: Bytes,
        st: Status)
      requires Wrote(plenty, before, after, head, st) && (st == Ok ==> bytes == [])
      ensures Wrote(plenty, before, after, head + bytes, st)
    {
      if st != Ok { WroteLess(plenty, before, after, head, head + bytes, st); }
      else { assert head + bytes == head; }
    }

    /** `otlp_pb_tag`. */
    method Tag(field: uint32, wireType: int) returns (st: Status)
      requires Valid()
      modifies this, data
      ensures Valid() && Kept() && data.Length >= old(data.Length)
      ensures st == ErrInvalidArgument <==> field == 0 || wireType !in {0, 1, 2, 5}
      ensures st != Ok ==> Contents() == old(Contents())
      ensures st != ErrInvalidArgument ==>
        Wrote(plenty, old(Contents()), Contents(), EncKey(field, wireType), st)
    {
      if field == 0 { return ErrInvalidArgument; }
      if wireType != WIRE_VARINT && wireType != WIRE_FIXED64 && wireType != WIRE_LEN && wireType != WIRE_FIXED32 {
        return ErrInvalidArgument;
      }
      st := Varint(field * 8 + wireType);
    }

    static lemma TagFails(plenty: bool, before: Bytes, after: Bytes, key: Bytes, value: Bytes,
        field: nat, st: Status)
      requires st == ErrInvalidArgument ==> field == 0 && after == before
      requires st != ErrInvalidArgument ==> Wrote(plenty, before, after, key, st) && st != Ok
      ensures Wrote(plenty && field > 0, before, after, key + value, st)
    {
      if st != ErrInvalidArgument { WroteLess(plenty, before, after, key, key + value, st); }
    }

    /** `otlp_pb_field_varint`: on failure the tag may stay behind without its value. */
    method FieldVarint(field: uint32, value: uint64) returns (st: Status)
      requires Valid()
      modifies this, data
      ensures field == 0 && value != 0 ==> st == ErrInvalidArgument
      ensures Valid() && Kept() && data.Length >= old(data.Length)
      ensures Wrote(plenty && field > 0, old(Contents()), Contents(), EncFields(VarintField(field, value)), st)
    {
      if value == 0 { return Ok; }
      hide Wrote, EncKey, EncVarint, EncFixed;
      ghost var before, key, payload := Contents(), EncKey(field, WIRE_VARINT), EncValue(VarintV(value));
      EncOneField(Field(field, VarintV(value)));
      st := Tag(field, WIRE_VARINT);
      if st != Ok { TagFails(plenty, before, Contents(), key, payload, field, st); return; }
      ghost var mid := Contents();
      st := Varint(value);
      WroteThen(plenty, before, mid, Contents(), key, payload, st);
    }

    /** `otlp_pb_field_fixed64`. */
    method FieldFixed64(field: uint32, value: uint64) returns (st: Status)
      requires Valid()
      modifies this, data
      ensures field == 0 && value != 0 ==> st == ErrInvalidArgument
      ensures Valid() && Kept() && data.Length >= old(data.Length)
      ensures Wrote(plenty && field > 0, old(Contents()), Contents(), EncFields(Fixed64Field(field, value)), st)
    {
      if value == 0 { return Ok; }
      st := TagFixed64(field, value);
    }

    /** `otlp_pb_field_bytes`, `_string` and `_message`: empty contents are left out. */
    method FieldLen(field: uint32, bytes: CBytes) returns (st: Status)
      requires Valid()
      modifies this, data
      ensures field == 0 && bytes != [] ==> st == ErrInvalidArgument
      ensures Valid() && Kept() && data.Length >= old(data.Length)
      ensures Wrote(plenty && field > 0, old(Contents()), Contents(), EncFields(LenField(field, bytes)), st)
    {
      if |bytes| == 0 { return Ok; }
      st := TagLen(field, bytes);
    }

    /** `otlp_pb_tag` then `otlp_pb_bytes`: the field is there even when it is empty. */
    method TagLen(field: uint32, bytes: CBytes) returns (st: Status)
      requires Valid()
      modifies this, data
      ensures field == 0 ==> st == ErrInvalidArgument
      ensures Valid() && Kept() && data.Length >= old(data.Length)
      ensures Wrote(plenty && field > 0, old(Contents()), Contents(), EncFields([Field(field, LenV(bytes))]), st)
    {
      hide Wrote, EncKey, EncVarint, EncFixed;
      ghost var before, key, payload := Contents(), EncKey(field, WIRE_LEN), EncValue(LenV(bytes));
      EncOneField(Field(field, LenV(bytes)));
      st := Tag(field, WIRE_LEN);
      if st != Ok { TagFails(plenty, before, Contents(), key, payload, field, st); return; }
      ghost var mid := Contents();
      st := LenBytes(bytes);
      WroteThen(plenty, before, mid, Contents(), key, payload, st);
    }

    /** `otlp_pb_tag` then `otlp_pb_varint`. */
    method TagVarint(field: uint32, value: uint64) returns (st: Status)
      requires Valid()
      modifies this, data
      ensures field == 0 ==> st == ErrInvalidArgument
      ensures Valid() && Kept() && data.Length >= old(data.Length)
      ensures Wrote(plenty && field > 0, old(Contents()), Contents(), EncFields([Field(field, VarintV(value))]), st)
    {
      hide Wrote, EncKey, EncVarint, EncFixed;
      ghost var before, key, payload := Contents(), EncKey(field, WIRE_VARINT), EncValue(VarintV(value));
      EncOneField(Field(field, VarintV(value)));
      st := Tag(field, WIRE_VARINT);
      if st != Ok { TagFails(plenty, before, Contents(), key, payload, field, st); return; }
      ghost var mid := Contents();
      st := Varint(value);
      WroteThen(plenty, before, mid, Contents(), key, payload, st);
    }

    /** `otlp_pb_tag` then `otlp_pb_fixed64`. */
    method TagFixed64(field: uint32, value: uint64) returns (st: Status)
      requires Valid()
      modifies this, data
      ensures field == 0 ==> st == ErrInvalidArgument
      ensures Valid() && Kept() && data.Length >= old(data.Length)
      ensures Wrote(plenty && field > 0, old(Contents()), Contents(), EncFields([Field(field, Fixed64V(value))]), st)
    {
      hide Wrote, EncKey, EncVarint, EncFixed;
      ghost var before, key, payload := Contents(), EncKey(field, WIRE_FIXED64), EncValue(Fixed64V(value));
      EncOneField(Field(field, Fixed64V(value)));
      st := Tag(field, WIRE_FIXED64);
      if st != Ok { TagFails(plenty, before, Contents(), key, payload, field, st); return; }
      ghost var mid := Contents();
      st := Fixed64(value);
      WroteThen(plenty, before, mid, Contents(), key, payload, st);
    }

    /** `otlp_pb_tag` then `otlp_pb_fixed32`. */
    method TagFixed32(field: uint32, value: uint32) returns (st: Status)
      requires Valid()
      modifies this, data
      ensures field == 0 ==> st == ErrInvalidArgument
      ensures Valid() && Kept() && data.Length >= old(data.Length)
      ensures Wrote(plenty && field > 0, old(Contents()), Contents(), EncFields([Field(field, Fixed32V(value))]), st)
    {
      hide Wrote, EncKey, EncVarint, EncFixed;
      ghost var before, key, payload := Contents(), EncKey(field, WIRE_FIXED32), EncValue(Fixed32V(value));
      EncOneField(Field(field, Fixed32V(value)));
      st := Tag(field, WIRE_FIXED32);
      if st != Ok { TagFails(plenty, before, Contents(), key, payload, field, st); return; }
      ghost var mid := Contents();
      st := Fixed32(value);
      WroteThen(plenty, before, mid, Contents(), key, payload, st);
    }
  }

  /** The shift loop of the fixed encoders. */
  method LittleEndian(value: nat, n: nat) returns (tmp: Bytes)
    ensures tmp == EncFixed(value, n)
  {
    tmp := [];
    var v := value;
    for i := 0 to n
      invariant tmp + EncFixed(v, n - i) == EncFixed(value, n)
    {
      ghost var before, v0 := tmp, v;
      tmp, v := tmp + [v % 256], v / 256;
      assert tmp + EncFixed(v, n - i - 1) == before + ([v0 % 256] + EncFixed(v0 / 256, n - i - 1));
    }
  }

  lemma NextVarintByte(before: Bytes, v: nat)
    requires v >= 128
    ensures (before + [v % 128 + 128]) + EncVarint(v / 128) == before + EncVarint(v)
  {
  }
}
