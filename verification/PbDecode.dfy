/** The bounds-checked reader of src/protobuf_decode.c, as loops over a position. */
module PbDecode {
  import opened Common
  import opened PbWire

  /** x * 2^n, before any truncation. */
  function ShiftLeft(x: nat, n: nat): nat
    decreases n
  {
    if n == 0 then x else ShiftLeft(2 * x, n - 1)
  }

  /** `(uint64_t) x << n`. */
  function ShiftLeft64(x: nat, n: nat): nat {
    ShiftLeft(x, n) % UINT64_RANGE
  }

  /** `v |= (uint64_t) (b & 0x7f) << shift`: the bits of v lie below the shift. */
  function OrByte(v: nat, b: byte, shift: nat): nat {
    v + ShiftLeft64(b % 128, shift)
  }

  class Reader {
    const buf: Bytes
    var pos: nat

    ghost predicate Valid()
      reads this
    {
      pos <= |buf|
    }

    /** The bytes not read yet. */
    ghost function Rest(): Bytes
      requires Valid()
      reads this
    {
      buf[pos..]
    }

    constructor (bytes: Bytes)
      ensures Valid() && buf == bytes && pos == 0 && Rest() == bytes
    {
      buf, pos := bytes, 0;
    }

    /** `otlp_pb_read_varint`: on failure the position is where the read stopped. */
    method ReadVarint() returns (ok: bool, v: nat)
      requires Valid()
      modifies this`pos
      ensures Valid() && pos >= old(pos)
      ensures PbWire.ReadVarint(old(Rest())) == if ok then Varint(v, Rest()) else BadVarint(Rest())
    {
      v := 0;
      var shift: nat := 0;
      ghost var left: nat := 10;
      ghost var all := Rest();
      while pos < |buf|
        invariant old(pos) <= pos <= |buf|
        invariant SoFar(all, Rest(), left, v, shift)
        decreases left
      {
        var b := buf[pos];
        ghost var rest := Rest();
        assert rest[0] == b && rest[1..] == buf[pos + 1..];
        NextByte(all, rest, left, v, shift);
        pos := pos + 1;
        v := OrByte(v, b, shift);
        if b < 128 { return true, v; }
        shift := shift + 7;
        if shift >= 64 { return false, v; }
        left := left - 1;
      }
      assert Rest() == [];
      return false, v;
    }

    /** `otlp_pb_read_key`. */
    method ReadKey() returns (ok: bool, field: nat, wireType: nat)
      requires Valid()
      modifies this`pos
      ensures Valid() && pos >= old(pos)
      ensures PbWire.ReadKey(old(Rest())) == if ok then Key(field, wireType, Rest()) else NoKey(Rest())
    {
      var key: nat;
      ok, key := ReadVarint();
      field, wireType := key / 8 % UINT32_RANGE, key % 8;
      if ok { ok := field != 0; }
    }

    /** `otlp_pb_read_len`: a slice of the buffer, inside its bounds. */
    method ReadLen() returns (ok: bool, start: nat, len: nat)
      requires Valid()
      modifies this`pos
      ensures Valid() && pos >= old(pos)
      ensures match ReadValue(old(Rest()), WIRE_LEN)
        case Value(value, rest) =>
          ok && old(pos) < start && start + len == pos && value == LenV(buf[start..start + len]) && Rest() == rest
        case BadValue => !ok
    {
      ok, len := ReadVarint();
      start := pos;
      if !ok { return; }
      if len > |buf| - pos { return false, start, len; }
      pos := pos + len;
    }

    /** `otlp_pb_skip`: moves past exactly the value the matching read would have returned. */
    method Skip(wireType: nat) returns (ok: bool)
      requires Valid()
      modifies this`pos
      ensures Valid() && pos >= old(pos)
      ensures match ReadValue(old(Rest()), wireType)
        case Value(_, rest) => ok && Rest() == rest
        case BadValue => !ok
    {
      if wireType == WIRE_VARINT {
        var v;
        ok, v := ReadVarint();
      } else if wireType == WIRE_FIXED64 {
        if |buf| - pos < 8 { return false; }
        pos := pos + 8;
        ok := true;
      } else if wireType == WIRE_LEN {
        var start, len;
        ok, start, len := ReadLen();
      } else if wireType == WIRE_FIXED32 {
        if |buf| - pos < 4 { return false; }
        pos := pos + 4;
        ok := true;
      } else {
        ok := false;
      }
    }

    /** `otlp_pb_read_fixed32` and `_fixed64` on a little-endian machine. */
    method ReadFixed(n: nat) returns (ok: bool, v: nat)
      requires Valid()
      modifies this`pos
      ensures Valid() && ok == (|old(Rest())| >= n)
      ensures ok ==> v == DecFixed(old(Rest())[..n]) && Rest() == old(Rest())[n..]
      ensures !ok ==> pos == old(pos)
    {
      if |buf| - pos < n { return false, 0; }
      v := DecFixed(buf[pos..pos + n]);
      assert buf[pos..pos + n] == Rest()[..n];
      pos := pos + n;
      ok := true;
    }
  }

  /** The loop has read `10 - left` continuation bytes of `all` worth v and has `rest` to go. */
  ghost predicate SoFar(all: Bytes, rest: Bytes, left: nat, v: nat, shift: nat)
  {
    && 1 <= left <= 10 && shift == 7 * (10 - left) && v < ShiftLeft(1, shift)
    && match ReadVarintBytes(rest, left)
    case Varint(high, after) => ReadVarint(all) == Varint(v + ShiftLeft(high, shift), after)
    case BadVarint(after) => ReadVarint(all) == BadVarint(after)
  }

  lemma {:induction false} ShiftSum(a: nat, b: nat, n: nat)
    ensures ShiftLeft(a + b, n) == ShiftLeft(a, n) + ShiftLeft(b, n)
    decreases n
  {
    if n > 0 { ShiftSum(2 * a, 2 * b, n - 1); }
  }

  lemma ShiftBySeven(x: nat, n: nat)
    ensures ShiftLeft(128 * x, n) == ShiftLeft(x, n + 7)
  {
    assert ShiftLeft(x, n + 7) == ShiftLeft(2 * x, n + 6) == ShiftLeft(4 * x, n + 5);
    assert ShiftLeft(4 * x, n + 5) == ShiftLeft(8 * x, n + 4) == ShiftLeft(16 * x, n + 3);
    assert ShiftLeft(16 * x, n + 3) == ShiftLeft(32 * x, n + 2) == ShiftLeft(64 * x, n + 1);
  }

  lemma ShiftMonotone(a: nat, b: nat, n: nat)
    requires a <= b
    ensures ShiftLeft(a, n) <= ShiftLeft(b, n)
  {
    ShiftSum(a, b - a, n);
  }

  lemma {:induction false} ShiftMore(m: nat, n: nat)
    requires m <= n
    ensures ShiftLeft(1, m) <= ShiftLeft(1, n)
    decreases n - m
  {
    if m < n {
      ShiftMore(m, n - 1);
      ShiftMonotone(1, 2, n - 1);
    }
  }

  lemma ShiftByWord(x: nat)
    ensures ShiftLeft(x, 63) == x * (UINT64_RANGE / 2)
  {
    ShiftBySeven(x, 56); ShiftBySeven(128 * x, 49); ShiftBySeven(128 * (128 * x), 42);
    var y := 128 * (128 * (128 * x));
    ShiftBySeven(y, 35); ShiftBySeven(128 * y, 28); ShiftBySeven(128 * (128 * y), 21);
    var z := 128 * (128 * (128 * y));
    ShiftBySeven(z, 14); ShiftBySeven(128 * z, 7); ShiftBySeven(128 * (128 * z), 0);
  }

  lemma SmallIsItself(x: nat)
    requires x < UINT64_RANGE
    ensures x % UINT64_RANGE == x
  {
  }

  lemma TopBit(low: nat)
    requires low < 128
    ensures low * (UINT64_RANGE / 2) % UINT64_RANGE == low % 2 * (UINT64_RANGE / 2)
  {
    DivModUnique(low * (UINT64_RANGE / 2), UINT64_RANGE, low / 2, low % 2 * (UINT64_RANGE / 2));
  }

  /** What one more byte contributes: all of it, except that the tenth byte keeps one bit. */
  lemma ByteTerm(low: nat, left: nat, shift: nat)
    requires 1 <= left <= 10 && shift == 7 * (10 - left) && low < 128
    ensures ShiftLeft64(low, shift) == ShiftLeft(if left == 1 then low % 2 else low, shift)
  {
    ShiftByWord(1);
    if left > 1 {
      ShiftMonotone(low, 128, shift);
      ShiftBySeven(1, shift);
      ShiftMore(shift + 7, 63);
      SmallIsItself(ShiftLeft(low, shift));
    } else {
      ShiftByWord(low);
      ShiftByWord(low % 2);
      TopBit(low);
    }
  }

  lemma NextByte(all: Bytes, rest: Bytes, left: nat, v: nat, shift: nat)
    requires rest != [] && SoFar(all, rest, left, v, shift)
    ensures var v' := OrByte(v, rest[0], shift);
      if rest[0] < 128 then ReadVarint(all) == Varint(v', rest[1..])
      else if left == 1 then shift + 7 >= 64 && ReadVarint(all) == BadVarint(rest[1..])
      else shift + 7 < 64 && SoFar(all, rest[1..], left - 1, v', shift + 7)
  {
    var b := rest[0];
    var low := b % 128;
    ByteTerm(low, left, shift);
    if b < 128 {
      assert low == b && b % 2 == low % 2;
    } else if left > 1 {
      ShiftSum(1, low, shift);
      ShiftMonotone(1 + low, 128, shift);
      ShiftBySeven(1, shift);
      match ReadVarintBytes(rest[1..], left - 1)
      case BadVarint(_) =>
      case Varint(high, _) =>
        ShiftSum(low, 128 * high, shift);
        ShiftBySeven(high, shift);
    }
  }
}
