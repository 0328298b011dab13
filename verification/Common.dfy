/** Types shared by every module: bytes, options, and the status codes of the library. */
module Common {
  type byte = b: int | 0 <= b < 256
  type Bytes = seq<byte>

  const SIZE_MAX: nat := 0xFFFF_FFFF_FFFF_FFFF
  const UINT64_RANGE: nat := 0x1_0000_0000_0000_0000
  const UINT32_RANGE: nat := 0x1_0000_0000

  type uint64 = x: int | 0 <= x < 0x1_0000_0000_0000_0000
  type uint32 = x: int | 0 <= x < 0x1_0000_0000

  datatype Option<+T> = None | Some(value: T)

  /** The status codes (`include/otlp-c/status.h`) that the modelled functions return. */
  datatype Status =
    | Ok
    | ErrInvalidArgument
    | ErrNoMem
    | ErrNull
    | ErrOverflow
    | ErrUtf8
    | ErrNetwork
    | ErrBufferFull
    | ErrShutdown

  function Min(a: nat, b: nat): nat { if a < b then a else b }
  function Max(a: nat, b: nat): nat { if a < b then b else a }

  function Pow2(n: nat): (p: nat)
    ensures p >= 1
  {
    if n == 0 then 1 else 2 * Pow2(n - 1)
  }

  /** ASCII lower case */
  function Lower(c: byte): byte { if 65 <= c <= 90 then c + 32 else c }

  predicate AllZero(b: Bytes) { forall i :: 0 <= i < |b| ==> b[i] == 0 }

  // ---------------------------------------------------------------- division

  lemma MulAtLeast(c: nat, m: int)
    requires m >= 1
    ensures c * m >= c
  {
    assert c * m == c * (m - 1) + c;
    assert c * (m - 1) >= 0;
  }

  /** Euclidean division is unique. */
  lemma DivModUnique(a: nat, c: nat, q: int, r: nat)
    requires c > 0 && r < c && a == c * q + r
    ensures a / c == q && a % c == r
  {
    var m := q - a / c;
    assert c * m == c * q - c * (a / c) == a % c - r;
    if m >= 1 {
      MulAtLeast(c, m);
    } else if m <= -1 {
      MulAtLeast(c, -m);
    }
  }

  // ---------------------------------------------------------------- slots of a ring

  /** `k & (c - 1)` for a power of two c: the slot of ticket k in a ring of c slots. */
  function SlotIndex(k: nat, c: nat): (i: nat)
    requires c > 0
    ensures i < c
  {
    if k < c then k else SlotIndex(k - c, c)
  }

  lemma {:induction false} SlotIndexIsMod(k: nat, c: nat)
    requires c > 0
    ensures SlotIndex(k, c) == k % c
  {
    if k < c {
      DivModUnique(k, c, 0, k);
    } else {
      SlotIndexIsMod(k - c, c);
      DivModUnique(k, c, (k - c) / c + 1, (k - c) % c);
    }
  }

  /** One turn later a ticket is back in the same slot. */
  lemma NextTurn(k: nat, c: nat)
    requires c > 0
    ensures SlotIndex(k + c, c) == SlotIndex(k, c)
  {
  }

  /** Two tickets less than a whole turn apart never share a slot. */
  lemma {:induction false} SlotsDistinct(a: nat, b: nat, c: nat)
    requires a < b < a + c
    ensures SlotIndex(a, c) != SlotIndex(b, c)
  {
    if a >= c { SlotsDistinct(a - c, b - c, c); }
  }

  lemma WindowSlotsDistinct(k: nat, lo: nat, c: nat)
    requires c > 0 && lo <= k < lo + c
    ensures forall j: nat :: lo <= j < lo + c && j != k ==> SlotIndex(j, c) != SlotIndex(k, c)
  {
    forall j: nat | lo <= j < lo + c && j != k ensures SlotIndex(j, c) != SlotIndex(k, c) {
      if j < k { SlotsDistinct(j, k, c); } else { SlotsDistinct(k, j, c); }
    }
  }
}
