/**
 The slab allocator of src/slab.c: an arena of equal slots, a flag for each slot and a stack of
 the free ones. Blocks of the allocator behind it are opaque addresses outside the arena.
 */
module SlabModel {
  import opened Common

  /** An address; 0 is NULL. */
  type Addr = nat

  // ---------------------------------------------------------------- arithmetic of slots

  const ALIGN: nat := 8

  /** (v + 7) & ~7 */
  function RoundUp(v: nat): (r: nat)
    ensures v <= r < v + ALIGN && r % ALIGN == 0
  {
    (v + ALIGN - 1) / ALIGN * ALIGN
  }

  function SlotAt(base: Addr, size: nat, i: nat): Addr { base + size * i }

  lemma SlotsOrdered(size: nat, i: nat, j: nat)
    requires i < j
    ensures size * i + size <= size * j
  {
    assert size * j == size * i + size + size * (j - i - 1);
    assert size * (j - i - 1) >= 0;
  }

  /** Two slots have no byte in common. */
  lemma SlotsDisjoint(base: Addr, size: nat, i: nat, j: nat, a: Addr)
    requires i != j && SlotAt(base, size, i) <= a < SlotAt(base, size, i) + size
    ensures !(SlotAt(base, size, j) <= a < SlotAt(base, size, j) + size)
  {
    if i < j { SlotsOrdered(size, i, j); } else { SlotsOrdered(size, j, i); }
  }

  /** The slot of an address is found by division. */
  lemma SlotFound(base: Addr, size: nat, i: nat, d: nat)
    requires d < size
    ensures (SlotAt(base, size, i) + d - base) / size == i
  {
    DivModUnique(size * i + d, size, i, d);
  }

  lemma SlotInArena(base: Addr, size: nat, i: nat, capacity: nat)
    requires i < capacity
    ensures SlotAt(base, size, i) + size <= base + size * capacity
  {
    if i + 1 < capacity { SlotsOrdered(size, i + 1, capacity); SlotsOrdered(size, i, i + 1); }
  }

  lemma SlotsMonotone(size: nat, i: nat, j: nat)
    ensures i <= j ==> size * i <= size * j
  {
    if i < j { SlotsOrdered(size, i, j); }
  }

  lemma SlotBelowCapacity(size: nat, off: nat, capacity: nat)
    requires size > 0 && off < size * capacity
    ensures off / size < capacity
  {
    var q := off / size;
    assert off == size * q + off % size;
    SlotsMonotone(size, capacity, q);
  }

  // ---------------------------------------------------------------- the free stack

  /** The stack holds each unused slot exactly once, and nothing else. */
  ghost predicate StackOf(stack: seq<nat>, used: seq<bool>) {
    (forall k :: 0 <= k < |stack| ==> stack[k] < |used| && !used[stack[k]]) &&
    (forall j, k :: 0 <= j < k < |stack| ==> stack[j] != stack[k]) &&
    (forall i :: 0 <= i < |used| && !used[i] ==> i in stack)
  }

  function UsedCount(used: seq<bool>): (n: nat)
    ensures n <= |used|
  {
    if used == [] then 0 else UsedCount(used[..|used| - 1]) + if used[|used| - 1] then 1 else 0
  }

  lemma {:induction false} UsedCountChange(used: seq<bool>, i: nat)
    requires i < |used|
    ensures UsedCount(used[i := true]) == UsedCount(used[i := false]) + 1
  {
    var n := |used| - 1;
    if i == n {
      assert used[i := true][..n] == used[..n] == used[i := false][..n];
    } else {
      assert used[i := true][..n] == used[..n][i := true];
      assert used[i := false][..n] == used[..n][i := false];
      UsedCountChange(used[..n], i);
    }
  }

  lemma PopKeepsStack(stack: seq<nat>, used: seq<bool>)
    requires StackOf(stack, used) && stack != []
    ensures var i := stack[|stack| - 1];
      i < |used| && !used[i] && StackOf(stack[..|stack| - 1], used[i := true])
  {
    var n := |stack| - 1;
    var rest := stack[..n];
    var i := stack[n];
    var used' := used[i := true];
    forall j | 0 <= j < |used'| && !used'[j] ensures j in rest {
      assert j in stack;
      var k :| 0 <= k < |stack| && stack[k] == j;
      assert rest[k] == j;
    }
  }

  lemma PushKeepsStack(stack: seq<nat>, used: seq<bool>, i: nat)
    requires StackOf(stack, used) && i < |used| && used[i]
    ensures StackOf(stack + [i], used[i := false])
  {
    var used' := used[i := false];
    forall j | 0 <= j < |used'| && !used'[j] ensures j in stack + [i] {
      if j != i { assert j in stack; }
    }
  }

  /** The slots in use and the free ones are all slots. */
  lemma {:induction false} StackCounts(stack: seq<nat>, used: seq<bool>)
    requires StackOf(stack, used)
    ensures UsedCount(used) + |stack| == |used|
    decreases |stack|
  {
    if stack == [] {
      AllUsed(used);
    } else {
      var i := stack[|stack| - 1];
      PopKeepsStack(stack, used);
      StackCounts(stack[..|stack| - 1], used[i := true]);
      UsedCountChange(used, i);
      assert used[i := false] == used;
    }
  }

  lemma {:induction false} AllUsed(used: seq<bool>)
    requires forall i :: 0 <= i < |used| ==> used[i]
    ensures UsedCount(used) == |used|
  {
    if used != [] { AllUsed(used[..|used| - 1]); }
  }

  /** otlp_slab_stats_t without the sizes */
  datatype Stats = Stats(
    allocCount: nat, slabHits: nat, mallocFallbacks: nat, freeCount: nat, slabFreeHits: nat,
    freeFallbacks: nat, inUse: nat)

  class Slab {
    const slotSize: nat
    const capacity: nat
    const arena: Addr
    const used: array<bool>
    const freeStack: array<nat>
    /** The contents of the slots, and of the blocks of the allocator behind the slab. */
    const slots: array<Bytes>
    var blocks: map<Addr, Bytes>
    var freeTop: nat
    var inUse: nat
    var stats: Stats

    ghost predicate Valid()
      reads this, used, freeStack, slots
    {
      ValidBut(stats.allocCount)
    }

    /** Valid, when `calls` calls to allocate are over. */
    ghost predicate ValidBut(calls: nat)
      reads this, used, freeStack, slots
    {
      slotSize > 0 && arena > 0 && used.Length == freeStack.Length == slots.Length == capacity &&
      freeTop <= capacity && StackOf(freeStack[..freeTop], used[..]) &&
      inUse + freeTop == capacity && stats.inUse == inUse &&
      inUse + stats.slabFreeHits == stats.slabHits &&
      calls == stats.slabHits + stats.mallocFallbacks &&
      (forall i :: 0 <= i < capacity ==> |slots[i]| == slotSize) &&
      (forall p :: p in blocks ==> p > 0 && !InArena(p))
    }

    predicate InArena(p: Addr) { arena <= p < arena + slotSize * capacity }

    /** `off / slot_size` for an address in the arena */
    function SlotOf(p: Addr): (i: nat)
      requires InArena(p) && slotSize > 0
      ensures i < capacity
    {
      SlotBelowCapacity(slotSize, p - arena, capacity);
      (p - arena) / slotSize
    }

    function AddrOf(i: nat): Addr { SlotAt(arena, slotSize, i) }

    /** otlp_slab_create once its blocks are allocated; slot 0 is on top of the stack. */
    constructor (slotSize: nat, capacity: nat, arena: Addr)
      requires slotSize > 0 && capacity > 0 && arena > 0
      ensures Valid() && this.slotSize == RoundUp(slotSize) && this.capacity == capacity
      ensures freeTop == capacity && inUse == 0 && fresh(used) && fresh(freeStack) && fresh(slots)
      ensures forall i :: 0 <= i < capacity ==> freeStack[i] == capacity - 1 - i
    {
      this.slotSize := RoundUp(slotSize);
      this.capacity := capacity;
      this.arena := arena;
      used := new bool[capacity](i => false);
      freeStack := new nat[capacity](i requires 0 <= i < capacity => capacity - 1 - i);
      slots := new Bytes[capacity](i => seq(RoundUp(slotSize), j => 0));
      blocks := map[];
      freeTop := capacity;
      inUse := 0;
      stats := Stats(0, 0, 0, 0, 0, 0, 0);
      new;
      forall i | 0 <= i < capacity ensures i in freeStack[..freeTop] {
        assert freeStack[..freeTop][capacity - 1 - i] == i;
      }
    }

    /** otlp_slab_create: nothing for a size or a capacity of zero, or when memory runs out. */
    static method Create(slotSize: nat, capacity: nat, arena: Addr, memoryOk: bool)
      returns (slab: Slab?)
      requires arena > 0
      ensures slab != null <==> slotSize > 0 && capacity > 0 && memoryOk
      ensures slab != null ==>
        slab.Valid() && fresh(slab) && slab.slotSize == RoundUp(slotSize) &&
        slab.capacity == capacity && slab.inUse == 0
    {
      if slotSize == 0 || capacity == 0 || !memoryOk { return null; }
      slab := new Slab(slotSize, capacity, arena);
    }

    /** The allocator behind the slab: NULL, or a new block outside the arena. */
    method Malloc(n: nat) returns (p: Addr)
      requires Valid()
      modifies this`blocks
      ensures Valid() && (p == 0 ==> blocks == old(blocks))
      ensures p != 0 ==>
        !InArena(p) && p !in old(blocks) && p in blocks && |blocks[p]| == n &&
        blocks == old(blocks)[p := blocks[p]]
    {
      p := *;
      if p == 0 || p in blocks || (arena <= p < arena + slotSize * capacity) { return 0; }
      blocks := blocks[p := seq(n, i => 0)];
    }

    /** The slot on top of the stack, once the call was counted. */
    method TakeSlot() returns (p: Addr)
      requires freeTop > 0 && stats.allocCount > 0
      requires ValidBut(stats.allocCount - 1)
      modifies this`freeTop, this`inUse, this`stats, used
      ensures Valid() && stats.slabFreeHits == old(stats).slabFreeHits
      ensures stats.slabHits == old(stats).slabHits + 1
      ensures var i := old(freeStack[freeTop - 1]);
        i < capacity && p == AddrOf(i) && !old(used[i]) && used[..] == old(used[..])[i := true]
    {
      PopKeepsStack(freeStack[..freeTop], used[..]);
      freeTop := freeTop - 1;
      var i := freeStack[freeTop];
      assert freeStack[..freeTop + 1][..freeTop] == freeStack[..freeTop];
      used[i] := true;
      inUse := inUse + 1;
      stats := stats.(inUse := inUse, slabHits := stats.slabHits + 1);
      return arena + slotSize * i;
    }

    /** otlp_slab_alloc */
    method Alloc(size: nat) returns (p: Addr)
      requires Valid()
      modifies this`freeTop, this`inUse, this`stats, this`blocks, used
      ensures Valid() && stats.slabFreeHits == old(stats).slabFreeHits
      ensures if size <= slotSize && old(freeTop) > 0 then
          var i := old(freeStack[freeTop - 1]);
          i < capacity && p == AddrOf(i) && !old(used[i]) && used[..] == old(used[..])[i := true] &&
          blocks == old(blocks) && stats.slabHits == old(stats).slabHits + 1
        else
          used[..] == old(used[..]) && freeTop == old(freeTop) &&
          stats.mallocFallbacks == old(stats).mallocFallbacks + 1 &&
          (p != 0 ==>
            !InArena(p) && p !in old(blocks) && p in blocks && |blocks[p]| == size &&
            blocks == old(blocks)[p := blocks[p]])
      ensures p == 0 ==> blocks == old(blocks)
    {
      stats := stats.(allocCount := stats.allocCount + 1);
      if size <= slotSize && freeTop > 0 {
        p := TakeSlot();
        return;
      }
      stats := stats.(mallocFallbacks := stats.mallocFallbacks + 1);
      p := Malloc(size);
    }

    /** What both ways to free do with a slot. */
    method ReturnSlot(i: nat)
      requires Valid() && i < capacity && used[i]
      modifies this`freeTop, this`inUse, this`stats, used, freeStack
      ensures Valid() && used[..] == old(used[..])[i := false] && freeTop == old(freeTop) + 1
      ensures freeStack[..freeTop] == old(freeStack[..freeTop]) + [i]
      ensures stats == old(stats).(inUse := inUse, slabFreeHits := old(stats).slabFreeHits + 1)
    {
      ghost var stack, was := freeStack[..freeTop], used[..];
      StackCounts(stack, was);
      PushKeepsStack(stack, was, i);
      UsedIsPositive(was, i);
      used[i] := false;
      inUse := inUse - 1;
      stats := stats.(inUse := inUse, slabFreeHits := stats.slabFreeHits + 1);
      freeStack[freeTop] := i;
      freeTop := freeTop + 1;
      assert freeStack[..freeTop] == stack + [i];
      assert used[..] == was[i := false];
    }

    /** otlp_slab_free_ptr: an address of a slot that is not in use is ignored. */
    method FreePtr(p: Addr)
      requires Valid() && (p != 0 && !InArena(p) ==> p in blocks)
      modifies this`freeTop, this`inUse, this`stats, this`blocks, used, freeStack
      ensures Valid()
      ensures if p != 0 && InArena(p) && old(used[SlotOf(p)]) then
          used[..] == old(used[..])[SlotOf(p) := false] && blocks == old(blocks) &&
          stats.slabFreeHits == old(stats).slabFreeHits + 1
        else
          used[..] == old(used[..]) && freeTop == old(freeTop) && inUse == old(inUse) &&
          freeStack[..] == old(freeStack[..]) && stats.slabFreeHits == old(stats).slabFreeHits &&
          blocks == if p == 0 || InArena(p) then old(blocks) else old(blocks) - {p}
    {
      if p == 0 { return; }
      stats := stats.(freeCount := stats.freeCount + 1);
      if InArena(p) {
        var i := SlotOf(p);
        if i < capacity && used[i] { ReturnSlot(i); }
        return;
      }
      stats := stats.(freeFallbacks := stats.freeFallbacks + 1);
      blocks := blocks - {p};
    }

    /** `in_use` is the number of slots that are in use. */
    lemma InUseCounts()
      requires Valid()
      ensures UsedCount(used[..]) == inUse == stats.slabHits - stats.slabFreeHits
    {
      StackCounts(freeStack[..freeTop], used[..]);
    }

    // -------------------------------------------------------------- the installed allocator

    /** A block that may be freed: a slot in use, by its first byte, or a block behind the slab. */
    ghost predicate Live(p: Addr)
      requires Valid()
      reads this, used, freeStack, slots
    {
      if InArena(p) then used[SlotOf(p)] && p == AddrOf(SlotOf(p)) else p in blocks
    }

    ghost function Content(p: Addr): Bytes
      requires Valid() && Live(p)
      reads this, used, freeStack, slots
    {
      if InArena(p) then slots[SlotOf(p)] else blocks[p]
    }

    /** slab_alloc_hook */
    method AllocHook(n: nat) returns (p: Addr)
      requires Valid()
      modifies this`freeTop, this`inUse, this`stats, this`blocks, used
      ensures Valid() && (p != 0 ==> Live(p) && |Content(p)| >= n && !old(Valid() && Live(p)))
      ensures forall q :: old(Live(q)) ==> Live(q) && Content(q) == old(Content(q))
      ensures forall i :: 0 <= i < capacity && old(used[i]) ==> used[i]
    {
      if n <= slotSize {
        ghost var i := if freeTop > 0 then freeStack[freeTop - 1] else 0;
        p := Alloc(n);
        if i < capacity { SlotInArena(arena, slotSize, i, capacity); SlotFound(arena, slotSize, i, 0); }
      } else {
        p := Malloc(n);
      }
    }

    /** slab_free_hook */
    method FreeHook(p: Addr)
      requires Valid() && (p == 0 || Live(p))
      modifies this`freeTop, this`inUse, this`stats, this`blocks, used, freeStack
      ensures Valid()
      ensures p != 0 ==> !Live(p)
      ensures forall q :: q != p && old(Live(q)) ==> Live(q) && Content(q) == old(Content(q))
    {
      if p != 0 && InArena(p) {
        var i := SlotOf(p);
        if i < capacity && used[i] {
          ReturnSlot(i);
          stats := stats.(freeCount := stats.freeCount + 1);
          return;
        }
      }
      blocks := blocks - {p};
    }

    /** memcpy into a block that is live */
    method Copy(to: Addr, bytes: Bytes)
      requires Valid() && Live(to) && |bytes| <= |Content(to)|
      modifies this`blocks, slots
      ensures Valid() && Live(to) && Content(to) == bytes + old(Content(to))[|bytes|..]
      ensures forall q :: q != to && old(Live(q)) ==> Live(q) && Content(q) == old(Content(q))
    {
      if InArena(to) {
        var i := SlotOf(to);
        slots[i] := bytes + slots[i][|bytes|..];
      } else {
        blocks := blocks[to := bytes + blocks[to][|bytes|..]];
      }
    }

    /** slab_realloc_hook: a block in the arena moves, and its bytes move with it. */
    method ReallocHook(p: Addr, n: nat) returns (np: Addr)
      requires Valid() && (p == 0 || Live(p))
      modifies this`freeTop, this`inUse, this`stats, this`blocks, used, freeStack, slots
      ensures Valid()
      ensures np != 0 ==> Live(np) && |Content(np)| >= n
      ensures np != 0 && p != 0 ==>
        (np != p ==> !Live(p)) &&
        var kept := if |old(Content(p))| < n then |old(Content(p))| else n;
        kept <= |Content(np)| && Content(np)[..kept] == old(Content(p))[..kept]
      ensures np == 0 && p != 0 && n != 0 ==> Live(p) && Content(p) == old(Content(p))
      ensures np == 0 && p != 0 && n == 0 ==> !Live(p)
      ensures forall q :: q != p && old(Live(q)) ==> q != np && Live(q) && Content(q) == old(Content(q))
    {
      if p == 0 {
        np := AllocHook(n);
        return;
      }
      if n == 0 {
        FreeHook(p);
        return 0;
      }
      if InArena(p) {
        np := MoveOut(p, n);
        return;
      }
      np := ReallocBehind(p, n);
    }

    method MoveOut(p: Addr, n: nat) returns (np: Addr)
      requires Valid() && Live(p) && InArena(p)
      modifies this`freeTop, this`inUse, this`stats, this`blocks, used, freeStack, slots
      ensures Valid()
      ensures np == 0 ==> Live(p) && Content(p) == old(Content(p))
      ensures np != 0 ==>
        Live(np) && |Content(np)| >= n && !Live(p) &&
        var kept := if slotSize < n then slotSize else n;
        Content(np)[..kept] == old(Content(p))[..kept]
      ensures forall q :: q != p && old(Live(q)) ==> q != np && Live(q) && Content(q) == old(Content(q))
    {
      ghost var was := Content(p);
      np := AllocHook(n);
      if np == 0 { return; }
      var copy := if slotSize < n then slotSize else n;
      var bytes := slots[SlotOf(p)][..copy];
      Copy(np, bytes);
      ghost var moved := Content(np);
      FreeHook(p);
      assert Content(np) == moved && moved[..copy] == bytes == was[..copy];
    }

    /** realloc of the allocator behind the slab; it may keep the block where it is. */
    method ReallocBehind(p: Addr, n: nat) returns (np: Addr)
      requires Valid() && p in blocks && n != 0
      modifies this`blocks
      ensures Valid() && (np == 0 ==> blocks == old(blocks))
      ensures np != 0 ==>
        !InArena(np) && np in blocks && |blocks[np]| == n && (np == p || np !in old(blocks)) &&
        blocks == (old(blocks) - {p})[np := blocks[np]] &&
        var kept := if |old(blocks)[p]| < n then |old(blocks)[p]| else n;
        blocks[np][..kept] == old(blocks)[p][..kept]
    {
      var was := blocks[p];
      var kept := if |was| < n then |was| else n;
      var stays: bool := *;
      if stays {
        blocks := blocks[p := was[..kept] + seq(n - kept, i => 0)];
        return p;
      }
      np := Malloc(n);
      if np == 0 { return; }
      blocks := blocks[np := was[..kept] + blocks[np][kept..]] - {p};
    }
  }

  lemma {:induction false} UsedIsPositive(used: seq<bool>, i: nat)
    requires i < |used| && used[i]
    ensures UsedCount(used) > 0
  {
    if i < |used| - 1 { UsedIsPositive(used[..|used| - 1], i); }
  }
}
