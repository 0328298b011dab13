/** The ring of src/mpsc_queue.c used by one thread at a time: a bounded FIFO. */
module MpscQueueModel {
  import opened Common

  datatype Slot<T> = Slot(turn: nat, data: Option<T>)

  /** sizeof(struct mpsc_slot) with 64-bit pointers. */
  const SLOT_BYTES: nat := 16

  predicate IsPow2(n: nat) {
    n == 1 || (n > 1 && n % 2 == 0 && IsPow2(n / 2))
  }

  predicate CapacityAccepted(capacity: nat) {
    IsPow2(capacity) && capacity <= SIZE_MAX / SLOT_BYTES
  }

  class MpscQueue<T> {
    var slots: array<Slot<T>>
    var head: nat
    var tail: nat
    ghost var Contents: seq<T> // the queued items, oldest first

    /** Rings of two or more slots; capacity one is the exception that `MpscRing` describes. */
    ghost predicate Valid()
      reads this, slots
    {
      var c := slots.Length;
      && c >= 2
      && tail <= head <= tail + c && |Contents| == head - tail
      && (forall k: nat :: tail <= k < head ==>
            slots[SlotIndex(k, c)] == Slot(k + 1, Some(Contents[k - tail])))
      && (forall k: nat :: head <= k < tail + c ==> slots[SlotIndex(k, c)].turn == k)
    }

    /** Every slot starts with its own index as its turn (lines 67 to 69). */
    constructor (capacity: nat)
      requires CapacityAccepted(capacity)
      ensures fresh(slots) && slots.Length == capacity && head == tail == 0 && Contents == []
      ensures forall i :: 0 <= i < capacity ==> slots[i] == Slot(i, None)
      ensures capacity >= 2 ==> Valid()
    {
      head, tail, Contents := 0, 0, [];
      slots := new Slot<T>[capacity](i => Slot(if i < 0 then 0 else i, None));
    }

    /** `mpsc_queue_init`; `memoryOk` tells whether the slot array could be allocated. */
    static method Init(capacity: nat, memoryOk: bool) returns (st: Status, q: MpscQueue?<T>)
      ensures st == Ok <==> CapacityAccepted(capacity) && memoryOk
      ensures st == ErrInvalidArgument <==> !CapacityAccepted(capacity)
      ensures st == ErrNoMem <==> CapacityAccepted(capacity) && !memoryOk
      ensures st == Ok <==> q != null
      ensures q != null ==> fresh(q) && fresh(q.slots) && q.slots.Length == capacity
      ensures q != null && capacity >= 2 ==> q.Valid() && q.Contents == []
    {
      q := null;
      if !IsPow2(capacity) || capacity > SIZE_MAX / SLOT_BYTES { return ErrInvalidArgument, null; }
      if !memoryOk { return ErrNoMem, null; }
      q := new MpscQueue(capacity);
      st := Ok;
    }

    /** The CAS loop of push (lines 90 to 114): takes the next ticket unless the ring is full.
        The CAS is the weak one: it may fail `spurious` times before it succeeds. */
    method TakeTicket(spurious: nat) returns (st: Status, h: nat)
      requires Valid()
      modifies this`head
      ensures h == old(head)
      ensures st == (if old(head) - tail < slots.Length then Ok else ErrBufferFull)
      ensures head == old(head) + (if st == Ok then 1 else 0)
    {
      var c := slots.Length;
      var failures := spurious;
      h := head;
      NextTurn(tail, c);
      while true
        invariant h == head == old(head)
        decreases failures
      {
        var turn := slots[SlotIndex(h, c)].turn;
        if turn == h {
          if head == h && failures == 0 { head := h + 1; return Ok, h; }
          h, failures := head, failures - 1;
        } else if turn < h {
          return ErrBufferFull, h;
        } else {
          h := head;
          assert false;
        }
      }
    }

    method Push(item: T, spurious: nat) returns (st: Status)
      requires Valid()
      modifies this, slots
      ensures Valid() && slots == old(slots) && tail == old(tail)
      ensures st == (if |old(Contents)| < slots.Length then Ok else ErrBufferFull)
      ensures Contents == old(Contents) + (if st == Ok then [item] else [])
    {
      var c := slots.Length;
      var h: nat;
      st, h := TakeTicket(spurious);
      if st != Ok { return; }
      WindowSlotsDistinct(h, tail, c);
      var i := SlotIndex(h, c);
      slots[i] := slots[i].(data := Some(item));
      slots[i] := slots[i].(turn := h + 1);
      Contents := Contents + [item];
    }

    method Pop() returns (item: Option<T>)
      requires Valid()
      modifies this, slots
      ensures Valid() && slots == old(slots) && head == old(head)
      ensures item == if old(Contents) == [] then None else Some(old(Contents)[0])
      ensures Contents == if old(Contents) == [] then [] else old(Contents)[1..]
    {
      var c := slots.Length;
      var t := tail;
      var i := SlotIndex(t, c);
      if slots[i].turn != t + 1 { return None; }
      item := slots[i].data;
      WindowSlotsDistinct(t, t, c);
      NextTurn(t, c);
      slots[i] := slots[i].(turn := t + c);
      tail := t + 1;
      Contents := Contents[1..];
    }

    method Size() returns (n: nat)
      requires Valid()
      ensures n == |Contents|
    {
      n := 0;
      if head >= tail { n := head - tail; }
    }
  }
}
