/**
 The lock-free ring of src/mpsc_queue.c as a state machine over its atomic steps: any number
 of producers, one consumer, sequentially consistent memory. Every atomic load, CAS and store
 of `mpsc_queue_push` and `mpsc_queue_pop` is one step, and a step may interleave with any
 step of any other thread. `tickets`, `popped` and `accepted` record history: no step reads
 them.
 */
module MpscRing {
  import opened Common

  datatype Slot<T> = Slot(turn: nat, data: Option<T>)

  /** What a producer does next inside `mpsc_queue_push`; a producer absent from the map is
      outside the function. */
  datatype Producer<T> =
    | LoadHead(item: T)           // lines 90 and 111
    | LoadSeq(item: T, h: nat)    // line 94, and the branch on `diff`
    | CasHead(item: T, h: nat)    // line 98
    | WriteData(item: T, h: nat)  // line 116
    | Publish(item: T, h: nat)    // line 118

  /** What the consumer does next inside `mpsc_queue_pop`. */
  datatype Consumer<T> =
    | Outside
    | LoadSlotSeq(t: nat)                  // line 127
    | ReadData(t: nat)                     // line 133
    | ReleaseSlot(t: nat, data: Option<T>) // line 134
    | StoreTail(t: nat, data: Option<T>)   // line 136

  datatype Ring<T> = Ring(
    slots: seq<Slot<T>>,
    head: nat,
    tail: nat,
    producers: map<nat, Producer<T>>,
    consumer: Consumer<T>,
    tickets: seq<(nat, T)>,       // (producer, item) in the order of the successful CASes
    popped: seq<Option<T>>,       // what the consumer read, one entry per released slot
    accepted: map<nat, seq<T>>)   // per producer, the items whose push returned OK
  {
    function Capacity(): nat { |slots| }

    function Accepted(p: nat): seq<T> {
      if p in accepted then accepted[p] else []
    }

    /** The tickets a producer holds but has not published or the consumer has not released. */
    function Outstanding(): int { head - |popped| }
  }

  datatype Step<T> =
    | BeginPush(p: nat, item: T)
    | PushStep(p: nat, spurious: bool) // `spurious`: the weak CAS fails although head == h
    | BeginPop
    | PopStep

  /** What a step tells the caller of push or pop. */
  datatype Event<T> =
    | Silent
    | PushedOk(p: nat)
    | BufferFull(p: nat)
    | CasFailed(p: nat)
    | PopNull
    | PopItem(data: Option<T>)

  function Init<T>(capacity: nat): Ring<T> {
    Ring(seq(capacity, i requires 0 <= i < capacity => Slot(i, None)), 0, 0, map[], Outside, [], [], map[])
  }

  function PushOne<T>(s: Ring<T>, p: nat, spurious: bool): (Ring<T>, Event<T>)
    requires p in s.producers && s.Capacity() > 0
  {
    match s.producers[p]
    case LoadHead(x) =>
      (s.(producers := s.producers[p := LoadSeq(x, s.head)]), Silent)
    case LoadSeq(x, h) =>
      var seqNo := s.slots[SlotIndex(h, s.Capacity())].turn;
      if seqNo == h then
        (s.(producers := s.producers[p := CasHead(x, h)]), Silent)
      else if seqNo < h then
        (s.(producers := s.producers - {p}), BufferFull(p))
      else
        (s.(producers := s.producers[p := LoadHead(x)]), Silent)
    case CasHead(x, h) =>
      if s.head == h && !spurious then
        (s.(head := h + 1, producers := s.producers[p := WriteData(x, h)], tickets := s.tickets + [(p, x)]), Silent)
      else
        (s.(producers := s.producers[p := LoadSeq(x, s.head)]), CasFailed(p))
    case WriteData(x, h) =>
      var i := SlotIndex(h, s.Capacity());
      (s.(slots := s.slots[i := s.slots[i].(data := Some(x))], producers := s.producers[p := Publish(x, h)]), Silent)
    case Publish(x, h) =>
      var i := SlotIndex(h, s.Capacity());
      (s.(slots := s.slots[i := s.slots[i].(turn := h + 1)],
          producers := s.producers - {p},
          accepted := s.accepted[p := s.Accepted(p) + [x]]), PushedOk(p))
  }

  function PopOne<T>(s: Ring<T>): (Ring<T>, Event<T>)
    requires !s.consumer.Outside? && s.Capacity() > 0
  {
    match s.consumer
    case LoadSlotSeq(t) =>
      if s.slots[SlotIndex(t, s.Capacity())].turn == t + 1 then
        (s.(consumer := ReadData(t)), Silent)
      else
        (s.(consumer := Outside), PopNull)
    case ReadData(t) =>
      (s.(consumer := ReleaseSlot(t, s.slots[SlotIndex(t, s.Capacity())].data)), Silent)
    case ReleaseSlot(t, d) =>
      var i := SlotIndex(t, s.Capacity());
      (s.(slots := s.slots[i := s.slots[i].(turn := t + s.Capacity())],
          consumer := StoreTail(t, d),
          popped := s.popped + [d]), Silent)
    case StoreTail(t, d) =>
      (s.(tail := t + 1, consumer := Outside), PopItem(d))
  }

  predicate Enabled<T>(s: Ring<T>, step: Step<T>) {
    s.Capacity() > 0 &&
    match step
    case BeginPush(p, _) => p !in s.producers
    case PushStep(p, _) => p in s.producers
    case BeginPop => s.consumer.Outside?
    case PopStep => !s.consumer.Outside?
  }

  function Next<T>(s: Ring<T>, step: Step<T>): (Ring<T>, Event<T>)
    requires Enabled(s, step)
  {
    match step
    case BeginPush(p, x) => (s.(producers := s.producers[p := LoadHead(x)]), Silent)
    case PushStep(p, spurious) => PushOne(s, p, spurious)
    case BeginPop => (s.(consumer := LoadSlotSeq(s.tail)), Silent) // line 125
    case PopStep => PopOne(s)
  }

  /** `s'` is what `s` becomes after the steps, each of them enabled where it runs. */
  ghost predicate Runs<T>(s: Ring<T>, steps: seq<Step<T>>, s': Ring<T>)
    decreases |steps|
  {
    if steps == [] then s' == s
    else Enabled(s, steps[0]) && Runs(Next(s, steps[0]).0, steps[1..], s')
  }

  ghost predicate Reachable<T(!new)>(capacity: nat, s: Ring<T>) {
    s.Capacity() == capacity && exists steps :: Runs(Init(capacity), steps, s)
  }

  // ---------------------------------------------------------------- the invariant

  /** The producer still owes ticket h its data or its publication. */
  predicate Owns<T>(pc: Producer<T>, h: nat) {
    (pc.WriteData? || pc.Publish?) && pc.h == h
  }

  ghost predicate Claimed<T>(s: Ring<T>, k: nat) {
    exists p :: p in s.producers && Owns(s.producers[p], k)
  }

  ghost predicate Published<T>(s: Ring<T>, k: nat)
    requires s.Capacity() > 0
  {
    k < s.head && s.slots[SlotIndex(k, s.Capacity())].turn == k + 1
  }

  /** The turn (`seq` in the source) of the slot of ticket k, for each k of the window that starts at the oldest
      ticket not yet released: exactly one of free, claimed and published. */
  ghost predicate SlotOk<T>(s: Ring<T>, k: nat)
    requires s.Capacity() > 0
  {
    var slot := s.slots[SlotIndex(k, s.Capacity())];
    if k >= s.head then slot.turn == k                       // free for ticket k
    else if slot.turn == k then Claimed(s, k)                // claimed
    else slot.turn == k + 1 && !Claimed(s, k)                // published
         && k < |s.tickets| && slot.data == Some(s.tickets[k].1)
  }

  ghost predicate ProducerOk<T>(s: Ring<T>, p: nat)
    requires p in s.producers && s.Capacity() > 0
  {
    match s.producers[p]
    case LoadHead(_) => true
    case LoadSeq(_, h) => h <= s.head
    case CasHead(_, h) =>
      h <= s.head && (h == s.head ==> h < |s.popped| + s.Capacity())
    case WriteData(x, h) =>
      |s.popped| <= h < s.head && h < |s.tickets| && s.tickets[h] == (p, x)
      && s.slots[SlotIndex(h, s.Capacity())].turn == h
    case Publish(x, h) =>
      |s.popped| <= h < s.head && h < |s.tickets| && s.tickets[h] == (p, x)
      && s.slots[SlotIndex(h, s.Capacity())].turn == h && s.slots[SlotIndex(h, s.Capacity())].data == Some(x)
  }

  ghost predicate ConsumerOk<T>(s: Ring<T>)
    requires s.Capacity() > 0
  {
    match s.consumer
    case Outside => s.tail == |s.popped|
    case LoadSlotSeq(t) => t == s.tail == |s.popped|
    case ReadData(t) => t == s.tail == |s.popped| && Published(s, t)
    case ReleaseSlot(t, d) =>
      t == s.tail == |s.popped| && Published(s, t) && t < |s.tickets| && d == Some(s.tickets[t].1)
    case StoreTail(t, d) => t == s.tail && t + 1 == |s.popped| && d == s.popped[t]
  }

  /** Ticket owners are distinct: one producer per claimed ticket. */
  ghost predicate OwnersDistinct<T>(s: Ring<T>) {
    forall p, q :: p in s.producers && q in s.producers && p != q
      && (s.producers[p].WriteData? || s.producers[p].Publish?)
      && (s.producers[q].WriteData? || s.producers[q].Publish?)
      ==> s.producers[p].h != s.producers[q].h
  }

  ghost predicate Inv<T>(s: Ring<T>) {
    && s.Capacity() > 1
    && |s.tickets| == s.head
    && |s.popped| <= s.head <= |s.popped| + s.Capacity()
    && (forall k: nat :: |s.popped| <= k < |s.popped| + s.Capacity() ==> SlotOk(s, k))
    && (forall p :: p in s.producers ==> ProducerOk(s, p))
    && ConsumerOk(s)
    && OwnersDistinct(s)
    && (forall k: nat :: k < |s.popped| ==> s.popped[k] == Some(s.tickets[k].1))
  }

  // ---------------------------------------------------------------- preservation

  lemma InitInv<T>(capacity: nat)
    requires capacity > 1
    ensures Inv(Init<T>(capacity))
  {
    var s := Init<T>(capacity);
    forall k: nat | k < capacity ensures SlotOk(s, k) { }
  }

  /** Some ticket of the window that starts at `lo` uses the slot of a ticket below it. */
  lemma SlotAhead(h: nat, lo: nat, c: nat) returns (k: nat)
    requires c > 0 && h < lo
    ensures lo <= k < lo + c && SlotIndex(k, c) == SlotIndex(h, c)
    decreases lo - h
  {
    if h + c >= lo { k := h + c; } else { k := SlotAhead(h + c, lo, c); }
  }

  predicate IsOwner<T>(pc: Producer<T>) { pc.WriteData? || pc.Publish? }

  /** A step that moves one producer between program points at which it owns no ticket. */
  lemma MoveInv<T>(s: Ring<T>, s': Ring<T>, p: nat)
    requires Inv(s)
    requires s' == s.(producers := s'.producers)
    requires p in s.producers ==> !IsOwner(s.producers[p])
    requires p in s'.producers ==> !IsOwner(s'.producers[p]) && ProducerOk(s', p)
    requires forall q :: q != p ==> (q in s.producers <==> q in s'.producers)
    requires forall q :: q != p && q in s.producers ==> s.producers[q] == s'.producers[q]
    ensures Inv(s')
  {
    forall k: nat ensures Claimed(s, k) == Claimed(s', k) {
      if Claimed(s, k) {
        var q :| q in s.producers && Owns(s.producers[q], k);
        assert q in s'.producers && Owns(s'.producers[q], k);
      }
      if Claimed(s', k) {
        var q :| q in s'.producers && Owns(s'.producers[q], k);
        assert q in s.producers && Owns(s.producers[q], k);
      }
    }
    forall k: nat | |s.popped| <= k < |s.popped| + s.Capacity() ensures SlotOk(s', k) {
      assert SlotOk(s, k);
    }
    forall q | q in s'.producers ensures ProducerOk(s', q) {
      if q != p { assert ProducerOk(s, q); }
    }
    assert ConsumerOk(s);
  }

  lemma LoadSeqInv<T>(s: Ring<T>, p: nat)
    requires Inv(s) && p in s.producers && s.producers[p].LoadSeq?
    ensures Inv(PushOne(s, p, false).0)
    ensures PushOne(s, p, false).1.BufferFull? <==>
      s.producers[p].h == s.head && s.Outstanding() == s.Capacity()
  {
    var LoadSeq(x, h) := s.producers[p];
    var c := s.Capacity();
    assert ProducerOk(s, p);
    if h < |s.popped| {
      var k := SlotAhead(h, |s.popped|, c);
      assert SlotOk(s, k);
    } else if h < |s.popped| + c {
      assert SlotOk(s, h);
    } else {
      assert SlotOk(s, |s.popped|);
    }
    MoveInv(s, PushOne(s, p, false).0, p);
  }

  /** A claim of one ticket leaves the claims of all others as they are. */
  lemma OtherClaims<T>(s: Ring<T>, s': Ring<T>, p: nat, h: nat)
    requires p in s.producers && p in s'.producers && s'.producers.Keys == s.producers.Keys
    requires forall q :: q in s.producers && q != p ==> s'.producers[q] == s.producers[q]
    requires forall k: nat :: k != h ==> !Owns(s.producers[p], k) && !Owns(s'.producers[p], k)
    ensures forall k: nat :: k != h ==> (Claimed(s, k) <==> Claimed(s', k))
  {
    forall k: nat | k != h ensures Claimed(s, k) == Claimed(s', k) {
      if Claimed(s, k) {
        var q :| q in s.producers && Owns(s.producers[q], k);
        assert q in s'.producers && Owns(s'.producers[q], k);
      }
      if Claimed(s', k) {
        var q :| q in s'.producers && Owns(s'.producers[q], k);
        assert q in s.producers && Owns(s.producers[q], k);
      }
    }
  }

  lemma CasInv<T>(s: Ring<T>, p: nat, spurious: bool)
    requires Inv(s) && p in s.producers && s.producers[p].CasHead?
    ensures Inv(PushOne(s, p, spurious).0)
  {
    var CasHead(x, h) := s.producers[p];
    var c := s.Capacity();
    var s' := PushOne(s, p, spurious).0;
    assert ProducerOk(s, p);
    if s.head != h || spurious {
      MoveInv(s, s', p);
      return;
    }
    assert SlotOk(s, h);
    OtherClaims(s, s', p, h);
    assert Owns(s'.producers[p], h) && Claimed(s', h);
    forall k: nat | |s.popped| <= k < |s.popped| + c ensures SlotOk(s', k) {
      assert SlotOk(s, k);
    }
    forall q | q in s'.producers ensures ProducerOk(s', q) {
      if q != p { assert ProducerOk(s, q); }
    }
    forall q | q in s.producers && q != p && IsOwner(s.producers[q]) ensures s.producers[q].h != h {
      assert ProducerOk(s, q);
    }
    assert ConsumerOk(s);
  }

  lemma WriteDataInv<T>(s: Ring<T>, p: nat)
    requires Inv(s) && p in s.producers && s.producers[p].WriteData?
    ensures Inv(PushOne(s, p, false).0)
  {
    var WriteData(x, h) := s.producers[p];
    var c := s.Capacity();
    var s' := PushOne(s, p, false).0;
    assert ProducerOk(s, p);
    WindowSlotsDistinct(h, |s.popped|, c);
    forall k: nat ensures Claimed(s, k) == Claimed(s', k) {
      if Claimed(s, k) {
        var q :| q in s.producers && Owns(s.producers[q], k);
        assert q in s'.producers && Owns(s'.producers[q], k);
      }
      if Claimed(s', k) {
        var q :| q in s'.producers && Owns(s'.producers[q], k);
        assert q in s.producers && Owns(s.producers[q], k);
      }
    }
    forall k: nat | |s.popped| <= k < |s.popped| + c ensures SlotOk(s', k) {
      assert SlotOk(s, k);
    }
    forall q | q in s'.producers ensures ProducerOk(s', q) {
      if q != p { assert ProducerOk(s, q); }
    }
    assert ConsumerOk(s);
  }

  lemma PublishInv<T>(s: Ring<T>, p: nat)
    requires Inv(s) && p in s.producers && s.producers[p].Publish?
    ensures Inv(PushOne(s, p, false).0)
  {
    var Publish(x, h) := s.producers[p];
    var c := s.Capacity();
    var s' := PushOne(s, p, false).0;
    assert ProducerOk(s, p);
    WindowSlotsDistinct(h, |s.popped|, c);
    forall k: nat | k != h ensures Claimed(s, k) == Claimed(s', k) {
      if Claimed(s, k) {
        var q :| q in s.producers && Owns(s.producers[q], k);
        assert q in s'.producers && Owns(s'.producers[q], k);
      }
      if Claimed(s', k) {
        var q :| q in s'.producers && Owns(s'.producers[q], k);
        assert q in s.producers && Owns(s.producers[q], k);
      }
    }
    assert !Claimed(s', h) by {
      forall q | q in s'.producers ensures !Owns(s'.producers[q], h) {}
    }
    forall k: nat | |s.popped| <= k < |s.popped| + c ensures SlotOk(s', k) {
      assert SlotOk(s, k);
    }
    forall q | q in s'.producers ensures ProducerOk(s', q) {
      assert ProducerOk(s, q);
    }
    assert ConsumerOk(s);
  }

  lemma ReleaseInv<T>(s: Ring<T>)
    requires Inv(s) && s.consumer.ReleaseSlot?
    ensures Inv(PopOne(s).0)
  {
    var ReleaseSlot(t, d) := s.consumer;
    var c := s.Capacity();
    var s' := PopOne(s).0;
    assert SlotOk(s, t);
    WindowSlotsDistinct(t, t, c);
    forall k: nat ensures Claimed(s, k) == Claimed(s', k) {}
    forall k: nat | t + 1 <= k < t + 1 + c ensures SlotOk(s', k) {
      if k < t + c { assert SlotOk(s, k); }
    }
    forall q | q in s'.producers ensures ProducerOk(s', q) {
      assert ProducerOk(s, q);
      if IsOwner(s.producers[q]) { assert Owns(s.producers[q], s.producers[q].h); }
    }
  }

  /** One step, whichever it is, keeps the invariant. */
  lemma NextInv<T>(s: Ring<T>, step: Step<T>)
    requires Inv(s) && Enabled(s, step)
    ensures Inv(Next(s, step).0)
  {
    match step
    case BeginPush(p, x) => MoveInv(s, Next(s, step).0, p);
    case PushStep(p, spurious) =>
      match s.producers[p] {
        case LoadHead(_) => MoveInv(s, Next(s, step).0, p);
        case LoadSeq(_, _) => LoadSeqInv(s, p);
        case CasHead(_, _) => CasInv(s, p, spurious);
        case WriteData(_, _) => WriteDataInv(s, p);
        case Publish(_, _) => PublishInv(s, p);
      }
    case BeginPop => ConsumerMoveInv(s, Next(s, step).0);
    case PopStep =>
      if s.consumer.ReleaseSlot? { ReleaseInv(s); } else {
        assert SlotOk(s, |s.popped|);
        ConsumerMoveInv(s, Next(s, step).0);
      }
  }

  lemma ConsumerMoveInv<T>(s: Ring<T>, s': Ring<T>)
    requires Inv(s)
    requires s' == s.(consumer := s'.consumer, tail := s'.tail)
    requires ConsumerOk(s')
    ensures Inv(s')
  {
    forall k: nat ensures Claimed(s, k) == Claimed(s', k) {}
    forall k: nat | |s.popped| <= k < |s.popped| + s.Capacity() ensures SlotOk(s', k) {
      assert SlotOk(s, k);
    }
    forall q | q in s'.producers ensures ProducerOk(s', q) {
      assert ProducerOk(s, q);
    }
  }

  // ---------------------------------------------------------------- theorems over every run

  /** Nothing is lost, duplicated, reordered or overwritten: the consumer has read exactly the
      first items in ticket order, and at most `capacity` tickets are in the ring. */
  ghost predicate Delivers<T>(s: Ring<T>) {
    && |s.popped| <= |s.tickets| <= |s.popped| + s.Capacity()
    && forall k :: 0 <= k < |s.popped| ==> s.popped[k] == Some(s.tickets[k].1)
  }

  lemma {:induction false} RunsInv<T>(s: Ring<T>, steps: seq<Step<T>>, s': Ring<T>)
    requires Inv(s) && Runs(s, steps, s')
    ensures Inv(s') && s'.Capacity() == s.Capacity()
    decreases |steps|
  {
    if steps != [] {
      NextInv(s, steps[0]);
      RunsInv(Next(s, steps[0]).0, steps[1..], s');
    }
  }

  lemma ReachableInv<T(!new)>(capacity: nat, s: Ring<T>)
    requires capacity > 1 && Reachable(capacity, s)
    ensures Inv(s) && s.Capacity() == capacity
  {
    InitInv<T>(capacity);
    var steps :| Runs(Init<T>(capacity), steps, s);
    RunsInv(Init<T>(capacity), steps, s);
  }

  /** Push returns BUFFER_FULL exactly at a load of `seq` that happens while its ticket is the
      current head and every slot is outstanding. */
  lemma FullIffAllOutstanding<T(!new)>(capacity: nat, s: Ring<T>, p: nat, spurious: bool)
    requires capacity > 1 && Reachable(capacity, s) && p in s.producers
    ensures PushOne(s, p, spurious).1.BufferFull? <==>
      s.producers[p].LoadSeq? && s.producers[p].h == s.head && s.Outstanding() == capacity
  {
    ReachableInv(capacity, s);
    if s.producers[p].LoadSeq? { LoadSeqInv(s, p); }
  }

  /** A CAS that fails without a spurious failure lost to another producer: head moved on. */
  lemma CasFailureMeansProgress<T(!new)>(capacity: nat, s: Ring<T>, p: nat)
    requires capacity > 1 && Reachable(capacity, s) && p in s.producers
    requires PushOne(s, p, false).1.CasFailed?
    ensures s.producers[p].CasHead? && s.producers[p].h < s.head
  {
    ReachableInv(capacity, s);
    assert ProducerOk(s, p);
  }

  /** Pop returns NULL exactly when the oldest unreleased ticket is not published (or does not
      exist) at the load of `seq`. */
  lemma NullIffTailUnpublished<T(!new)>(capacity: nat, s: Ring<T>)
    requires capacity > 1 && Reachable(capacity, s) && s.consumer.LoadSlotSeq?
    ensures PopOne(s).1.PopNull? <==> !Published(s, |s.popped|)
  {
    ReachableInv(capacity, s);
    assert SlotOk(s, |s.popped|);
  }

  /** With no push in progress every ticket in the ring is published, so pop returns NULL only
      from an empty ring. */
  lemma QuietRingIsPublished<T(!new)>(capacity: nat, s: Ring<T>)
    requires capacity > 1 && Reachable(capacity, s) && s.producers == map[]
    ensures forall k: nat :: |s.popped| <= k < s.head ==> Published(s, k)
    ensures s.consumer.LoadSlotSeq? ==> (PopOne(s).1.PopNull? <==> s.Outstanding() == 0)
  {
    ReachableInv(capacity, s);
    forall k: nat | |s.popped| <= k < s.head ensures Published(s, k) { assert SlotOk(s, k); }
    if s.consumer.LoadSlotSeq? { NullIffTailUnpublished(capacity, s); }
  }

  /** What pop hands to its caller is the item of the ticket it took. */
  lemma PopReturnsTicketItem<T(!new)>(capacity: nat, s: Ring<T>)
    requires capacity > 1 && Reachable(capacity, s) && s.consumer.StoreTail?
    ensures s.tail < |s.tickets| && PopOne(s).1 == PopItem(Some(s.tickets[s.tail].1))
    ensures PopOne(s).0.tail == |PopOne(s).0.popped|
  {
    ReachableInv(capacity, s);
  }

  // ---------------------------------------------------------------- order per producer

  function ItemsOf<T>(tickets: seq<(nat, T)>, p: nat): seq<T> {
    if tickets == [] then []
    else
      var rest := ItemsOf(tickets[..|tickets| - 1], p);
      var last := tickets[|tickets| - 1];
      if last.0 == p then rest + [last.1] else rest
  }

  /** The item of a push that has its ticket but has not returned. */
  function InProgress<T>(s: Ring<T>, p: nat): seq<T> {
    if p in s.producers && IsOwner(s.producers[p]) then [s.producers[p].item] else []
  }

  ghost predicate AcceptedInv<T>(s: Ring<T>) {
    forall p: nat :: ItemsOf(s.tickets, p) == s.Accepted(p) + InProgress(s, p)
  }

  lemma ItemsOfSnoc<T>(tickets: seq<(nat, T)>, q: nat, x: T, p: nat)
    ensures ItemsOf(tickets + [(q, x)], p) == ItemsOf(tickets, p) + if q == p then [x] else []
  {
    assert (tickets + [(q, x)])[..|tickets|] == tickets;
  }

  lemma PushAccepted<T>(s: Ring<T>, q: nat, spurious: bool, p: nat)
    requires s.Capacity() > 0 && q in s.producers
    requires ItemsOf(s.tickets, p) == s.Accepted(p) + InProgress(s, p)
    ensures var s' := PushOne(s, q, spurious).0;
      ItemsOf(s'.tickets, p) == s'.Accepted(p) + InProgress(s', p)
  {
    hide ItemsOf;
    var s' := PushOne(s, q, spurious).0;
    match s.producers[q]
    case LoadHead(_) => assert InProgress(s', p) == InProgress(s, p);
    case LoadSeq(_, _) => assert InProgress(s', p) == InProgress(s, p);
    case CasHead(x, h) =>
      if s.head == h && !spurious {
        ItemsOfSnoc(s.tickets, q, x, p);
        if q == p { assert InProgress(s', p) == [x]; } else { assert InProgress(s', p) == InProgress(s, p); }
      } else {
        assert InProgress(s', p) == InProgress(s, p);
      }
    case WriteData(_, _) => assert InProgress(s', p) == InProgress(s, p);
    case Publish(x, _) =>
      if q == p {
        assert InProgress(s, p) == [x] && InProgress(s', p) == [];
      } else {
        assert InProgress(s', p) == InProgress(s, p);
      }
  }

  lemma NextAcceptedBy<T>(s: Ring<T>, step: Step<T>, p: nat)
    requires Enabled(s, step)
    requires ItemsOf(s.tickets, p) == s.Accepted(p) + InProgress(s, p)
    ensures var s' := Next(s, step).0;
      ItemsOf(s'.tickets, p) == s'.Accepted(p) + InProgress(s', p)
  {
    if step.PushStep? { PushAccepted(s, step.p, step.spurious, p); } else {
      assert InProgress(Next(s, step).0, p) == InProgress(s, p);
    }
  }

  lemma NextAccepted<T>(s: Ring<T>, step: Step<T>)
    requires AcceptedInv(s) && Enabled(s, step)
    ensures AcceptedInv(Next(s, step).0)
  {
    var s' := Next(s, step).0;
    forall p: nat ensures ItemsOf(s'.tickets, p) == s'.Accepted(p) + InProgress(s', p) {
      NextAcceptedBy(s, step, p);
    }
  }

  lemma {:induction false} ItemsOfPrefix<T>(tickets: seq<(nat, T)>, n: nat, p: nat)
    requires n <= |tickets|
    ensures ItemsOf(tickets[..n], p) <= ItemsOf(tickets, p)
    decreases |tickets| - n
  {
    if n < |tickets| {
      ItemsOfPrefix(tickets, n + 1, p);
      assert tickets[..n + 1][..n] == tickets[..n];
    } else {
      assert tickets[..n] == tickets;
    }
  }

  lemma {:induction false} RunsAccepted<T>(s: Ring<T>, steps: seq<Step<T>>, s': Ring<T>)
    requires AcceptedInv(s) && Runs(s, steps, s')
    ensures AcceptedInv(s')
    decreases |steps|
  {
    if steps != [] {
      NextAccepted(s, steps[0]);
      RunsAccepted(Next(s, steps[0]).0, steps[1..], s');
    }
  }

  /** FIFO per producer: what the consumer has read of a producer's items is a prefix of the
      items that producer pushed, in the order it pushed them, and no other producer's push can
      make an accepted item disappear from the ticket order. */
  lemma FifoPerProducer<T(!new)>(capacity: nat, s: Ring<T>, p: nat)
    requires capacity > 1 && Reachable(capacity, s)
    ensures Delivers(s)
    ensures ItemsOf(s.tickets, p) == s.Accepted(p) + InProgress(s, p)
    ensures ItemsOf(s.tickets[..|s.popped|], p) <= s.Accepted(p) + InProgress(s, p)
  {
    ReachableInv(capacity, s);
    InitInv<T>(capacity);
    var steps :| Runs(Init<T>(capacity), steps, s);
    RunsAccepted(Init<T>(capacity), steps, s);
    ItemsOfPrefix(s.tickets, |s.popped|, p);
  }

  // ---------------------------------------------------------------- refinement of a bounded FIFO

  /** The queue a caller sees: tickets taken and not released. */
  function Contents<T>(s: Ring<T>): seq<T>
    requires |s.popped| <= |s.tickets|
  {
    seq(|s.tickets| - |s.popped|, i requires 0 <= i < |s.tickets| - |s.popped| => s.tickets[|s.popped| + i].1)
  }

  /** Every step of every thread is, on the queue, nothing at all, an enqueue into a queue with
      room (the successful CAS), or a dequeue of the oldest item (the release of its slot). */
  lemma StepRefinesBoundedFifo<T>(s: Ring<T>, step: Step<T>)
    requires Inv(s) && Enabled(s, step)
    ensures var s' := Next(s, step).0;
      && |s'.popped| <= |s'.tickets|
      && var q, q' := Contents(s), Contents(s');
         || (q' == q && |s'.popped| == |s.popped|)
         || (step.PushStep? && s.producers[step.p].CasHead? && |q| < s.Capacity()
             && q' == q + [s.producers[step.p].item])
         || (step.PopStep? && s.consumer.ReleaseSlot? && |q| > 0
             && q' == q[1..] && s'.popped == s.popped + [Some(q[0])])
  {
    NextInv(s, step);
    var s' := Next(s, step).0;
    var q, q' := Contents(s), Contents(s');
    if step.PushStep? && s.producers[step.p].CasHead? && s'.tickets != s.tickets {
      assert ProducerOk(s, step.p);
      assert q' == q + [s.producers[step.p].item];
    } else if step.PopStep? && s.consumer.ReleaseSlot? {
      assert q' == q[1..];
    } else {
      assert q' == q;
    }
  }

  // ---------------------------------------------------------------- the 64-bit difference

  /** `(int64_t) a - (int64_t) b` on 64-bit words, as lines 95 and 128 compute it. */
  function SignedDiff(a: nat, b: nat): int {
    var d := (a - b) % UINT64_RANGE;
    if d < UINT64_RANGE / 2 then d else d - UINT64_RANGE
  }

  lemma SmallSignedDiff(a: nat, b: nat)
    requires a < UINT64_RANGE / 2 && b < UINT64_RANGE / 2
    ensures SignedDiff(a, b) == a - b
  {
    if a < b { DivModUnique(UINT64_RANGE + (a - b), UINT64_RANGE, 0, UINT64_RANGE + (a - b)); }
  }

  lemma TurnBound<T>(s: Ring<T>, i: nat)
    requires Inv(s) && i < s.Capacity()
    ensures s.slots[i].turn <= s.head + s.Capacity()
  {
    var k: nat := i;
    if i < |s.popped| { k := SlotAhead(i, |s.popped|, s.Capacity()); }
    assert SlotOk(s, k);
  }

  /** While head + capacity stays below 2^63, the wrapped difference the code computes is the
      mathematical difference the model branches on: for the head that push has read and for the
      t + 1 of pop, which on an empty ring lies one beyond the head. */
  lemma SignedDiffIsExact<T(!new)>(capacity: nat, s: Ring<T>, i: nat, h: nat)
    requires capacity > 1 && Reachable(capacity, s) && i < capacity && h <= s.head + 1
    requires s.head + capacity < UINT64_RANGE / 2
    ensures SignedDiff(s.slots[i].turn, h) == s.slots[i].turn - h
  {
    ReachableInv(capacity, s);
    TurnBound(s, i);
    SmallSignedDiff(s.slots[i].turn, h);
  }

  // ---------------------------------------------------------------- capacity one

  /** Two uncontended pushes into a ring of capacity one, which `mpsc_queue_init` accepts. */
  function TwoPushes<T>(x: T, y: T): seq<Step<T>> {
    [BeginPush(0, x)] + PushBody<T>() + [BeginPush(0, y)] + PushBody<T>()
  }

  function PushBody<T>(): seq<Step<T>> {
    [PushStep(0, false), PushStep(0, false), PushStep(0, false), PushStep(0, false), PushStep(0, false)]
  }

  function AfterTwoPushes<T>(x: T, y: T): Ring<T> {
    Ring([Slot(2, Some(y))], 2, 0, map[], Outside, [(0, x), (0, y)], [], map[0 := [x, y]])
  }

  lemma {:induction false} RunsConcat<T>(s: Ring<T>, a: seq<Step<T>>, m: Ring<T>, b: seq<Step<T>>, e: Ring<T>)
    requires Runs(s, a, m) && Runs(m, b, e)
    ensures Runs(s, a + b, e)
    decreases |a|
  {
    if a == [] {
      assert a + b == b;
    } else {
      assert (a + b)[1..] == a[1..] + b;
      RunsConcat(Next(s, a[0]).0, a[1..], m, b, e);
    }
  }

  lemma {:induction false} StepIs<T>(s: Ring<T>, step: Step<T>, s': Ring<T>)
    requires Enabled(s, step) && s' == Next(s, step).0
    ensures Runs(s, [step], s')
  {
    assert Runs(s', [step][1..], s');
  }

  /** The only producer, between two steps of its push. */
  ghost predicate Alone<T>(s: Ring<T>, pc: Producer<T>) {
    s.Capacity() == 1 && s.producers == map[0 := pc]
  }

  lemma AloneStep<T>(s: Ring<T>, pc: Producer<T>, pc': Producer<T>, s': Ring<T>)
    requires Alone(s, pc) && s' == PushOne(s, 0, false).0 && 0 in s'.producers && s'.producers[0] == pc'
    ensures Alone(s', pc') && Runs(s, [PushStep(0, false)], s')
  {
    StepIs(s, PushStep(0, false), s');
    assert s'.producers == s.producers[0 := pc'] == map[0 := pc'];
  }

  /** In a ring of capacity one an uncontended push takes its ticket, full or not... */
  lemma TakeTicketInCapacityOne<T>(s: Ring<T>, x: T) returns (m: Ring<T>)
    requires Alone(s, LoadHead(x)) && s.slots[0].turn == s.head
    ensures Alone(m, WriteData(x, s.head))
    ensures m == s.(head := s.head + 1, tickets := s.tickets + [(0, x)], producers := m.producers)
    ensures Runs(s, [PushStep(0, false)] + ([PushStep(0, false)] + [PushStep(0, false)]), m)
  {
    var go: Step<T> := PushStep(0, false);
    var s1 := PushOne(s, 0, false).0;
    AloneStep(s, LoadHead(x), LoadSeq(x, s.head), s1);
    var s2 := PushOne(s1, 0, false).0;
    AloneStep(s1, LoadSeq(x, s.head), CasHead(x, s.head), s2);
    m := PushOne(s2, 0, false).0;
    AloneStep(s2, CasHead(x, s.head), WriteData(x, s.head), m);
    RunsConcat(s1, [go], s2, [go], m);
    RunsConcat(s, [go], s1, [go] + [go], m);
  }

  /** ... and overwrites the slot. */
  lemma FillSlotInCapacityOne<T>(s: Ring<T>, x: T, h: nat) returns (e: Ring<T>)
    requires Alone(s, WriteData(x, h))
    ensures e == s.(slots := [Slot(h + 1, Some(x))], producers := map[],
                    accepted := s.accepted[0 := s.Accepted(0) + [x]])
    ensures Runs(s, [PushStep(0, false)] + [PushStep(0, false)], e)
  {
    var go: Step<T> := PushStep(0, false);
    var m := PushOne(s, 0, false).0;
    AloneStep(s, WriteData(x, h), Publish(x, h), m);
    e := PushOne(m, 0, false).0;
    StepIs(m, go, e);
    assert e.producers == map[];
    assert e.slots == [Slot(h + 1, Some(x))];
    RunsConcat(s, [go], m, [go], e);
  }

  lemma PushIntoCapacityOne<T>(s: Ring<T>, x: T)
    requires s.Capacity() == 1 && s.producers == map[] && s.slots[0].turn == s.head
    ensures Runs(s, [BeginPush(0, x)] + PushBody<T>(),
      Ring([Slot(s.head + 1, Some(x))], s.head + 1, s.tail, map[], s.consumer,
           s.tickets + [(0, x)], s.popped, s.accepted[0 := s.Accepted(0) + [x]]))
  {
    var go: Step<T> := PushStep(0, false);
    var s0 := Next(s, BeginPush(0, x)).0;
    StepIs(s, BeginPush(0, x), s0);
    assert Alone(s0, LoadHead(x));
    var m := TakeTicketInCapacityOne(s0, x);
    var e := FillSlotInCapacityOne(m, x, s.head);
    RunsConcat(s0, [go] + ([go] + [go]), m, [go] + [go], e);
    assert PushBody<T>() == [go] + ([go] + [go]) + ([go] + [go]);
    RunsConcat(s, [BeginPush(0, x)], s0, PushBody<T>(), e);
  }

  function AfterOnePush<T>(x: T): Ring<T> {
    Ring([Slot(1, Some(x))], 1, 0, map[], Outside, [(0, x)], [], map[0 := [x]])
  }

  lemma FirstPush<T>(x: T)
    ensures Runs(Init<T>(1), [BeginPush(0, x)] + PushBody<T>(), AfterOnePush(x))
  {
    var s := Init<T>(1);
    PushIntoCapacityOne(s, x);
    assert s.tickets + [(0, x)] == [(0, x)];
    assert s.Accepted(0) + [x] == [x];
  }

  lemma SecondPush<T>(x: T, y: T)
    ensures Runs(AfterOnePush(x), [BeginPush(0, y)] + PushBody<T>(), AfterTwoPushes(x, y))
  {
    var m := AfterOnePush(x);
    PushIntoCapacityOne(m, y);
    assert m.tickets + [(0, y)] == [(0, x), (0, y)];
    assert m.Accepted(0) + [y] == [x, y];
    assert m.accepted[0 := [x, y]] == map[0 := [x, y]];
  }

  lemma CapacityOneOverwrites<T(!new)>(x: T, y: T)
    ensures Runs(Init<T>(1), TwoPushes(x, y), AfterTwoPushes(x, y))
    ensures Reachable(1, AfterTwoPushes(x, y)) && !Delivers(AfterTwoPushes(x, y))
  {
    var first, second := [BeginPush(0, x)] + PushBody<T>(), [BeginPush(0, y)] + PushBody<T>();
    FirstPush(x);
    SecondPush(x, y);
    RunsConcat(Init<T>(1), first, AfterOnePush(x), second, AfterTwoPushes(x, y));
    assert TwoPushes(x, y) == first + second;
  }

  /** The scheme delivers on every run exactly when the ring has at least two slots; of the
      capacities that init accepts, one is the exception. */
  lemma DeliversIffCapacityAtLeastTwo<T(!new)>(capacity: nat, x: T, y: T)
    requires capacity >= 1
    ensures (forall s: Ring<T> :: Reachable(capacity, s) ==> Delivers(s)) <==> capacity >= 2
  {
    if capacity >= 2 {
      forall s: Ring<T> | Reachable(capacity, s) ensures Delivers(s) { ReachableInv(capacity, s); }
    } else {
      CapacityOneOverwrites(x, y);
    }
  }

  /** The consumer waits for turn t + 1 at ticket 0 while the slot is already past it. */
  ghost predicate Starved<T>(s: Ring<T>) {
    && s.Capacity() == 1 && s.slots[0].turn >= 2 && s.head >= 2 && s.tail == 0 && s.popped == []
    && (s.consumer.Outside? || s.consumer == LoadSlotSeq(0))
    && forall p :: p in s.producers && !s.producers[p].LoadHead? ==> s.producers[p].h >= 2
  }

  lemma StarvedStep<T>(s: Ring<T>, step: Step<T>)
    requires Starved(s) && Enabled(s, step)
    ensures Starved(Next(s, step).0)
  {
  }

  /** After those two pushes no continuation, of any length and with any producers, ever pops an
      item: both accepted items are lost for good. */
  lemma {:induction false} CapacityOneNeverPopsAgain<T>(s: Ring<T>, steps: seq<Step<T>>, s': Ring<T>)
    requires Starved(s) && Runs(s, steps, s')
    ensures Starved(s') && s'.popped == []
    decreases |steps|
  {
    if steps != [] {
      StarvedStep(s, steps[0]);
      hide Starved, Enabled;
      CapacityOneNeverPopsAgain(Next(s, steps[0]).0, steps[1..], s');
    }
  }

  lemma CapacityOneStarves<T>(x: T, y: T)
    ensures Starved(AfterTwoPushes(x, y))
  {
  }
}
