/**
 The access unit ring of src/media/au_ring.c: slots of fixed size in one flat buffer, the
 oldest overwritten under pressure. It refines a bounded queue that drops from the front.
 */
module AuRing {
  import opened Bytes

  /** One access unit and the number the ring gave it. */
  datatype Au = Au(data: seq<byte>, ptsUs: u64, isIdr: bool, sequence: nat)

  // -------------------------------------------------------------------------
  // The queue
  // -------------------------------------------------------------------------

  datatype Queue = Queue(slotCapacity: nat, slotCount: nat, items: seq<Au>, dropped: nat, sequence: nat)

  predicate Acceptable(q: Queue, data: seq<byte>) {
    0 < |data| <= q.slotCapacity
  }

  function Push(q: Queue, data: seq<byte>, ptsUs: u64, isIdr: bool): (r: Queue)
  {
    if !Acceptable(q, data) then q
    else
      var full := |q.items| == q.slotCount;
      q.(items := (if full && q.items != [] then q.items[1..] else q.items) + [Au(data, ptsUs, isIdr, q.sequence)],
         dropped := q.dropped + if full then 1 else 0,
         sequence := q.sequence + 1)
  }

  /** A unit larger than the caller's buffer is removed all the same, and lost. */
  datatype Popped = Empty | Got(au: Au) | Discarded(au: Au)

  function Pop(q: Queue, capacity: nat): (r: (Queue, Popped))
  {
    if q.items == [] then (q, Empty)
    else
      (q.(items := q.items[1..]),
       if |q.items[0].data| <= capacity then Got(q.items[0]) else Discarded(q.items[0]))
  }

  /** Numbers are contiguous and end just below the next one; never more items than slots. */
  ghost predicate WellNumbered(q: Queue) {
    && |q.items| <= q.slotCount && 0 < q.slotCount && |q.items| <= q.sequence
    && forall i :: 0 <= i < |q.items| ==>
                     q.items[i].sequence == q.sequence - |q.items| + i && Acceptable(q, q.items[i].data)
  }

  // -------------------------------------------------------------------------
  // The ring
  // -------------------------------------------------------------------------

  datatype AuMeta = AuMeta(size: nat, ptsUs: u64, isIdr: bool, sequence: nat)

  lemma Wrap(s: nat, n: nat)
    requires s < n
    ensures (s + 1) % n == if s + 1 < n then s + 1 else 0
  {
  }

  class AuRing {
    const backing: array<byte>
    const meta: array<AuMeta>
    const slotCapacity: nat
    const slotCount: nat
    var head: nat
    var tail: nat
    var count: nat
    var dropped: nat
    var sequence: nat
    ghost var items: seq<Au>

    ghost predicate Shaped()
      reads this`head, this`tail, this`count, this`items
    {
      && slotCount > 0 && slotCapacity > 0
      && backing.Length == slotCount * slotCapacity && meta.Length == slotCount
      && head < slotCount && tail < slotCount && count <= slotCount && |items| == count
      && tail == Index(count)
    }

    /** The slot of the i-th queued unit: (head + i) % slotCount. */
    ghost function Index(i: nat): int
      reads this`head
    {
      if head + i < slotCount then head + i else head + i - slotCount
    }

    ghost predicate SlotIs(s: nat, au: Au)
      reads backing, meta
      requires s < slotCount && backing.Length == slotCount * slotCapacity && meta.Length == slotCount
    {
      SlotBounds(s, slotCount, slotCapacity);
      && meta[s] == AuMeta(|au.data|, au.ptsUs, au.isIdr, au.sequence)
      && |au.data| <= slotCapacity
      && backing[s * slotCapacity..s * slotCapacity + |au.data|] == au.data
    }

    /** The i-th queued unit sits in its slot. */
    ghost predicate Stored(i: nat)
      reads this`head, this`tail, this`count, this`items, backing, meta
      requires Shaped() && i < count
    {
      SlotIs(Index(i), items[i])
    }

    ghost predicate Valid()
      reads this, backing, meta
    {
      && Shaped()
      && (forall i :: 0 <= i < count ==> Stored(i))
      && WellNumbered(View())
    }

    ghost function View(): Queue
      reads this
    {
      Queue(slotCapacity, slotCount, items, dropped, sequence)
    }

    /** au_ring_create, for the sizes it accepts. */
    constructor (capacity: nat, slots: nat)
      requires capacity > 0 && slots > 0
      ensures Valid() && View() == Queue(capacity, slots, [], 0, 0) && fresh(backing) && fresh(meta)
    {
      backing := new byte[slots * capacity];
      meta := new AuMeta[slots](i => AuMeta(0, 0, false, 0));
      slotCapacity, slotCount := capacity, slots;
      head, tail, count, dropped, sequence := 0, 0, 0, 0, 0;
      items := [];
    }

    /** memcpy into one slot, and its metadata; every other slot keeps what it holds. */
    method WriteSlot(s: nat, au: Au)
      requires Shaped() && s < slotCount && |au.data| <= slotCapacity
      modifies backing, meta
      ensures SlotIs(s, au)
      ensures forall t: nat, other :: t < slotCount && t != s && old(SlotIs(t, other)) ==> SlotIs(t, other)
    {
      SlotBounds(s, slotCount, slotCapacity);
      var at := s * slotCapacity;
      forall k | at <= k < at + |au.data| {
        backing[k] := au.data[k - at];
      }
      meta[s] := AuMeta(|au.data|, au.ptsUs, au.isIdr, au.sequence);
      assert backing[at..at + |au.data|] == au.data;
      forall t: nat, other | t < slotCount && t != s && old(SlotIs(t, other))
        ensures SlotIs(t, other)
      {
        SlotBounds(t, slotCount, slotCapacity);
        SlotsApart(s, t, slotCapacity);
        var b := t * slotCapacity;
        assert backing[b..b + |other.data|] == old(backing[b..b + |other.data|]);
      }
    }

    /** au_ring_push. */
    method PushAu(data: seq<byte>, ptsUs: u64, isIdr: bool) returns (result: int)
      requires Valid()
      modifies this, backing, meta
      ensures Valid() && View() == Push(old(View()), data, ptsUs, isIdr)
      ensures result == if Acceptable(old(View()), data) then 0 else -1
    {
      hide SlotIs, Stored;
      if |data| == 0 || |data| > slotCapacity {
        return -1;
      }
      result := 0;
      if count == slotCount {
        DropHead();
        dropped := dropped + 1;
      }
      Append(Au(data, ptsUs, isIdr, sequence));
    }

    /** Advance past the oldest unit. */
    method DropHead()
      requires Shaped() && count > 0 && forall i :: 0 <= i < count ==> Stored(i)
      modifies this`head, this`count, this`items
      ensures Shaped() && (forall i :: 0 <= i < count ==> Stored(i)) && items == old(items)[1..]
    {
      hide SlotIs;
      Wrap(head, slotCount);
      head := (head + 1) % slotCount;
      count := count - 1;
      items := items[1..];
      forall i | 0 <= i < count
        ensures Stored(i)
      {
        assert old(Stored(i + 1));
      }
    }

    method Append(au: Au)
      requires Shaped() && count < slotCount && (forall i :: 0 <= i < count ==> Stored(i))
      requires |au.data| <= slotCapacity && au.sequence == sequence
      modifies this`tail, this`count, this`items, this`sequence, backing, meta
      ensures Shaped() && (forall i :: 0 <= i < count ==> Stored(i))
      ensures items == old(items) + [au] && sequence == old(sequence) + 1
    {
      hide SlotIs;
      Wrap(tail, slotCount);
      var slot := tail;
      forall i | 0 <= i < count
        ensures SlotIs(Index(i), items[i]) && Index(i) != slot
      {
        assert Stored(i);
      }
      label Before:
      WriteSlot(slot, au);
      assert forall i :: 0 <= i < count ==> old@Before(SlotIs(Index(i), items[i]));
      sequence := sequence + 1;
      tail := (slot + 1) % slotCount;
      count := count + 1;
      items := items + [au];
      forall i | 0 <= i < count
        ensures Stored(i)
      {
        if i < count - 1 {
          assert old@Before(SlotIs(Index(i), items[i]));
        }
      }
    }

    /** au_ring_pop: true with a copy of the oldest unit, false when there is none or when it
        does not fit the buffer, in which case it is lost. */
    method PopAu(capacity: nat) returns (ok: bool, data: seq<byte>, m: AuMeta)
      requires Valid()
      modifies this
      ensures Valid()
      ensures var (q, r) := Pop(old(View()), capacity);
              && View() == q && (ok <==> r.Got?)
              && (ok ==> data == r.au.data && m == AuMeta(|r.au.data|, r.au.ptsUs, r.au.isIdr, r.au.sequence))
    {
      data, m := [], AuMeta(0, 0, false, 0);
      if count == 0 {
        return false, data, m;
      }
      assert Stored(0);
      var h := head;
      SlotBounds(h, slotCount, slotCapacity);
      m := meta[h];
      ok := m.size <= capacity;
      if ok {
        data := backing[h * slotCapacity..h * slotCapacity + m.size];
      }
      DropHead();
    }
  }

  // -------------------------------------------------------------------------
  // Whole runs
  // -------------------------------------------------------------------------

  datatype Op = PushOp(data: seq<byte>, ptsUs: u64, isIdr: bool) | PopOp(capacity: nat)

  /** The queue, everything ever accepted, and what became of what left it. */
  datatype History = History(queue: Queue, accepted: seq<Au>, delivered: seq<Au>, discarded: seq<Au>)

  function Apply(h: History, op: Op): (r: History)
  {
    match op
    case PushOp(data, ptsUs, isIdr) =>
      h.(queue := Push(h.queue, data, ptsUs, isIdr),
         accepted := h.accepted
         + if Acceptable(h.queue, data) then [Au(data, ptsUs, isIdr, h.queue.sequence)] else [])
    case PopOp(capacity) =>
      var (q, r) := Pop(h.queue, capacity);
      match r
      case Empty => h
      case Got(au) => h.(queue := q, delivered := h.delivered + [au])
      case Discarded(au) => h.(queue := q, discarded := h.discarded + [au])
  }

  function ApplyAll(h: History, ops: seq<Op>): (r: History)
    decreases |ops|
  {
    if ops == [] then h else ApplyAll(Apply(h, ops[0]), ops[1..])
  }

  /** Numbers of delivered units increase, each unit is the accepted one with its number, and
      all of them are older than anything still queued. */
  ghost predicate InOrder(h: History) {
    && (forall i, j :: 0 <= i < j < |h.delivered| ==> h.delivered[i].sequence < h.delivered[j].sequence)
    && forall i :: 0 <= i < |h.delivered| ==>
                     && h.delivered[i].sequence < |h.accepted| - |h.queue.items|
                     && h.delivered[i] == h.accepted[h.delivered[i].sequence]
  }

  /** The state of every run: the queue is the tail of what was accepted; what was delivered
      came out in order; and nothing is unaccounted for. */
  ghost predicate Accounted(h: History) {
    && WellNumbered(h.queue)
    && |h.accepted| == h.queue.sequence
    && h.queue.items == h.accepted[|h.accepted| - |h.queue.items|..]
    && InOrder(h)
    && |h.accepted| == |h.delivered| + |h.discarded| + h.queue.dropped + |h.queue.items|
  }

  lemma PushAccounted(h: History, data: seq<byte>, ptsUs: u64, isIdr: bool)
    requires Accounted(h)
    ensures Accounted(Apply(h, PushOp(data, ptsUs, isIdr)))
  {
  }

  lemma PopAccounted(h: History, capacity: nat)
    requires Accounted(h)
    ensures Accounted(Apply(h, PopOp(capacity)))
  {
    if h.queue.items != [] {
      assert h.queue.items[0] == h.accepted[|h.accepted| - |h.queue.items|];
    }
  }

  /** Every run from an empty ring: accepted = delivered + discarded + dropped + queued. */
  lemma {:induction false} RunAccounted(h: History, ops: seq<Op>)
    requires Accounted(h)
    ensures Accounted(ApplyAll(h, ops))
    decreases |ops|
  {
    if ops != [] {
      match ops[0] {
        case PushOp(data, ptsUs, isIdr) => PushAccounted(h, data, ptsUs, isIdr);
        case PopOp(capacity) => PopAccounted(h, capacity);
      }
      RunAccounted(Apply(h, ops[0]), ops[1..]);
    }
  }

  function NewHistory(capacity: nat, slots: nat): (h: History) {
    History(Queue(capacity, slots, [], 0, 0), [], [], [])
  }

  lemma RingRun(capacity: nat, slots: nat, ops: seq<Op>)
    requires capacity > 0 && slots > 0
    ensures Accounted(ApplyAll(NewHistory(capacity, slots), ops))
  {
    RunAccounted(NewHistory(capacity, slots), ops);
  }

  // -------------------------------------------------------------------------
  // What is kept
  // -------------------------------------------------------------------------

  /** A unit as it is offered to the ring. */
  datatype Offered = Offered(data: seq<byte>, ptsUs: u64, isIdr: bool)

  /** The units the ring takes in, numbered from zero: those with octets that fit a slot. */
  function Taken(slotCapacity: nat, units: seq<Offered>): (aus: seq<Au>) {
    if units == [] then []
    else
      var before, u := Taken(slotCapacity, units[..|units| - 1]), units[|units| - 1];
      if 0 < |u.data| <= slotCapacity then before + [Au(u.data, u.ptsUs, u.isIdr, |before|)] else before
  }

  function Pushes(units: seq<Offered>): (ops: seq<Op>) {
    seq(|units|, i requires 0 <= i < |units| => PushOp(units[i].data, units[i].ptsUs, units[i].isIdr))
  }

  lemma {:induction false} ApplyLast(h: History, ops: seq<Op>)
    requires ops != []
    ensures ApplyAll(h, ops) == Apply(ApplyAll(h, ops[..|ops| - 1]), ops[|ops| - 1])
    decreases |ops|
  {
    hide Apply;
    if |ops| > 1 {
      assert ops[..|ops| - 1][1..] == ops[1..][..|ops| - 2];
      ApplyLast(Apply(h, ops[0]), ops[1..]);
    }
  }

  /** After any pushes the ring holds the last units it took in, as many as it has slots or fewer if there
      were fewer, in order; only the others are counted as dropped. */
  lemma {:induction false} KeepsLatest(slotCapacity: nat, slots: nat, units: seq<Offered>)
    requires slots > 0
    ensures var q, aus := ApplyAll(NewHistory(slotCapacity, slots), Pushes(units)).queue, Taken(slotCapacity, units);
            && q.slotCapacity == slotCapacity && q.slotCount == slots && q.sequence == |aus|
            && q.items == (if |aus| <= slots then aus else aus[|aus| - slots..])
            && q.dropped == if |aus| <= slots then 0 else |aus| - slots
    decreases |units|
  {
    if units != [] {
      var n := |units| - 1;
      KeepsLatest(slotCapacity, slots, units[..n]);
      ApplyLast(NewHistory(slotCapacity, slots), Pushes(units));
      assert Pushes(units)[..n] == Pushes(units[..n]);
    }
  }
}
