/**
 The frame hub itself, src/media/frame_hub.c: a doubly linked list of consumers with one
 mailbox each, over the frame pool. One call runs at a time here; HubProtocol interleaves them.
 */
module FrameHub {
  import opened Bytes
  import opened Pools = FramePool

  /** What a publish copies into a buffer. */
  datatype FrameInfo = FrameInfo(data: seq<byte>, sequence: nat, timestampUs: nat)

  function Has(slot: Option<int>, f: int): (n: nat) {
    if slot == Some(f) then 1 else 0
  }

  /** How many mailboxes hold a frame. */
  function Count(slots: seq<Option<int>>, f: int): (n: nat)
  {
    if slots == [] then 0 else Has(slots[0], f) + Count(slots[1..], f)
  }

  lemma {:induction false} CountUpdate(slots: seq<Option<int>>, i: nat, v: Option<int>, f: int)
    requires i < |slots|
    ensures Count(slots[i := v], f) + Has(slots[i], f) == Count(slots, f) + Has(v, f)
    ensures Has(slots[i], f) <= Count(slots, f)
    decreases |slots|
  {
    if i == 0 {
      assert slots[i := v][1..] == slots[1..];
    } else {
      assert slots[i := v][1..] == slots[1..][i - 1 := v];
      CountUpdate(slots[1..], i - 1, v, f);
    }
  }

  lemma {:induction false} CountRemove(slots: seq<Option<int>>, i: nat, f: int)
    requires i < |slots|
    ensures Count(slots[..i] + slots[i + 1..], f) + Has(slots[i], f) == Count(slots, f)
    decreases |slots|
  {
    var r := slots[..i] + slots[i + 1..];
    if i == 0 {
      assert r == slots[1..];
    } else {
      assert r[1..] == slots[1..][..i - 1] + slots[1..][i..];
      CountRemove(slots[1..], i - 1, f);
    }
  }

  /** References per frame: mailboxes, frames taken and not yet released, and the publisher's. */
  function Table(slots: seq<Option<int>>, held: multiset<int>, publisher: multiset<int>, n: nat): (r: seq<int>) {
    seq(n, f => Count(slots, f) + held[f] + publisher[f])
  }

  /** The pool counts exactly these references. */
  ghost predicate CountedBy(p: Pool, slots: seq<Option<int>>, held: multiset<int>, publisher: multiset<int>) {
    && Exact(p, Table(slots, held, publisher, |p.refcount|), None)
    && forall i :: 0 <= i < |slots| && slots[i].Some? ==> 0 <= slots[i].value < |p.refcount|
  }

  lemma SameCount(p: Pool, slots: seq<Option<int>>, held: multiset<int>, publisher: multiset<int>,
                  slots': seq<Option<int>>, held': multiset<int>, publisher': multiset<int>)
    requires CountedBy(p, slots, held, publisher)
    requires forall f :: 0 <= f < |p.refcount| ==>
                           Count(slots', f) + held'[f] + publisher'[f] == Count(slots, f) + held[f] + publisher[f]
    requires forall i :: 0 <= i < |slots'| && slots'[i].Some? ==> 0 <= slots'[i].value < |p.refcount|
    ensures CountedBy(p, slots', held', publisher')
  {
    hide Exact, Count;
    assert Table(slots', held', publisher', |p.refcount|) == Table(slots, held, publisher, |p.refcount|);
  }

  lemma SubscribeCount(p: Pool, slots: seq<Option<int>>, held: multiset<int>)
    requires CountedBy(p, slots, held, multiset{})
    ensures CountedBy(p, [None] + slots, held, multiset{})
  {
    hide Exact;
    var slots' := [None] + slots;
    assert slots'[1..] == slots;
    SameCount(p, slots, held, multiset{}, slots', held, multiset{});
  }

  /** Taking moves a reference from the mailbox to the taker. */
  lemma TakeCount(p: Pool, slots: seq<Option<int>>, held: multiset<int>, i: nat)
    requires CountedBy(p, slots, held, multiset{}) && i < |slots| && slots[i].Some?
    ensures CountedBy(p, slots[i := None], held + multiset{slots[i].value}, multiset{})
  {
    hide Exact, Count;
    var slots', held' := slots[i := None], held + multiset{slots[i].value};
    forall f | 0 <= f < |p.refcount|
      ensures Count(slots', f) + held'[f] == Count(slots, f) + held[f]
    {
      CountUpdate(slots, i, None, f);
    }
    SameCount(p, slots, held, multiset{}, slots', held', multiset{});
  }

  /** Leaving empties the mailbox: its reference, if any, is held until it is released. */
  lemma LeaveCount(p: Pool, slots: seq<Option<int>>, held: multiset<int>, i: nat)
    requires CountedBy(p, slots, held, multiset{}) && i < |slots|
    ensures CountedBy(p, slots[..i] + slots[i + 1..],
                      if slots[i].Some? then held + multiset{slots[i].value} else held, multiset{})
  {
    hide Exact, Count;
    var held' := if slots[i].Some? then held + multiset{slots[i].value} else held;
    forall f | 0 <= f < |p.refcount|
      ensures Count(slots[..i] + slots[i + 1..], f) + held'[f] == Count(slots, f) + held[f]
    {
      CountRemove(slots, i, f);
    }
    SameCount(p, slots, held, multiset{}, slots[..i] + slots[i + 1..], held', multiset{});
  }

  lemma SlotRange(p: Pool, slots: seq<Option<int>>, held: multiset<int>, i: nat)
    requires CountedBy(p, slots, held, multiset{}) && i < |slots|
    ensures slots[i].Some? ==> 0 <= slots[i].value < |p.refcount|
  {
  }

  /** Releasing a reference, a taker's or the publisher's: no error message appears. */
  lemma ReleaseCount(p: Pool, slots: seq<Option<int>>, held: multiset<int>, publisher: multiset<int>, f: int, mine: bool)
    requires CountedBy(p, slots, held, publisher) && 0 <= f < |p.refcount| && Sized(p)
    requires if mine then f in publisher else f in held
    ensures CountedBy(Unref(p, f).0, slots, if mine then held else held - multiset{f},
                      if mine then publisher - multiset{f} else publisher)
    ensures Unref(p, f).1.Kept? || Unref(p, f).1.Returned?
  {
    hide Exact, Count, Unref;
    var owners := Table(slots, held, publisher, |p.refcount|);
    var q := Unref(p, f).0;
    UnrefExact(p, owners, None, f);
    ExactSize(q, owners[f := owners[f] - 1]);
    var held' := if mine then held else held - multiset{f};
    var publisher' := if mine then publisher - multiset{f} else publisher;
    assert Table(slots, held', publisher', |p.refcount|) == owners[f := owners[f] - 1];
  }

  lemma ExactSize(p: Pool, owners: seq<int>)
    requires Exact(p, owners, None)
    ensures |p.refcount| == |owners|
  {
  }

  /** The publisher acquires a frame nobody refers to. */
  lemma AcquireCount(p: Pool, slots: seq<Option<int>>, held: multiset<int>, f: int)
    requires CountedBy(p, slots, held, multiset{}) && Pop(p).1 == Some(f)
    ensures 0 <= f < |p.refcount| && Sized(Pop(p).0) && |Pop(p).0.refcount| == |p.refcount|
    ensures CountedBy(Init(Pop(p).0, f), slots, held, multiset{f})
    ensures f !in held && Some(f) !in slots
  {
    hide Count, Unref;
    var owners := Table(slots, held, multiset{}, |p.refcount|);
    PopExact(p, owners);
    InitExact(Pop(p).0, owners, f);
    assert owners[f] == 0;
    assert Table(slots, held, multiset{f}, |p.refcount|) == owners[f := 1];
    if i :| 0 <= i < |slots| && slots[i] == Some(f) {
      CountUpdate(slots, i, None, f);
    }
  }

  /** Delivering to one mailbox: count the new reference, give up the old one, overwrite. */
  function DeliverOne(p: Pool, slot: Option<int>, f: nat): (q: Pool)
    requires Sized(p) && f < |p.refcount|
  {
    var r := Ref(p, f);
    if slot.Some? && 0 <= slot.value < |r.refcount| then Unref(r, slot.value).0 else r
  }

  lemma DeliverCount(p: Pool, slots: seq<Option<int>>, held: multiset<int>, f: nat, i: nat)
    requires CountedBy(p, slots, held, multiset{f}) && i < |slots| && f < |p.refcount| && Sized(p)
    ensures CountedBy(DeliverOne(p, slots[i], f), slots[i := Some(f)], held, multiset{f})
    ensures |DeliverOne(p, slots[i], f).refcount| == |p.refcount|
  {
    hide Exact, Count, Unref;
    var n := |p.refcount|;
    var owners := Table(slots, held, multiset{f}, n);
    RefExact(p, owners, f);
    var r := Ref(p, f);
    var more := owners[f := owners[f] + 1];
    ExactSize(r, more);
    if slots[i].Some? {
      var o := slots[i].value;
      CountUpdate(slots, i, Some(f), o);
      UnrefExact(r, more, None, o);
      ExactSize(Unref(r, o).0, more[o := more[o] - 1]);
    }
    forall g | 0 <= g < n
      ensures Count(slots[i := Some(f)], g) + Has(slots[i], g) == Count(slots, g) + Has(Some(f), g)
    {
      CountUpdate(slots, i, Some(f), g);
    }
    var after := if slots[i].Some? then more[slots[i].value := more[slots[i].value] - 1] else more;
    assert Table(slots[i := Some(f)], held, multiset{f}, n) == after;
  }

  class FrameHubConsumer {
    var slot: Option<int>
    var active: bool
    var next: FrameHubConsumer?
    var prev: FrameHubConsumer?

    constructor ()
      ensures slot == None && active && next == null && prev == null
    {
      slot := None;
      active := true;
      next := null;
      prev := null;
    }
  }

  // -------------------------------------------------------------------------
  // The buffers
  // -------------------------------------------------------------------------

  datatype FrameMeta = FrameMeta(size: nat, sequence: nat, timestampUs: nat)

  /** The octets that copying to the start of a buffer writes are its own exactly when they are no
      more than its capacity; the source does not check. */
  lemma CopyConfined(capacity: nat, f: nat, size: nat)
    ensures (forall k :: f * capacity <= k < f * capacity + size ==> InBuffer(capacity, f, k)) <==> size <= capacity
  {
    assert size > capacity ==> !InBuffer(capacity, f, f * capacity + capacity);
  }

  predicate InBuffer(capacity: nat, f: nat, k: int) {
    f * capacity <= k < f * capacity + capacity
  }

  /** The first octets of a buffer. */
  function Buffer(memory: seq<byte>, count: nat, capacity: nat, g: nat, size: nat): (data: seq<byte>)
    requires |memory| == count * capacity && g < count && size <= capacity
  {
    SlotBounds(g, count, capacity);
    memory[g * capacity..g * capacity + size]
  }

  lemma BuffersCopied(before: seq<byte>, after: seq<byte>, count: nat, capacity: nat, f: nat, data: seq<byte>)
    requires |before| == |after| == count * capacity && f < count && |data| <= capacity
    requires f * capacity + |data| <= |after| && after[f * capacity..f * capacity + |data|] == data
    requires forall k :: 0 <= k < |after| && !(f * capacity <= k < f * capacity + |data|) ==> after[k] == before[k]
    ensures Buffer(after, count, capacity, f, |data|) == data
    ensures forall g: nat, size: nat :: g < count && g != f && size <= capacity ==>
              Buffer(after, count, capacity, g, size) == Buffer(before, count, capacity, g, size)
  {
    forall g: nat, size: nat | g < count && g != f && size <= capacity
      ensures Buffer(after, count, capacity, g, size) == Buffer(before, count, capacity, g, size)
    {
      SlotBounds(g, count, capacity);
      SlotsApart(f, g, capacity);
    }
  }

  /** The pool's buffers, side by side in one allocation, and the frame headers. */
  class FrameBuffers {
    const capacity: nat
    const count: nat
    const backing: array<byte>
    const meta: array<FrameMeta>

    ghost predicate Valid()
      reads meta
    {
      && backing.Length == count * capacity && meta.Length == count
      && forall g :: 0 <= g < count ==> meta[g].size <= capacity
    }

    ghost function At(g: nat): (info: FrameInfo)
      requires Valid() && g < count
      reads backing, meta
    {
      FrameInfo(Buffer(backing[..], count, capacity, g, meta[g].size), meta[g].sequence, meta[g].timestampUs)
    }

    ghost function Contents(): (frames: seq<FrameInfo>)
      requires Valid()
      reads backing, meta
    {
      seq(count, g requires 0 <= g < count && Valid() reads backing, meta => At(g))
    }

    constructor (bytes: nat, frames: nat)
      ensures Valid() && capacity == bytes && count == frames && fresh(backing) && fresh(meta)
    {
      capacity, count := bytes, frames;
      backing := new byte[frames * bytes];
      meta := new FrameMeta[frames](i => FrameMeta(0, 0, 0));
    }

    /** memcpy of a frame that fits, and its header: no other buffer changes. */
    method Copy(f: nat, info: FrameInfo)
      requires Valid() && f < count && |info.data| <= capacity
      modifies backing, meta
      ensures Valid() && Contents() == old(Contents())[f := info]
    {
      hide Buffer;
      SlotBounds(f, count, capacity);
      ghost var before := backing[..];
      Memcpy(backing, f * capacity, info.data);
      meta[f] := FrameMeta(|info.data|, info.sequence, info.timestampUs);
      BuffersCopied(before, backing[..], count, capacity, f, info.data);
    }
  }

  /** How a publish ends; Overrun is where the source would copy past the end of a buffer. */
  datatype Publication = Rejected | Overrun | Published(f: int)

  class FrameHub {
    const pool: Pools.FramePool
    const buffers: FrameBuffers
    var consumers: FrameHubConsumer?
    ghost var list: seq<FrameHubConsumer>
    ghost var slots: seq<Option<int>>
    ghost var held: multiset<int>

    ghost function At(i: int): FrameHubConsumer?
      reads this`list
    {
      if 0 <= i < |list| then list[i] else null
    }

    /** The node at i is linked to its neighbours, and its mailbox holds slots[i]. */
    ghost predicate Node(i: int)
      requires 0 <= i < |list| == |slots|
      reads this`list, this`slots, list
    {
      && list[i].next == At(i + 1) && list[i].prev == At(i - 1)
      && list[i].active && list[i].slot == slots[i]
    }

    /** The links are those of the list, in both directions, and `slots` is what the mailboxes hold. */
    ghost predicate Linked()
      reads this`consumers, this`list, this`slots, list
    {
      && (forall i, j :: 0 <= i < j < |list| ==> list[i] != list[j])
      && consumers == At(0) && |slots| == |list|
      && forall i :: 0 <= i < |list| ==> Node(i)
    }

    ghost predicate PoolCounts(publisher: multiset<int>)
      reads this`slots, this`held, pool, pool.refcount, pool.poolIndex, pool.freeList
    {
      pool.Valid() && CountedBy(pool.View(), slots, held, publisher)
    }

    /** Linked, and the pool counts exactly the references of mailboxes and takers. */
    ghost predicate Valid()
      reads this, list, pool, pool.refcount, pool.poolIndex, pool.freeList, buffers.meta
    {
      Linked() && buffers.Valid() && buffers.count == pool.count && PoolCounts(multiset{})
    }

    /** frame_hub_create. */
    constructor (capacity: nat, poolCount: nat)
      requires capacity > 0 && poolCount > 0
      ensures Valid() && list == [] && held == multiset{} && pool.count == poolCount && buffers.capacity == capacity
      ensures fresh(pool) && fresh(pool.Parts()) && fresh(buffers.backing) && fresh(buffers.meta)
    {
      pool := new Pools.FramePool(poolCount);
      buffers := new FrameBuffers(capacity, poolCount);
      consumers := null;
      list, slots, held := [], [], multiset{};
      new;
      assert Table(slots, held, multiset{}, pool.count) == seq(pool.count, i => 0);
    }

    /** Put a consumer in front of the list. */
    method Link(c: FrameHubConsumer)
      requires Linked() && c !in list && c.active && c.prev == null && c.slot == None
      modifies this`consumers, this`list, this`slots, list`prev, c`next
      ensures Linked() && list == [c] + old(list) && slots == [None] + old(slots)
    {
      c.next := consumers;
      if consumers != null {
        consumers.prev := c;
      }
      consumers := c;
      list, slots := [c] + list, [None] + slots;
      forall k | 0 <= k < |list|
        ensures Node(k)
      {
        if k > 0 {
          assert old(Node(k - 1));
          assert list[k] == old(list)[k - 1];
        }
      }
    }

    /** frame_hub_subscribe: a new consumer with an empty mailbox at the head of the list. */
    method Subscribe() returns (c: FrameHubConsumer)
      requires Valid()
      modifies this`consumers, this`list, this`slots, list`prev
      ensures Valid() && fresh(c) && list == [c] + old(list) && slots == [None] + old(slots) && held == old(held)
    {
      hide CountedBy;
      c := new FrameHubConsumer();
      SubscribeCount(pool.View(), slots, held);
      Link(c);
    }

    /** Take a consumer out of the list. */
    method Unlink(c: FrameHubConsumer, ghost i: nat)
      requires Linked() && i < |list| && c == list[i]
      modifies this`consumers, this`list, this`slots, list`prev, list`next, c`active
      ensures Linked() && list == old(list[..i] + list[i + 1..]) && slots == old(slots[..i] + slots[i + 1..])
      ensures !c.active && c !in list
    {
      ghost var l, z := list, slots;
      assert Node(i) && (i > 0 ==> Node(i - 1)) && (i + 1 < |l| ==> Node(i + 1));
      c.active := false;
      if c.prev != null {
        c.prev.next := c.next;
      } else {
        consumers := c.next;
      }
      if c.next != null {
        c.next.prev := c.prev;
      }
      list, slots := l[..i] + l[i + 1..], z[..i] + z[i + 1..];
      forall k | 0 <= k < |list|
        ensures Node(k)
      {
        var o := if k < i then k else k + 1;
        assert old(Node(o));
        assert list[k] == l[o] && slots[k] == z[o] && l[o] != c;
      }
    }

    /** Replace the content of one mailbox. */
    method Put(c: FrameHubConsumer, ghost i: nat, v: Option<int>)
      requires Linked() && i < |list| && c == list[i]
      modifies c`slot, this`slots
      ensures Linked() && c.slot == v && slots == old(slots)[i := v]
    {
      c.slot := v;
      slots := slots[i := v];
      forall k | 0 <= k < |list|
        ensures Node(k)
      {
        assert old(Node(k));
      }
    }

    /** frame_unref of a held frame: neither of its error messages can appear. */
    method Drop(f: int)
      requires PoolCounts(multiset{}) && 0 <= f < pool.count && f in held
      modifies this`held, pool`freeCount, pool.refcount, pool.poolIndex, pool.freeList
      ensures PoolCounts(multiset{}) && held == old(held) - multiset{f}
    {
      hide CountedBy, Unref;
      ReleaseCount(pool.View(), slots, held, multiset{}, f, false);
      var outcome := pool.Release(f);
      assert outcome.Kept? || outcome.Returned?;
      held := held - multiset{f};
    }

    /** frame_hub_unsubscribe: out of the list, and a frame left in the mailbox is released. */
    method Unsubscribe(c: FrameHubConsumer, ghost i: nat)
      requires Valid() && i < |list| && c == list[i]
      modifies this`consumers, this`list, this`slots, this`held, list
      modifies pool`freeCount, pool.refcount, pool.poolIndex, pool.freeList
      ensures Valid() && list == old(list[..i] + list[i + 1..]) && slots == old(slots[..i] + slots[i + 1..])
      ensures held == old(held) && c.slot == None
    {
      hide CountedBy;
      LeaveCount(pool.View(), slots, held, i);
      SlotRange(pool.View(), slots, held, i);
      assert Node(i);
      Unlink(c, i);
      if c.slot.Some? {
        ghost var before := held;
        held := held + multiset{c.slot.value};
        Drop(c.slot.value);
        assert held == before;
        Clear(c);
      }
    }

    /** A consumer outside the list no longer matters to it. */
    method Clear(c: FrameHubConsumer)
      requires Linked() && c !in list
      modifies c`slot
      ensures Linked() && c.slot == None
    {
      c.slot := None;
      forall k | 0 <= k < |list|
        ensures Node(k)
      {
        assert old(Node(k));
      }
    }

    /** frame_hub_take: the mailbox is emptied and its reference goes to the caller. */
    method Take(c: FrameHubConsumer, ghost i: nat) returns (f: Option<int>)
      requires Valid() && i < |list| && c == list[i]
      modifies c`slot, this`slots, this`held
      ensures Valid() && f == old(slots)[i] && list == old(list) && slots == old(slots)[i := None]
      ensures held == if f.Some? then old(held) + multiset{f.value} else old(held)
    {
      hide CountedBy;
      assert Node(i);
      f := c.slot;
      if f.Some? {
        TakeCount(pool.View(), slots, held, i);
        held := held + multiset{f.value};
      }
      Put(c, i, None);
      assert f.None? ==> slots == old(slots);
    }

    /** Deliver the publisher's frame to one mailbox. */
    method Deliver(c: FrameHubConsumer, ghost i: nat, f: nat)
      requires Linked() && i < |list| && c == list[i]
      requires f < pool.count && PoolCounts(multiset{f})
      modifies c`slot, this`slots, pool`freeCount, pool.refcount, pool.poolIndex, pool.freeList
      ensures Linked() && PoolCounts(multiset{f}) && slots == old(slots)[i := Some(f)]
    {
      assert Node(i);
      DeliverCount(pool.View(), slots, held, f, i);
      ghost var p := pool.View();
      hide CountedBy, Unref;
      pool.AddRef(f);
      if c.slot.Some? {
        var outcome := pool.Release(c.slot.value);
      }
      assert pool.View() == DeliverOne(p, slots[i], f);
      Put(c, i, Some(f));
    }

    /** Take a buffer nobody refers to. */
    method TakeBuffer() returns (got: Option<int>)
      requires PoolCounts(multiset{})
      modifies pool`freeCount, pool.refcount, pool.poolIndex, pool.freeList
      ensures got.Some? <==> old(pool.View()).free != []
      ensures got.None? ==> PoolCounts(multiset{})
      ensures got.Some? ==>
                && 0 <= got.value < pool.count && PoolCounts(multiset{got.value})
                && got.value !in held && got !in slots
    {
      ghost var p := pool.View();
      got := pool.Acquire();
      if got.Some? {
        AcquireCount(p, slots, held, got.value);
      }
    }

    /** The walk over the consumer list. */
    method DeliverAll(f: nat)
      requires Linked() && f < pool.count && PoolCounts(multiset{f})
      modifies this`slots, list`slot, pool`freeCount, pool.refcount, pool.poolIndex, pool.freeList
      ensures Linked() && PoolCounts(multiset{f}) && slots == seq(|list|, i => Some(f))
    {
      hide CountedBy;
      var c := consumers;
      ghost var k := 0;
      while c != null
        invariant Linked() && 0 <= k <= |list| && c == At(k)
        invariant PoolCounts(multiset{f})
        invariant forall i :: 0 <= i < k ==> slots[i] == Some(f)
        decreases |list| - k
      {
        assert Node(k);
        if c.active {
          Deliver(c, k, f);
        }
        assert Node(k);
        c := c.next;
        k := k + 1;
      }
    }

    /** The publisher's own reference is given up last. */
    method ReleaseOwn(f: int)
      requires 0 <= f < pool.count && PoolCounts(multiset{f})
      modifies pool`freeCount, pool.refcount, pool.poolIndex, pool.freeList
      ensures PoolCounts(multiset{})
    {
      hide CountedBy, Unref;
      ReleaseCount(pool.View(), slots, held, multiset{f}, f, true);
      assert multiset{f} - multiset{f} == multiset{};
      var outcome := pool.Release(f);
      assert outcome.Kept? || outcome.Returned?;
    }

    /** frame_hub_publish: rejected when there is nothing to copy or no free buffer, Overrun exactly
        when a larger frame gets a buffer; otherwise the data is in a buffer nobody referred to, every
        mailbox holds that frame, and the frames they held before have been given up. */
    method Publish(info: FrameInfo) returns (r: Publication)
      requires Valid()
      modifies this`slots, list`slot, buffers.backing, buffers.meta
      modifies pool`freeCount, pool.refcount, pool.poolIndex, pool.freeList
      ensures r.Rejected? <==> info.data == [] || old(pool.View()).free == []
      ensures r.Overrun? <==> !r.Rejected? && |info.data| > buffers.capacity
      ensures buffers.Valid() && (!r.Overrun? ==> Valid())
      ensures r.Rejected? ==> slots == old(slots) && buffers.Contents() == old(buffers.Contents())
      ensures r.Published? ==>
                && 0 <= r.f < pool.count && buffers.Contents() == old(buffers.Contents())[r.f := info]
                && slots == seq(|list|, i => Some(r.f)) && r.f !in held && Some(r.f) !in old(slots)
    {
      hide CountedBy;
      if |info.data| == 0 {
        return Rejected;
      }
      var got := TakeBuffer();
      if got.None? {
        return Rejected;
      }
      if |info.data| > buffers.capacity {
        return Overrun;
      }
      buffers.Copy(got.value, info);
      DeliverAll(got.value);
      ReleaseOwn(got.value);
      return Published(got.value);
    }
  }
}
