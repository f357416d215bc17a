/**
 The frame hub of src/media/frame_hub.c as a protocol: one publisher thread and any number
 of consumer threads, one step for each region that a lock protects, in any interleaving.
 frame_ref is taken without the pool lock: the mode says whether it is one step or two.
 */
module HubProtocol {
  import opened Bytes
  import opened FramePool

  // -------------------------------------------------------------------------
  // State
  // -------------------------------------------------------------------------

  /** A mailbox, the frames its thread has taken and not yet released, and the numbers of the
      frames it was given and took. An inactive consumer is one that has unsubscribed. */
  datatype Consumer = Consumer(
    active: bool,
    slot: Option<int>,
    held: multiset<int>,
    delivered: seq<nat>,
    taken: seq<nat>)

  /** Where the publisher stands. `at` is the consumer whose lock it holds, `todo` the rest of
      the consumer list. From Delivering to Swapped it holds the hub lock. */
  datatype Publisher =
    | Idle
    | Popped(frame: int)
    | Filling(frame: int)
    | Filled(frame: int)
    | Delivering(frame: int, todo: seq<nat>)
    | Locked(frame: int, at: nat, todo: seq<nat>)
    | RefRead(frame: int, at: nat, todo: seq<nat>, read: int)
    | Reffed(frame: int, at: nat, todo: seq<nat>)
    | Swapped(frame: int, at: nat, todo: seq<nat>)
    | Closing(frame: int)

  /** `number` is the sequence number of the current or next publish, `content` that of the
      data in each buffer, `latest` the frame last delivered, `faults` the error messages. */
  datatype Hub = Hub(
    pool: Pool,
    content: seq<nat>,
    list: seq<nat>,
    consumers: seq<Consumer>,
    publisher: Publisher,
    number: nat,
    latest: Option<int>,
    faults: nat)

  /** How frame_ref increments a count: at once, or by a read and a write, in which case the number
      of subscribers at a time is limited. */
  datatype Mode = Atomic | Split(limit: nat)

  /** The modes in which counting is exact. */
  predicate Safe(mode: Mode) {
    mode.Split? ==> mode.limit <= 1
  }

  datatype Step =
    | Acquire
    | Prepare
    | Copy
    | LockHub
    | LockConsumer
    | AddRef
    | ReadCount
    | WriteCount
    | DropOld
    | Store
    | UnlockHub
    | Release
    | Take(c: nat)
    | Drop(c: nat, frame: int)
    | Subscribe
    | Unsubscribe(c: nat)
    | Discard(c: nat)

  /** The publisher holds the hub lock. */
  predicate HubLocked(s: Hub) {
    var p := s.publisher;
    p.Delivering? || p.Locked? || p.RefRead? || p.Reffed? || p.Swapped?
  }

  /** The publisher holds the lock of consumer c. */
  predicate ConsumerLocked(s: Hub, c: nat) {
    var p := s.publisher;
    (p.Locked? || p.RefRead? || p.Reffed? || p.Swapped?) && p.at == c
  }

  /** When a step can happen. A thread takes from, and unsubscribes, only its own consumer. */
  predicate Enabled(s: Hub, step: Step, mode: Mode) {
    var p := s.publisher;
    match step
    case Acquire => p.Idle?
    case Prepare => p.Popped?
    case Copy => p.Filling?
    case LockHub => p.Filled?
    case LockConsumer => p.Delivering? && p.todo != []
    case AddRef => p.Locked? && mode.Atomic?
    case ReadCount => p.Locked? && mode.Split?
    case WriteCount => p.RefRead? && mode.Split?
    case DropOld => p.Reffed?
    case Store => p.Swapped?
    case UnlockHub => p.Delivering? && p.todo == []
    case Release => p.Closing?
    case Take(c) => c < |s.consumers| && s.consumers[c].active && !ConsumerLocked(s, c)
    case Drop(c, f) => c < |s.consumers| && f in s.consumers[c].held
    case Subscribe => !HubLocked(s) && (mode.Split? ==> |s.list| < mode.limit)
    case Unsubscribe(c) => c < |s.consumers| && s.consumers[c].active && !HubLocked(s)
    case Discard(c) => c < |s.consumers| && !s.consumers[c].active && s.consumers[c].slot.Some?
  }

  /** All indices in range: what the steps need to be defined. */
  ghost predicate Ranged(s: Hub) {
    var n := |s.pool.refcount|;
    && Sized(s.pool) && |s.content| == n
    && (s.publisher.Idle? || 0 <= s.publisher.frame < n)
    && (HubLocked(s) ==> forall k :: 0 <= k < |s.publisher.todo| ==> s.publisher.todo[k] < |s.consumers|)
    && (HubLocked(s) && !s.publisher.Delivering? ==> s.publisher.at < |s.consumers|)
    && (forall c :: 0 <= c < |s.consumers| ==> SlotRanged(s.consumers[c], n))
  }

  ghost predicate SlotRanged(c: Consumer, n: nat) {
    && (c.slot.Some? ==> 0 <= c.slot.value < n)
    && forall f :: f in c.held ==> 0 <= f < n
  }

  function Remove(s: seq<nat>, c: nat): (r: seq<nat>)
    ensures forall x :: x in r <==> x in s && x != c
    ensures |r| <= |s|
  {
    if s == [] then [] else (if s[0] == c then [] else [s[0]]) + Remove(s[1..], c)
  }

  ghost function GiveUp(s: Hub, f: int): (r: Hub)
    requires Ranged(s) && 0 <= f < |s.pool.refcount|
    ensures r.content == s.content && r.list == s.list && r.consumers == s.consumers
    ensures r.publisher == s.publisher && r.number == s.number && r.latest == s.latest
  {
    var (q, outcome) := Unref(s.pool, f);
    s.(pool := q, faults := s.faults + if outcome.DoubleUnref? || outcome.FreeListOverflow? then 1 else 0)
  }

  ghost function SetConsumer(s: Hub, c: nat, v: Consumer): (r: Hub)
    requires c < |s.consumers|
  {
    s.(consumers := s.consumers[c := v])
  }

  ghost function Next(s: Hub, step: Step, mode: Mode): (r: Hub)
    requires Ranged(s) && Enabled(s, step, mode)
  {
    var p := s.publisher;
    match step
    case Acquire =>
      var (q, f) := Pop(s.pool);
      if f.None? then s.(number := s.number + 1) else s.(pool := q, publisher := Popped(f.value))
    case Prepare => s.(pool := Init(s.pool, p.frame), publisher := Filling(p.frame))
    case Copy => s.(content := s.content[p.frame := s.number], publisher := Filled(p.frame))
    case LockHub => s.(publisher := Delivering(p.frame, s.list))
    case LockConsumer =>
      if s.consumers[p.todo[0]].active then s.(publisher := Locked(p.frame, p.todo[0], p.todo[1..]))
      else s.(publisher := Delivering(p.frame, p.todo[1..]))
    case AddRef => s.(pool := Ref(s.pool, p.frame), publisher := Reffed(p.frame, p.at, p.todo))
    case ReadCount => s.(publisher := RefRead(p.frame, p.at, p.todo, s.pool.refcount[p.frame]))
    case WriteCount =>
      s.(pool := s.pool.(refcount := s.pool.refcount[p.frame := p.read + 1]),
         publisher := Reffed(p.frame, p.at, p.todo))
    case DropOld =>
      var held := s.consumers[p.at].slot;
      var t := if held.Some? then GiveUp(s, held.value) else s;
      t.(publisher := Swapped(p.frame, p.at, p.todo))
    case Store =>
      var c := s.consumers[p.at];
      SetConsumer(s, p.at, c.(slot := Some(p.frame), delivered := c.delivered + [s.content[p.frame]]))
        .(publisher := Delivering(p.frame, p.todo))
    case UnlockHub => s.(publisher := Closing(p.frame), latest := Some(p.frame))
    case Release => GiveUp(s, p.frame).(publisher := Idle, number := s.number + 1)
    case Take(c) =>
      var v := s.consumers[c];
      if v.slot.None? then s
      else
        SetConsumer(s, c, v.(slot := None, held := v.held + multiset{v.slot.value},
                             taken := v.taken + [s.content[v.slot.value]]))
    case Drop(c, f) =>
      var v := s.consumers[c];
      SetConsumer(GiveUp(s, f), c, v.(held := v.held - multiset{f}))
    case Subscribe =>
      s.(consumers := s.consumers + [Consumer(true, None, multiset{}, [], [])], list := [|s.consumers|] + s.list)
    case Unsubscribe(c) =>
      SetConsumer(s, c, s.consumers[c].(active := false)).(list := Remove(s.list, c))
    case Discard(c) =>
      var v := s.consumers[c];
      SetConsumer(GiveUp(s, v.slot.value), c, v.(slot := None))
  }

  // -------------------------------------------------------------------------
  // Who owns a frame
  // -------------------------------------------------------------------------

  function Owned(c: Consumer, f: int): (n: nat) {
    (if c.slot == Some(f) then 1 else 0) + c.held[f]
  }

  /** References held by consumers. */
  function Owners(cs: seq<Consumer>, f: int): (n: nat)
  {
    if cs == [] then 0 else Owned(cs[0], f) + Owners(cs[1..], f)
  }

  lemma {:induction false} OwnersUpdate(cs: seq<Consumer>, i: nat, v: Consumer, f: int)
    requires i < |cs|
    ensures Owners(cs[i := v], f) == Owners(cs, f) - Owned(cs[i], f) + Owned(v, f)
    decreases |cs|
  {
    if i == 0 {
      assert cs[i := v][1..] == cs[1..];
    } else {
      assert cs[i := v][1..] == cs[1..][i - 1 := v];
      OwnersUpdate(cs[1..], i - 1, v, f);
    }
  }

  lemma {:induction false} OwnersAppend(cs: seq<Consumer>, v: Consumer, f: int)
    ensures Owners(cs + [v], f) == Owners(cs, f) + Owned(v, f)
    decreases |cs|
  {
    if cs == [] {
      assert cs + [v] == [v];
      assert [v][1..] == [];
    } else {
      assert (cs + [v])[1..] == cs[1..] + [v];
      OwnersAppend(cs[1..], v, f);
    }
  }

  lemma {:induction false} OwnersAt(cs: seq<Consumer>, i: nat, f: int)
    requires i < |cs|
    ensures Owned(cs[i], f) <= Owners(cs, f)
    decreases |cs|
  {
    if i > 0 {
      OwnersAt(cs[1..], i - 1, f);
    }
  }

  /** References held by the publisher: its own from the copy to the release, and between
      counting and storing the one meant for the mailbox at hand. */
  function PublisherRefs(p: Publisher, f: int): (n: nat) {
    match p
    case Idle => 0
    case Popped(_) => 0
    case Reffed(g, _, _) => if f == g then 2 else 0
    case Swapped(g, _, _) => if f == g then 2 else 0
    case _ => if f == p.frame then 1 else 0
  }

  /** The mailboxes as owners: once its old reference is given up, and until the pointer is
      overwritten, the mailbox at hand owns nothing. */
  function Holders(s: Hub): (cs: seq<Consumer>)
    ensures |cs| == |s.consumers|
  {
    if s.publisher.Swapped? && s.publisher.at < |s.consumers| then
      s.consumers[s.publisher.at := s.consumers[s.publisher.at].(slot := None)]
    else s.consumers
  }

  function Refs(s: Hub, f: int): (n: nat) {
    Owners(Holders(s), f) + PublisherRefs(s.publisher, f)
  }

  function RefTable(s: Hub): (r: seq<int>) {
    seq(|s.pool.refcount|, f => Refs(s, f))
  }

  // -------------------------------------------------------------------------
  // The invariant
  // -------------------------------------------------------------------------

  function PoppedFrame(s: Hub): (f: Option<int>) {
    if s.publisher.Popped? then Some(s.publisher.frame) else None
  }

  /** Reference counts equal references held, the free list holds exactly the unowned frames,
      and no error message was ever printed. */
  ghost predicate Counted(s: Hub) {
    Ranged(s) && Exact(s.pool, RefTable(s), PoppedFrame(s)) && s.faults == 0
  }

  /** The consumer list holds the active consumers, each once; the publisher walks its tail. */
  ghost predicate Listed(s: Hub) {
    && Distinct(s.list)
    && (forall c :: 0 <= c < |s.consumers| ==> (s.consumers[c].active <==> c in s.list))
    && (forall k :: 0 <= k < |s.list| ==> s.list[k] < |s.consumers|)
    && (HubLocked(s) ==> 0 <= Walked(s) <= |s.list| && s.publisher.todo == s.list[Walked(s)..])
    && (HubLocked(s) && !s.publisher.Delivering? ==> Walked(s) > 0 && s.publisher.at == s.list[Walked(s) - 1])
  }

  /** How far the publisher has come down the list, the consumer at hand included. */
  function Walked(s: Hub): (k: int)
    requires HubLocked(s)
  {
    |s.list| - |s.publisher.todo|
  }

  /** Nobody has been given the new frame yet. */
  predicate Private(s: Hub) {
    var p := s.publisher;
    match p
    case Idle => false
    case Popped(_) => true
    case Filling(_) => true
    case Filled(_) => true
    case Delivering(_, _) => Walked(s) == 0
    case Locked(_, _, _) => Walked(s) == 1
    case RefRead(_, _, _, _) => Walked(s) == 1
    case _ => false
  }

  /** The buffer being filled, and the frame until its first delivery, belong to nobody else. */
  ghost predicate Exclusive(s: Hub) {
    Private(s) ==> Owners(s.consumers, s.publisher.frame) == 0
  }

  /** With the mode increment and at most one subscriber the count read is still current. */
  ghost predicate SplitSafe(s: Hub, mode: Mode) {
    && Safe(mode) && (mode.Split? ==> |s.list| <= mode.limit)
    && (s.publisher.RefRead? ==> mode.Split? && 0 <= s.publisher.frame < |s.pool.refcount|
                                 && s.publisher.read == s.pool.refcount[s.publisher.frame])
  }

  ghost predicate Inv(s: Hub, mode: Mode) {
    Counted(s) && Listed(s) && Exclusive(s) && SplitSafe(s, mode)
  }

  // -------------------------------------------------------------------------
  // Every step keeps the invariant
  // -------------------------------------------------------------------------

  /** A step that moves references around without changing how many there are. */
  lemma SameTable(s: Hub, t: Hub)
    requires Counted(s) && Ranged(t) && t.pool == s.pool && t.faults == s.faults
    requires forall f :: 0 <= f < |s.pool.refcount| ==> Refs(t, f) == Refs(s, f)
    requires PoppedFrame(t) == PoppedFrame(s)
    ensures Counted(t)
  {
    hide Refs, Exact, Ranged;
    assert RefTable(t) == RefTable(s);
  }

  /** A step that gives up one reference to f that was held. */
  lemma OneLess(s: Hub, t: Hub, f: int)
    requires Counted(s) && Ranged(t) && 0 <= f < |s.pool.refcount|
    requires t.pool == GiveUp(s, f).pool && t.faults == GiveUp(s, f).faults
    requires Refs(s, f) > 0
    requires forall g :: 0 <= g < |s.pool.refcount| ==> Refs(t, g) == Refs(s, g) - if g == f then 1 else 0
    requires PoppedFrame(t) == PoppedFrame(s)
    ensures Counted(t)
  {
    hide Refs, Exact, Ranged;
    UnrefExact(s.pool, RefTable(s), PoppedFrame(s), f);
    assert RefTable(t) == RefTable(s)[f := RefTable(s)[f] - 1];
  }

  lemma GiveUpSized(s: Hub, f: int)
    requires Counted(s) && 0 <= f < |s.pool.refcount| && Refs(s, f) > 0
    ensures Sized(GiveUp(s, f).pool) && |GiveUp(s, f).pool.refcount| == |s.pool.refcount|
  {
    hide Refs, Exact;
    UnrefExact(s.pool, RefTable(s), PoppedFrame(s), f);
    assert Exact(GiveUp(s, f).pool, RefTable(s)[f := RefTable(s)[f] - 1], PoppedFrame(s));
    ExactSized(GiveUp(s, f).pool, RefTable(s)[f := RefTable(s)[f] - 1], PoppedFrame(s));
  }

  lemma ExactSized(p: Pool, owners: seq<int>, popped: Option<int>)
    requires Exact(p, owners, popped)
    ensures Sized(p) && |p.refcount| == |owners|
  {
  }

  /** Replacing one consumer changes the references by the difference it makes. */
  lemma OneConsumer(s: Hub, t: Hub, c: nat, f: int)
    requires c < |s.consumers| == |t.consumers| && t.publisher == s.publisher
    requires t.consumers == s.consumers[c := t.consumers[c]]
    ensures Refs(t, f) + Owned(Holders(s)[c], f) == Refs(s, f) + Owned(Holders(t)[c], f)
  {
    hide Owned, Owners;
    assert Holders(t) == Holders(s)[c := Holders(t)[c]];
    OwnersUpdate(Holders(s), c, Holders(t)[c], f);
  }

  lemma AcquireCounted(s: Hub, t: Hub, mode: Mode)
    requires Inv(s, mode) && Enabled(s, Acquire, mode) && t == Next(s, Acquire, mode)
    ensures Counted(t)
  {
    hide Exact, Listed, Exclusive, SplitSafe;
    PopExact(s.pool, RefTable(s));
    ExactSized(Pop(s.pool).0, RefTable(s), Pop(s.pool).1);
    PoppedRange(s.pool, RefTable(s), Pop(s.pool).1);
    assert RefTable(t) == RefTable(s);
  }

  lemma PoppedRange(p: Pool, owners: seq<int>, f: Option<int>)
    requires Exact(Pop(p).0, owners, f)
    ensures f.Some? ==> 0 <= f.value < |owners| && owners[f.value] == 0
  {
  }

  lemma PrepareCounted(s: Hub, t: Hub, mode: Mode)
    requires Inv(s, mode) && Enabled(s, Prepare, mode) && t == Next(s, Prepare, mode)
    ensures Counted(t)
  {
    var f := s.publisher.frame;
    InitExact(s.pool, RefTable(s), f);
    assert RefTable(s)[f] == 0;
    hide Exact, Sized;
    assert RefTable(t) == RefTable(s)[f := 1];
  }

  /** Steps of the publisher that move no reference. */
  lemma PublisherCounted(s: Hub, t: Hub, step: Step, mode: Mode)
    requires Inv(s, mode) && Enabled(s, step, mode) && t == Next(s, step, mode)
    requires step.Copy? || step.LockHub? || step.LockConsumer? || step.ReadCount? || step.UnlockHub?
    ensures Counted(t)
  {
    hide Exact, Sized, Owners;
    SameTable(s, t);
  }

  lemma AddRefCounted(s: Hub, t: Hub, step: Step, mode: Mode)
    requires Inv(s, mode) && Enabled(s, step, mode) && t == Next(s, step, mode)
    requires step.AddRef? || step.WriteCount?
    ensures Counted(t)
  {
    hide Exact, Listed, Exclusive;
    var f := s.publisher.frame;
    assert RefTable(s)[f] >= 1;
    RefExact(s.pool, RefTable(s), f);
    assert RefTable(t) == RefTable(s)[f := RefTable(s)[f] + 1];
  }

  lemma DropOldCounted(s: Hub, t: Hub, mode: Mode)
    requires Inv(s, mode) && Enabled(s, DropOld, mode) && t == Next(s, DropOld, mode)
    ensures Counted(t)
  {
    hide Exact, Sized, Exclusive, SplitSafe;
    var at := s.publisher.at;
    var slot := s.consumers[at].slot;
    forall f | 0 <= f < |s.pool.refcount|
      ensures Refs(t, f) == Refs(s, f) - if slot == Some(f) then 1 else 0
    {
      OwnersUpdate(s.consumers, at, Holders(t)[at], f);
    }
    if slot.Some? {
      OwnersAt(s.consumers, at, slot.value);
      GiveUpSized(s, slot.value);
      OneLess(s, t, slot.value);
    } else {
      SameTable(s, t);
    }
  }

  lemma StoreCounted(s: Hub, t: Hub, mode: Mode)
    requires Inv(s, mode) && Enabled(s, Store, mode) && t == Next(s, Store, mode)
    ensures Counted(t)
  {
    hide Exact, Sized;
    var at := s.publisher.at;
    forall f | 0 <= f < |s.pool.refcount|
      ensures Refs(t, f) == Refs(s, f)
    {
      assert t.consumers == Holders(s)[at := t.consumers[at]];
      OwnersUpdate(Holders(s), at, t.consumers[at], f);
    }
    SameTable(s, t);
  }

  lemma ReleaseCounted(s: Hub, t: Hub, mode: Mode)
    requires Inv(s, mode) && Enabled(s, Release, mode) && t == Next(s, Release, mode)
    ensures Counted(t)
  {
    hide Exact, Sized;
    GiveUpSized(s, s.publisher.frame);
    OneLess(s, t, s.publisher.frame);
  }

  lemma TakeCounted(s: Hub, t: Hub, c: nat, mode: Mode)
    requires Inv(s, mode) && Enabled(s, Take(c), mode) && t == Next(s, Take(c), mode)
    ensures Counted(t)
  {
    hide Exact, Sized, Owners;
    if s.consumers[c].slot.Some? {
      forall f | 0 <= f < |s.pool.refcount|
        ensures Refs(t, f) == Refs(s, f)
      {
        OneConsumer(s, t, c, f);
      }
      SameTable(s, t);
    }
  }

  lemma UnsubscribeCounted(s: Hub, t: Hub, c: nat, mode: Mode)
    requires Inv(s, mode) && Enabled(s, Unsubscribe(c), mode) && t == Next(s, Unsubscribe(c), mode)
    ensures Counted(t)
  {
    hide Exact, Sized, Owners;
    forall f | 0 <= f < |s.pool.refcount|
      ensures Refs(t, f) == Refs(s, f)
    {
      OneConsumer(s, t, c, f);
    }
    SameTable(s, t);
  }

  lemma DropCounted(s: Hub, t: Hub, c: nat, f: int, mode: Mode)
    requires Inv(s, mode) && Enabled(s, Drop(c, f), mode) && t == Next(s, Drop(c, f), mode)
    ensures Counted(t)
  {
    hide Exact, Sized, Owners;
    OwnersAt(Holders(s), c, f);
    GiveUpSized(s, f);
    forall g | 0 <= g < |s.pool.refcount|
      ensures Refs(t, g) == Refs(s, g) - if g == f then 1 else 0
    {
      OneConsumer(s, t, c, g);
    }
    OneLess(s, t, f);
  }

  lemma DiscardCounted(s: Hub, t: Hub, c: nat, mode: Mode)
    requires Inv(s, mode) && Enabled(s, Discard(c), mode) && t == Next(s, Discard(c), mode)
    ensures Counted(t)
  {
    hide Exact, Sized, Owners;
    var f := s.consumers[c].slot.value;
    OwnersAt(Holders(s), c, f);
    GiveUpSized(s, f);
    forall g | 0 <= g < |s.pool.refcount|
      ensures Refs(t, g) == Refs(s, g) - if g == f then 1 else 0
    {
      OneConsumer(s, t, c, g);
    }
    OneLess(s, t, f);
  }

  lemma SubscribeCounted(s: Hub, t: Hub, mode: Mode)
    requires Inv(s, mode) && Enabled(s, Subscribe, mode) && t == Next(s, Subscribe, mode)
    ensures Counted(t)
  {
    hide Exact, Sized;
    var v := t.consumers[|s.consumers|];
    forall f | 0 <= f < |s.pool.refcount|
      ensures Refs(t, f) == Refs(s, f)
    {
      OwnersAppend(s.consumers, v, f);
    }
    SameTable(s, t);
  }

  /** The publisher moves on to the next consumer, which is always an active one. */
  lemma WalkStep(s: Hub, mode: Mode)
    requires Inv(s, mode) && Enabled(s, LockConsumer, mode)
    ensures s.consumers[s.publisher.todo[0]].active
    ensures Listed(Next(s, LockConsumer, mode))
  {
    hide Exact, Sized, Owners;
    var k := Walked(s);
    assert s.publisher.todo[0] == s.list[k] && s.list[k] in s.list;
    assert s.publisher.todo[1..] == s.list[k + 1..];
  }

  lemma SubscribeListed(s: Hub, mode: Mode)
    requires Inv(s, mode) && Enabled(s, Subscribe, mode)
    ensures Listed(Next(s, Subscribe, mode))
  {
    hide Exact, Sized, Owners;
  }

  lemma UnsubscribeListed(s: Hub, c: nat, mode: Mode)
    requires Inv(s, mode) && Enabled(s, Unsubscribe(c), mode)
    ensures Listed(Next(s, Unsubscribe(c), mode))
  {
    hide Exact, Sized, Owners;
    var t := Next(s, Unsubscribe(c), mode);
    RemoveDistinct(s.list, c);
    forall k | 0 <= k < |t.list|
      ensures t.list[k] < |t.consumers|
    {
      assert t.list[k] in s.list;
    }
  }

  /** A step that touches neither the list nor who is active, nor the publisher's place in it. */
  lemma SameList(s: Hub, t: Hub)
    requires Listed(s) && t.list == s.list && |t.consumers| == |s.consumers|
    requires forall c :: 0 <= c < |s.consumers| ==> t.consumers[c].active == s.consumers[c].active
    requires HubLocked(t) ==>
               || (HubLocked(s) && t.publisher.todo == s.publisher.todo
                   && (!t.publisher.Delivering? ==> !s.publisher.Delivering? && t.publisher.at == s.publisher.at))
               || (t.publisher.Delivering? && t.publisher.todo == s.list)
    ensures Listed(t)
  {
    assert s.list[0..] == s.list;
  }

  /** The consumer list and the publisher's place in it. */
  lemma ListedStep(s: Hub, step: Step, mode: Mode)
    requires Inv(s, mode) && Enabled(s, step, mode)
    ensures Listed(Next(s, step, mode))
  {
    hide Exact, Sized, Owners, Listed;
    match step
    case LockConsumer => WalkStep(s, mode);
    case Subscribe => SubscribeListed(s, mode);
    case Unsubscribe(c) => UnsubscribeListed(s, c, mode);
    case _ => SameList(s, Next(s, step, mode));
  }

  lemma {:induction false} RemoveDistinct(l: seq<nat>, c: nat)
    requires Distinct(l)
    ensures Distinct(Remove(l, c))
  {
    if l != [] {
      var rest := l[1..];
      assert forall i :: 0 <= i < |rest| ==> rest[i] == l[i + 1] != l[0];
      RemoveDistinct(rest, c);
      assert l[0] !in Remove(rest, c);
    }
  }

  lemma CountedStep(s: Hub, step: Step, mode: Mode)
    requires Inv(s, mode) && Enabled(s, step, mode)
    ensures Counted(Next(s, step, mode))
  {
    hide Listed, Next, Exact, Ranged, RefTable, PoppedFrame;
    var t := Next(s, step, mode);
    match step
    case Acquire => AcquireCounted(s, t, mode);
    case Prepare => PrepareCounted(s, t, mode);
    case AddRef => AddRefCounted(s, t, step, mode);
    case WriteCount => AddRefCounted(s, t, step, mode);
    case DropOld => DropOldCounted(s, t, mode);
    case Store => StoreCounted(s, t, mode);
    case Release => ReleaseCounted(s, t, mode);
    case Take(c) => TakeCounted(s, t, c, mode);
    case Drop(c, f) => DropCounted(s, t, c, f, mode);
    case Subscribe => SubscribeCounted(s, t, mode);
    case Unsubscribe(c) => UnsubscribeCounted(s, t, c, mode);
    case Discard(c) => DiscardCounted(s, t, c, mode);
    case _ => PublisherCounted(s, t, step, mode);
  }

  /** A consumer that does not have a frame cannot come to own it on its own. */
  lemma ConsumerKeepsPrivate(s: Hub, t: Hub, c: nat, f: int)
    requires c < |s.consumers| == |t.consumers| && t.consumers == s.consumers[c := t.consumers[c]]
    requires Owners(s.consumers, f) == 0
    requires Owned(s.consumers[c], f) == 0 ==> Owned(t.consumers[c], f) == 0
    ensures Owners(t.consumers, f) == 0
  {
    OwnersAt(s.consumers, c, f);
    OwnersUpdate(s.consumers, c, t.consumers[c], f);
  }

  /** The popped frame was free, so nobody holds it. */
  lemma AcquireExclusive(s: Hub, mode: Mode)
    requires Inv(s, mode) && Enabled(s, Acquire, mode)
    ensures Exclusive(Next(s, Acquire, mode))
  {
    hide Exact, Sized, Owners, Listed;
    var f := Pop(s.pool).1;
    if f.Some? {
      PopExact(s.pool, RefTable(s));
      PoppedRange(s.pool, RefTable(s), f);
      assert RefTable(s)[f.value] == 0;
    }
  }

  lemma ConsumerExclusive(s: Hub, step: Step, mode: Mode)
    requires Inv(s, mode) && Enabled(s, step, mode)
    requires step.Take? || step.Drop? || step.Unsubscribe? || step.Discard?
    ensures Exclusive(Next(s, step, mode))
  {
    hide Exact, Sized, Owners, Listed;
    if Private(s) {
      var t := Next(s, step, mode);
      if t != s {
        ConsumerKeepsPrivate(s, t, step.c, s.publisher.frame);
      }
    }
  }

  lemma ExclusiveStep(s: Hub, step: Step, mode: Mode)
    requires Inv(s, mode) && Enabled(s, step, mode)
    ensures Exclusive(Next(s, step, mode))
  {
    hide Exact, Sized, Owners;
    match step
    case Acquire => AcquireExclusive(s, mode);
    case Take(_) => ConsumerExclusive(s, step, mode);
    case Drop(_, _) => ConsumerExclusive(s, step, mode);
    case Unsubscribe(_) => ConsumerExclusive(s, step, mode);
    case Discard(_) => ConsumerExclusive(s, step, mode);
    case Subscribe =>
      if Private(s) {
        OwnersAppend(s.consumers, Next(s, step, mode).consumers[|s.consumers|], s.publisher.frame);
      }
    case _ =>
  }

  /** While the count is held in a register, nobody else can reach the frame to change it. */
  lemma SplitStep(s: Hub, step: Step, mode: Mode)
    requires Inv(s, mode) && Enabled(s, step, mode)
    ensures SplitSafe(Next(s, step, mode), mode)
  {
    hide Exact, Owners;
    var t := Next(s, step, mode);
    if s.publisher.RefRead? {
      var f := s.publisher.frame;
      match step
      case Drop(c, g) =>
        OwnersAt(s.consumers, c, f);
        assert g != f;
      case Discard(c) =>
        OwnersAt(s.consumers, c, f);
        assert s.consumers[c].slot != Some(f);
      case _ =>
    }
  }

  /** Any step of any thread, in any state reached so far, keeps the whole invariant. */
  lemma InvStep(s: Hub, step: Step, mode: Mode)
    requires Inv(s, mode) && Enabled(s, step, mode)
    ensures Inv(Next(s, step, mode), mode)
  {
    hide Listed, Exclusive, SplitSafe, Next, Exact, Ranged, RefTable, PoppedFrame;
    CountedStep(s, step, mode);
    ListedStep(s, step, mode);
    ExclusiveStep(s, step, mode);
    SplitStep(s, step, mode);
  }
}
