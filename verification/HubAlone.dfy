/**
 The publisher's steps with no other thread in between are the publish of src/media/frame_hub.c
 that FrameHub proves call by call: the same clauses hold of the mailboxes, the frames held and
 the buffers.
 */
module HubAlone {
  import opened Bytes
  import opened FramePool
  import opened HubProtocol

  predicate OfPublisher(step: Step) {
    !(step.Take? || step.Drop? || step.Subscribe? || step.Unsubscribe? || step.Discard?)
  }

  /** The mailboxes in list order. */
  ghost function Slots(s: Hub): (slots: seq<Option<int>>)
    requires Listed(s)
  {
    seq(|s.list|, k requires 0 <= k < |s.list| => s.consumers[s.list[k]].slot)
  }

  /** How many mailboxes hold the new frame already. */
  function Served(s: Hub): (k: int) {
    match s.publisher
    case Idle => 0
    case Popped(_) => 0
    case Filling(_) => 0
    case Filled(_) => 0
    case Delivering(_, _) => Walked(s)
    case Closing(_) => |s.list|
    case _ => Walked(s) - 1
  }

  /** A consumer in every respect but its mailbox. */
  function Unslotted(c: Consumer): (r: Consumer) {
    c.(slot := None, delivered := [])
  }

  ghost predicate SameConsumers(s0: Hub, s: Hub) {
    && |s.consumers| == |s0.consumers| && s.list == s0.list
    && forall c :: 0 <= c < |s.consumers| ==> Unslotted(s.consumers[c]) == Unslotted(s0.consumers[c])
  }

  /** A publish of frame f that began in s0 has come as far as s. */
  ghost predicate Underway(s0: Hub, s: Hub, f: int) {
    && Listed(s0) && Listed(s) && SameConsumers(s0, s) && s.number == s0.number
    && !s.publisher.Idle? && s.publisher.frame == f
    && 0 <= f < |s0.content|
    && s.content == (if s.publisher.Popped? || s.publisher.Filling? then s0.content else s0.content[f := s0.number])
    && (s.publisher.Closing? ==> s.latest == Some(f))
    && 0 <= Served(s) <= |s.list|
    && forall k :: 0 <= k < |s.list| ==> Slots(s)[k] == if k < Served(s) then Some(f) else Slots(s0)[k]
  }

  /** A whole publish of frame f leads from s0 to t. */
  ghost predicate Published(s0: Hub, t: Hub, f: int) {
    && Listed(s0) && Listed(t) && SameConsumers(s0, t) && t.number == s0.number + 1
    && t.publisher.Idle? && t.latest == Some(f)
    && 0 <= f < |s0.content| && t.content == s0.content[f := s0.number]
    && Slots(t) == seq(|t.list|, k => Some(f))
  }

  lemma StartsUnderway(s: Hub, mode: Mode)
    requires Inv(s, mode) && s.publisher.Idle? && s.pool.free != []
    ensures var t := Next(s, Acquire, mode);
            t.publisher.Popped? && Underway(s, t, t.publisher.frame) && t.publisher.frame == s.pool.free[|s.pool.free| - 1]
  {
    hide Exact;
    assert Listed(Next(s, Acquire, mode)) by {
      InvStep(s, Acquire, mode);
    }
  }

  /** Storing the frame is what moves the publish on. */
  lemma StoreGoesOn(s0: Hub, s: Hub, mode: Mode, f: int)
    requires Inv(s, mode) && Underway(s0, s, f) && s.publisher.Swapped?
    ensures Underway(s0, Next(s, Store, mode), f)
  {
    hide Exact, Exclusive, SplitSafe;
    InvStep(s, Store, mode);
    var t := Next(s, Store, mode);
    assert Listed(t) && Served(t) == Served(s) + 1;
    StoredSlots(s, mode);
  }

  lemma StoredSlots(s: Hub, mode: Mode)
    requires Ranged(s) && Listed(s) && s.publisher.Swapped? && Listed(Next(s, Store, mode))
    ensures 0 <= Served(s) < |s.list|
    ensures Slots(Next(s, Store, mode)) == Slots(s)[Served(s) := Some(s.publisher.frame)]
  {
    var t := Next(s, Store, mode);
    var at := Served(s);
    forall k | 0 <= k < |s.list|
      ensures Slots(t)[k] == if k == at then Some(s.publisher.frame) else Slots(s)[k]
    {
      assert k != at ==> s.list[k] != s.list[at];
    }
  }

  lemma ReleaseEnds(s0: Hub, s: Hub, mode: Mode, f: int)
    requires Inv(s, mode) && Underway(s0, s, f) && s.publisher.Closing?
    ensures Published(s0, Next(s, Release, mode), f)
  {
    hide Exact, Exclusive, SplitSafe, Unref;
    InvStep(s, Release, mode);
    var t := Next(s, Release, mode);
    assert Listed(t);
    assert Slots(t) == Slots(s);
  }

  /** What the other steps of the publisher leave as it is. */
  lemma Moves(s: Hub, step: Step, mode: Mode)
    requires Ranged(s) && Listed(s) && Enabled(s, step, mode)
    requires OfPublisher(step) && !step.Acquire? && !step.Store? && !step.Release?
    ensures var t := Next(s, step, mode);
            && t.consumers == s.consumers && t.list == s.list && t.number == s.number
            && !t.publisher.Idle? && t.publisher.frame == s.publisher.frame
            && Served(t) == Served(s)
            && (t.publisher.Closing? ==> t.latest == Some(t.publisher.frame))
            && t.content == (if step.Copy? then s.content[s.publisher.frame := s.number] else s.content)
            && (t.publisher.Popped? || t.publisher.Filling? <==> step.Prepare?)
  {
    hide Unref, Pop;
  }

  lemma GoesOn(s0: Hub, s: Hub, step: Step, mode: Mode, f: int)
    requires Inv(s, mode) && Underway(s0, s, f) && Enabled(s, step, mode)
    requires OfPublisher(step) && !step.Store? && !step.Release?
    ensures Underway(s0, Next(s, step, mode), f)
  {
    hide Exact, Exclusive, SplitSafe, Next, Served, SlotRanged;
    InvStep(s, step, mode);
    Moves(s, step, mode);
    assert Slots(Next(s, step, mode)) == Slots(s);
  }

  // -------------------------------------------------------------------------
  // The whole call
  // -------------------------------------------------------------------------

  /** The only step the publisher can take next. */
  function Due(s: Hub, mode: Mode): (step: Step) {
    match s.publisher
    case Idle => Acquire
    case Popped(_) => Prepare
    case Filling(_) => Copy
    case Filled(_) => LockHub
    case Delivering(_, todo) => if todo == [] then UnlockHub else LockConsumer
    case Locked(_, _, _) => if mode.Atomic? then AddRef else ReadCount
    case RefRead(_, _, _, _) => WriteCount
    case Reffed(_, _, _) => DropOld
    case Swapped(_, _, _) => Store
    case Closing(_) => Release
  }

  lemma DueOnly(s: Hub, mode: Mode)
    requires Inv(s, mode)
    ensures OfPublisher(Due(s, mode)) && Enabled(s, Due(s, mode), mode)
    ensures forall step :: OfPublisher(step) && Enabled(s, step, mode) ==> step == Due(s, mode)
  {
    hide Counted, Listed, Exclusive;
  }

  /** Steps left until the publisher is idle, at most. */
  function Togo(s: Hub): (n: nat) {
    match s.publisher
    case Idle => 0
    case Popped(_) => 5 + 6 * |s.list|
    case Filling(_) => 4 + 6 * |s.list|
    case Filled(_) => 3 + 6 * |s.list|
    case Delivering(_, todo) => 2 + 6 * |todo|
    case Locked(_, _, todo) => 6 + 6 * |todo|
    case RefRead(_, _, todo, _) => 5 + 6 * |todo|
    case Reffed(_, _, todo) => 4 + 6 * |todo|
    case Swapped(_, _, todo) => 3 + 6 * |todo|
    case Closing(_) => 1
  }

  lemma Nearer(s: Hub, mode: Mode)
    requires Inv(s, mode) && !s.publisher.Idle? && Enabled(s, Due(s, mode), mode)
    ensures Togo(Next(s, Due(s, mode), mode)) < Togo(s)
  {
    hide Exact, Exclusive, Unref, Listed;
  }

  /** The publisher's steps up to the end of the call. */
  ghost function Finish(s: Hub, mode: Mode): (t: Hub)
    requires Inv(s, mode)
    decreases Togo(s)
  {
    if s.publisher.Idle? then s
    else
      DueOnly(s, mode);
      InvStep(s, Due(s, mode), mode);
      Nearer(s, mode);
      Finish(Next(s, Due(s, mode), mode), mode)
  }

  /** A whole call, from the attempt to get a buffer. */
  ghost function PublishOf(s: Hub, mode: Mode): (t: Hub)
    requires Inv(s, mode) && s.publisher.Idle?
  {
    InvStep(s, Acquire, mode);
    Finish(Next(s, Acquire, mode), mode)
  }

  lemma {:induction false} FinishPublishes(s0: Hub, s: Hub, mode: Mode, f: int)
    requires Inv(s, mode) && Underway(s0, s, f)
    ensures Published(s0, Finish(s, mode), f)
    decreases Togo(s)
  {
    hide Next, Enabled, Published, Listed, Exclusive, SplitSafe, Exact, SlotRanged;
    DueOnly(s, mode);
    InvStep(s, Due(s, mode), mode);
    Nearer(s, mode);
    if s.publisher.Closing? {
      ReleaseEnds(s0, s, mode, f);
      assert Finish(Next(s, Release, mode), mode) == Next(s, Release, mode);
    } else {
      if s.publisher.Swapped? {
        StoreGoesOn(s0, s, mode, f);
      } else {
        GoesOn(s0, s, Due(s, mode), mode, f);
      }
      FinishPublishes(s0, Next(s, Due(s, mode), mode), mode, f);
    }
  }

  /** The publisher by itself does what FrameHub.Publish promises: without a free frame nothing but
      the number changes; otherwise the frame on top of the free list, which no consumer refers to,
      gets the data and is in every mailbox, and what consumers hold is as before. */
  lemma PublishAlone(s: Hub, mode: Mode)
    requires Inv(s, mode) && s.publisher.Idle?
    ensures var t := PublishOf(s, mode);
            if s.pool.free == [] then t == s.(number := s.number + 1)
            else
              var f := s.pool.free[|s.pool.free| - 1];
              && Published(s, t, f)
              && forall c :: 0 <= c < |s.consumers| ==> s.consumers[c].slot != Some(f) && f !in s.consumers[c].held
  {
    hide Exact, Published;
    InvStep(s, Acquire, mode);
    var t := Next(s, Acquire, mode);
    if s.pool.free != [] {
      StartsUnderway(s, mode);
      FinishPublishes(s, t, mode, t.publisher.frame);
      forall c | 0 <= c < |s.consumers|
        ensures s.consumers[c].slot != Some(t.publisher.frame) && t.publisher.frame !in s.consumers[c].held
      {
        OwnersAt(s.consumers, c, t.publisher.frame);
        assert Exclusive(t);
      }
    }
  }
}
