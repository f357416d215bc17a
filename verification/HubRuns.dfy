/**
 What holds in every state of every run of the frame hub: safety of the reference counts,
 freshness of what consumers take, and enough buffers for the publisher.
 */
module HubRuns {
  import opened Bytes
  import opened FramePool
  import opened HubProtocol

  // -------------------------------------------------------------------------
  // Runs
  // -------------------------------------------------------------------------

  /** A hub just created: every frame free, nobody subscribed. */
  ghost predicate Initial(s: Hub) {
    && Exact(s.pool, seq(|s.pool.refcount|, f => 0), None)
    && |s.content| == |s.pool.refcount|
    && s.list == [] && s.consumers == [] && s.publisher == Idle
    && s.number == 0 && s.latest == None && s.faults == 0
  }

  ghost predicate CanStep(s: Hub, t: Hub, mode: Mode) {
    Ranged(s) && exists step :: Enabled(s, step, mode) && t == Next(s, step, mode)
  }

  /** Any interleaving of the steps of the publisher and of the consumers. */
  ghost predicate IsRun(states: seq<Hub>, mode: Mode) {
    && states != [] && Initial(states[0])
    && forall i :: 0 < i < |states| ==> CanStep(states[i - 1], states[i], mode)
  }

  lemma InitialInv(s: Hub, mode: Mode)
    requires Safe(mode) && Initial(s)
    ensures Inv(s, mode)
  {
    assert RefTable(s) == seq(|s.pool.refcount|, f => 0);
  }

  lemma {:induction false} RunInv(states: seq<Hub>, mode: Mode, i: nat)
    requires Safe(mode) && IsRun(states, mode) && i < |states|
    ensures Inv(states[i], mode)
  {
    hide Initial, Enabled, Next, Inv;
    if i == 0 {
      InitialInv(states[0], mode);
    } else {
      RunInv(states, mode, i - 1);
      assert CanStep(states[i - 1], states[i], mode);
      var step :| Enabled(states[i - 1], step, mode) && states[i] == Next(states[i - 1], step, mode);
      InvStep(states[i - 1], step, mode);
    }
  }

  /** Counts equal the references held, the free list holds exactly the unowned frames, each once,
      and no error message was printed. */
  ghost predicate CountsExact(s: Hub) {
    && s.faults == 0
    && Distinct(s.pool.free)
    && (forall f :: 0 <= f < |s.pool.refcount| ==> s.pool.refcount[f] == Refs(s, f))
    && (forall f :: 0 <= f < |s.pool.refcount| ==>
          (f in s.pool.free <==> Refs(s, f) == 0 && s.publisher != Popped(f)))
  }

  /** Reference counting is exact in every interleaving: with the increment in one step for any
      number of consumers, and with the split increment for one subscriber at a time. */
  lemma RefCountsExact(states: seq<Hub>, mode: Mode, i: nat)
    requires Safe(mode) && IsRun(states, mode) && i < |states|
    ensures CountsExact(states[i])
  {
    RunInv(states, mode, i);
    var s := states[i];
    forall f | 0 <= f < |s.pool.refcount|
      ensures s.pool.refcount[f] == Refs(s, f)
      ensures f in s.pool.free <==> Refs(s, f) == 0 && s.publisher != Popped(f)
    {
      assert RefTable(s)[f] == Refs(s, f);
    }
  }

  /** While memcpy fills a buffer, no mailbox and no consumer refers to it. */
  lemma CopyExclusive(states: seq<Hub>, mode: Mode, i: nat, c: nat)
    requires Safe(mode) && IsRun(states, mode) && i < |states|
    requires states[i].publisher.Filling? && c < |states[i].consumers|
    ensures var s := states[i];
            && s.consumers[c].slot != Some(s.publisher.frame)
            && s.publisher.frame !in s.consumers[c].held
            && s.publisher.frame !in s.pool.free
  {
    RunInv(states, mode, i);
    var s := states[i];
    OwnersAt(s.consumers, c, s.publisher.frame);
    assert RefTable(s)[s.publisher.frame] == Refs(s, s.publisher.frame) == 1;
  }

  // -------------------------------------------------------------------------
  // The split increment with two subscribers
  // -------------------------------------------------------------------------

  const NEWCOMER: Consumer := Consumer(true, None, multiset{}, [], [])

  /** A hub with one buffer. */
  function Single(count: int, free: seq<int>, list: seq<nat>, consumers: seq<Consumer>, p: Publisher): Hub {
    Hub(Pool([count], [0], free), [0], list, consumers, p, 0, None, 0)
  }

  lemma RunExtend(states: seq<Hub>, mode: Mode, step: Step, t: Hub)
    requires IsRun(states, mode) && Ranged(states[|states| - 1])
    requires Enabled(states[|states| - 1], step, mode) && t == Next(states[|states| - 1], step, mode)
    ensures IsRun(states + [t], mode)
  {
    hide Next, Enabled, Ranged, Initial;
    var all := states + [t];
    forall i | 0 < i < |all|
      ensures CanStep(all[i - 1], all[i], mode)
    {
      if i < |states| {
        assert CanStep(states[i - 1], states[i], mode);
      }
    }
  }

  /** Two consumers subscribe and the publisher fills the buffer. */
  lemma LostUpdateFill(mode: Mode) returns (states: seq<Hub>)
    requires mode.Split? && mode.limit >= 2
    ensures IsRun(states, mode) && states != []
    ensures states[|states| - 1] == Single(1, [], [1, 0], [NEWCOMER, NEWCOMER], Delivering(0, [1, 0]))
  {
    hide IsRun;
    var cs := [NEWCOMER, NEWCOMER];
    states := [Single(0, [0], [], [], Idle)];
    FirstState(states, mode);
    states := Go(states, mode, Subscribe, Single(0, [0], [0], [NEWCOMER], Idle));
    states := Go(states, mode, Subscribe, Single(0, [0], [1, 0], cs, Idle));
    states := Go(states, mode, Acquire, Single(0, [], [1, 0], cs, Popped(0)));
    states := Go(states, mode, Prepare, Single(1, [], [1, 0], cs, Filling(0)));
    states := Go(states, mode, Copy, Single(1, [], [1, 0], cs, Filled(0)));
    states := Go(states, mode, LockHub, Single(1, [], [1, 0], cs, Delivering(0, [1, 0])));
  }

  /** A consumer whose mailbox was served, and what it is after taking and releasing the frame. */
  const SERVED: Consumer := Consumer(true, Some(0), multiset{}, [0], [])
  const TAKEN: Consumer := Consumer(true, None, multiset{0}, [0], [0])
  const DONE: Consumer := Consumer(true, None, multiset{}, [0], [0])

  lemma StoreServes(mode: Mode)
    ensures var s := Single(2, [], [1, 0], [NEWCOMER, NEWCOMER], Swapped(0, 1, [0]));
            Ranged(s) && Next(s, Store, mode) == Single(2, [], [1, 0], [NEWCOMER, SERVED], Delivering(0, [0]))
  {
    assert NEWCOMER.delivered + [0] == [0];
    assert [NEWCOMER, NEWCOMER][1 := SERVED] == [NEWCOMER, SERVED];
  }

  lemma LockSecond(mode: Mode)
    ensures var s := Single(2, [], [1, 0], [NEWCOMER, SERVED], Delivering(0, [0]));
            Ranged(s) && Next(s, LockConsumer, mode) == Single(2, [], [1, 0], [NEWCOMER, SERVED], Locked(0, 0, []))
  {
    assert [0][1..] == [];
  }

  lemma ReadSecond(mode: Mode)
    requires mode.Split?
    ensures var s := Single(2, [], [1, 0], [NEWCOMER, SERVED], Locked(0, 0, []));
            Ranged(s) && Next(s, ReadCount, mode) == Single(2, [], [1, 0], [NEWCOMER, SERVED], RefRead(0, 0, [], 2))
  {
  }

  lemma TakeServed(mode: Mode)
    ensures var s := Single(2, [], [1, 0], [NEWCOMER, SERVED], RefRead(0, 0, [], 2));
            Ranged(s) && Next(s, Take(1), mode) == Single(2, [], [1, 0], [NEWCOMER, TAKEN], RefRead(0, 0, [], 2))
  {
    assert SERVED.held + multiset{0} == multiset{0} && SERVED.taken + [0] == [0];
    assert [NEWCOMER, SERVED][1 := TAKEN] == [NEWCOMER, TAKEN];
  }

  lemma DropTaken(mode: Mode)
    ensures var s := Single(2, [], [1, 0], [NEWCOMER, TAKEN], RefRead(0, 0, [], 2));
            Ranged(s) && Next(s, Drop(1, 0), mode) == Single(1, [], [1, 0], [NEWCOMER, DONE], RefRead(0, 0, [], 2))
  {
    var s := Single(2, [], [1, 0], [NEWCOMER, TAKEN], RefRead(0, 0, [], 2));
    assert [2][0 := 1] == [1];
    assert Unref(s.pool, 0) == (Pool([1], [0], []), Kept);
    assert TAKEN.held - multiset{0} == multiset{};
    assert [NEWCOMER, TAKEN][1 := DONE] == [NEWCOMER, DONE];
  }

  lemma WriteStale(mode: Mode)
    requires mode.Split?
    ensures var s := Single(1, [], [1, 0], [NEWCOMER, DONE], RefRead(0, 0, [], 2));
            Ranged(s) && Next(s, WriteCount, mode) == Single(3, [], [1, 0], [NEWCOMER, DONE], Reffed(0, 0, []))
  {
    assert [1][0 := 3] == [3];
  }

  /** The first consumer takes and releases the frame while the count for the second one is between
      its read and its write: the write brings the released reference back. */
  lemma LostUpdate(mode: Mode) returns (states: seq<Hub>)
    requires mode.Split? && mode.limit >= 2
    ensures IsRun(states, mode) && states != []
    ensures states[|states| - 1] == Single(3, [], [1, 0], [NEWCOMER, DONE], Reffed(0, 0, []))
  {
    hide IsRun;
    var cs := [NEWCOMER, NEWCOMER];
    states := LostUpdateFill(mode);
    StoreServes(mode);
    states := Go(states, mode, LockConsumer, Single(1, [], [1, 0], cs, Locked(0, 1, [0])));
    states := Go(states, mode, ReadCount, Single(1, [], [1, 0], cs, RefRead(0, 1, [0], 1)));
    states := Go(states, mode, WriteCount, Single(2, [], [1, 0], cs, Reffed(0, 1, [0])));
    states := Go(states, mode, DropOld, Single(2, [], [1, 0], cs, Swapped(0, 1, [0])));
    states := Go(states, mode, Store, Single(2, [], [1, 0], [NEWCOMER, SERVED], Delivering(0, [0])));
    states := LostUpdateRace(mode, states);
  }

  lemma LostUpdateRace(mode: Mode, before: seq<Hub>) returns (states: seq<Hub>)
    requires mode.Split? && mode.limit >= 2 && IsRun(before, mode) && before != []
    requires before[|before| - 1] == Single(2, [], [1, 0], [NEWCOMER, SERVED], Delivering(0, [0]))
    ensures IsRun(states, mode) && states != []
    ensures states[|states| - 1] == Single(3, [], [1, 0], [NEWCOMER, DONE], Reffed(0, 0, []))
  {
    hide IsRun, Next, Ranged;
    LockSecond(mode);
    TakeServed(mode);
    DropTaken(mode);
    WriteStale(mode);
    ReadSecond(mode);
    states := Go(before, mode, LockConsumer, Single(2, [], [1, 0], [NEWCOMER, SERVED], Locked(0, 0, [])));
    states := Go(states, mode, ReadCount, Single(2, [], [1, 0], [NEWCOMER, SERVED], RefRead(0, 0, [], 2)));
    states := Go(states, mode, Take(1), Single(2, [], [1, 0], [NEWCOMER, TAKEN], RefRead(0, 0, [], 2)));
    states := Go(states, mode, Drop(1, 0), Single(1, [], [1, 0], [NEWCOMER, DONE], RefRead(0, 0, [], 2)));
    states := Go(states, mode, WriteCount, Single(3, [], [1, 0], [NEWCOMER, DONE], Reffed(0, 0, [])));
  }

  /** Three counted, two held: one of the consumers' references will never be given back. */
  lemma LostUpdateMiscounts()
    ensures !CountsExact(Single(3, [], [1, 0], [NEWCOMER, DONE], Reffed(0, 0, [])))
  {
    var s := Single(3, [], [1, 0], [NEWCOMER, DONE], Reffed(0, 0, []));
    assert s.consumers[1..] == [DONE] && [DONE][1..] == [];
    assert Owners([DONE], 0) == 0;
    assert Refs(s, 0) == 2 && s.pool.refcount[0] == 3;
  }

  /** The unlocked increment keeps the counts exact over all runs exactly when the number of
      subscribers at a time is limited to one. */
  lemma SplitExact(limit: nat)
    ensures (forall states, i :: IsRun(states, Split(limit)) && 0 <= i < |states| ==> CountsExact(states[i])) <==>
            limit <= 1
  {
    hide IsRun, CountsExact;
    if limit <= 1 {
      forall states, i | IsRun(states, Split(limit)) && 0 <= i < |states|
        ensures CountsExact(states[i])
      {
        RefCountsExact(states, Split(limit), i);
      }
    } else {
      var states := LostUpdate(Split(limit));
      LostUpdateMiscounts();
      assert !CountsExact(states[|states| - 1]);
    }
  }

  lemma FirstState(states: seq<Hub>, mode: Mode)
    requires states == [Single(0, [0], [], [], Idle)]
    ensures IsRun(states, mode)
  {
  }

  lemma Go(states: seq<Hub>, mode: Mode, step: Step, t: Hub) returns (all: seq<Hub>)
    requires IsRun(states, mode) && states != [] && Ranged(states[|states| - 1])
    requires Enabled(states[|states| - 1], step, mode) && t == Next(states[|states| - 1], step, mode)
    ensures IsRun(all, mode) && all != [] && all[|all| - 1] == t
  {
    hide IsRun, Next, Enabled, Ranged;
    RunExtend(states, mode, step, t);
    all := states + [t];
  }

  // -------------------------------------------------------------------------
  // Freshness
  // -------------------------------------------------------------------------

  predicate Increasing(s: seq<nat>) {
    forall i, j :: 0 <= i < j < |s| ==> s[i] < s[j]
  }

  predicate Below(s: seq<nat>, n: nat) {
    s == [] || s[|s| - 1] < n
  }

  /** The publisher still has the consumer in front of it. */
  predicate Waiting(s: Hub, c: nat) {
    HubLocked(s) && (c in s.publisher.todo || (!s.publisher.Delivering? && s.publisher.at == c))
  }

  /** Consumer c has been given the frame of the publish that is under way. */
  predicate Served(s: Hub, c: nat) {
    (HubLocked(s) || s.publisher.Closing?) && !Waiting(s, c)
  }

  ghost predicate Ordered(s: Hub, c: nat)
    requires Ranged(s) && c < |s.consumers|
  {
    var v := s.consumers[c];
    && Increasing(v.delivered) && Increasing(v.taken)
    && Below(v.delivered, if Served(s, c) then s.number + 1 else s.number)
    && (v.slot.Some? ==> v.delivered != [] && s.content[v.slot.value] == v.delivered[|v.delivered| - 1]
                         && Below(v.taken, s.content[v.slot.value]))
    && (v.taken != [] ==> v.delivered != [] && v.taken[|v.taken| - 1] <= v.delivered[|v.delivered| - 1])
    && (forall x :: x in v.taken ==> x in v.delivered)
  }

  /** From the copy on, the publisher's frame carries the current number. */
  ghost predicate Labelled(s: Hub)
    requires Ranged(s)
  {
    s.publisher.Filled? || HubLocked(s) || s.publisher.Closing? ==> s.content[s.publisher.frame] == s.number
  }

  ghost predicate Fresh(s: Hub)
    requires Ranged(s)
  {
    Labelled(s) && forall c :: 0 <= c < |s.consumers| ==> Ordered(s, c)
  }

  lemma IncreasingAppend(s: seq<nat>, n: nat)
    requires Increasing(s) && Below(s, n)
    ensures Increasing(s + [n])
  {
  }

  lemma InvRanged(s: Hub, step: Step, mode: Mode)
    requires Inv(s, mode) && Enabled(s, step, mode)
    ensures Ranged(s) && Ranged(Next(s, step, mode))
  {
    hide Next, Enabled;
    InvStep(s, step, mode);
  }

  /** Taking nothing and delivering nothing keeps the order, as long as no mailbox refilled. */
  lemma SameOrder(s: Hub, t: Hub, c: nat)
    requires Ranged(s) && Ranged(t) && c < |s.consumers| && c < |t.consumers| && Ordered(s, c)
    requires t.consumers[c].delivered == s.consumers[c].delivered && t.consumers[c].taken == s.consumers[c].taken
    requires t.consumers[c].slot == s.consumers[c].slot || t.consumers[c].slot == None
    requires t.content == s.content
    requires || (t.number == s.number && (Served(s, c) ==> Served(t, c)))
             || t.number == s.number + 1
    ensures Ordered(t, c)
  {
    hide Ranged;
  }

  lemma NotWaitingTwice(s: Hub)
    requires Listed(s) && HubLocked(s) && !s.publisher.Delivering?
    ensures s.publisher.at !in s.publisher.todo
  {
    var k := Walked(s);
    assert forall j :: 0 <= j < |s.publisher.todo| ==> s.publisher.todo[j] == s.list[k + j] != s.list[k - 1];
  }

  /** Storing the new frame into the mailbox at hand. */
  lemma StoreOrdered(s: Hub, c: nat, mode: Mode)
    requires Inv(s, mode) && Fresh(s) && Enabled(s, Store, mode) && c < |s.consumers|
    ensures Ranged(Next(s, Store, mode)) && Ordered(Next(s, Store, mode), c)
  {
    hide Exact, Sized, Owners, Listed, Increasing;
    InvRanged(s, Store, mode);
    NotWaitingTwice(s);
    var t := Next(s, Store, mode);
    assert Ordered(s, c);
    if c == s.publisher.at {
      IncreasingAppend(s.consumers[c].delivered, s.number);
      assert t.consumers[c].delivered == s.consumers[c].delivered + [s.number];
    } else {
      SameOrder(s, t, c);
    }
  }

  lemma TakeOrdered(s: Hub, d: nat, c: nat, mode: Mode)
    requires Inv(s, mode) && Fresh(s) && Enabled(s, Take(d), mode) && c < |s.consumers|
    ensures Ranged(Next(s, Take(d), mode)) && Ordered(Next(s, Take(d), mode), c)
  {
    hide Exact, Sized, Owners, Listed, Increasing, Below;
    InvRanged(s, Take(d), mode);
    assert Ordered(s, c);
    if c == d && s.consumers[c].slot.Some? {
      IncreasingAppend(s.consumers[c].taken, s.content[s.consumers[c].slot.value]);
    }
  }

  /** A buffer is rewritten only while no mailbox refers to it. */
  lemma CopyOrdered(s: Hub, c: nat, mode: Mode)
    requires Inv(s, mode) && Fresh(s) && Enabled(s, Copy, mode) && c < |s.consumers|
    ensures Ranged(Next(s, Copy, mode)) && Ordered(Next(s, Copy, mode), c)
  {
    InvRanged(s, Copy, mode);
    hide Exact, Sized;
    OwnersAt(s.consumers, c, s.publisher.frame);
    assert Ordered(s, c);
  }

  /** The publisher's steps that do not deliver: nobody who was served stops being so. */
  lemma FillingOrdered(s: Hub, step: Step, c: nat, mode: Mode)
    requires Inv(s, mode) && Fresh(s) && Enabled(s, step, mode)
    requires step.Acquire? || step.Prepare? || step.LockHub? || step.LockConsumer? || step.UnlockHub?
    requires c < |s.consumers|
    ensures Ranged(Next(s, step, mode)) && Ordered(Next(s, step, mode), c)
  {
    hide Exact, Sized, Owners, Ordered, Listed;
    InvRanged(s, step, mode);
    if step.LockConsumer? {
      WalkStep(s, mode);
    }
    SameOrder(s, Next(s, step, mode), c);
  }

  lemma CountingOrdered(s: Hub, step: Step, c: nat, mode: Mode)
    requires Inv(s, mode) && Fresh(s) && Enabled(s, step, mode)
    requires step.AddRef? || step.ReadCount? || step.WriteCount? || step.DropOld? || step.Release?
    requires c < |s.consumers|
    ensures Ranged(Next(s, step, mode)) && Ordered(Next(s, step, mode), c)
  {
    hide Exact, Sized, Owners, Ordered, Listed;
    InvRanged(s, step, mode);
    SameOrder(s, Next(s, step, mode), c);
  }

  lemma ConsumerOrdered(s: Hub, step: Step, c: nat, mode: Mode)
    requires Inv(s, mode) && Fresh(s) && Enabled(s, step, mode)
    requires step.Drop? || step.Subscribe? || step.Unsubscribe? || step.Discard?
    requires c < |s.consumers|
    ensures Ranged(Next(s, step, mode)) && Ordered(Next(s, step, mode), c)
  {
    hide Exact, Sized, Owners, Ordered, Listed;
    InvRanged(s, step, mode);
    SameOrder(s, Next(s, step, mode), c);
  }

  lemma OrderedStep(s: Hub, step: Step, c: nat, mode: Mode)
    requires Inv(s, mode) && Fresh(s) && Enabled(s, step, mode)
    requires c < |s.consumers|
    ensures Ranged(Next(s, step, mode)) && Ordered(Next(s, step, mode), c)
  {
    hide Exact, Owners, Next, Ordered, Listed;
    match step
    case Store => StoreOrdered(s, c, mode);
    case Take(d) => TakeOrdered(s, d, c, mode);
    case Copy => CopyOrdered(s, c, mode);
    case Drop(_, _) => ConsumerOrdered(s, step, c, mode);
    case Subscribe => ConsumerOrdered(s, step, c, mode);
    case Unsubscribe(_) => ConsumerOrdered(s, step, c, mode);
    case Discard(_) => ConsumerOrdered(s, step, c, mode);
    case Acquire => FillingOrdered(s, step, c, mode);
    case Prepare => FillingOrdered(s, step, c, mode);
    case LockHub => FillingOrdered(s, step, c, mode);
    case LockConsumer => FillingOrdered(s, step, c, mode);
    case UnlockHub => FillingOrdered(s, step, c, mode);
    case _ => CountingOrdered(s, step, c, mode);
  }

  lemma FreshStep(s: Hub, step: Step, mode: Mode)
    requires Inv(s, mode) && Fresh(s) && Enabled(s, step, mode)
    ensures Ranged(Next(s, step, mode)) && Fresh(Next(s, step, mode))
  {
    hide Exact, Sized, Owners, Ordered, Listed;
    var t := Next(s, step, mode);
    InvRanged(s, step, mode);
    forall c | 0 <= c < |t.consumers|
      ensures Ordered(t, c)
    {
      if c < |s.consumers| {
        OrderedStep(s, step, c, mode);
      } else {
        NewOrdered(t, c);
      }
    }
  }

  lemma NewOrdered(s: Hub, c: nat)
    requires Ranged(s) && c < |s.consumers| && s.consumers[c] == Consumer(true, None, multiset{}, [], [])
    ensures Ordered(s, c)
  {
  }

  lemma {:induction false} RunFresh(states: seq<Hub>, mode: Mode, i: nat)
    requires Safe(mode) && IsRun(states, mode) && i < |states|
    ensures Inv(states[i], mode) && Fresh(states[i])
  {
    hide Initial, Enabled, Next, Exact, Listed, Owners, Ordered;
    RunInv(states, mode, i);
    if i == 0 {
      InitialFresh(states[0]);
    } else {
      RunFresh(states, mode, i - 1);
      assert CanStep(states[i - 1], states[i], mode);
      var step :| Enabled(states[i - 1], step, mode) && states[i] == Next(states[i - 1], step, mode);
      FreshStep(states[i - 1], step, mode);
    }
  }

  lemma InitialFresh(s: Hub)
    requires Initial(s)
    ensures Ranged(s) && Fresh(s)
  {
    InitialInv(s, Atomic);
  }

  /** Every take returns the newest frame delivered to that mailbox, and the sequence numbers a
      consumer takes strictly increase: no frame twice, none out of order. */
  lemma TakesFresh(states: seq<Hub>, mode: Mode, i: nat, c: nat)
    requires Safe(mode) && IsRun(states, mode) && i < |states| && c < |states[i].consumers|
    ensures var v := states[i].consumers[c];
            && Increasing(v.taken) && Increasing(v.delivered)
            && (forall x :: x in v.taken ==> x in v.delivered)
            && (v.slot.Some? ==>
                  && 0 <= v.slot.value < |states[i].content| && v.delivered != []
                  && states[i].content[v.slot.value] == v.delivered[|v.delivered| - 1]
                  && Increasing(v.taken + [states[i].content[v.slot.value]]))
  {
    RunFresh(states, mode, i);
    var s := states[i];
    assert Ordered(s, c);
    if s.consumers[c].slot.Some? {
      assert SlotRanged(s.consumers[c], |s.pool.refcount|);
      IncreasingAppend(s.consumers[c].taken, s.content[s.consumers[c].slot.value]);
    }
  }

  // -------------------------------------------------------------------------
  // Enough buffers
  // -------------------------------------------------------------------------

  /** The frame an active consumer's mailbox holds, if it holds one: keep-newest means that
      all mailboxes share the latest frame. */
  function Expected(s: Hub, c: nat): (f: Option<int>) {
    if HubLocked(s) && !Waiting(s, c) then Some(s.publisher.frame) else s.latest
  }

  predicate Current(s: Hub, c: nat)
    requires c < |s.consumers|
  {
    var v := s.consumers[c];
    v.active ==> v.slot == None || v.slot == Expected(s, c)
  }

  ghost predicate AllCurrent(s: Hub) {
    forall c :: 0 <= c < |s.consumers| ==> Current(s, c)
  }

  lemma WaitingActive(s: Hub, c: nat)
    requires Listed(s) && c < |s.consumers| && s.consumers[c].active
    requires HubLocked(s) && Walked(s) == 0
    ensures Waiting(s, c)
  {
    assert s.list[0..] == s.list;
  }

  /** What a step can do to the consumer table: change entries, or add one with an empty mailbox. */
  lemma NextConsumers(s: Hub, step: Step, mode: Mode)
    requires Ranged(s) && Enabled(s, step, mode)
    ensures var t := Next(s, step, mode);
            && |s.consumers| <= |t.consumers|
            && forall c :: |s.consumers| <= c < |t.consumers| ==> t.consumers[c].slot == None
  {
  }

  /** A mailbox that keeps its content, or is emptied, while the expectation stands. */
  lemma SameCurrent(s: Hub, t: Hub, c: nat)
    requires c < |s.consumers| && c < |t.consumers| && Current(s, c)
    requires t.consumers[c].active ==> s.consumers[c].active
    requires t.consumers[c].slot == s.consumers[c].slot || t.consumers[c].slot == None
    requires t.consumers[c].active ==> Expected(t, c) == Expected(s, c)
    ensures Current(t, c)
  {
  }

  lemma FillingCurrent(s: Hub, step: Step, c: nat, mode: Mode)
    requires Inv(s, mode) && Enabled(s, step, mode)
    requires step.Acquire? || step.Prepare? || step.Copy? || step.LockConsumer? || step.UnlockHub?
    requires c < |s.consumers| && Current(s, c)
    ensures var t := Next(s, step, mode); c < |t.consumers| && Current(t, c)
  {
    if step.LockConsumer? {
      WalkStep(s, mode);
    }
    hide Exact, Sized, Owners, Listed, Current, SlotRanged;
    SameCurrent(s, Next(s, step, mode), c);
  }

  lemma CountingCurrent(s: Hub, step: Step, c: nat, mode: Mode)
    requires Inv(s, mode) && Enabled(s, step, mode)
    requires step.AddRef? || step.ReadCount? || step.WriteCount? || step.DropOld? || step.Release?
    requires c < |s.consumers| && Current(s, c)
    ensures var t := Next(s, step, mode); c < |t.consumers| && Current(t, c)
  {
    hide Exact, Sized, Owners, Listed, Current, SlotRanged;
    SameCurrent(s, Next(s, step, mode), c);
  }

  lemma ConsumerCurrent(s: Hub, step: Step, c: nat, mode: Mode)
    requires Inv(s, mode) && Enabled(s, step, mode)
    requires step.Take? || step.Drop? || step.Subscribe? || step.Unsubscribe? || step.Discard?
    requires c < |s.consumers| && Current(s, c)
    ensures var t := Next(s, step, mode); c < |t.consumers| && Current(t, c)
  {
    hide Exact, Sized, Owners, Listed, Current, SlotRanged;
    SameCurrent(s, Next(s, step, mode), c);
  }

  lemma StoreCurrent(s: Hub, c: nat, mode: Mode)
    requires Inv(s, mode) && Enabled(s, Store, mode)
    requires c < |s.consumers| && Current(s, c)
    ensures var t := Next(s, Store, mode); c < |t.consumers| && Current(t, c)
  {
    hide Exact, Sized, Owners, Listed, SlotRanged;
    NotWaitingTwice(s);
  }

  lemma LockHubCurrent(s: Hub, c: nat, mode: Mode)
    requires Inv(s, mode) && Enabled(s, LockHub, mode)
    requires c < |s.consumers| && Current(s, c)
    ensures var t := Next(s, LockHub, mode); c < |t.consumers| && Current(t, c)
  {
    var t := Next(s, LockHub, mode);
    ListedStep(s, LockHub, mode);
    if s.consumers[c].active {
      WaitingActive(t, c);
    }
    hide Exact, Sized, Owners, Listed, SlotRanged;
  }

  lemma CurrentStep(s: Hub, step: Step, c: nat, mode: Mode)
    requires Inv(s, mode) && Enabled(s, step, mode)
    requires c < |s.consumers| && Current(s, c)
    ensures var t := Next(s, step, mode); c < |t.consumers| && Current(t, c)
  {
    hide Exact, Ranged, Owners, Next, Current, Listed, RefTable;
    match step
    case LockHub => LockHubCurrent(s, c, mode);
    case Store => StoreCurrent(s, c, mode);
    case Take(_) => ConsumerCurrent(s, step, c, mode);
    case Drop(_, _) => ConsumerCurrent(s, step, c, mode);
    case Subscribe => ConsumerCurrent(s, step, c, mode);
    case Unsubscribe(_) => ConsumerCurrent(s, step, c, mode);
    case Discard(_) => ConsumerCurrent(s, step, c, mode);
    case Acquire => FillingCurrent(s, step, c, mode);
    case Prepare => FillingCurrent(s, step, c, mode);
    case Copy => FillingCurrent(s, step, c, mode);
    case LockConsumer => FillingCurrent(s, step, c, mode);
    case UnlockHub => FillingCurrent(s, step, c, mode);
    case _ => CountingCurrent(s, step, c, mode);
  }

  lemma AllCurrentStep(s: Hub, step: Step, mode: Mode)
    requires Inv(s, mode) && AllCurrent(s) && Enabled(s, step, mode)
    ensures AllCurrent(Next(s, step, mode))
  {
    var t := Next(s, step, mode);
    hide Enabled, Next, Current, Exact, Listed, Owners, SlotRanged;
    NextConsumers(s, step, mode);
    forall c | 0 <= c < |t.consumers|
      ensures Current(t, c)
    {
      if c < |s.consumers| {
        CurrentStep(s, step, c, mode);
      } else {
        NewCurrent(t, c);
      }
    }
  }

  lemma InitialCurrent(s: Hub)
    requires Initial(s)
    ensures AllCurrent(s)
  {
  }

  lemma {:induction false} RunCurrent(states: seq<Hub>, mode: Mode, i: nat)
    requires Safe(mode) && IsRun(states, mode) && i < |states|
    ensures Inv(states[i], mode) && AllCurrent(states[i])
  {
    hide Initial, Enabled, Next, Inv, AllCurrent;
    RunInv(states, mode, i);
    if i == 0 {
      InitialCurrent(states[0]);
    } else {
      RunCurrent(states, mode, i - 1);
      var s, t := states[i - 1], states[i];
      assert CanStep(s, t, mode);
      var step :| Enabled(s, step, mode) && t == Next(s, step, mode);
      AllCurrentStep(s, step, mode);
    }
  }

  lemma NewCurrent(s: Hub, c: nat)
    requires c < |s.consumers| && s.consumers[c].slot == None
    ensures Current(s, c)
  {
  }

  /** Frames that one consumer keeps busy beyond the shared latest one. */
  function Extra(v: Consumer): (r: set<int>) {
    (set f | f in v.held) + (if !v.active && v.slot.Some? then {v.slot.value} else {})
  }

  function Weight(v: Consumer): (n: nat) {
    |v.held| + (if !v.active && v.slot.Some? then 1 else 0)
  }

  function Busy(cs: seq<Consumer>): (r: set<int>)
  {
    if cs == [] then {} else Extra(cs[0]) + Busy(cs[1..])
  }

  /** Frames held by consumers, plus mailboxes of consumers that have left and not yet been emptied. */
  function Burden(cs: seq<Consumer>): (n: nat)
  {
    if cs == [] then 0 else Weight(cs[0]) + Burden(cs[1..])
  }

  lemma {:induction false} MultisetSize<T>(m: multiset<T>)
    ensures |set f | f in m| <= |m|
    decreases |m|
  {
    if |m| > 0 {
      var x :| x in m;
      var rest := m - multiset{x};
      MultisetSize(rest);
      SubsetSize(set f | f in m, (set f | f in rest) + {x});
    } else {
      assert (set f | f in m) == {};
    }
  }

  lemma {:induction false} BusySize(cs: seq<Consumer>)
    ensures |Busy(cs)| <= Burden(cs)
  {
    if cs != [] {
      BusySize(cs[1..]);
      MultisetSize(cs[0].held);
    }
  }

  lemma {:induction false} BusyHas(cs: seq<Consumer>, c: nat, f: int)
    requires c < |cs| && f in Extra(cs[c])
    ensures f in Busy(cs)
    decreases |cs|
  {
    if c > 0 {
      BusyHas(cs[1..], c - 1, f);
    }
  }

  lemma {:induction false} SomeOwner(cs: seq<Consumer>, f: int) returns (c: nat)
    requires Owners(cs, f) > 0
    ensures c < |cs| && Owned(cs[c], f) > 0
  {
    if Owned(cs[0], f) > 0 {
      c := 0;
    } else {
      c := SomeOwner(cs[1..], f);
      c := c + 1;
    }
  }

  /** The pool never runs dry: with one buffer more than the latest frame and the burden of the
      consumers, the publisher always finds a free one. */
  lemma NeverDry(states: seq<Hub>, mode: Mode, i: nat)
    requires Safe(mode) && IsRun(states, mode) && i < |states| && states[i].publisher.Idle?
    requires |states[i].pool.refcount| >= Burden(states[i].consumers) + 2
    ensures Pop(states[i].pool).1.Some?
  {
    RunCurrent(states, mode, i);
    var s := states[i];
    var n := |s.pool.refcount|;
    PopExact(s.pool, RefTable(s));
    if Pop(s.pool).1.None? {
      var latest := if s.latest.Some? then {s.latest.value} else {};
      forall f | f in Frames(n)
        ensures f in latest + Busy(s.consumers)
      {
        assert RefTable(s)[f] > 0;
        var c := SomeOwner(s.consumers, f);
        assert Current(s, c);
        if f !in latest {
          BusyHas(s.consumers, c, f);
        }
      }
      BusySize(s.consumers);
      SubsetSize(Frames(n), latest + Busy(s.consumers));
    }
  }

  function Subscribers(cs: seq<Consumer>): (n: nat)
  {
    if cs == [] then 0 else (if cs[0].active then 1 else 0) + Subscribers(cs[1..])
  }

  /** Each subscriber holds at most one frame; those that have left hold none. */
  ghost predicate Disciplined(cs: seq<Consumer>) {
    forall c :: 0 <= c < |cs| ==>
                  if cs[c].active then |cs[c].held| <= 1 else |cs[c].held| == 0 && cs[c].slot == None
  }

  lemma {:induction false} DisciplinedBurden(cs: seq<Consumer>)
    requires Disciplined(cs)
    ensures Burden(cs) <= Subscribers(cs)
  {
    if cs != [] {
      assert forall c :: 0 <= c < |cs[1..]| ==> cs[1..][c] == cs[c + 1];
      DisciplinedBurden(cs[1..]);
    }
  }

  lemma {:induction false} NoOwners(cs: seq<Consumer>, f: int)
    requires Disciplined(cs) && Subscribers(cs) == 0
    ensures Owners(cs, f) == 0
  {
    if cs != [] {
      assert forall c :: 0 <= c < |cs[1..]| ==> cs[1..][c] == cs[c + 1];
      NoOwners(cs[1..], f);
    }
  }

  /** N subscribers that hold at most one frame each need only N + 2 buffers, and none needs one. */
  lemma EnoughBuffers(states: seq<Hub>, mode: Mode, i: nat)
    requires Safe(mode) && IsRun(states, mode) && i < |states| && states[i].publisher.Idle?
    requires Disciplined(states[i].consumers)
    requires var n := Subscribers(states[i].consumers);
             |states[i].pool.refcount| >= if n == 0 then 1 else n + 2
    ensures Pop(states[i].pool).1.Some?
  {
    var s := states[i];
    if Subscribers(s.consumers) == 0 {
      RunInv(states, mode, i);
      PopExact(s.pool, RefTable(s));
      NoOwners(s.consumers, 0);
      assert RefTable(s)[0] == 0;
    } else {
      DisciplinedBurden(s.consumers);
      NeverDry(states, mode, i);
    }
  }

  /** In particular 2N + 1 buffers always suffice. */
  lemma TwicePlusOne(states: seq<Hub>, mode: Mode, i: nat)
    requires Safe(mode) && IsRun(states, mode) && i < |states| && states[i].publisher.Idle?
    requires Disciplined(states[i].consumers)
    requires |states[i].pool.refcount| >= 2 * Subscribers(states[i].consumers) + 1
    ensures Pop(states[i].pool).1.Some?
  {
    EnoughBuffers(states, mode, i);
  }
}
