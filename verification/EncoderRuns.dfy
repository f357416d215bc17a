/**
 What the encode thread has done after any run, told from the run's events alone: which access units
 are in the ring, what the log of requests and keyframes says, which frames were forced, and how every
 frame was counted.
 */
module EncoderRuns {
  import opened Bytes
  import opened EncoderWorker
  import Ring = AuRing

  // -------------------------------------------------------------------------
  // The units produced
  // -------------------------------------------------------------------------

  /** The time of the frame last begun. */
  function LastTime(events: seq<Event>): (ptsUs: u64) {
    if events == [] then 0
    else
      var e := events[|events| - 1];
      if e.Begin? then e.frame.ptsUs else LastTime(events[..|events| - 1])
  }

  /** An encoder call's gathered octets, keyframe flag and frame time. */
  datatype Output = Output(data: seq<byte>, ptsUs: u64, isIdr: bool)

  /** What came out of the last encoder call. */
  function LastOutput(events: seq<Event>): (o: Output) {
    if events == [] then Output([], 0, false)
    else
      var before, e := events[..|events| - 1], events[|events| - 1];
      if e.Encode? && e.outcome.Queued?
      then Output(Gather(e.outcome.units).0, LastTime(before), Gather(e.outcome.units).1)
      else LastOutput(before)
  }

  /** Whether a unit fits a slot of the ring. */
  predicate Fitting(data: seq<byte>, slotCapacity: nat) {
    0 < |data| && |data| <= slotCapacity
  }

  /** The units that entered the ring: for every push the last output, if it fits, with the next number. */
  function Entered(events: seq<Event>, slotCapacity: nat, from: nat): (aus: seq<Ring.Au>) {
    if events == [] then []
    else
      var before, e := events[..|events| - 1], events[|events| - 1];
      var aus, o := Entered(before, slotCapacity, from), LastOutput(before);
      if e.Push? && Fitting(o.data, slotCapacity) then aus + [Ring.Au(o.data, o.ptsUs, o.isIdr, from + |aus|)] else aus
  }

  /** Requests and pushes in the order they happened; a keyframe stands exactly where one entered. */
  function Marks(events: seq<Event>, slotCapacity: nat): (log: seq<Mark>) {
    if events == [] then []
    else
      var before, e := events[..|events| - 1], events[|events| - 1];
      var log, o := Marks(before, slotCapacity), LastOutput(before);
      if e.Ask? then log + [Asked]
      else if e.Push? then log + [if Fitting(o.data, slotCapacity) && o.isIdr then Keyframe else Other]
      else log
  }

  /** The flag: raised by every request, taken by every exchange, lowered for a keyframe in hand. */
  function Flagged(events: seq<Event>): (flag: bool) {
    if events == [] then false
    else
      var before, e := events[..|events| - 1], events[|events| - 1];
      match e
      case Ask => true
      case Exchange => false
      case Clear => Flagged(before) && !LastOutput(before).isIdr
      case _ => Flagged(before)
  }

  /** Whether the last exchange found the flag raised. */
  function Forcing(events: seq<Event>): (forced: bool) {
    if events == [] then false
    else
      var before, e := events[..|events| - 1], events[|events| - 1];
      if e.Exchange? then Flagged(before) else Forcing(before)
  }

  /** The last elements of a list. */
  function Last<T>(s: seq<T>, n: nat): (r: seq<T>) {
    if |s| <= n then s else s[|s| - n..]
  }

  /** The state says of a run from a queue what the run's events say. */
  ghost predicate Tells(q: Ring.Queue, events: seq<Event>, s: Worker) {
    var aus := Entered(events, q.slotCapacity, q.sequence);
    && s.queue.slotCapacity == q.slotCapacity && s.queue.slotCount == q.slotCount
    && s.queue.items == Last(q.items + aus, q.slotCount)
    && s.queue.sequence == q.sequence + |aus|
    && s.queue.dropped == q.dropped + |q.items| + |aus| - |s.queue.items|
    && s.log == Marks(events, q.slotCapacity)
    && s.flag == Flagged(events)
    && (s.phase.Ready? || s.phase.Exchanged? ==> s.phase.ptsUs == LastTime(events))
    && (s.phase.Exchanged? ==> s.phase.forced == Forcing(events))
    && (s.phase.Holding? ==> Output(s.phase.data, s.phase.ptsUs, s.phase.isIdr) == LastOutput(events))
  }

  /** One more unit, in terms of what a bounded ring keeps. */
  lemma LastAppend<T>(s: seq<T>, x: T, n: nat)
    requires n > 0
    ensures Last(s + [x], n) == (if |Last(s, n)| == n then Last(s, n)[1..] else Last(s, n)) + [x]
  {
  }

  /** What a push adds to the account. */
  lemma PushGrows(events: seq<Event>, slotCapacity: nat, from: nat)
    ensures var aus, o := Entered(events, slotCapacity, from), LastOutput(events);
            && Entered(events + [Push], slotCapacity, from) ==
               aus + (if Fitting(o.data, slotCapacity) then [Ring.Au(o.data, o.ptsUs, o.isIdr, from + |aus|)] else [])
            && Marks(events + [Push], slotCapacity) ==
               Marks(events, slotCapacity) + [if Fitting(o.data, slotCapacity) && o.isIdr then Keyframe else Other]
    ensures Flagged(events + [Push]) == Flagged(events)
  {
    hide Gather, Fitting;
    assert (events + [Push])[..|events|] == events;
    assert Entered(events, slotCapacity, from) + [] == Entered(events, slotCapacity, from);
  }

  /** What the step does to queue and log. */
  lemma PushChanges(s: Worker, all: seq<Ring.Au>)
    requires Enabled(s, Push) && s.watch.lastSeen <= s.counters.framesIn
    requires s.queue.slotCount > 0 && s.queue.items == Last(all, s.queue.slotCount)
    ensures var t, p := Next(s, Push), s.phase;
            var fits := Fitting(p.data, s.queue.slotCapacity);
            var more := if fits then [Ring.Au(p.data, p.ptsUs, p.isIdr, s.queue.sequence)] else [];
            && t.queue.slotCapacity == s.queue.slotCapacity && t.queue.slotCount == s.queue.slotCount
            && t.queue.items == Last(all + more, s.queue.slotCount)
            && t.queue.sequence == s.queue.sequence + |more|
            && t.queue.dropped == s.queue.dropped + |s.queue.items| + |more| - |t.queue.items|
            && t.log == s.log + [if fits && p.isIdr then Keyframe else Other]
            && t.flag == s.flag && t.phase == Waiting
  {
    var au := Ring.Au(s.phase.data, s.phase.ptsUs, s.phase.isIdr, s.queue.sequence);
    LastAppend(all, au, s.queue.slotCount);
    hide Last;
    assert all + [] == all;
  }

  lemma PushTells(q: Ring.Queue, events: seq<Event>, s: Worker)
    requires Tells(q, events, s) && Enabled(s, Push) && s.watch.lastSeen <= s.counters.framesIn && q.slotCount > 0
    ensures Tells(q, events + [Push], Next(s, Push))
  {
    hide Enabled, Next, Last, Entered, Marks, Flagged, Forcing, LastTime, LastOutput, Fitting;
    Holds(s);
    var aus := Entered(events, q.slotCapacity, q.sequence);
    PushGrows(events, q.slotCapacity, q.sequence);
    PushChanges(s, q.items + aus);
    var o := LastOutput(events);
    var more := if Fitting(o.data, q.slotCapacity)
                then [Ring.Au(o.data, o.ptsUs, o.isIdr, q.sequence + |aus|)] else [];
    assert q.items + aus + more == q.items + (aus + more);
  }

  lemma Holds(s: Worker)
    requires Enabled(s, Push)
    ensures s.phase.Holding?
  {
  }

  /** What one more event other than a push adds to the account. */
  lemma AccountGrows(events: seq<Event>, e: Event, slotCapacity: nat, from: nat)
    requires !e.Push?
    ensures Entered(events + [e], slotCapacity, from) == Entered(events, slotCapacity, from)
    ensures Marks(events + [e], slotCapacity) == Marks(events, slotCapacity) + if e.Ask? then [Asked] else []
    ensures Flagged(events + [e]) ==
            (e.Ask? || (!e.Exchange? && Flagged(events) && (e.Clear? ==> !LastOutput(events).isIdr)))
    ensures Forcing(events + [e]) == if e.Exchange? then Flagged(events) else Forcing(events)
    ensures LastTime(events + [e]) == if e.Begin? then e.frame.ptsUs else LastTime(events)
    ensures LastOutput(events + [e]) ==
            if e.Encode? && e.outcome.Queued?
            then Output(Gather(e.outcome.units).0, LastTime(events), Gather(e.outcome.units).1) else LastOutput(events)
  {
    hide Gather, Fitting;
    assert (events + [e])[..|events|] == events;
    assert Marks(events, slotCapacity) + [] == Marks(events, slotCapacity);
  }

  /** What the other steps of the thread leave and change. */
  lemma StepChanges(s: Worker, e: Event)
    requires Enabled(s, e) && s.watch.lastSeen <= s.counters.framesIn && !e.Push?
    ensures var t := Next(s, e);
            && t.queue == s.queue && t.log == s.log + (if e.Ask? then [Asked] else [])
            && t.flag == (e.Ask? || (!e.Exchange? && s.flag && (e.Clear? ==> !s.phase.isIdr)))
            && (t.phase.Ready? ==> (s.phase.Ready? && !e.Begin? && t.phase == s.phase)
                                   || (e.Begin? && t.phase.ptsUs == e.frame.ptsUs))
            && (t.phase.Exchanged? ==>
                  if e.Exchange? then t.phase == Exchanged(s.phase.ptsUs, s.flag) else t.phase == s.phase && !e.Begin?)
            && (t.phase.Holding? ==>
                  if e.Encode? then
                    && e.outcome.Queued?
                    && t.phase == Holding(s.phase.ptsUs, Gather(e.outcome.units).0, Gather(e.outcome.units).1, false)
                  else s.phase.Holding? && t.phase == s.phase.(cleared := t.phase.cleared))
            && (e.Clear? ==> s.phase.Holding?) && (e.Exchange? ==> s.phase.Ready?) && (e.Encode? ==> s.phase.Exchanged?)
  {
    hide Gather, Lawful, Watched, Skipped, Admits;
    assert s.log + [] == s.log;
  }

  lemma NextTells(q: Ring.Queue, events: seq<Event>, s: Worker, e: Event)
    requires Tells(q, events, s) && Enabled(s, e) && s.watch.lastSeen <= s.counters.framesIn && q.slotCount > 0
    ensures Tells(q, events + [e], Next(s, e))
  {
    hide Gather, Enabled, Next, Last, Entered, Marks, Flagged, Forcing, LastTime, LastOutput;
    if e.Push? {
      PushTells(q, events, s);
    } else {
      AccountGrows(events, e, q.slotCapacity, q.sequence);
      StepChanges(s, e);
    }
  }

  lemma {:induction false} RunTells(q: Ring.Queue, done: seq<Event>, s: Worker, events: seq<Event>, t: Worker)
    requires Tells(q, done, s) && IsRun(s, events, t) && q.slotCount > 0
    ensures Tells(q, done + events, t)
    decreases |events|
  {
    hide Tells, Next, Enabled;
    if events == [] {
      assert done + events == done;
    } else {
      NextTells(q, done, s, events[0]);
      RunTells(q, done + [events[0]], Next(s, events[0]), events[1..], t);
      assert done + [events[0]] + events[1..] == done + events;
    }
  }

  /** Over every run from creation the ring holds, of the outputs pushed that fit a slot, the last as many
      as there are slots, in order and numbered from zero, and has dropped the others; the log has a
      keyframe exactly where one of them is an IDR unit; and the frame at the encoder is forced exactly
      if a request stood when the flag was taken for it. */
  lemma RunPushes(width: u32, height: u32, slotCapacity: nat, slots: nat, events: seq<Event>, t: Worker)
    requires slots > 0 && IsRun(Start(width, height, slotCapacity, slots), events, t)
    ensures var aus := Entered(events, slotCapacity, 0);
            && t.queue.items == (if |aus| <= slots then aus else aus[|aus| - slots..])
            && t.queue.sequence == |aus| && t.queue.dropped == |aus| - |t.queue.items|
    ensures t.log == Marks(events, slotCapacity) && t.flag == Flagged(events)
    ensures t.phase.Exchanged? ==> t.phase.forced == Forcing(events)
  {
    hide IsRun;
    var s := Start(width, height, slotCapacity, slots);
    RunTells(s.queue, [], s, events, t);
    assert [] + events == events;
    assert [] + Entered(events, slotCapacity, 0) == Entered(events, slotCapacity, 0);
  }

  /** Numbers run without a gap, and every unit that entered fits a slot. */
  lemma {:induction false} EnteredNumbers(events: seq<Event>, slotCapacity: nat, from: nat, i: nat)
    requires i < |Entered(events, slotCapacity, from)|
    ensures var au := Entered(events, slotCapacity, from)[i];
            au.sequence == from + i && 0 < |au.data| <= slotCapacity
    decreases |events|
  {
    var before := events[..|events| - 1];
    if i < |Entered(before, slotCapacity, from)| {
      EnteredNumbers(before, slotCapacity, from, i);
    }
  }

  /** There are as many keyframes on record as IDR units entered. */
  lemma {:induction false} KeyframesEntered(events: seq<Event>, slotCapacity: nat, from: nat)
    ensures multiset(Marks(events, slotCapacity))[Keyframe] == IdrUnits(Entered(events, slotCapacity, from))
    decreases |events|
  {
    if events != [] {
      var before := events[..|events| - 1];
      KeyframesEntered(before, slotCapacity, from);
      IdrUnitsAppend(Entered(before, slotCapacity, from));
    }
  }

  function IdrUnits(aus: seq<Ring.Au>): (n: nat) {
    if aus == [] then 0 else IdrUnits(aus[..|aus| - 1]) + if aus[|aus| - 1].isIdr then 1 else 0
  }

  lemma IdrUnitsAppend(aus: seq<Ring.Au>)
    ensures forall au :: IdrUnits(aus + [au]) == IdrUnits(aus) + if au.isIdr then 1 else 0
  {
    forall au
      ensures IdrUnits(aus + [au]) == IdrUnits(aus) + if au.isIdr then 1 else 0
    {
      assert (aus + [au])[..|aus|] == aus;
    }
  }

  /** The thread's own ring, whatever it held at the start, as long as nobody else takes from it. */
  lemma ThreadPushes(w: EncoderWorker)
    requires w.Follows() && w.start == Start(w.width, w.height, w.ring.slotCapacity, w.ring.slotCount).(queue := w.start.queue)
    requires w.start.queue.slotCapacity == w.ring.slotCapacity && w.start.queue.slotCount == w.ring.slotCount > 0
    requires |w.start.queue.items| <= w.ring.slotCount
    ensures var q := w.start.queue;
            w.ring.View().items == Last(q.items + Entered(w.trace, q.slotCapacity, q.sequence), q.slotCount)
    ensures w.forceIdr == Flagged(w.trace)
  {
    hide IsRun;
    assert w.start.queue.items + [] == w.start.queue.items;
    RunTells(w.start.queue, [], w.start, w.trace, w.state);
    assert [] + w.trace == w.trace;
  }

  // -------------------------------------------------------------------------
  // What an encoder call gathers
  // -------------------------------------------------------------------------

  function Joined(units: seq<Unit>): (data: seq<byte>) {
    if units == [] then [] else Joined(units[..|units| - 1]) + units[|units| - 1].bytes
  }

  /** Units that fit the scratch buffer of 512 KiB together come out whole, one behind the other, and are a
      keyframe if one of them that has octets is. */
  lemma {:induction false} GatherAll(units: seq<Unit>)
    requires |Joined(units)| <= 524288
    ensures Gather(units).0 == Joined(units)
    ensures Gather(units).1 <==> exists i :: 0 <= i < |units| && units[i].idr && units[i].bytes != []
    decreases |units|
  {
    if units != [] {
      var n := |units| - 1;
      GatherAll(units[..n]);
      assert units[n].bytes == [] ==> Joined(units) == Joined(units[..n]);
      if Gather(units[..n]).1 {
        var i :| 0 <= i < n && units[..n][i].idr && units[..n][i].bytes != [];
        assert units[i].idr;
      }
      assert forall i :: 0 <= i < n ==> units[i] == units[..n][i];
    }
  }

  /** A unit that does not fit behind the others is lost, and its keyframe flag with it. */
  lemma GatherOverflow(units: seq<Unit>, u: Unit)
    requires |Joined(units)| <= 524288 && |Joined(units)| + |u.bytes| > 524288
    ensures Gather(units + [u]) == Gather(units)
  {
    GatherAll(units);
    assert (units + [u])[..|units|] == units;
  }

  // -------------------------------------------------------------------------
  // Counters
  // -------------------------------------------------------------------------

  /** How many events of a run are of a kind. */
  function Count(events: seq<Event>, kind: Event -> bool): (n: nat) {
    if events == [] then 0
    else Count(events[..|events| - 1], kind) + if kind(events[|events| - 1]) then 1 else 0
  }

  /** Every counter is the number of events of its kind. */
  ghost predicate Counted(width: u32, height: u32, events: seq<Event>, c: Counters) {
    && c.framesIn == Count(events, (e: Event) => e.Begin?)
    && c.idle == Count(events, (e: Event) => e.Begin? && !e.active)
    && c.mismatch == Count(events, (e: Event) => e.Begin? && e.active && (e.frame.width != width || e.frame.height != height))
    && c.badSize == Count(events, (e: Event) => e.Begin? && e.active && e.frame.width == width && e.frame.height == height
                                                && e.frame.size == 0)
    && c.encoded == Count(events, (e: Event) => e.Encode? && e.outcome.Queued? && Gather(e.outcome.units).0 != [])
    && c.noOutput == Count(events, (e: Event) => e.Encode? && (e.outcome.Refused? ||
                                                    (e.outcome.Queued? && Gather(e.outcome.units).0 == [])))
  }

  lemma CountStep(events: seq<Event>, e: Event)
    ensures forall kind: Event -> bool :: Count(events + [e], kind) == Count(events, kind) + if kind(e) then 1 else 0
  {
    assert (events + [e])[..|events|] == events;
  }

  lemma NextCounted(events: seq<Event>, s: Worker, e: Event)
    requires Counted(s.width, s.height, events, s.counters)
    requires Enabled(s, e) && s.watch.lastSeen <= s.counters.framesIn
    ensures var t := Next(s, e);
            t.width == s.width && t.height == s.height && Counted(t.width, t.height, events + [e], t.counters)
  {
    hide Gather, Lawful, Watched, Ring.Push, Count;
    CountStep(events, e);
  }

  lemma {:induction false} RunCounted(done: seq<Event>, s: Worker, events: seq<Event>, t: Worker)
    requires Counted(s.width, s.height, done, s.counters) && IsRun(s, events, t)
    ensures t.width == s.width && t.height == s.height && Counted(s.width, s.height, done + events, t.counters)
    decreases |events|
  {
    hide Counted, Next, Enabled;
    if events == [] {
      assert done + events == done;
    } else {
      NextCounted(done, s, events[0]);
      RunCounted(done + [events[0]], Next(s, events[0]), events[1..], t);
      assert done + [events[0]] + events[1..] == done + events;
    }
  }

  /** Over every run from creation: frames taken, skipped as idle, of another size, or empty, and encoder
      calls with and without output are each counted as what they are. */
  lemma RunCounts(width: u32, height: u32, slotCapacity: nat, slots: nat, events: seq<Event>, t: Worker)
    requires IsRun(Start(width, height, slotCapacity, slots), events, t)
    ensures Counted(width, height, events, t.counters)
  {
    hide IsRun;
    RunCounted([], Start(width, height, slotCapacity, slots), events, t);
    assert [] + events == events;
  }

  // -------------------------------------------------------------------------
  // The stall watchdog
  // -------------------------------------------------------------------------

  /** Frames in a row that a viewer waits through without output. */
  function Stalled(w: Watch, framesIn: nat, frames: nat): (r: Watch)
    requires w.lastSeen <= framesIn
    ensures r.lastSeen <= framesIn + frames
  {
    if frames == 0 then w
    else
      var before := Stalled(w, framesIn, frames - 1);
      WatchedSeen(before, framesIn + frames, true);
      Watched(before, framesIn + frames, true)
  }

  /** After a sign of life the watchdog complains once, with the ninetieth frame that gives no output. */
  lemma {:induction false} ComplainsOnce(w: Watch, framesIn: nat, frames: nat)
    requires w.wasActive && !w.warned && w.lastSeen == framesIn
    ensures var r := Stalled(w, framesIn, frames);
            && r.wasActive && r.lastSeen == framesIn
            && (r.warned <==> frames >= 90) && r.warnings == w.warnings + if frames >= 90 then 1 else 0
    decreases frames
  {
    if frames > 0 {
      ComplainsOnce(w, framesIn, frames - 1);
    }
  }

  /** A viewer that appears, and every output, are signs of life. */
  lemma SignsOfLife(w: Watch, framesIn: nat)
    requires w.lastSeen <= framesIn
    ensures var r := Watched(w, framesIn, true); !w.wasActive ==> !r.warned && r.lastSeen == framesIn && r.wasActive
    ensures Rearmed(w, framesIn, 1).lastSeen == framesIn && !Rearmed(w, framesIn, 1).warned
    ensures var r := Watched(w, framesIn, false); r.warnings == w.warnings && !r.wasActive
  {
  }
}
