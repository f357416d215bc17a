/**
 The encode thread of src/media/encoder_worker.c with the hardware encoder behind it: frames in,
 access units into the ring, and a keyframe request flag shared with every other thread. One
 transition per access to shared state; requests arrive between any two of them.
 */
module EncoderWorker {
  import opened Bytes
  import Ring = AuRing

  const SCRATCH: nat := 512 * 1024
  const STALL_FRAMES: nat := 90

  datatype Frame = Frame(width: u32, height: u32, size: nat, ptsUs: u64)

  /** What one dequeued encoder buffer holds, and whether its frame was submitted with the
      keyframe flag. */
  datatype Unit = Unit(forced: bool, idr: bool, bytes: seq<byte>)

  /** How h264_encoder_encode comes back: a fatal error, no input buffer for the frame, or the
      frame queued and this many units dequeued. */
  datatype Outcome = Error | Refused | Queued(units: seq<Unit>)

  /** The drain loop of the encoder: units that do not fit what is left of the buffer are lost. */
  function Gather(units: seq<Unit>): (r: (seq<byte>, bool))
    ensures |r.0| <= SCRATCH
  {
    if units == [] then ([], false)
    else
      var (data, idr) := Gather(units[..|units| - 1]);
      var u := units[|units| - 1];
      if u.bytes == [] || |data| + |u.bytes| > SCRATCH then (data, idr) else (data + u.bytes, idr || u.idr)
  }

  datatype Phase =
    | Waiting
    | Ready(ptsUs: u64)
    | Exchanged(ptsUs: u64, forced: bool)
    | Holding(ptsUs: u64, data: seq<byte>, isIdr: bool, cleared: bool)
    | Stopped

  datatype Counters = Counters(framesIn: nat, encoded: nat, idle: nat, mismatch: nat, badSize: nat, noOutput: nat)

  /** The stall watchdog, and how often it has complained and been re-armed. */
  datatype Watch = Watch(wasActive: bool, warned: bool, lastSeen: nat, warnings: nat, rearms: nat)

  /** The order of requests and pushes. */
  datatype Mark = Asked | Keyframe | Other

  datatype Worker = Worker(
    width: u32,
    height: u32,
    flag: bool,
    phase: Phase,
    pipeline: seq<bool>,
    queue: Ring.Queue,
    counters: Counters,
    watch: Watch,
    log: seq<Mark>)

  // -------------------------------------------------------------------------
  // Steps
  // -------------------------------------------------------------------------

  datatype Event =
    | Ask
    | Begin(frame: Frame, active: bool)
    | Exchange
    | Encode(outcome: Outcome)
    | Clear
    | Push

  predicate Enabled(s: Worker, e: Event) {
    match e
    case Ask => true
    case Begin(_, _) => s.phase.Waiting?
    case Exchange => s.phase.Ready?
    case Encode(o) => s.phase.Exchanged? && Lawful(s.pipeline + [s.phase.forced], o)
    case Clear => s.phase.Holding? && !s.phase.cleared
    case Push => s.phase.Holding? && s.phase.cleared
  }

  /** The encoder returns frames in order, and a frame submitted with the keyframe flag comes out
      as one. */
  predicate Lawful(submitted: seq<bool>, o: Outcome) {
    o.Queued? ==>
      && |o.units| <= |submitted|
      && forall i :: 0 <= i < |o.units| ==> o.units[i].forced == submitted[i] && (submitted[i] ==> o.units[i].idr)
  }

  function Watched(w: Watch, framesIn: nat, active: bool): (r: Watch)
    requires w.lastSeen <= framesIn
  {
    var a := if active && !w.wasActive
             then w.(warned := false, lastSeen := framesIn, rearms := w.rearms + 1) else w;
    var b := a.(wasActive := active);
    if active && !b.warned && framesIn - b.lastSeen >= STALL_FRAMES
    then b.(warned := true, warnings := b.warnings + 1)
    else b
  }

  /** Why a frame is passed over, if it is. */
  predicate Admits(width: u32, height: u32, frame: Frame, active: bool) {
    active && frame.width == width && frame.height == height && frame.size != 0
  }

  function Skipped(c: Counters, width: u32, height: u32, frame: Frame, active: bool): (r: Counters) {
    if !active then c.(idle := c.idle + 1)
    else if frame.width != width || frame.height != height then c.(mismatch := c.mismatch + 1)
    else if frame.size == 0 then c.(badSize := c.badSize + 1)
    else c
  }

  function BeginOf(s: Worker, frame: Frame, active: bool): (t: Worker)
    requires s.watch.lastSeen <= s.counters.framesIn
  {
    var c := s.counters.(framesIn := s.counters.framesIn + 1);
    s.(watch := Watched(s.watch, c.framesIn, active), counters := Skipped(c, s.width, s.height, frame, active),
       phase := if Admits(s.width, s.height, frame, active) then Ready(frame.ptsUs) else s.phase)
  }

  function EncodeOf(s: Worker, o: Outcome): (t: Worker)
    requires s.phase.Exchanged? && Lawful(s.pipeline + [s.phase.forced], o)
  {
    match o
    case Error => s.(phase := Stopped)
    case Refused => s.(phase := Waiting, counters := s.counters.(noOutput := s.counters.noOutput + 1))
    case Queued(units) =>
      var (data, idr) := Gather(units);
      var t := s.(pipeline := (s.pipeline + [s.phase.forced])[|units|..]);
      if data == [] then t.(phase := Waiting, counters := s.counters.(noOutput := s.counters.noOutput + 1))
      else
        t.(phase := Holding(s.phase.ptsUs, data, idr, false),
           counters := s.counters.(encoded := s.counters.encoded + 1),
           watch := s.watch.(lastSeen := s.counters.framesIn, warned := false, rearms := s.watch.rearms + 1))
  }

  /** The return value, output and keyframe flag of h264_encoder_encode. */
  function ResultOf(o: Outcome): (r: (int, seq<byte>, bool)) {
    match o
    case Error => (-1, [], false)
    case Refused => (0, [], false)
    case Queued(units) =>
      var (data, idr) := Gather(units);
      (if data == [] then 0 else 1, data, idr)
  }

  function AfterEncode(c: Counters, result: int): (r: Counters) {
    if result == 0 then c.(noOutput := c.noOutput + 1)
    else if result > 0 then c.(encoded := c.encoded + 1)
    else c
  }

  function Rearmed(w: Watch, framesIn: nat, result: int): (r: Watch) {
    if result > 0 then w.(lastSeen := framesIn, warned := false, rearms := w.rearms + 1) else w
  }

  function PhaseAfter(ptsUs: u64, result: int, data: seq<byte>, isIdr: bool): (p: Phase) {
    if result < 0 then Stopped else if result == 0 then Waiting else Holding(ptsUs, data, isIdr, false)
  }

  /** One encoder call, part by part. */
  lemma EncodeParts(s: Worker, o: Outcome)
    requires s.phase.Exchanged? && Lawful(s.pipeline + [s.phase.forced], o)
    ensures var t, (result, data, isIdr) := EncodeOf(s, o), ResultOf(o);
            && t.counters == AfterEncode(s.counters, result)
            && t.watch == Rearmed(s.watch, s.counters.framesIn, result)
            && t.phase == PhaseAfter(s.phase.ptsUs, result, data, isIdr)
            && t.flag == s.flag && t.queue == s.queue && t.width == s.width && t.height == s.height
  {
    hide Gather, Lawful;
  }

  function PushOf(s: Worker): (t: Worker)
    requires s.phase.Holding?
  {
    var p := s.phase;
    var accepted := Ring.Acceptable(s.queue, p.data);
    s.(phase := Waiting, queue := Ring.Push(s.queue, p.data, p.ptsUs, p.isIdr),
       log := s.log + [if accepted && p.isIdr then Keyframe else Other])
  }

  function Next(s: Worker, e: Event): (t: Worker)
    requires Enabled(s, e) && s.watch.lastSeen <= s.counters.framesIn
  {
    match e
    case Ask => s.(flag := true, log := s.log + [Asked])
    case Begin(frame, active) => BeginOf(s, frame, active)
    case Exchange => s.(flag := false, phase := Exchanged(s.phase.ptsUs, s.flag))
    case Encode(o) => EncodeOf(s, o)
    case Clear => s.(flag := s.flag && !s.phase.isIdr, phase := s.phase.(cleared := true))
    case Push => PushOf(s)
  }

  function Start(width: u32, height: u32, slotCapacity: nat, slots: nat): Worker {
    Worker(width, height, false, Waiting, [], Ring.Queue(slotCapacity, slots, [], 0, 0), Counters(0, 0, 0, 0, 0, 0),
           Watch(false, false, 0, 0, 0), [])
  }

  // -------------------------------------------------------------------------
  // Accounting
  // -------------------------------------------------------------------------

  /** Every frame taken is counted once: skipped, without output, encoded, in hand, or the one the
      encoder failed on. The watchdog complains at most once between re-arms. */
  ghost predicate Balanced(s: Worker) {
    var c := s.counters;
    && c.framesIn == c.idle + c.mismatch + c.badSize + c.noOutput + c.encoded
                     + (if s.phase.Ready? || s.phase.Exchanged? || s.phase.Stopped? then 1 else 0)
    && s.watch.lastSeen <= c.framesIn
    && s.watch.warnings + (if s.watch.warned then 0 else 1) <= s.watch.rearms + 1
    && (s.watch.wasActive ==> s.watch.rearms > 0)
    && (s.phase.Holding? ==> 0 < |s.phase.data| <= SCRATCH)
  }

  lemma NextBalanced(s: Worker, e: Event)
    requires Balanced(s) && Enabled(s, e)
    ensures Balanced(Next(s, e))
    ensures var t := Next(s, e);
            t.queue.slotCapacity == s.queue.slotCapacity && t.width == s.width && t.height == s.height
  {
    hide Gather, Lawful, Ring.Push;
    if e.Push? {
      RingShape(s.queue, s.phase.data, s.phase.ptsUs, s.phase.isIdr);
    }
  }

  lemma RingShape(q: Ring.Queue, data: seq<byte>, ptsUs: u64, isIdr: bool)
    ensures Ring.Push(q, data, ptsUs, isIdr).slotCapacity == q.slotCapacity
  {
  }

  // -------------------------------------------------------------------------
  // Keyframe requests
  // -------------------------------------------------------------------------

  /** A request is answered once a keyframe has been pushed after it. */
  ghost predicate AnsweredAt(log: seq<Mark>, i: nat) {
    exists j :: i < j < |log| && log[j] == Keyframe
  }

  /** Something still carries the duty to produce a keyframe: the flag, the frame about to be
      encoded, a frame in the encoder, or a keyframe in hand. */
  ghost predicate Carried(s: Worker) {
    || s.flag
    || (s.phase.Exchanged? && s.phase.forced)
    || true in s.pipeline
    || (s.phase.Holding? && s.phase.isIdr)
  }

  /** No request is lost: each is answered, or still carried. */
  ghost predicate NoneLost(s: Worker) {
    forall i :: 0 <= i < |s.log| && s.log[i] == Asked ==> AnsweredAt(s.log, i) || Carried(s)
  }

  /** Whether a request since the last pushed keyframe is on record. */
  ghost predicate Owed(log: seq<Mark>) {
    log != [] && match log[|log| - 1]
                 case Asked => true
                 case Keyframe => false
                 case Other => Owed(log[..|log| - 1])
  }

  lemma AnsweredStep(log: seq<Mark>, m: Mark, i: nat)
    requires i < |log|
    ensures AnsweredAt(log + [m], i) <==> AnsweredAt(log, i) || m == Keyframe
  {
    var w := log + [m];
    if AnsweredAt(log, i) {
      var j :| i < j < |log| && log[j] == Keyframe;
      assert w[j] == Keyframe;
    }
    if m == Keyframe {
      assert w[|log|] == Keyframe;
    }
    if AnsweredAt(w, i) && m != Keyframe {
      var j :| i < j < |w| && w[j] == Keyframe;
      assert log[j] == Keyframe;
    }
  }

  /** Some request has no keyframe after it exactly when one is owed. */
  lemma {:induction false} OwedMeaning(log: seq<Mark>)
    ensures Owed(log) <==> exists i :: 0 <= i < |log| && log[i] == Asked && !AnsweredAt(log, i)
    decreases |log|
  {
    hide AnsweredAt;
    if log != [] {
      var before, m := log[..|log| - 1], log[|log| - 1];
      assert log == before + [m];
      OwedMeaning(before);
      NothingAfter(log);
      forall i | 0 <= i < |before|
        ensures AnsweredAt(log, i) <==> AnsweredAt(before, i) || m == Keyframe
      {
        AnsweredStep(before, m, i);
      }
      if Owed(before) {
        var i :| 0 <= i < |before| && before[i] == Asked && !AnsweredAt(before, i);
        assert log[i] == Asked;
      }
      assert forall i :: 0 <= i < |before| ==> log[i] == before[i];
    }
  }

  lemma NothingAfter(log: seq<Mark>)
    requires log != []
    ensures !AnsweredAt(log, |log| - 1)
  {
  }

  lemma NoneLostMeaning(s: Worker)
    ensures NoneLost(s) <==> (Owed(s.log) ==> Carried(s))
  {
    hide AnsweredAt, Carried, Owed;
    OwedMeaning(s.log);
  }

  /** The encoder did not let go of a keyframe order: a forced frame is taken in, and the unit of
      a forced frame reaches the output buffer. */
  predicate Dutiful(forced: bool, o: Outcome) {
    match o
    case Error => false
    case Refused => !forced
    case Queued(units) => (exists i :: 0 <= i < |units| && units[i].forced) ==> Gather(units).1
  }

  predicate Reliable(s: Worker, e: Event) {
    e.Encode? && s.phase.Exchanged? ==> Dutiful(s.phase.forced, e.outcome)
  }

  lemma PipelineKeeps(submitted: seq<bool>, units: seq<Unit>)
    requires Lawful(submitted, Queued(units)) && true in submitted
    ensures true in submitted[|units|..] || exists i :: 0 <= i < |units| && units[i].forced
  {
    var i :| 0 <= i < |submitted| && submitted[i];
    if i < |units| {
      assert units[i].forced;
    } else {
      assert submitted[|units|..][i - |units|];
    }
  }

  lemma {:induction false} KeyframeHasData(units: seq<Unit>)
    ensures Gather(units).1 ==> Gather(units).0 != []
  {
    if units != [] {
      KeyframeHasData(units[..|units| - 1]);
    }
  }

  lemma EncodeCarries(s: Worker, o: Outcome)
    requires s.phase.Exchanged? && Lawful(s.pipeline + [s.phase.forced], o) && Dutiful(s.phase.forced, o) && Carried(s)
    ensures Carried(EncodeOf(s, o))
  {
    hide Gather, Lawful;
    if o.Queued? && !s.flag {
      var submitted := s.pipeline + [s.phase.forced];
      assert true in submitted by {
        if s.phase.forced {
          assert submitted[|s.pipeline|];
        }
      }
      PipelineKeeps(submitted, o.units);
      KeyframeHasData(o.units);
    }
  }

  /** One step with a reliable encoder, and slots that hold whatever the scratch buffer can. */
  lemma NextNoneLost(s: Worker, e: Event)
    requires Balanced(s) && Enabled(s, e) && Reliable(s, e) && NoneLost(s)
    requires s.queue.slotCapacity >= SCRATCH
    ensures NoneLost(Next(s, e))
  {
    hide NoneLost, Gather, Lawful, Dutiful, Ring.Push;
    NoneLostMeaning(s);
    NoneLostMeaning(Next(s, e));
    match e
    case Ask =>
    case Begin(_, _) =>
    case Exchange =>
    case Encode(o) =>
      hide Owed;
      if Carried(s) {
        EncodeCarries(s, o);
      }
    case Clear =>
    case Push =>
      var t := Next(s, e);
      assert t.log[..|s.log|] == s.log;
  }

  // -------------------------------------------------------------------------
  // Whole runs
  // -------------------------------------------------------------------------

  ghost predicate IsRun(s: Worker, events: seq<Event>, t: Worker)
    decreases |events|
  {
    if events == [] then s == t
    else
      && s.watch.lastSeen <= s.counters.framesIn
      && Enabled(s, events[0])
      && IsRun(Next(s, events[0]), events[1..], t)
  }

  /** The encoder never fails, never refuses a forced frame and never loses a forced unit. */
  ghost predicate AllReliable(s: Worker, events: seq<Event>)
    decreases |events|
  {
    events != [] ==>
      && s.watch.lastSeen <= s.counters.framesIn
      && Enabled(s, events[0])
      && Reliable(s, events[0])
      && AllReliable(Next(s, events[0]), events[1..])
  }

  /** In every interleaving of requests with the worker's steps, every frame taken is accounted
      for. */
  lemma {:induction false} RunBalanced(s: Worker, events: seq<Event>, t: Worker)
    requires Balanced(s) && IsRun(s, events, t)
    ensures Balanced(t)
    decreases |events|
  {
    hide Balanced, Next, Enabled;
    if events != [] {
      NextBalanced(s, events[0]);
      RunBalanced(Next(s, events[0]), events[1..], t);
    }
  }

  /** And with a reliable encoder no request is ever lost: each is pending in the flag, being
      served, in the encoder, in hand as a keyframe, or followed by the push of one. */
  lemma {:induction false} RunNoneLost(s: Worker, events: seq<Event>, t: Worker)
    requires Balanced(s) && NoneLost(s) && s.queue.slotCapacity >= SCRATCH
    requires IsRun(s, events, t) && AllReliable(s, events)
    ensures NoneLost(t)
    decreases |events|
  {
    hide Balanced, NoneLost, Next, Enabled, Reliable;
    if events != [] {
      NextBalanced(s, events[0]);
      NextNoneLost(s, events[0]);
      RunNoneLost(Next(s, events[0]), events[1..], t);
    }
  }

  lemma StartsWell(width: u32, height: u32, slotCapacity: nat, slots: nat)
    ensures Balanced(Start(width, height, slotCapacity, slots)) && NoneLost(Start(width, height, slotCapacity, slots))
  {
  }

  /** From creation on: every frame accounted for in every interleaving, and no request lost while
      the encoder is reliable. */
  lemma StartedRun(width: u32, height: u32, slotCapacity: nat, slots: nat, events: seq<Event>, t: Worker)
    requires IsRun(Start(width, height, slotCapacity, slots), events, t)
    ensures Balanced(t)
    ensures slotCapacity >= SCRATCH && AllReliable(Start(width, height, slotCapacity, slots), events) ==> NoneLost(t)
  {
    hide Balanced, NoneLost, IsRun, AllReliable;
    var s := Start(width, height, slotCapacity, slots);
    StartsWell(width, height, slotCapacity, slots);
    RunBalanced(s, events, t);
    if slotCapacity >= SCRATCH && AllReliable(s, events) {
      RunNoneLost(s, events, t);
    }
  }

  // -------------------------------------------------------------------------
  // What an unreliable encoder costs
  // -------------------------------------------------------------------------

  /** What is left to carry the requests after a call of the encoder. */
  predicate StillCarried(s: Worker, o: Outcome)
    requires s.phase.Exchanged? && Lawful(s.pipeline + [s.phase.forced], o)
  {
    || s.flag
    || match o
       case Error => true in s.pipeline
       case Refused => true in s.pipeline
       case Queued(units) => true in (s.pipeline + [s.phase.forced])[|units|..] || Gather(units).1
  }

  /** While a keyframe is owed, a call of the encoder loses no request exactly if the flag has been
      raised again, a forced frame is still in the encoder, or a keyframe comes out. */
  lemma LossExact(s: Worker, o: Outcome)
    requires s.phase.Exchanged? && Lawful(s.pipeline + [s.phase.forced], o) && Owed(s.log)
    ensures NoneLost(EncodeOf(s, o)) <==> StillCarried(s, o)
  {
    hide Gather, Lawful, NoneLost, Owed;
    NoneLostMeaning(EncodeOf(s, o));
    if o.Queued? {
      KeyframeHasData(o.units);
    }
  }

  /** The ways an encoder breaks its duty: it fails, has no buffer for a frame, or lets the unit of a
      forced frame go without putting a keyframe into the output. */
  predicate Breaks(o: Outcome) {
    match o
    case Error => true
    case Refused => true
    case Queued(units) => (exists i :: 0 <= i < |units| && units[i].forced) && !Gather(units).1
  }

  /** They are the outcomes that are not dutiful for some frame. */
  lemma BreaksMeaning(o: Outcome)
    ensures Breaks(o) <==> !Dutiful(true, o) || !Dutiful(false, o)
  {
    hide Gather;
  }

  /** Forced frames come out as keyframes. */
  predicate Plausible(o: Outcome) {
    o.Queued? ==> forall i :: 0 <= i < |o.units| && o.units[i].forced ==> o.units[i].idr
  }

  function Flags(units: seq<Unit>): (r: seq<bool>)
    ensures |r| == |units|
  {
    seq(|units|, i requires 0 <= i < |units| => units[i].forced)
  }

  /** A worker between two frames, nothing requested since the last one was taken up. */
  ghost predicate Resting(s: Worker) {
    s.phase.Waiting? && !s.flag && Balanced(s)
  }

  function FrameFor(s: Worker): Frame {
    Frame(s.width, s.height, 1, 0)
  }

  lemma RunCons(s: Worker, e: Event, events: seq<Event>, t: Worker)
    requires s.watch.lastSeen <= s.counters.framesIn && Enabled(s, e) && IsRun(Next(s, e), events, t)
    ensures IsRun(s, [e] + events, t)
  {
    hide Next, Enabled;
    assert ([e] + events)[1..] == events;
  }

  lemma RunTwo(s: Worker, a: Event, b: Event)
    requires s.watch.lastSeen <= s.counters.framesIn && Enabled(s, a)
    requires var t := Next(s, a); t.watch.lastSeen <= t.counters.framesIn && Enabled(t, b)
    ensures IsRun(s, [a, b], Next(Next(s, a), b))
  {
    hide Next, Enabled;
    var t := Next(Next(s, a), b);
    assert IsRun(t, [], t);
    RunCons(Next(s, a), b, [], t);
    RunCons(s, a, [b], t);
    assert [a] + [b] == [a, b] && [b] + [] == [b];
  }

  /** A frame taken up for encoding, requested as a keyframe or not. */
  lemma TakeUp(s: Worker, forced: bool) returns (events: seq<Event>, t: Worker)
    requires Resting(s)
    ensures IsRun(s, events, t) && Balanced(t) && t.phase == Exchanged(0, forced) && !t.flag
    ensures t.pipeline == s.pipeline && t.queue == s.queue
    ensures Owed(t.log) <==> forced || Owed(s.log)
    ensures forall i :: 0 <= i < |events| ==> !events[i].Encode?
  {
    hide Balanced, IsRun, Watched;
    var frame := FrameFor(s);
    BalancedSeen(s);
    var r := if forced then Next(s, Ask) else s;
    if forced {
      NextBalanced(s, Ask);
    }
    BalancedSeen(r);
    NextBalanced(r, Begin(frame, true));
    var b := Next(r, Begin(frame, true));
    BalancedSeen(b);
    NextBalanced(b, Exchange);
    t := Next(b, Exchange);
    RunTwo(r, Begin(frame, true), Exchange);
    events := [Begin(frame, true), Exchange];
    if forced {
      RunCons(s, Ask, events, t);
      events := [Ask] + events;
    }
  }

  lemma {:induction false} RunJoin(s: Worker, a: seq<Event>, t: Worker, b: seq<Event>, u: Worker)
    requires IsRun(s, a, t) && IsRun(t, b, u)
    ensures IsRun(s, a + b, u)
    decreases |a|
  {
    hide Next, Enabled;
    if a == [] {
      assert a + b == b;
    } else {
      RunJoin(Next(s, a[0]), a[1..], t, b, u);
      assert (a + b)[1..] == a[1..] + b;
    }
  }

  /** Frames whose units the encoder will hand out later: each is taken in without output. */
  lemma {:induction false} Feed(s: Worker, units: seq<Unit>) returns (events: seq<Event>, t: Worker)
    requires Resting(s)
    ensures IsRun(s, events, t) && Resting(t) && t.pipeline == s.pipeline + Flags(units) && t.queue == s.queue
    ensures Owed(t.log) <==> Owed(s.log) || true in Flags(units)
    ensures forall i :: 0 <= i < |events| && events[i].Encode? ==> units != [] && events[i].outcome == Queued([])
    decreases |units|
  {
    hide Balanced, IsRun;
    if units == [] {
      events, t := [], s;
      RunNone(s);
    } else {
      var first, held := TakeUp(s, units[0].forced);
      BalancedSeen(held);
      var next := Next(held, Encode(Queued([])));
      TakenIn(held);
      NextBalanced(held, Encode(Queued([])));
      RunStep(s, first, held, Encode(Queued([])));
      var rest;
      rest, t := Feed(next, units[1..]);
      RunJoin(s, first + [Encode(Queued([]))], next, rest, t);
      events := first + [Encode(Queued([]))] + rest;
      assert Flags(units) == [units[0].forced] + Flags(units[1..]);
      assert s.pipeline + [units[0].forced] + Flags(units[1..]) == s.pipeline + Flags(units);
    }
  }

  lemma RunNone(s: Worker)
    ensures IsRun(s, [], s)
  {
  }

  lemma TakenIn(s: Worker)
    requires s.phase.Exchanged?
    ensures Lawful(s.pipeline + [s.phase.forced], Queued([]))
    ensures var t := EncodeOf(s, Queued([]));
            && t.phase == Waiting && t.pipeline == s.pipeline + [s.phase.forced]
            && t.flag == s.flag && t.log == s.log && t.queue == s.queue
  {
  }

  /** An outcome that only an encoder which held a frame back before can have. */
  predicate Delayed(o: Outcome) {
    o.Queued? && |o.units| > 1
  }

  /** Every such outcome loses a request in some run, however well the encoder behaved before. */
  lemma BreakLoses(s: Worker, o: Outcome) returns (events: seq<Event>, t: Worker)
    requires Resting(s) && s.pipeline == [] && Plausible(o) && Breaks(o)
    ensures IsRun(s, events, t) && !NoneLost(t)
    ensures forall i :: 0 <= i < |events| && events[i].Encode? ==>
              events[i].outcome == o || (Delayed(o) && events[i].outcome == Queued([]))
  {
    hide Balanced, IsRun, NoneLost, Owed, Gather, Plausible;
    var taken, x;
    if o.Queued? {
      taken, x := HandOut(s, o.units);
    } else {
      taken, x := TakeUp(s, true);
    }
    BalancedSeen(x);
    LosesNow(x, o);
    RunStep(s, taken, x, Encode(o));
    events, t := taken + [Encode(o)], Next(x, Encode(o));
  }

  /** The frames of some units have been taken up, the last of them just now. */
  lemma HandOut(s: Worker, units: seq<Unit>) returns (events: seq<Event>, x: Worker)
    requires Resting(s) && s.pipeline == [] && exists i :: 0 <= i < |units| && units[i].forced
    ensures IsRun(s, events, x) && Balanced(x) && x.phase.Exchanged? && !x.flag
    ensures x.pipeline + [x.phase.forced] == Flags(units) && Owed(x.log)
    ensures forall i :: 0 <= i < |events| && events[i].Encode? ==> |units| > 1 && events[i].outcome == Queued([])
  {
    hide Balanced, IsRun, Owed;
    var n := |units| - 1;
    var fed, r := Feed(s, units[..n]);
    var taken;
    taken, x := TakeUp(r, units[n].forced);
    FlagsSplit(units);
    assert s.pipeline + Flags(units[..n]) == Flags(units[..n]);
    RunJoin(s, fed, r, taken, x);
    events := fed + taken;
  }

  lemma LosesNow(x: Worker, o: Outcome)
    requires x.phase.Exchanged? && !x.flag && Owed(x.log) && Plausible(o) && Breaks(o)
    requires if o.Queued? then x.pipeline + [x.phase.forced] == Flags(o.units) else x.pipeline == []
    ensures Lawful(x.pipeline + [x.phase.forced], o) && !NoneLost(EncodeOf(x, o))
  {
    hide Gather, Owed, NoneLost;
    LossExact(x, o);
  }

  lemma FlagsSplit(units: seq<Unit>)
    ensures units != [] ==> Flags(units) == Flags(units[..|units| - 1]) + [units[|units| - 1].forced]
    ensures true in Flags(units) <==> exists i :: 0 <= i < |units| && units[i].forced
  {
    if i :| 0 <= i < |units| && units[i].forced {
      assert Flags(units)[i];
    }
  }

  /** The outcomes of a run all come from a repertoire. */
  ghost predicate Draws(events: seq<Event>, repertoire: Outcome -> bool) {
    forall i :: 0 <= i < |events| && events[i].Encode? ==> repertoire(events[i].outcome)
  }

  lemma LawfulPlausible(submitted: seq<bool>, o: Outcome)
    requires Lawful(submitted, o)
    ensures Plausible(o)
  {
  }

  /** The outcomes a run can meet: several units at once only come from an encoder that can take in a
      frame without output. */
  predicate Meets(repertoire: Outcome -> bool, o: Outcome) {
    repertoire(o) && Plausible(o) && (Delayed(o) ==> repertoire(Queued([])))
  }

  /** An encoder that answers every frame it takes in has nothing in its pipeline. */
  ghost predicate Prompt(s: Worker, repertoire: Outcome -> bool) {
    repertoire(Queued([])) || s.pipeline == []
  }

  lemma NextPrompt(s: Worker, e: Event, repertoire: Outcome -> bool)
    requires s.watch.lastSeen <= s.counters.framesIn && Enabled(s, e) && Prompt(s, repertoire)
    requires e.Encode? ==> repertoire(e.outcome)
    ensures Prompt(Next(s, e), repertoire) && (e.Encode? ==> Meets(repertoire, e.outcome))
  {
    hide Watched, Gather;
    if e.Encode? {
      LawfulPlausible(s.pipeline + [s.phase.forced], e.outcome);
    }
  }

  lemma {:induction false} HarmlessReliable(s: Worker, events: seq<Event>, t: Worker, repertoire: Outcome -> bool)
    requires IsRun(s, events, t) && Draws(events, repertoire) && Prompt(s, repertoire)
    requires forall o :: Meets(repertoire, o) ==> !Breaks(o)
    ensures AllReliable(s, events)
    decreases |events|
  {
    hide Next, Meets, Breaks, Lawful, Dutiful, Prompt;
    if events != [] {
      var e := events[0];
      NextPrompt(s, e, repertoire);
      if e.Encode? {
        BreaksMeaning(e.outcome);
      }
      assert forall i :: 0 <= i < |events[1..]| ==> events[1..][i] == events[i + 1];
      HarmlessReliable(Next(s, e), events[1..], t, repertoire);
    }
  }

  /** For any encoder, by the outcomes it can have: no run from creation loses a request exactly if
      none of those a run can meet is a failure, a refusal, or a dropped unit of a forced frame. */
  lemma ReliabilityExact(width: u32, height: u32, slotCapacity: nat, slots: nat, repertoire: Outcome -> bool)
    requires slotCapacity >= SCRATCH
    ensures (forall events, t :: IsRun(Start(width, height, slotCapacity, slots), events, t) && Draws(events, repertoire)
               ==> NoneLost(t)) <==>
            (forall o :: Meets(repertoire, o) ==> !Breaks(o))
  {
    hide IsRun, NoneLost, Balanced, Breaks, Plausible, Delayed;
    var s := Start(width, height, slotCapacity, slots);
    StartsWell(width, height, slotCapacity, slots);
    if forall o :: Meets(repertoire, o) ==> !Breaks(o) {
      forall events, t | IsRun(s, events, t) && Draws(events, repertoire)
        ensures NoneLost(t)
      {
        HarmlessReliable(s, events, t, repertoire);
        RunNoneLost(s, events, t);
      }
    } else {
      var o :| Meets(repertoire, o) && Breaks(o);
      var events, t := BreakLoses(s, o);
      assert Draws(events, repertoire);
    }
  }

  /** A unit that reaches the output buffer on its own. */
  predicate Single(o: Outcome) {
    o.Queued? && |o.units| <= 1 && (o.units != [] ==> 0 < |o.units[0].bytes| <= SCRATCH)
  }

  lemma SingleHarmless(o: Outcome)
    requires Single(o) && Plausible(o)
    ensures !Breaks(o)
  {
    if |o.units| == 1 {
      assert o.units[..0] == [];
      assert Gather([]) == ([], false);
      assert Gather(o.units).1 == (false || o.units[0].idr);
    }
  }

  /** So the software encoder, which hands out at most one unit a call and none that is too large,
      never loses a request in any run. */
  lemma SoftwareNeverLoses(width: u32, height: u32, slotCapacity: nat, slots: nat, events: seq<Event>, t: Worker)
    requires slotCapacity >= SCRATCH && IsRun(Start(width, height, slotCapacity, slots), events, t)
    requires Draws(events, Single)
    ensures NoneLost(t)
  {
    hide IsRun, NoneLost, Breaks, Plausible, Single;
    forall o | Meets(Single, o)
      ensures !Breaks(o)
    {
      SingleHarmless(o);
    }
    ReliabilityExact(width, height, slotCapacity, slots, Single);
  }

  /** The promise fails when no input buffer frees up in time: the order is consumed, the frame is
      not encoded, and no later keyframe is on its way. */
  lemma RefusedFrameLosesRequest(frame: Frame, slotCapacity: nat)
    requires frame.size > 0 && slotCapacity >= SCRATCH
    ensures var s := Start(frame.width, frame.height, slotCapacity, 4);
            exists t :: IsRun(s, [Ask, Begin(frame, true), Exchange, Encode(Refused)], t) && !NoneLost(t)
  {
    hide Watched, NoneLost;
    var s0 := Start(frame.width, frame.height, slotCapacity, 4);
    var s1 := Next(s0, Ask);
    var s2 := Next(s1, Begin(frame, true));
    assert s2.watch.lastSeen <= 1 by { WatchedSeen(s1.watch, 1, true); }
    var s3 := Next(s2, Exchange);
    var s4 := Next(s3, Encode(Refused));
    var e1, e2, e3, e4: Event := Ask, Begin(frame, true), Exchange, Encode(Refused);
    assert IsRun(s4, [], s4);
    RunCons(s3, e4, [], s4);
    RunCons(s2, e3, [e4], s4);
    RunCons(s1, e2, [e3, e4], s4);
    RunCons(s0, e1, [e2, e3, e4], s4);
    NoneLostMeaning(s4);
  }

  lemma WatchedSeen(w: Watch, framesIn: nat, active: bool)
    requires w.lastSeen <= framesIn
    ensures Watched(w, framesIn, active).lastSeen <= framesIn
  {
  }

  /** It fails as well when the unit of a forced frame comes out with a later frame and exceeds the
      output buffer: it is dropped, and nothing carries the request any more. */
  lemma OversizeUnitLosesRequest(frame: Frame, slotCapacity: nat, u: Unit)
    requires frame.size > 0 && u.forced && u.idr && |u.bytes| > SCRATCH
    ensures var s := Start(frame.width, frame.height, slotCapacity, 4);
            var held := [Ask, Begin(frame, true), Exchange, Encode(Queued([]))];
            exists t :: IsRun(s, held + [Begin(frame, true), Exchange, Encode(Queued([u]))], t) && !NoneLost(t)
  {
    hide Balanced, IsRun, NoneLost;
    var s0 := Start(frame.width, frame.height, slotCapacity, 4);
    var s4 := HoldForced(frame, slotCapacity);
    BalancedSeen(s4);
    NextBalanced(s4, Begin(frame, true));
    var s5 := Next(s4, Begin(frame, true));
    BalancedSeen(s5);
    NextBalanced(s5, Exchange);
    var s6 := Next(s5, Exchange);
    BalancedSeen(s6);
    DropsUnit(s6, u);
    RunTwo(s4, Begin(frame, true), Exchange);
    RunStep(s4, [Begin(frame, true), Exchange], s6, Encode(Queued([u])));
    var held := [Ask, Begin(frame, true), Exchange, Encode(Queued([]))];
    assert [Begin(frame, true), Exchange] + [Encode(Queued([u]))] == [Begin(frame, true), Exchange, Encode(Queued([u]))];
    RunJoin(s0, held, s4, [Begin(frame, true), Exchange, Encode(Queued([u]))], EncodeOf(s6, Queued([u])));
  }

  /** The forced frame is in the encoder, which has handed out nothing yet. */
  lemma HoldForced(frame: Frame, slotCapacity: nat) returns (t: Worker)
    requires frame.size > 0
    ensures IsRun(Start(frame.width, frame.height, slotCapacity, 4),
                  [Ask, Begin(frame, true), Exchange, Encode(Queued([]))], t)
    ensures Balanced(t) && t.phase == Waiting && !t.flag && t.pipeline == [true] && t.log == [Asked]
    ensures t.width == frame.width && t.height == frame.height
  {
    hide Balanced, IsRun, Watched;
    var s0 := Start(frame.width, frame.height, slotCapacity, 4);
    StartsWell(frame.width, frame.height, slotCapacity, 4);
    BalancedSeen(s0);
    NextBalanced(s0, Ask);
    var s1 := Next(s0, Ask);
    BalancedSeen(s1);
    NextBalanced(s1, Begin(frame, true));
    var s2 := Next(s1, Begin(frame, true));
    BalancedSeen(s2);
    NextBalanced(s2, Exchange);
    var s3 := Next(s2, Exchange);
    BalancedSeen(s3);
    TakenIn(s3);
    NextBalanced(s3, Encode(Queued([])));
    t := Next(s3, Encode(Queued([])));
    RunTwo(s0, Ask, Begin(frame, true));
    RunTwo(s2, Exchange, Encode(Queued([])));
    RunJoin(s0, [Ask, Begin(frame, true)], s2, [Exchange, Encode(Queued([]))], t);
    assert [Ask, Begin(frame, true)] + [Exchange, Encode(Queued([]))] ==
           [Ask, Begin(frame, true), Exchange, Encode(Queued([]))];
    assert [] + [true] == [true] && [] + [Asked] == [Asked];
  }

  lemma DropsUnit(s: Worker, u: Unit)
    requires s.phase.Exchanged? && !s.phase.forced && !s.flag && s.pipeline == [true] && s.log == [Asked]
    requires u.forced && u.idr && |u.bytes| > SCRATCH
    ensures Lawful(s.pipeline + [s.phase.forced], Queued([u])) && !NoneLost(EncodeOf(s, Queued([u])))
  {
    hide NoneLost;
    assert [u][..0] == [];
    assert Gather([]) == ([], false);
    assert !Gather([u]).1;
    assert (s.pipeline + [s.phase.forced])[1..] == [false];
    LossExact(s, Queued([u]));
  }

  // -------------------------------------------------------------------------
  // The thread
  // -------------------------------------------------------------------------

  lemma {:induction false} RunStep(s: Worker, events: seq<Event>, t: Worker, e: Event)
    requires IsRun(s, events, t) && t.watch.lastSeen <= t.counters.framesIn && Enabled(t, e)
    ensures IsRun(s, events + [e], Next(t, e))
    decreases |events|
  {
    hide Next, Enabled;
    if events == [] {
      assert ([] + [e])[1..] == [];
    } else {
      RunStep(Next(s, events[0]), events[1..], t, e);
      assert (events + [e])[1..] == events[1..] + [e];
    }
  }

  /** What one round of the loop meets: the frame if there is one, whether a viewer is there, how
      the encoder answers, and requests stored by other threads in the gaps between accesses to the
      shared flag. */
  datatype Round = Round(frame: Option<Frame>, active: bool, encode: bool -> Outcome,
                         beforeExchange: bool, beforeClear: bool, beforePush: bool)

  function Asking(wanted: bool): (events: seq<Event>) {
    if wanted then [Ask] else []
  }

  predicate HasOutput(o: Outcome) {
    o.Queued? && Gather(o.units).0 != []
  }

  /** The steps one round takes, by what it meets and the flag it finds. */
  function RoundEvents(r: Round, width: u32, height: u32, flag: bool): (events: seq<Event>) {
    match r.frame
    case None => []
    case Some(f) =>
      [Begin(f, r.active)] +
      if !r.active || f.width != width || f.height != height || f.size == 0 then []
      else EncodeEvents(r, flag || r.beforeExchange)
  }

  function EncodeEvents(r: Round, force: bool): (events: seq<Event>) {
    Asking(r.beforeExchange) + [Exchange] + [Encode(r.encode(force))] +
    if HasOutput(r.encode(force)) then DeliverEvents(r) else []
  }

  function DeliverEvents(r: Round): (events: seq<Event>) {
    Asking(r.beforeClear) + [Clear] + Asking(r.beforePush) + [Push]
  }

  class EncoderWorker {
    const width: u32
    const height: u32
    const ring: Ring.AuRing
    var forceIdr: bool
    var framesIn: nat
    var framesEncoded: nat
    var skippedIdle: nat
    var skippedMismatch: nat
    var skippedBadSize: nat
    var noOutput: nat
    var wasActive: bool
    var stallWarned: bool
    var lastEncodeAtSeen: nat
    /** The transition system's state, and the steps taken so far. */
    ghost var state: Worker
    ghost const start: Worker
    ghost var trace: seq<Event>

    ghost function Counts(): Counters
      reads this`framesIn, this`framesEncoded, this`skippedIdle, this`skippedMismatch, this`skippedBadSize, this`noOutput
    {
      Counters(framesIn, framesEncoded, skippedIdle, skippedMismatch, skippedBadSize, noOutput)
    }

    ghost predicate Watches(w: Watch)
      reads this`wasActive, this`stallWarned, this`lastEncodeAtSeen
    {
      w.wasActive == wasActive && w.warned == stallWarned && w.lastSeen == lastEncodeAtSeen
    }

    ghost predicate RingFollows()
      reads this`state, ring, ring.backing, ring.meta
    {
      ring.Valid() && state.queue == ring.View()
    }

    /** The transition system got where it is by the steps on record. */
    ghost predicate Traced()
      reads this`state, this`trace
    {
      Balanced(state) && IsRun(start, trace, state) && state.width == width && state.height == height
    }

    /** The shared flag, the counters and the ring are those of the transition system. */
    ghost predicate Follows()
      reads this, ring, ring.backing, ring.meta
    {
      RingFollows() && Traced() && state.flag == forceIdr && state.counters == Counts() && Watches(state.watch)
    }

    constructor (w: u32, h: u32, r: Ring.AuRing)
      requires r.Valid()
      ensures Follows() && state.phase == Waiting && width == w && height == h && ring == r
      ensures start == Start(w, h, r.slotCapacity, r.slotCount).(queue := r.View()) && trace == []
    {
      width, height, ring := w, h, r;
      forceIdr, framesIn, framesEncoded, skippedIdle := false, 0, 0, 0;
      skippedMismatch, skippedBadSize, noOutput := 0, 0, 0;
      wasActive, stallWarned, lastEncodeAtSeen := false, false, 0;
      start := Start(w, h, r.slotCapacity, r.slotCount).(queue := r.View());
      state := Start(w, h, r.slotCapacity, r.slotCount).(queue := r.View());
      trace := [];
    }

    /** The transition system takes a step. */
    ghost method Record(e: Event)
      requires Traced() && Enabled(state, e)
      modifies this`state, this`trace
      ensures old(state).watch.lastSeen <= old(state).counters.framesIn
      ensures state == Next(old(state), e) && trace == old(trace) + [e] && Traced()
    {
      NextBalanced(state, e);
      RunStep(start, trace, state, e);
      state, trace := Next(state, e), trace + [e];
    }

    /** Another thread stores 1. */
    method RequestKeyframe(wanted: bool)
      requires Follows()
      modifies this`forceIdr, this`state, this`trace
      ensures Follows() && state == if wanted then Next(old(state), Ask) else old(state)
      ensures trace == old(trace) + Asking(wanted) && forceIdr == (old(forceIdr) || wanted)
    {
      hide Traced, ring.Valid;
      if wanted {
        Record(Ask);
        forceIdr := true;
      }
      assert trace == old(trace) + Asking(wanted);
    }

    /** Re-arm when a viewer appears; complain once when too many frames gave no output. */
    method Watchdog(active: bool, ghost w: Watch)
      requires Watches(w) && w.lastSeen <= framesIn
      modifies this`wasActive, this`stallWarned, this`lastEncodeAtSeen
      ensures Watches(Watched(w, framesIn, active))
    {
      if active && !wasActive {
        stallWarned := false;
        lastEncodeAtSeen := framesIn;
      }
      wasActive := active;
      if active && !stallWarned && framesIn - lastEncodeAtSeen >= STALL_FRAMES {
        stallWarned := true;
      }
    }

    /** The reasons to skip a frame; true when there is none. */
    method Sort(frame: Frame, active: bool) returns (encode: bool)
      modifies this`skippedIdle, this`skippedMismatch, this`skippedBadSize
      ensures encode == Admits(width, height, frame, active)
      ensures Counts() == Skipped(old(Counts()), width, height, frame, active)
    {
      encode := false;
      if !active {
        skippedIdle := skippedIdle + 1;
      } else if frame.width != width || frame.height != height {
        skippedMismatch := skippedMismatch + 1;
      } else if frame.size == 0 {
        skippedBadSize := skippedBadSize + 1;
      } else {
        encode := true;
      }
    }

    /** A frame taken from the hub; true when it is to be encoded. */
    method Admit(frame: Frame, active: bool) returns (encode: bool)
      requires Follows() && state.phase.Waiting?
      modifies this
      ensures Follows()
      ensures old(state).watch.lastSeen <= old(state).counters.framesIn
      ensures state == Next(old(state), Begin(frame, active)) && (encode <==> state.phase.Ready?)
      ensures trace == old(trace) + [Begin(frame, active)]
      ensures encode == Admits(width, height, frame, active) && forceIdr == old(forceIdr)
    {
      hide Traced, ring.Valid, ring.View, Watched, Skipped, Admits, EncodeOf, PushOf;
      Record(Begin(frame, active));
      framesIn := framesIn + 1;
      Watchdog(active, old(state).watch);
      encode := Sort(frame, active);
    }

    /** atomic_exchange of the shared flag with 0. */
    method TakeFlag() returns (force: bool)
      requires Follows() && state.phase.Ready?
      modifies this`forceIdr, this`state, this`trace
      ensures Follows() && old(state).watch.lastSeen <= old(state).counters.framesIn
      ensures state == Next(old(state), Exchange) && force == old(forceIdr) == old(state).flag
      ensures trace == old(trace) + [Exchange]
    {
      hide Traced, ring.Valid, ring.View, BeginOf, EncodeOf, PushOf;
      force := forceIdr;
      forceIdr := false;
      Record(Exchange);
    }

    /** What the loop does with the encoder's result. */
    method Account(result: int, ghost w: Watch)
      requires Watches(w)
      modifies this`noOutput, this`framesEncoded, this`lastEncodeAtSeen, this`stallWarned
      ensures Counts() == AfterEncode(old(Counts()), result) && Watches(Rearmed(w, framesIn, result))
    {
      if result == 0 {
        noOutput := noOutput + 1;
      } else if result > 0 {
        framesEncoded := framesEncoded + 1;
        lastEncodeAtSeen := framesIn;
        stallWarned := false;
      }
    }

    /** The encoder call with the flag just taken; positive with data in hand. */
    method EncodeFrame(r: Round, force: bool) returns (result: int, data: seq<byte>, isIdr: bool)
      requires Follows() && state.phase.Exchanged? && state.phase.forced == force
      requires Lawful(state.pipeline + [force], r.encode(force))
      modifies this
      ensures Follows() && old(state).watch.lastSeen <= old(state).counters.framesIn
      ensures state == Next(old(state), Encode(r.encode(force)))
      ensures trace == old(trace) + [Encode(r.encode(force))]
      ensures (result, data, isIdr) == ResultOf(r.encode(force)) && (result > 0 <==> HasOutput(r.encode(force)))
      ensures state.phase == PhaseAfter(old(state).phase.ptsUs, result, data, isIdr)
    {
      hide Traced, ring.Valid, ring.View, BeginOf, EncodeOf, PushOf, Lawful, AfterEncode, Rearmed, ResultOf, PhaseAfter;
      var outcome := r.encode(force);
      EncodeParts(state, outcome);
      OutputMeaning(outcome);
      Record(Encode(outcome));
      var all := ResultOf(outcome);
      result, data, isIdr := all.0, all.1, all.2;
      Account(result, old(state).watch);
    }

    /** Clear the flag when the unit in hand is a keyframe. */
    method ClearFlag(isIdr: bool)
      requires Follows() && state.phase.Holding? && !state.phase.cleared && state.phase.isIdr == isIdr
      modifies this`forceIdr, this`state, this`trace
      ensures Follows() && old(state).watch.lastSeen <= old(state).counters.framesIn
      ensures state == Next(old(state), Clear)
      ensures trace == old(trace) + [Clear]
    {
      hide Traced, ring.Valid, ring.View, BeginOf, EncodeOf, PushOf;
      Record(Clear);
      if isIdr {
        forceIdr := false;
      }
    }

    method PushUnit(ptsUs: u64, data: seq<byte>, isIdr: bool)
      requires Follows() && state.phase == Holding(ptsUs, data, isIdr, true)
      modifies this`state, this`trace, ring, ring.backing, ring.meta
      ensures Follows() && old(state).watch.lastSeen <= old(state).counters.framesIn
      ensures state == Next(old(state), Push)
      ensures trace == old(trace) + [Push]
    {
      hide Traced, ring.Valid, BeginOf, EncodeOf, Ring.Push;
      Record(Push);
      var pushed := ring.PushAu(data, ptsUs, isIdr);
    }

    /** One round of the loop in encoder_thread; false when the thread stops. */
    method RunOnce(r: Round) returns (running: bool)
      requires Follows() && state.phase.Waiting?
      requires forall f :: Lawful(state.pipeline + [f], r.encode(f))
      modifies this, ring, ring.backing, ring.meta
      ensures Follows() && trace == old(trace) + RoundEvents(r, width, height, old(forceIdr))
      ensures if running then state.phase.Waiting? else state.phase.Stopped?
    {
      hide Follows, Lawful, Watched, Skipped, EncodeOf, EncodeEvents;
      if r.frame.None? {
        return true;
      }
      var encode := Admit(r.frame.value, r.active);
      if !encode {
        return true;
      }
      running := EncodeAdmitted(r, r.frame.value.ptsUs);
    }

    /** The part of a round that encodes. */
    method EncodeAdmitted(r: Round, ptsUs: u64) returns (running: bool)
      requires Follows() && state.phase == Ready(ptsUs)
      requires forall f :: Lawful(state.pipeline + [f], r.encode(f))
      modifies this, ring, ring.backing, ring.meta
      ensures Follows() && trace == old(trace) + EncodeEvents(r, old(forceIdr) || r.beforeExchange)
      ensures if running then state.phase.Waiting? else state.phase.Stopped?
    {
      hide Follows, Lawful, EncodeOf, ResultOf, HasOutput, Asking, DeliverEvents;
      RequestKeyframe(r.beforeExchange);
      var force := TakeFlag();
      var result, data, isIdr := EncodeFrame(r, force);
      if result < 0 {
        return false;
      }
      if result == 0 {
        return true;
      }
      Deliver(r, ptsUs, data, isIdr);
      return true;
    }

    /** The rest of a round with output. */
    method Deliver(r: Round, ptsUs: u64, data: seq<byte>, isIdr: bool)
      requires Follows() && state.phase == Holding(ptsUs, data, isIdr, false)
      modifies this, ring, ring.backing, ring.meta
      ensures Follows() && state.phase.Waiting?
      ensures trace == old(trace) + DeliverEvents(r)
    {
      hide Follows, Asking;
      RequestKeyframe(r.beforeClear);
      ClearFlag(isIdr);
      RequestKeyframe(r.beforePush);
      PushUnit(ptsUs, data, isIdr);
    }
  }

  lemma OutputMeaning(o: Outcome)
    ensures ResultOf(o).0 > 0 <==> HasOutput(o)
  {
    hide Gather;
  }

  lemma BalancedSeen(s: Worker)
    requires Balanced(s)
    ensures s.watch.lastSeen <= s.counters.framesIn
  {
  }
}
