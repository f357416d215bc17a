/**
 The sender thread of src/janus/janus_rtp_sender.c: drain the ring, packetize each access
 unit, hand every packet to the socket. End to end, from pushes to a receiver's NAL units.
 */
module JanusSender {
  import opened Bytes
  import opened AnnexB
  import opened Packetizer
  import opened Depacketizer
  import opened RtpStream
  import Ring = AuRing
  import Rtcp

  // -------------------------------------------------------------------------
  // The drain loop as a function
  // -------------------------------------------------------------------------

  /** The ring with its history, the packetizer, and every packet handed to the socket. */
  datatype Sender = Sender(h: Ring.History, p: PState, calls: seq<SinkCall>)

  /** One round of the inner loop, for a ring that yields this unit. */
  function Forward(s: Sender, capacity: nat, au: Ring.Au): (r: Sender) {
    var (p, calls) := Step(s.p, au.data, au.ptsUs);
    Sender(Ring.Apply(s.h, Ring.PopOp(capacity)), p, s.calls + calls)
  }

  /** One pop, which holds the ring lock by itself, and what it makes the sender hand on. */
  function PopOne(s: Sender, capacity: nat): (r: Sender) {
    match Ring.Pop(s.h.queue, capacity).1
    case Got(au) => Forward(s, capacity, au)
    case _ => s.(h := Ring.Apply(s.h, Ring.PopOp(capacity)))
  }

  /** With no push in between: pop until the ring is empty, or a unit does not fit and is lost. */
  function Drain(s: Sender, capacity: nat): (r: Sender)
    decreases |s.h.queue.items|
  {
    if Ring.Pop(s.h.queue, capacity).1.Got? then Drain(PopOne(s, capacity), capacity) else PopOne(s, capacity)
  }

  // -------------------------------------------------------------------------
  // The sender itself
  // -------------------------------------------------------------------------

  /** Whether the socket accepts each packet in turn. */
  type Socket = nat -> bool

  /** How many of these packets, the first attempts of the sender, the socket accepts. */
  function Accepted(socket: Socket, calls: seq<SinkCall>): (n: nat)
    ensures n <= |calls|
  {
    if calls == [] then 0
    else Accepted(socket, calls[..|calls| - 1]) + if socket(|calls| - 1) then 1 else 0
  }

  /** And how many octets they have. */
  function AcceptedOctets(socket: Socket, calls: seq<SinkCall>): (n: nat)
  {
    if calls == [] then 0
    else AcceptedOctets(socket, calls[..|calls| - 1]) + if socket(|calls| - 1) then |calls[|calls| - 1].packet| else 0
  }

  /** The three counters after these packets, from zero. */
  ghost predicate Tallied(socket: Socket, calls: seq<SinkCall>, packetsSent: u32, octetsSent: u32, sendErrors: u32) {
    && packetsSent == Add32(0, Accepted(socket, calls))
    && octetsSent == Add32(0, AcceptedOctets(socket, calls))
    && sendErrors == Add32(0, |calls| - Accepted(socket, calls))
  }

  /** A socket that accepts everything has been given whole packets, headers included; one that accepts
      nothing, nothing. */
  lemma {:induction false} TalliesExact(socket: Socket, calls: seq<SinkCall>)
    requires forall i :: 0 <= i < |calls| ==> |calls[i].packet| >= 12
    ensures (forall n: nat :: n < |calls| ==> socket(n)) ==>
              Accepted(socket, calls) == |calls| && AcceptedOctets(socket, calls) == PayloadTotal(calls) + 12 * |calls|
    ensures (forall n: nat :: n < |calls| ==> !socket(n)) ==>
              Accepted(socket, calls) == 0 && AcceptedOctets(socket, calls) == 0
    decreases |calls|
  {
    if calls != [] {
      var n := |calls| - 1;
      TalliesExact(socket, calls[..n]);
      assert calls == calls[..n] + [calls[n]];
      PayloadTotalConcat(calls[..n], [calls[n]]);
      assert [calls[n]][1..] == [] && PayloadTotal([]) == 0;
    }
  }

  lemma TalliedStep(socket: Socket, calls: seq<SinkCall>, call: SinkCall, p: u32, o: u32, e: u32)
    requires Tallied(socket, calls, p, o, e)
    ensures var sent := socket(|calls|);
            Tallied(socket, calls + [call], if sent then Add32(p, 1) else p,
                    if sent then Add32(o, |call.packet|) else o, if sent then e else Add32(e, 1))
  {
    hide Add32;
    var n, k := Accepted(socket, calls), AcceptedOctets(socket, calls);
    assert (calls + [call])[..|calls|] == calls;
    Add32Sum(0, n, 1);
    Add32Sum(0, k, |call.packet|);
    Add32Sum(0, |calls| - n, 1);
  }

  lemma TalliedStart(socket: Socket)
    ensures Tallied(socket, [], 0, 0, 0)
  {
  }

  /** The growth of a 32 bit counter. */
  function Since(a: u32, b: u32): (n: u32) {
    (b as int - a as int) % 0x1_0000_0000
  }

  lemma TalliesAdd(socket: Socket, calls: seq<SinkCall>, packetsSent: u32, octetsSent: u32, sendErrors: u32)
    requires Tallied(socket, calls, packetsSent, octetsSent, sendErrors)
    ensures Add32(packetsSent, sendErrors) == Add32(0, |calls|)
  {
    hide Add32;
    SumOfParts(Accepted(socket, calls), |calls| - Accepted(socket, calls));
  }

  lemma SumOfParts(a: nat, b: nat)
    ensures Add32(Add32(0, a), Add32(0, b)) == Add32(0, a + b)
  {
    hide Add32;
    Add32Sum(0, a, b);
    AddCut(Add32(0, a), b);
  }

  lemma AddCut(x: u32, b: nat)
    ensures Add32(x, Add32(0, b)) == Add32(x, b)
  {
  }

  lemma Difference(x: u32, n: nat)
    ensures Since(x, Add32(x, n)) == Add32(0, n)
  {
  }

  class JanusRtpSender {
    const ring: Ring.AuRing
    const packetizer: RtpH264
    const auCapacity: nat
    const socket: Socket
    var accessUnits: nat
    var packetsSent: u32
    var octetsSent: u32
    var sendErrors: u32
    /** How often sendto has been called: the index of the next outcome. */
    var attempts: nat
    /** What the sender stands for, the packets the socket has been given, and the packet counter
        the packetizer started with. */
    ghost var state: Sender
    ghost var given: seq<SinkCall>
    ghost const start: u32

    /** The counters tell what became of the packets given to the socket. */
    ghost predicate Counted()
      reads this`packetsSent, this`octetsSent, this`sendErrors, this`attempts, this`given
    {
      attempts == |given| && Tallied(socket, given, packetsSent, octetsSent, sendErrors)
    }

    /** The packetizer has counted the packets handed out. */
    ghost predicate Metered()
      reads this`state
    {
      state.p.packets == Add32(start, |state.calls|)
    }

    ghost predicate Valid()
      reads this, ring, ring.backing, ring.meta, packetizer
    {
      && ring.Valid() && state.h.queue == ring.View() && state.p == packetizer.View()
      && given == state.calls && Counted() && Metered()
    }

    constructor (r: Ring.AuRing, p: RtpH264, capacity: nat, sends: Socket, ghost h: Ring.History)
      requires r.Valid() && h.queue == r.View()
      ensures Valid() && ring == r && packetizer == p && auCapacity == capacity && socket == sends
      ensures state == Sender(h, p.View(), []) && start == p.packets && accessUnits == 0
    {
      ring, packetizer, auCapacity, socket := r, p, capacity, sends;
      accessUnits, packetsSent, octetsSent, sendErrors := 0, 0, 0, 0;
      attempts := 0;
      state, given, start := Sender(h, p.View(), []), [], p.packets;
      TalliedStart(sends);
    }

    /** send_sink: one packet to the socket. */
    method SendSink(call: SinkCall)
      requires Counted()
      modifies this`packetsSent, this`octetsSent, this`sendErrors, this`attempts, this`given
      ensures Counted() && given == old(given) + [call]
    {
      hide Tallied;
      TalliedStep(socket, given, call, packetsSent, octetsSent, sendErrors);
      given := given + [call];
      var sent := socket(attempts);
      attempts := attempts + 1;
      if !sent {
        sendErrors := (sendErrors as int + 1) % 0x1_0000_0000;
        return;
      }
      packetsSent := (packetsSent as int + 1) % 0x1_0000_0000;
      octetsSent := (octetsSent as int + |call.packet|) % 0x1_0000_0000;
    }

    /** The sink called for every packet of an access unit. */
    method SendAll(calls: seq<SinkCall>)
      requires Counted()
      modifies this`packetsSent, this`octetsSent, this`sendErrors, this`attempts, this`given
      ensures Counted() && given == old(given) + calls
    {
      hide Counted;
      for k := 0 to |calls|
        invariant Counted() && given == old(given) + calls[..k]
      {
        SendSink(calls[k]);
        assert calls[..k + 1] == calls[..k] + [calls[k]];
      }
      assert calls[..|calls|] == calls;
    }

    /** One round of the drain loop; false when there was nothing to send. */
    method ForwardOne() returns (more: bool)
      requires Valid()
      modifies this, ring, packetizer
      ensures Valid()
      ensures var r := Ring.Pop(old(state).h.queue, auCapacity).1;
              && (more <==> r.Got?)
              && state == PopOne(old(state), auCapacity)
              && accessUnits == old(accessUnits) + (if more then 1 else 0)
    {
      hide Tallied, Step, Add32;
      var data, meta;
      more, data, meta := ring.PopAu(auCapacity);
      state := state.(h := Ring.Apply(state.h, Ring.PopOp(auCapacity)));
      if more {
        accessUnits := accessUnits + 1;
        StepFraming(packetizer.View(), data, meta.ptsUs);
        Add32Sum(start, |state.calls|, |Step(packetizer.View(), data, meta.ptsUs).1|);
        var emitted, calls := packetizer.Packetize(data, meta.ptsUs);
        state := state.(p := packetizer.View(), calls := state.calls + calls);
        SendAll(calls);
      }
    }

    /** The drain loop of sender_thread. Whatever the socket does, packets sent and packets failed
        are together those the packetizer has counted since the sender was made. */
    method DrainRing()
      requires Valid()
      modifies this, ring, packetizer
      ensures Valid() && state == Drain(old(state), auCapacity)
      ensures accessUnits == old(accessUnits) + |state.h.delivered| - |old(state).h.delivered|
      ensures Add32(packetsSent, sendErrors) == Since(start, packetizer.packets)
    {
      hide Step, Valid;
      var more := true;
      while more
        invariant Valid()
        invariant if more then Drain(state, auCapacity) == Drain(old(state), auCapacity)
                  else state == Drain(old(state), auCapacity)
        invariant accessUnits == old(accessUnits) + |state.h.delivered| - |old(state).h.delivered|
        decreases more, |state.h.queue.items|
      {
        more := ForwardOne();
      }
      Balance();
    }

    lemma Balance()
      requires Valid()
      ensures Add32(packetsSent, sendErrors) == Since(start, packetizer.packets)
    {
      hide Tallied;
      TalliesAdd(socket, given, packetsSent, octetsSent, sendErrors);
      Difference(start, |given|);
    }
  }

  // -------------------------------------------------------------------------
  // Feedback
  // -------------------------------------------------------------------------

  predicate AsksKeyframe(datagram: seq<byte>) {
    var fb := Rtcp.Parse(Rtcp.NOTHING, datagram);
    fb.pli > 0 || fb.fir > 0
  }

  /** A PLI and a FIR ask for a keyframe; a BYE, a receiver report or a NACK does not. */
  lemma AskingDatagrams(sender: u32, media: u32, entries: seq<(u32, byte)>, sources: seq<u32>, reason: seq<byte>,
                        blocks: seq<Rtcp.Block>, pairs: seq<Rtcp.Pair>)
    requires |entries| <= 32000 && |sources| < 32 && |reason| % 4 == 0 && |reason| <= 256
    requires |blocks| < 32 && Rtcp.AllBlocks(blocks) && |pairs| <= 65533
    ensures AsksKeyframe(Rtcp.EncodePli(sender, media)) && AsksKeyframe(Rtcp.EncodeFir(sender, entries))
    ensures !AsksKeyframe(Rtcp.EncodeBye(sources, reason)) && !AsksKeyframe(Rtcp.EncodeRr(sender, blocks))
    ensures !AsksKeyframe(Rtcp.EncodeNack(sender, media, pairs))
  {
    hide Rtcp.Parse, Rtcp.EncodePli, Rtcp.EncodeFir, Rtcp.EncodeBye, Rtcp.EncodeNack, Rtcp.Expand;
    Rtcp.KeyframeRequestsParse(sender, media, entries);
    Rtcp.ByeParses(sources, reason);
    Rtcp.ReceiverReportParses(sender, blocks);
    Rtcp.NackInverse(sender, media, pairs);
  }

  /** handle_rtcp: the waiting datagrams are parsed one by one; the shared flag is raised exactly if
      one of them carries a PLI or a FIR, and their numbers are counted. */
  method HandleRtcp(datagrams: seq<seq<byte>>) returns (raised: bool, pliReceived: nat, firReceived: nat)
    ensures raised <==> exists i :: 0 <= i < |datagrams| && AsksKeyframe(datagrams[i])
    ensures pliReceived > 0 || firReceived > 0 <==> raised
  {
    raised, pliReceived, firReceived := false, 0, 0;
    for k := 0 to |datagrams|
      invariant raised <==> exists i :: 0 <= i < k && AsksKeyframe(datagrams[i])
      invariant pliReceived > 0 || firReceived > 0 <==> raised
    {
      hide Rtcp.Parse;
      var feedback := new Rtcp.RtcpFeedback();
      feedback.ParseDatagram(datagrams[k]);
      if feedback.pli > 0 || feedback.fir > 0 {
        pliReceived := pliReceived + feedback.pli;
        firReceived := firReceived + feedback.fir;
        raised := true;
      }
    }
  }

  // -------------------------------------------------------------------------
  // End to end
  // -------------------------------------------------------------------------

  /** The sender thread in the middle of its work: how many of its packets the socket has been given.
      The unit at hand is packetized as a whole in `s`; its later packets may still be to come. */
  datatype Thread = Thread(s: Sender, given: nat)

  /** The ring lock covers one push or one pop, and nothing covers the sending of a packet. */
  datatype Event = PushAu(data: seq<byte>, ptsUs: u64, isIdr: bool) | PopAu | SendPacket

  /** One step of the encoder or of the sender, which pops when it has sent everything. A step out
      of turn does nothing. */
  function Happens(t: Thread, capacity: nat, e: Event): (r: Thread) {
    match e
    case PushAu(data, ptsUs, isIdr) => t.(s := t.s.(h := Ring.Apply(t.s.h, Ring.PushOp(data, ptsUs, isIdr))))
    case PopAu => if t.given < |t.s.calls| then t else t.(s := PopOne(t.s, capacity))
    case SendPacket => if t.given < |t.s.calls| then t.(given := t.given + 1) else t
  }

  /** Any interleaving of pushes, pops and packets sent. */
  function Happen(t: Thread, capacity: nat, events: seq<Event>): (r: Thread)
    decreases |events|
  {
    if events == [] then t else Happen(Happens(t, capacity, events[0]), capacity, events[1..])
  }

  function Inputs(aus: seq<Ring.Au>): (r: seq<Input>)
    ensures |r| == |aus|
  {
    seq(|aus|, i requires 0 <= i < |aus| => Input(aus[i].data, aus[i].ptsUs))
  }

  /** The packets sent are those of the delivered access units, in order. */
  ghost predicate Faithful(s: Sender, p0: PState) {
    && Ring.Accounted(s.h)
    && (s.p, s.calls) == Run(p0, Inputs(s.h.delivered))
  }

  lemma ForwardFaithful(s: Sender, p0: PState, capacity: nat)
    requires Faithful(s, p0) && Ring.Pop(s.h.queue, capacity).1.Got?
    ensures Faithful(Forward(s, capacity, Ring.Pop(s.h.queue, capacity).1.au), p0)
  {
    var au := Ring.Pop(s.h.queue, capacity).1.au;
    Ring.PopAccounted(s.h, capacity);
    hide Step, Run, Ring.Accounted;
    RunAppend(p0, Inputs(s.h.delivered), Input(au.data, au.ptsUs));
    assert Inputs(s.h.delivered + [au]) == Inputs(s.h.delivered) + [Input(au.data, au.ptsUs)];
  }

  lemma PopFaithful(s: Sender, p0: PState, capacity: nat)
    requires Faithful(s, p0)
    ensures var t := PopOne(s, capacity);
            && Faithful(t, p0) && s.calls <= t.calls && t.h.accepted == s.h.accepted
            && t.h.queue.slotCapacity == s.h.queue.slotCapacity
            && (capacity >= s.h.queue.slotCapacity ==> t.h.discarded == s.h.discarded)
  {
    hide Step, Run;
    match Ring.Pop(s.h.queue, capacity).1
    case Got(au) => ForwardFaithful(s, p0, capacity);
    case _ => Ring.PopAccounted(s.h, capacity);
  }

  /** The thread has sent some of the packets of the units it has popped, and all but those of the last. */
  ghost predicate Upright(t: Thread, p0: PState) {
    && Faithful(t.s, p0) && t.given <= |t.s.calls|
    && (t.s.h.delivered != [] ==>
          |Run(p0, Inputs(t.s.h.delivered[..|t.s.h.delivered| - 1])).1| <= t.given)
  }

  lemma HappensUpright(t: Thread, p0: PState, capacity: nat, e: Event)
    requires Upright(t, p0)
    ensures var r := Happens(t, capacity, e);
            && Upright(r, p0)
            && r.s.h.queue.slotCapacity == t.s.h.queue.slotCapacity
            && (capacity >= t.s.h.queue.slotCapacity ==> r.s.h.discarded == t.s.h.discarded)
  {
    hide Step, Run;
    match e
    case PushAu(data, ptsUs, isIdr) => Ring.PushAccounted(t.s.h, data, ptsUs, isIdr);
    case PopAu =>
      PopFaithful(t.s, p0, capacity);
      var before, after := t.s.h.delivered, PopOne(t.s, capacity).h.delivered;
      assert after != before ==> after[..|after| - 1] == before;
    case SendPacket =>
  }

  lemma {:induction false} HappenFaithful(t: Thread, p0: PState, capacity: nat, events: seq<Event>)
    requires Upright(t, p0)
    ensures Upright(Happen(t, capacity, events), p0)
    ensures capacity >= t.s.h.queue.slotCapacity ==>
              Happen(t, capacity, events).s.h.discarded == t.s.h.discarded
    decreases |events|
  {
    hide Upright, Happens;
    if events != [] {
      HappensUpright(t, p0, capacity, events[0]);
      HappenFaithful(Happens(t, capacity, events[0]), p0, capacity, events[1..]);
    }
  }

  /** In any interleaving, and whatever the socket accepts: packets sent, failed, and still in hand are
      together the packets of the packetizer's counter, modulo 2^32. */
  lemma CountersAgree(t0: Thread, p0: PState, capacity: nat, events: seq<Event>, socket: Socket,
                      packetsSent: u32, octetsSent: u32, sendErrors: u32)
    requires Upright(t0, p0)
    requires var t := Happen(t0, capacity, events);
             t.given <= |t.s.calls| && Tallied(socket, t.s.calls[..t.given], packetsSent, octetsSent, sendErrors)
    ensures var t := Happen(t0, capacity, events);
            Add32(Add32(packetsSent, sendErrors), |t.s.calls| - t.given) == Since(p0.packets, t.s.p.packets)
  {
    hide Happen, Tallied, Run, Ring.Accounted, WellFormedCall, Add32, Since;
    HappenFaithful(t0, p0, capacity, events);
    var t := Happen(t0, capacity, events);
    RunFraming(p0, Inputs(t.s.h.delivered));
    TalliesAdd(socket, t.s.calls[..t.given], packetsSent, octetsSent, sendErrors);
    Add32Sum(0, t.given, |t.s.calls| - t.given);
    Difference(p0.packets, |t.s.calls|);
  }

  function Start(slotCapacity: nat, slots: nat, p0: PState): (t: Thread) {
    Thread(Sender(Ring.NewHistory(slotCapacity, slots), p0, []), 0)
  }

  /** The NAL units of each access unit. */
  function UnitsOf(aus: seq<Ring.Au>): (r: seq<seq<Nal>>) {
    NalLists(Inputs(aus))
  }

  /** A receiver never takes back a finished access unit. */
  lemma {:induction false} DoneGrows(rx: Rx, calls: seq<SinkCall>)
    ensures rx.done <= ReceiveAll(rx, calls).done
    decreases |calls|
  {
    if calls != [] {
      DoneGrows(Receive(rx, calls[0].packet), calls[1..]);
    }
  }

  /** The packets of some access units are received as their NAL units. */
  lemma UnitsReceived(p0: PState, aus: seq<Ring.Au>)
    requires forall au :: au in aus ==> CleanAu(au.data)
    ensures ReceiveAll(START, Run(p0, Inputs(aus)).1) == Rx(UnitsOf(aus), [], None)
  {
    hide Run, ReceiveAll, CleanAu, NalLists;
    var inputs := Inputs(aus);
    forall i | 0 <= i < |inputs|
      ensures CleanAu(inputs[i].au)
    {
      assert aus[i] in aus;
    }
    RunRoundTrip([], p0, inputs);
    assert [] + NalLists(inputs) == NalLists(inputs);
  }

  /** What the socket has been given of the packets of clean units. */
  lemma WireReceived(t: Thread, p0: PState)
    requires Upright(t, p0) && forall au :: au in t.s.h.delivered ==> CleanAu(au.data)
    ensures ReceivedSoFar(t)
  {
    hide Run, ReceiveAll, CleanAu, Ring.Accounted, UnitsOf;
    var aus := t.s.h.delivered;
    var wire, rest := t.s.calls[..t.given], t.s.calls[t.given..];
    UnitsReceived(p0, aus);
    assert t.s.calls == wire + rest;
    assert rest == [] ==> wire == t.s.calls;
    ReceiveConcat(START, wire, rest);
    if aus != [] {
      var n := |aus| - 1;
      var first := Run(p0, Inputs(aus[..n])).1;
      RunAppend(p0, Inputs(aus[..n]), Input(aus[n].data, aus[n].ptsUs));
      assert Inputs(aus) == Inputs(aus[..n]) + [Input(aus[n].data, aus[n].ptsUs)];
      assert wire == first + wire[|first|..];
      UnitsReceived(p0, aus[..n]);
      ReceiveConcat(START, first, wire[|first|..]);
      DoneGrows(ReceiveAll(START, first), wire[|first|..]);
    }
  }

  /** A receiver has all units popped before the one at hand, gets that one from the packets still to
      be sent, and nothing but these units. */
  ghost predicate ReceivedSoFar(t: Thread) {
    t.given <= |t.s.calls| &&
    var aus, rx := t.s.h.delivered, ReceiveAll(START, t.s.calls[..t.given]);
    && ReceiveAll(rx, t.s.calls[t.given..]) == Rx(UnitsOf(aus), [], None)
    && (t.given == |t.s.calls| ==> rx == Rx(UnitsOf(aus), [], None))
    && (aus != [] ==> UnitsOf(aus[..|aus| - 1]) <= rx.done)
  }

  /** End to end: whatever the interleaving of pushes, pops and packets sent, a receiver of the
      sender's packets reassembles exactly the NAL units of the access units delivered; they come out
      in the order pushed, unaltered, and the ones missing are those counted as dropped or still
      queued. */
  lemma EndToEnd(slotCapacity: nat, slots: nat, p0: PState, capacity: nat, events: seq<Event>)
    requires slotCapacity > 0 && slots > 0 && capacity >= slotCapacity
    requires forall e :: e in events && e.PushAu? ==> CleanAu(e.data)
    ensures var t := Happen(Start(slotCapacity, slots, p0), capacity, events);
            var h := t.s.h;
            && ReceivedSoFar(t) && Ring.InOrder(h)
            && |h.accepted| == |h.delivered| + h.queue.dropped + |h.queue.items|
  {
    hide Run, CleanAu, ReceivedSoFar, Happens;
    var t0 := Start(slotCapacity, slots, p0);
    var t := Happen(t0, capacity, events);
    RunNothing(p0);
    assert Inputs([]) == [];
    HappenFaithful(t0, p0, capacity, events);
    AcceptedClean(t0, capacity, events);
    forall au | au in t.s.h.delivered
      ensures CleanAu(au.data)
    {
      var i :| 0 <= i < |t.s.h.delivered| && t.s.h.delivered[i] == au;
      assert t.s.h.delivered[i] in t.s.h.accepted;
    }
    WireReceived(t, p0);
  }

  /** The media clock end to end: every packet of the i-th delivered unit carries the ticks from the first
      one's presentation time to its own, from a sender that has sent nothing before. */
  lemma WireTimestamps(t: Thread, p0: PState, i: nat, k: nat)
    requires Upright(t, p0) && p0.base == None && i < |t.s.h.delivered|
    requires forall au :: au in t.s.h.delivered ==> au.data != []
    requires Emitted(p0, Inputs(t.s.h.delivered), i) <= k < Emitted(p0, Inputs(t.s.h.delivered), i + 1)
    ensures k < |t.s.calls| && |t.s.calls[k].packet| > 12
    ensures var first, pts := t.s.h.delivered[0].ptsUs as int, t.s.h.delivered[i].ptsUs as int;
            (pts - first) * 90000 < 0x1_0000_0000_0000_0000 ==>
              ReadBe32(t.s.calls[k].packet, 4) ==
              if pts < first then 0 else (pts - first) * 90000 / 1000000 % 0x1_0000_0000
  {
    hide Run, Emitted, Ring.Accounted;
    var inputs := Inputs(t.s.h.delivered);
    assert t.s.h.delivered[0] in t.s.h.delivered;
    OriginStays(inputs, 1);
    assert inputs[..1][..0] == [] && Origin([]) == None;
    RunTimestamps(p0, inputs, i, k);
  }

  lemma RunNothing(p0: PState)
    ensures Run(p0, []) == (p0, [])
  {
  }

  /** Only pushed access units are ever accepted. */
  lemma {:induction false} AcceptedClean(t: Thread, capacity: nat, events: seq<Event>)
    requires forall e :: e in events && e.PushAu? ==> CleanAu(e.data)
    requires forall au :: au in t.s.h.accepted ==> CleanAu(au.data)
    ensures forall au :: au in Happen(t, capacity, events).s.h.accepted ==> CleanAu(au.data)
    decreases |events|
  {
    hide CleanAu, Step;
    if events != [] {
      assert events[0] in events;
      AcceptedClean(Happens(t, capacity, events[0]), capacity, events[1..]);
    }
  }

  // -------------------------------------------------------------------------
  // Whole drains
  // -------------------------------------------------------------------------

  lemma {:induction false} HappenConcat(t: Thread, capacity: nat, a: seq<Event>, b: seq<Event>)
    ensures Happen(t, capacity, a + b) == Happen(Happen(t, capacity, a), capacity, b)
    decreases |a|
  {
    hide Happens;
    if a == [] {
      assert a + b == b;
    } else {
      assert (a + b)[0] == a[0] && (a + b)[1..] == a[1..] + b;
      HappenConcat(Happens(t, capacity, a[0]), capacity, a[1..], b);
    }
  }

  predicate NoPush(events: seq<Event>) {
    forall e :: e in events ==> !e.PushAu?
  }

  lemma {:induction false} SendRest(t: Thread, capacity: nat) returns (events: seq<Event>)
    requires t.given <= |t.s.calls|
    ensures NoPush(events) && Happen(t, capacity, events) == t.(given := |t.s.calls|)
    decreases |t.s.calls| - t.given
  {
    if t.given == |t.s.calls| {
      events := [];
    } else {
      var rest := SendRest(t.(given := t.given + 1), capacity);
      events := [SendPacket] + rest;
      assert events[1..] == rest;
    }
  }

  /** The drain loop left alone is one of the interleavings. */
  lemma {:induction false} DrainHappens(s: Sender, capacity: nat) returns (events: seq<Event>)
    ensures NoPush(events)
    ensures var d := Drain(s, capacity);
            Happen(Thread(s, |s.calls|), capacity, events) == Thread(d, |d.calls|)
    decreases |s.h.queue.items|
  {
    hide Step;
    var t, u := Thread(s, |s.calls|), Thread(PopOne(s, capacity), |s.calls|);
    var sends := SendRest(u, capacity);
    assert ([PopAu] + sends)[1..] == sends;
    events := [PopAu] + sends;
    if Ring.Pop(s.h.queue, capacity).1.Got? {
      var rest := DrainHappens(u.s, capacity);
      HappenConcat(t, capacity, events, rest);
      events := events + rest;
    }
  }

  /** And it leaves the ring empty when every unit fits. */
  lemma {:induction false} DrainEmpties(s: Sender, capacity: nat)
    requires capacity >= s.h.queue.slotCapacity && Ring.WellNumbered(s.h.queue)
    ensures Drain(s, capacity).h.queue.items == [] && Drain(s, capacity).h.discarded == s.h.discarded
    ensures Drain(s, capacity).h.delivered == s.h.delivered + s.h.queue.items
    decreases |s.h.queue.items|
  {
    hide Step;
    if s.h.queue.items != [] {
      DrainEmpties(PopOne(s, capacity), capacity);
    }
  }
}
