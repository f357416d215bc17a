/**
 Whole runs of the packetizer: framing, numbering and counters of everything it sends,
 the marker bit, the media clock, and the stream a receiver recovers.
 */
module RtpStream {
  import opened Bytes
  import opened AnnexB
  import opened Packetizer
  import opened Depacketizer

  // -------------------------------------------------------------------------
  // Fragments of one NAL unit
  // -------------------------------------------------------------------------

  /** How many fragments are needed from an offset on. */
  function FragmentCount(length: nat): (n: nat) {
    (length + FU_CHUNK - 1) / FU_CHUNK
  }

  predicate OpensFu(payload: seq<byte>) {
    |payload| >= 2 && payload[1] as int / 128 == 1
  }

  predicate ClosesFu(payload: seq<byte>) {
    |payload| >= 2 && payload[1] as int / 64 % 2 == 1
  }

  /** Every fragment is full except the last; S marks the first only, E the last only. */
  lemma {:induction false} FragmentShape(nal: Nal, offset: nat, more: bool)
    requires 1 <= offset <= |nal|
    ensures var r := FuChunks(nal, offset, more);
            && |r| == FragmentCount(|nal| - offset)
            && (forall i :: 0 <= i < |r| ==>
                  && 3 <= |r[i].payload| <= PAYLOAD_BUDGET
                  && (OpensFu(r[i].payload) <==> offset == 1 && i == 0)
                  && (ClosesFu(r[i].payload) <==> i == |r| - 1)
                  && (r[i].marker <==> i == |r| - 1 && !more))
    decreases |nal| - offset
  {
    hide FuPayload;
    if offset < |nal| {
      var take := FuTake(nal, offset);
      var next := offset + take;
      FragmentShape(nal, next, more);
      FuBits(nal, offset, take);
      var rest := FuChunks(nal, next, more);
      var r := FuChunks(nal, offset, more);
      CountStep(|nal| - offset);
      assert |r| == 1 + |rest|;
      forall i | 0 <= i < |r|
        ensures
          && 3 <= |r[i].payload| <= PAYLOAD_BUDGET
          && (OpensFu(r[i].payload) <==> offset == 1 && i == 0)
          && (ClosesFu(r[i].payload) <==> i == |r| - 1)
          && (r[i].marker <==> i == |r| - 1 && !more)
      {
        if i > 0 {
          assert r[i] == rest[i - 1];
        }
      }
    }
  }

  lemma CountStep(length: nat)
    requires length > 0
    ensures FragmentCount(length) == 1 + FragmentCount(if length > FU_CHUNK then length - FU_CHUNK else 0)
    ensures length >= PAYLOAD_BUDGET ==> FragmentCount(length) >= 2
  {
  }

  /** A NAL unit too long for one packet goes out in ceil((L-1)/1186) fragments, at least two. */
  lemma FragmentedNal(nal: Nal, more: bool)
    requires |nal| > PAYLOAD_BUDGET
    ensures var r := NalChunks(nal, more);
            && |r| == (|nal| - 1 + 1185) / 1186 && |r| >= 2
            && forall i :: 0 <= i < |r| ==>
                 && (OpensFu(r[i].payload) <==> i == 0)
                 && (ClosesFu(r[i].payload) <==> i == |r| - 1)
                 && !(OpensFu(r[i].payload) && ClosesFu(r[i].payload))
  {
    FragmentShape(nal, 1, more);
    CountStep(|nal| - 1);
  }

  // -------------------------------------------------------------------------
  // One access unit
  // -------------------------------------------------------------------------

  /** Payload sizes: nothing empty, nothing that overflows the packet buffer. */
  ghost predicate Framed(chunks: seq<Chunk>) {
    forall i :: 0 <= i < |chunks| ==> 1 <= |chunks[i].payload| <= PAYLOAD_BUDGET
  }

  lemma {:induction false} AuFramed(nals: seq<Nal>)
    ensures Framed(AuChunks(nals))
  {
    hide FuChunks;
    if nals != [] {
      AuFramed(nals[1..]);
      if nals[0] != [] && |nals[0]| > PAYLOAD_BUDGET {
        FragmentShape(nals[0], 1, HasMore(nals[1..]));
      }
    }
  }

  /** Some packet before the last one carries the marker. */
  ghost predicate EarlyMarker(chunks: seq<Chunk>) {
    exists i :: 0 <= i < |chunks| - 1 && chunks[i].marker
  }

  lemma EarlyMarkerConcat(a: seq<Chunk>, b: seq<Chunk>)
    requires a != [] && b != []
    ensures EarlyMarker(a + b) <==> EarlyMarker(a) || a[|a| - 1].marker || EarlyMarker(b)
  {
    if EarlyMarker(a) {
      var i :| 0 <= i < |a| - 1 && a[i].marker;
      assert (a + b)[i] == a[i];
    }
    if a[|a| - 1].marker {
      assert (a + b)[|a| - 1] == a[|a| - 1];
    }
    if EarlyMarker(b) {
      var i :| 0 <= i < |b| - 1 && b[i].marker;
      assert (a + b)[|a| + i] == b[i];
    }
  }

  /** Only the last packet of a NAL unit can carry the marker. */
  lemma NalMarkers(nal: Nal, more: bool)
    requires nal != []
    ensures var r := NalChunks(nal, more);
            r != [] && r[|r| - 1].marker == !more && !EarlyMarker(r)
  {
    hide FuChunks;
    if |nal| > PAYLOAD_BUDGET {
      FragmentShape(nal, 1, more);
      CountStep(|nal| - 1);
    }
  }

  ghost predicate AllEmpty(nals: seq<Nal>) {
    forall i :: 0 <= i < |nals| ==> nals[i] == []
  }

  lemma {:induction false} ChunksNone(nals: seq<Nal>)
    ensures AuChunks(nals) == [] <==> AllEmpty(nals)
  {
    hide NalChunks;
    if nals != [] {
      ChunksNone(nals[1..]);
      if nals[0] != [] {
        NalMarkers(nals[0], HasMore(nals[1..]));
      } else if AllEmpty(nals[1..]) {
        assert forall i :: 1 <= i < |nals| ==> nals[i] == nals[1..][i - 1];
      } else {
        var i :| 0 <= i < |nals[1..]| && nals[1..][i] != [];
        assert nals[i + 1] != [];
      }
    }
  }

  /** The last packet of an access unit always carries the marker. */
  lemma {:induction false} LastMarked(nals: seq<Nal>)
    requires AuChunks(nals) != []
    ensures AuChunks(nals)[|AuChunks(nals)| - 1].marker
  {
    hide NalChunks;
    if nals[0] == [] {
      LastMarked(nals[1..]);
    } else {
      var more := HasMore(nals[1..]);
      var first, rest := NalChunks(nals[0], more), AuChunks(nals[1..]);
      NalMarkers(nals[0], more);
      assert AuChunks(nals) == first + rest;
      if rest != [] {
        LastMarked(nals[1..]);
        assert (first + rest)[|first + rest| - 1] == rest[|rest| - 1];
      } else {
        ChunksNone(nals[1..]);
      }
    }
  }

  predicate InterruptedAt(nals: seq<Nal>, i: nat) {
    i + 2 < |nals| && nals[i] != [] && nals[i + 1] == [] && exists k :: i + 2 <= k < |nals| && nals[k] != []
  }

  /** An empty NAL unit between two others, which a lookahead of one cannot see past. */
  ghost predicate Interrupted(nals: seq<Nal>) {
    exists i: nat :: InterruptedAt(nals, i)
  }

  lemma InterruptedShift(nals: seq<Nal>, i: nat)
    requires nals != []
    ensures InterruptedAt(nals, i + 1) <==> InterruptedAt(nals[1..], i)
  {
    var rest := nals[1..];
    if InterruptedAt(nals, i + 1) {
      var k :| i + 1 + 2 <= k < |nals| && nals[k] != [];
      assert rest[k - 1] != [];
    }
    if InterruptedAt(rest, i) {
      var k :| i + 2 <= k < |rest| && rest[k] != [];
      assert nals[k + 1] != [];
    }
  }

  lemma InterruptedHere(nals: seq<Nal>)
    requires nals != []
    ensures InterruptedAt(nals, 0) <==> nals[0] != [] && !HasMore(nals[1..]) && !AllEmpty(nals[1..])
  {
    var rest := nals[1..];
    if InterruptedAt(nals, 0) {
      var k :| 0 + 2 <= k < |nals| && nals[k] != [];
      assert rest[k - 1] != [];
    }
    if !AllEmpty(rest) {
      var k :| 0 <= k < |rest| && rest[k] != [];
      assert nals[k + 1] != [];
    }
  }

  lemma InterruptedStep(nals: seq<Nal>)
    requires nals != []
    ensures Interrupted(nals) <==>
            || Interrupted(nals[1..])
            || (nals[0] != [] && !HasMore(nals[1..]) && !AllEmpty(nals[1..]))
  {
    hide InterruptedAt, HasMore, AllEmpty;
    InterruptedHere(nals);
    if Interrupted(nals) {
      var i: nat :| InterruptedAt(nals, i);
      if i > 0 {
        InterruptedShift(nals, i - 1);
      }
    }
    if Interrupted(nals[1..]) {
      var i: nat :| InterruptedAt(nals[1..], i);
      InterruptedShift(nals, i);
    }
  }

  /** The marker sits on exactly the last packet of an access unit, unless an empty NAL unit
      interrupts it; then, and only then, an earlier packet carries one as well. */
  lemma {:induction false} MarkerExact(nals: seq<Nal>)
    ensures EarlyMarker(AuChunks(nals)) <==> Interrupted(nals)
  {
    hide NalChunks;
    if nals != [] {
      MarkerExact(nals[1..]);
      InterruptedStep(nals);
      if nals[0] != [] {
        var more := HasMore(nals[1..]);
        var first, rest := NalChunks(nals[0], more), AuChunks(nals[1..]);
        NalMarkers(nals[0], more);
        ChunksNone(nals[1..]);
        if rest != [] {
          EarlyMarkerConcat(first, rest);
        } else {
          assert first + rest == first;
        }
      }
    }
  }

  /** On the byte stream: for any recoverable list of units, in any mix of start codes, a packet
      before the last carries the marker exactly when an empty unit stands between two others. */
  lemma StreamMarker(units: seq<Unit>)
    requires Recoverable(units)
    ensures EarlyMarker(AuChunks(Nals(Join(units)))) <==> Interrupted(NalsOf(units))
  {
    hide EarlyMarker, Interrupted, AuChunks, Nals, Join, NalsOf, Recoverable;
    ScanJoin(units);
    MarkerExact(NalsOf(units));
  }

  /** It does happen: two start codes in a row between two NAL units are enough. */
  lemma EarlyMarkerOccurs(a: Nal, b: Nal, long: bool)
    requires a != [] && b != [] && !Embeds(a) && !Embeds(b) && a[|a| - 1] != 0
    ensures var d := StartCode(long) + a + (StartCode(long) + (StartCode(long) + b));
            Nals(d) == [a, [], b] && EarlyMarker(AuChunks(Nals(d)))
  {
    hide EarlyMarker, Interrupted, AuChunks, Nals, Join, NalsOf, Embeds, Recoverable;
    var units := [Unit(a, long), Unit([], long), Unit(b, long)];
    ThreeUnits(units);
    ThreeRecoverable(units);
    ThreeInterrupted(a, b);
    ScanJoin(units);
    StreamMarker(units);
  }

  lemma ThreeRecoverable(units: seq<Unit>)
    requires |units| == 3 && units[1].nal == [] && units[0].nal != []
    requires !Embeds(units[0].nal) && !Embeds(units[2].nal) && units[0].nal[|units[0].nal| - 1] != 0
    ensures Recoverable(units)
  {
    assert Embeds([]) == false;
    forall i | 0 <= i < |units|
      ensures Separable(units[i..])
    {
      assert units[i..][0] == units[i];
    }
  }

  lemma ThreeInterrupted(a: Nal, b: Nal)
    requires a != [] && b != []
    ensures Interrupted([a, [], b])
  {
    var nals := [a, [], b];
    assert nals[2] != [];
    assert InterruptedAt(nals, 0);
  }

  lemma ThreeUnits(units: seq<Unit>)
    requires |units| == 3 && units[1].nal == []
    ensures Join(units) == StartCode(units[0].long) + units[0].nal +
                           (StartCode(units[1].long) + (StartCode(units[2].long) + units[2].nal))
    ensures NalsOf(units) == [units[0].nal, [], units[2].nal]
  {
    var two, one := units[1..], units[2..];
    assert two[1..] == one && one[1..] == [];
    assert Join(one) == StartCode(units[2].long) + units[2].nal;
    assert Join(two) == StartCode(units[1].long) + Join(one);
    assert NalsOf(one) == [units[2].nal] && NalsOf(two) == [[], units[2].nal];
  }

  // -------------------------------------------------------------------------
  // Whole runs
  // -------------------------------------------------------------------------

  /** One call of the packetizer. */
  datatype Input = Input(au: seq<byte>, ptsUs: u64)

  /** Every packet of a run, access unit after access unit, and the final state. */
  function Run(p: PState, inputs: seq<Input>): (r: (PState, seq<SinkCall>))
    decreases |inputs|
  {
    if inputs == [] then (p, [])
    else
      var first := Step(p, inputs[0].au, inputs[0].ptsUs);
      var rest := Run(first.0, inputs[1..]);
      (rest.0, first.1 + rest.1)
  }

  function PayloadTotal(calls: seq<SinkCall>): (n: int)
  {
    if calls == [] then 0 else |calls[0].packet| - RTP_HEADER_SIZE + PayloadTotal(calls[1..])
  }

  lemma {:induction false} PayloadTotalConcat(a: seq<SinkCall>, b: seq<SinkCall>)
    ensures PayloadTotal(a + b) == PayloadTotal(a) + PayloadTotal(b)
  {
    if a == [] {
      assert a + b == b;
    } else {
      assert (a + b)[1..] == a[1..] + b;
      PayloadTotalConcat(a[1..], b);
    }
  }

  /** A well-formed packet: 13 to 1200 octets, version 2, its number, marker and source in place. */
  predicate WellFormedCall(c: SinkCall, ssrc: u32, payloadType: u32) {
    && 12 < |c.packet| <= 1200
    && c.packet[0] == 0x80
    && c.packet[1] == (if c.marker then 128 else 0) + payloadType as int % 128
    && ReadBe16(c.packet, 2) == c.sequence
    && ReadBe32(c.packet, 8) == ssrc
  }

  lemma StampWellFormed(h: Header, sequence: u16, c: Chunk)
    requires 1 <= |c.payload| <= PAYLOAD_BUDGET
    ensures WellFormedCall(StampOne(h, sequence, c), h.ssrc, h.payloadType)
    ensures ReadBe32(StampOne(h, sequence, c).packet, 4) == h.timestamp
  {
    var head := HeaderBytes(h, c.marker, sequence);
    var packet := head + c.payload;
    assert forall i :: 0 <= i < RTP_HEADER_SIZE ==> packet[i] == head[i];
    assert head[2] == Be16(sequence)[0] && head[3] == Be16(sequence)[1];
    assert head[8] == Be32(h.ssrc)[0] && head[9] == Be32(h.ssrc)[1];
    assert head[10] == Be32(h.ssrc)[2] && head[11] == Be32(h.ssrc)[3];
    assert head[4] == Be32(h.timestamp)[0] && head[5] == Be32(h.timestamp)[1];
    assert head[6] == Be32(h.timestamp)[2] && head[7] == Be32(h.timestamp)[3];
    assert ReadBe32(packet, 4) == ReadBe32(Be32(h.timestamp), 0) by { hide Be32; }
    assert ReadBe32(packet, 8) == ReadBe32(Be32(h.ssrc), 0) by { hide Be32; }
    assert ReadBe16(packet, 2) == ReadBe16(Be16(sequence), 0) by { hide Be16; }
  }

  lemma {:induction false} StampTotal(h: Header, sequence: u16, chunks: seq<Chunk>)
    ensures PayloadTotal(Stamp(h, sequence, chunks)) == Octets(chunks)
    decreases |chunks|
  {
    if chunks != [] {
      var c, rest := chunks[0], chunks[1..];
      assert chunks == [c] + rest;
      StampConcat(h, sequence, [c], rest);
      StampSingle(h, sequence, c);
      var one := StampOne(h, Advance(sequence, 1), c);
      var tail := Stamp(h, Advance(sequence, 1), rest);
      assert ([one] + tail)[1..] == tail;
      StampTotal(h, Advance(sequence, 1), rest);
    }
  }

  /** What one call of the packetizer promises about the packets it hands out. */
  lemma StepFraming(p: PState, au: seq<byte>, ptsUs: u64)
    ensures var (q, calls) := Step(p, au, ptsUs);
            && (forall i :: 0 <= i < |calls| ==>
                  && WellFormedCall(calls[i], p.ssrc, p.payloadType)
                  && calls[i].sequence == Advance(p.sequence, i + 1)
                  && ReadBe32(calls[i].packet, 4) == q.lastTimestamp)
            && q.ssrc == p.ssrc && q.payloadType == p.payloadType
            && q.sequence == Advance(p.sequence, |calls|)
            && q.packets == Add32(p.packets, |calls|)
            && PayloadTotal(calls) >= 0 && q.octets == Add32(p.octets, PayloadTotal(calls))
  {
    if au != [] {
      hide AuChunks, Nals, StampOne, Add32, Clock, Advance;
      var chunks := AuChunks(Nals(au));
      var ts := Clock(BaseAfter(p, ptsUs), ptsUs);
      var h := Header(p.ssrc, p.payloadType, ts);
      AuFramed(Nals(au));
      StampTotal(h, p.sequence, chunks);
      forall i | 0 <= i < |chunks|
        ensures WellFormedCall(Stamp(h, p.sequence, chunks)[i], p.ssrc, p.payloadType)
        ensures Stamp(h, p.sequence, chunks)[i].sequence == Advance(p.sequence, i + 1)
        ensures ReadBe32(Stamp(h, p.sequence, chunks)[i].packet, 4) == ts
      {
        StampWellFormed(h, Advance(p.sequence, i + 1), chunks[i]);
        StampSequence(h, Advance(p.sequence, i + 1), chunks[i]);
      }
    }
  }

  lemma StampSequence(h: Header, sequence: u16, c: Chunk)
    ensures StampOne(h, sequence, c).sequence == sequence
  {
  }

  /** Over any run, every packet is well formed, numbers are consecutive modulo 2^16 across
      access units, and the counters are the totals sent modulo 2^32. */
  lemma {:induction false} RunFraming(p: PState, inputs: seq<Input>)
    ensures var (q, calls) := Run(p, inputs);
            && (forall i :: 0 <= i < |calls| ==>
                  WellFormedCall(calls[i], p.ssrc, p.payloadType) && calls[i].sequence == Advance(p.sequence, i + 1))
            && q.sequence == Advance(p.sequence, |calls|)
            && q.packets == Add32(p.packets, |calls|)
            && PayloadTotal(calls) >= 0 && q.octets == Add32(p.octets, PayloadTotal(calls))
    decreases |inputs|
  {
    hide Step, WellFormedCall;
    if inputs == [] {
      assert Advance(p.sequence, 0) == p.sequence;
    } else {
      hide Advance, Add32;
      var (p1, first) := Step(p, inputs[0].au, inputs[0].ptsUs);
      var (q, rest) := Run(p1, inputs[1..]);
      var calls := first + rest;
      StepFraming(p, inputs[0].au, inputs[0].ptsUs);
      RunFraming(p1, inputs[1..]);
      PayloadTotalConcat(first, rest);
      AdvanceSum(p.sequence, |first|, |rest|);
      Add32Sum(p.packets, |first|, |rest|);
      Add32Sum(p.octets, PayloadTotal(first), PayloadTotal(rest));
      forall i | 0 <= i < |calls|
        ensures WellFormedCall(calls[i], p.ssrc, p.payloadType) && calls[i].sequence == Advance(p.sequence, i + 1)
      {
        if i >= |first| {
          assert calls[i] == rest[i - |first|];
          AdvanceSum(p.sequence, |first|, i - |first| + 1);
        }
      }
    }
  }

  /** Running the packetizer one access unit further. */
  lemma {:induction false} RunAppend(p: PState, inputs: seq<Input>, x: Input)
    ensures var (q, calls) := Run(p, inputs);
            var (q', more) := Step(q, x.au, x.ptsUs);
            Run(p, inputs + [x]) == (q', calls + more)
    decreases |inputs|
  {
    hide Step;
    if inputs == [] {
      assert [] + [x] == [x] && [x][1..] == [];
      var first := Step(p, x.au, x.ptsUs).1;
      assert first + [] == first && [] + first == first;
    } else {
      assert (inputs + [x])[1..] == inputs[1..] + [x];
      var (p1, first) := Step(p, inputs[0].au, inputs[0].ptsUs);
      var (q, rest) := Run(p1, inputs[1..]);
      RunAppend(p1, inputs[1..], x);
      var more := Step(q, x.au, x.ptsUs).1;
      assert first + (rest + more) == (first + rest) + more;
    }
  }

  function NalLists(inputs: seq<Input>): (r: seq<seq<Nal>>)
  {
    if inputs == [] then [] else [Nals(inputs[0].au)] + NalLists(inputs[1..])
  }

  /** Over any run of clean access units the receiver recovers their NAL units, in order. */
  lemma {:induction false} RunRoundTrip(done: seq<seq<Nal>>, p: PState, inputs: seq<Input>)
    requires forall i :: 0 <= i < |inputs| ==> CleanAu(inputs[i].au)
    ensures ReceiveAll(Rx(done, [], None), Run(p, inputs).1) == Rx(done + NalLists(inputs), [], None)
    decreases |inputs|
  {
    hide Step, Nals, CleanAu;
    if inputs == [] {
      assert done + [] == done;
    } else {
      var au := inputs[0].au;
      var (p1, first) := Step(p, au, inputs[0].ptsUs);
      StepRoundTrip(done, p, au, inputs[0].ptsUs);
      RunRoundTrip(done + [Nals(au)], p1, inputs[1..]);
      ReceiveConcat(Rx(done, [], None), first, Run(p1, inputs[1..]).1);
      assert done + ([Nals(au)] + NalLists(inputs[1..])) == done + [Nals(au)] + NalLists(inputs[1..]);
    }
  }

  // -------------------------------------------------------------------------
  // The media clock
  // -------------------------------------------------------------------------

  /** 90 kHz ticks in an exact number of microseconds, rounded down. */
  function Ticks(deltaUs: nat): (n: nat) {
    deltaUs * 90000 / 1000000
  }

  /** Until the 64 bit product overflows, the timestamp is the exact tick count modulo 2^32:
      never more than one tick behind the true elapsed time, with no error carried over. */
  lemma ClockExact(base: u64, ptsUs: u64)
    requires base <= ptsUs && (ptsUs - base) as int * 90000 < 0x1_0000_0000_0000_0000
    ensures Clock(base, ptsUs) == Ticks(ptsUs - base) % 0x1_0000_0000
    ensures 0 <= (ptsUs - base) as int * 90000 - Ticks(ptsUs - base) * 1000000 < 1000000
  {
  }

  /** Before the 32 bit wrap, later frames never carry earlier timestamps, and the difference
      of two timestamps is within one tick of the true time between the frames. */
  lemma ClockMonotone(base: u64, a: u64, b: u64)
    requires base <= a <= b && Ticks(b - base) < 0x1_0000_0000
    ensures var x, y := Clock(base, a) as int, Clock(base, b) as int;
            && x <= y
            && -1000000 < (b - a) as int * 90000 - (y - x) * 1000000 < 1000000
  {
    hide Clock, Ticks;
    TicksBetween(b - base);
    TicksBetween(a - base);
    ClockExact(base, a);
    ClockExact(base, b);
  }

  /** Ticks are whole: less than one is cut off. */
  lemma TicksBetween(us: nat)
    ensures 0 <= us * 90000 - Ticks(us) * 1000000 < 1000000
  {
  }

  /** A frame stamped before the first one is sent with timestamp zero. */
  lemma ClockBeforeBase(base: u64, ptsUs: u64)
    requires ptsUs <= base
    ensures Clock(base, ptsUs) == 0
  {
  }

  /** The base is the first presentation time ever seen: no later call moves it. */
  lemma {:induction false} RunBase(p: PState, inputs: seq<Input>)
    requires forall i :: 0 <= i < |inputs| ==> inputs[i].au != []
    ensures var q := Run(p, inputs).0;
            q.base == if p.base.Some? || inputs == [] then p.base else Some(inputs[0].ptsUs)
    decreases |inputs|
  {
    hide Nals, AuChunks, Clock, Stamp, Advance, Add32;
    if inputs != [] {
      RunBase(Step(p, inputs[0].au, inputs[0].ptsUs).0, inputs[1..]);
    }
  }

  // -------------------------------------------------------------------------
  // Timestamps on the wire
  // -------------------------------------------------------------------------

  /** The presentation time of the first access unit that is not empty: later times count from it. */
  function Origin(inputs: seq<Input>): (first: Option<u64>)
    decreases |inputs|
  {
    if inputs == [] then None
    else
      var n := |inputs| - 1;
      var before := Origin(inputs[..n]);
      if before.Some? then before else if inputs[n].au == [] then None else Some(inputs[n].ptsUs)
  }

  lemma {:induction false} OriginStays(inputs: seq<Input>, i: nat)
    requires i <= |inputs| && Origin(inputs[..i]).Some?
    ensures Origin(inputs) == Origin(inputs[..i])
    decreases |inputs|
  {
    if i == |inputs| {
      assert inputs[..i] == inputs;
    } else {
      var before := inputs[..|inputs| - 1];
      assert before[..i] == inputs[..i];
      OriginStays(before, i);
    }
  }

  lemma {:induction false} RunOrigin(p: PState, inputs: seq<Input>)
    requires p.base == None
    ensures Run(p, inputs).0.base == Origin(inputs)
    decreases |inputs|
  {
    hide Nals, AuChunks, Clock, Stamp, Advance, Add32;
    if inputs != [] {
      var n := |inputs| - 1;
      RunOrigin(p, inputs[..n]);
      RunAppend(p, inputs[..n], inputs[n]);
      assert inputs == inputs[..n] + [inputs[n]];
    }
  }

  /** One call, from the octets of its packets: the 90 kHz clock from the base on, in 64 and 32 bits. */
  lemma StepTimestamps(p: PState, au: seq<byte>, ptsUs: u64, k: nat)
    requires k < |Step(p, au, ptsUs).1|
    ensures |Step(p, au, ptsUs).1[k].packet| > 12
    ensures var base := if p.base.Some? then p.base.value else ptsUs;
            ReadBe32(Step(p, au, ptsUs).1[k].packet, 4) ==
            if ptsUs < base then 0 else (ptsUs - base) * 90000 % 0x1_0000_0000_0000_0000 / 1000000 % 0x1_0000_0000
  {
    hide Nals, AuChunks, Stamp, Advance, Add32;
    StepFraming(p, au, ptsUs);
  }

  lemma {:induction false} RunConcat(p: PState, a: seq<Input>, b: seq<Input>)
    ensures Run(p, a + b).1 == Run(p, a).1 + Run(Run(p, a).0, b).1
    decreases |a|
  {
    hide Step;
    if a == [] {
      assert a + b == b;
    } else {
      assert (a + b)[1..] == a[1..] + b;
      var (p1, first) := Step(p, a[0].au, a[0].ptsUs);
      RunConcat(p1, a[1..], b);
    }
  }

  /** How many packets the first calls of a run hand out. */
  function Emitted(p: PState, inputs: seq<Input>, i: nat): (n: nat)
    requires i <= |inputs|
  {
    |Run(p, inputs[..i]).1|
  }

  /** The packets of the i-th call are those between two such numbers. */
  lemma EmittedBy(p: PState, inputs: seq<Input>, i: nat)
    requires i < |inputs|
    ensures var m, n := Emitted(p, inputs, i), Emitted(p, inputs, i + 1);
            && m <= n <= |Run(p, inputs).1|
            && Run(p, inputs).1[m..n] == Step(Run(p, inputs[..i]).0, inputs[i].au, inputs[i].ptsUs).1
  {
    hide Step, Run;
    assert inputs[..i + 1] == inputs[..i] + [inputs[i]];
    RunAppend(p, inputs[..i], inputs[i]);
    assert inputs == inputs[..i + 1] + inputs[i + 1..];
    RunConcat(p, inputs[..i + 1], inputs[i + 1..]);
  }

  /** The media clock of a whole stream: every packet of the i-th access unit carries the number of
      90 kHz ticks since the first one, rounded down, modulo 2^32; zero if it is stamped earlier. */
  lemma RunTimestamps(p: PState, inputs: seq<Input>, i: nat, k: nat)
    requires p.base == None && i < |inputs| && Emitted(p, inputs, i) <= k < Emitted(p, inputs, i + 1)
    ensures k < |Run(p, inputs).1| && Origin(inputs).Some?
    ensures var first, pts := Origin(inputs).value as int, inputs[i].ptsUs as int;
            |Run(p, inputs).1[k].packet| > 12 &&
            ((pts - first) * 90000 < 0x1_0000_0000_0000_0000 ==>
               ReadBe32(Run(p, inputs).1[k].packet, 4) ==
               if pts < first then 0 else (pts - first) * 90000 / 1000000 % 0x1_0000_0000)
  {
    hide Step, Run;
    var s, x := Run(p, inputs[..i]).0, inputs[i];
    var m := Emitted(p, inputs, i);
    EmittedBy(p, inputs, i);
    var calls := Step(s, x.au, x.ptsUs).1;
    assert Run(p, inputs).1[m..Emitted(p, inputs, i + 1)][k - m] == Run(p, inputs).1[k];
    StepTimestamps(s, x.au, x.ptsUs, k - m);
    EmptyEmitsNothing(s, x);
    RunOrigin(p, inputs[..i]);
    assert inputs[..i + 1][..i] == inputs[..i];
    OriginStays(inputs, i + 1);
  }

  lemma EmptyEmitsNothing(p: PState, x: Input)
    ensures x.au == [] ==> Step(p, x.au, x.ptsUs).1 == []
  {
  }

  /** The call a packet comes from. */
  lemma {:induction false} Source(p: PState, inputs: seq<Input>, k: nat) returns (i: nat)
    requires k < |Run(p, inputs).1|
    ensures i < |inputs| && Emitted(p, inputs, i) <= k < Emitted(p, inputs, i + 1) && inputs[i].au != []
    decreases |inputs|
  {
    hide Step;
    assert inputs != [];
    var n := |inputs| - 1;
    assert inputs[..n + 1] == inputs;
    if Emitted(p, inputs, n) <= k {
      i := n;
      EmittedBy(p, inputs, n);
      EmptyEmitsNothing(Run(p, inputs[..n]).0, inputs[n]);
    } else {
      i := Source(p, inputs[..n], k);
      assert inputs[..n][..i] == inputs[..i] && inputs[..n][..i + 1] == inputs[..i + 1];
    }
  }

  lemma {:induction false} EmittedGrows(p: PState, inputs: seq<Input>, i: nat, j: nat)
    requires i <= j <= |inputs|
    ensures Emitted(p, inputs, i) <= Emitted(p, inputs, j)
    decreases j
  {
    hide Emitted;
    if i < j {
      EmittedGrows(p, inputs, i, j - 1);
      EmittedBy(p, inputs, j - 1);
    }
  }

  /** If presentation times do not go back, no packet of a stream carries an earlier timestamp than one
      before it, until the 32 bits wrap. */
  lemma RunMonotone(p: PState, inputs: seq<Input>, k: nat, l: nat)
    requires p.base == None && k <= l < |Run(p, inputs).1|
    requires forall i, j :: 0 <= i <= j < |inputs| ==> inputs[i].ptsUs <= inputs[j].ptsUs
    requires forall i :: 0 <= i < |inputs| ==> (inputs[i].ptsUs - inputs[0].ptsUs) * 90000 / 1000000 < 0x1_0000_0000
    ensures var calls := Run(p, inputs).1;
            && |calls[k].packet| > 12 && |calls[l].packet| > 12
            && ReadBe32(calls[k].packet, 4) <= ReadBe32(calls[l].packet, 4)
  {
    hide Run, Emitted, Origin;
    var i := Source(p, inputs, k);
    var j := Source(p, inputs, l);
    if j < i {
      EmittedGrows(p, inputs, j + 1, i);
    }
    RunTimestamps(p, inputs, i, k);
    RunTimestamps(p, inputs, j, l);
    OriginAfter(inputs);
    TicksGrow(Origin(inputs).value, inputs[i].ptsUs, inputs[j].ptsUs, inputs[0].ptsUs);
  }

  lemma {:induction false} OriginAfter(inputs: seq<Input>)
    requires forall i, j :: 0 <= i <= j < |inputs| ==> inputs[i].ptsUs <= inputs[j].ptsUs
    ensures Origin(inputs).Some? ==> inputs != [] && Origin(inputs).value >= inputs[0].ptsUs
    decreases |inputs|
  {
    if inputs != [] {
      OriginAfter(inputs[..|inputs| - 1]);
    }
  }

  lemma TicksGrow(first: u64, a: u64, b: u64, start: u64)
    requires start <= first && start <= a <= b && (b - start) * 90000 / 1000000 < 0x1_0000_0000
    ensures (b - first) * 90000 < 0x1_0000_0000_0000_0000 && (a - first) * 90000 < 0x1_0000_0000_0000_0000
    ensures (if a < first then 0 else (a - first) * 90000 / 1000000 % 0x1_0000_0000) <=
            (if b < first then 0 else (b - first) * 90000 / 1000000 % 0x1_0000_0000)
  {
    if first <= a {
      hide Clock;
      TicksBetween(b - first);
      TicksBetween(a - first);
      TicksBetween(b - start);
    }
  }
}
