/**
 The receiving side of RFC 6184, written independently of the packetizer, and what it
 recovers from the packetizer's output: exactly the NAL units that went in.
 */
module Depacketizer {
  import opened Bytes
  import opened AnnexB
  import opened Packetizer

  /** A NAL unit under reassembly and the sequence number its next fragment must carry. */
  datatype Partial = Partial(nal: Nal, expected: u16)

  /** Finished access units, the NAL units of the current one, a fragmented NAL unit. */
  datatype Rx = Rx(done: seq<seq<Nal>>, current: seq<Nal>, partial: Option<Partial>)

  /** The marker bit ends an access unit (section 5.1 of RFC 6184). */
  function Deliver(rx: Rx, nal: Nal, marker: bool): (r: Rx) {
    if marker then Rx(rx.done + [rx.current + [nal]], [], None)
    else Rx(rx.done, rx.current + [nal], None)
  }

  /** One FU-A payload (section 5.8): S opens, E closes, both together are forbidden. */
  function ReceiveFu(rx: Rx, payload: seq<byte>, marker: bool, sequence: u16): (r: Rx)
    requires |payload| >= 3
  {
    var indicator, fu := payload[0] as int, payload[1] as int;
    var opens, closes := fu / 128 == 1, fu / 64 % 2 == 1;
    var header := indicator / 32 * 32 + fu % 32;
    if opens && closes then rx.(partial := None)
    else if opens then rx.(partial := Some(Partial([header] + payload[2..], Advance(sequence, 1))))
    else if rx.partial.None? || rx.partial.value.expected != sequence then rx.(partial := None)
    else
      var nal := rx.partial.value.nal + payload[2..];
      if closes then Deliver(rx, nal, marker)
      else rx.(partial := Some(Partial(nal, Advance(sequence, 1))))
  }

  function ReceivePayload(rx: Rx, payload: seq<byte>, marker: bool, sequence: u16): (r: Rx)
    requires payload != []
  {
    var kind := payload[0] as int % 32;
    if 1 <= kind <= 23 then Deliver(rx, payload, marker)
    else if kind == FU_A && |payload| >= 3 then ReceiveFu(rx, payload, marker, sequence)
    else rx.(partial := None)
  }

  /** One RTP packet without padding, extension or contributing sources. */
  function Receive(rx: Rx, packet: seq<byte>): (r: Rx) {
    if |packet| <= RTP_HEADER_SIZE || packet[0] != 0x80 then rx
    else ReceivePayload(rx, packet[RTP_HEADER_SIZE..], packet[1] >= 128, ReadBe16(packet, 2))
  }

  function ReceiveAll(rx: Rx, calls: seq<SinkCall>): (r: Rx)
    decreases |calls|
  {
    if calls == [] then rx else ReceiveAll(Receive(rx, calls[0].packet), calls[1..])
  }

  lemma {:induction false} ReceiveConcat(rx: Rx, a: seq<SinkCall>, b: seq<SinkCall>)
    ensures ReceiveAll(rx, a + b) == ReceiveAll(ReceiveAll(rx, a), b)
    decreases |a|
  {
    hide Receive;
    if a == [] {
      assert a + b == b;
    } else {
      assert (a + b)[0] == a[0] && (a + b)[1..] == a[1..] + b;
      ReceiveConcat(Receive(rx, a[0].packet), a[1..], b);
    }
  }

  /** The receiver reads back the payload, the marker and the number that were stamped. */
  lemma ReceiveStamped(rx: Rx, h: Header, sequence: u16, c: Chunk)
    requires c.payload != []
    ensures Receive(rx, StampOne(h, sequence, c).packet) == ReceivePayload(rx, c.payload, c.marker, sequence)
  {
    hide ReceivePayload;
    var head := HeaderBytes(h, c.marker, sequence);
    var packet := head + c.payload;
    assert packet[RTP_HEADER_SIZE..] == c.payload;
    assert packet[0] == head[0] && packet[1] == head[1] && packet[2] == head[2] && packet[3] == head[3];
  }

  lemma ReceiveFirst(rx: Rx, h: Header, sequence: u16, c: Chunk, rest: seq<Chunk>)
    requires c.payload != []
    ensures ReceiveAll(rx, Stamp(h, sequence, [c] + rest)) ==
            ReceiveAll(ReceivePayload(rx, c.payload, c.marker, Advance(sequence, 1)), Stamp(h, Advance(sequence, 1), rest))
  {
    hide Receive, ReceivePayload, StampOne, Stamp, ReceiveAll;
    StampConcat(h, sequence, [c], rest);
    StampSingle(h, sequence, c);
    ReceiveStamped(rx, h, Advance(sequence, 1), c);
    var one := StampOne(h, Advance(sequence, 1), c);
    ReceiveHead(rx, one, Stamp(h, Advance(sequence, 1), rest));
  }

  lemma ReceiveHead(rx: Rx, call: SinkCall, rest: seq<SinkCall>)
    ensures ReceiveAll(rx, [call] + rest) == ReceiveAll(Receive(rx, call.packet), rest)
  {
    hide Receive;
    assert ([call] + rest)[0] == call && ([call] + rest)[1..] == rest;
  }

  // -------------------------------------------------------------------------
  // One NAL unit
  // -------------------------------------------------------------------------

  /** What comes out for a NAL unit: fragmentation clears the forbidden_zero_bit. */
  function Restored(nal: Nal): (r: Nal)
    requires nal != []
  {
    if |nal| <= PAYLOAD_BUDGET then nal else [nal[0] as int % 128] + nal[1..]
  }

  /** Sent whole, a NAL unit must have one of the types 1 to 23; fragmented, a clear F bit. */
  predicate Carriable(nal: Nal)
    requires nal != []
  {
    if |nal| <= PAYLOAD_BUDGET then 1 <= nal[0] as int % 32 <= 23 else nal[0] < 128
  }

  lemma FuOctets(b: byte, opens: bool, closes: bool)
    ensures var indicator := b as int / 32 % 4 * 32 + FU_A;
            var fu := (if opens then 128 else 0) + (if closes then 64 else 0) + b as int % 32;
            && indicator % 32 == FU_A && indicator / 32 * 32 + fu % 32 == b as int % 128
            && (fu / 128 == 1 <==> opens) && (fu / 64 % 2 == 1 <==> closes)
  {
    var top, low := b as int / 32 % 4, b as int % 32;
    assert b as int % 128 == top * 32 + low;
    assert (top * 32 + FU_A) / 32 == top;
  }

  /** The bits of the two FU-A octets. */
  lemma FuBits(nal: Nal, offset: nat, take: nat)
    requires 1 <= offset && offset + take <= |nal|
    ensures var p := FuPayload(nal, offset, take);
            && p[0] as int % 32 == FU_A
            && p[0] as int / 32 * 32 + p[1] as int % 32 == nal[0] as int % 128
            && (p[1] as int / 128 == 1 <==> offset == 1)
            && (p[1] as int / 64 % 2 == 1 <==> offset + take == |nal|)
            && p[2..] == nal[offset..offset + take]
  {
    FuOctets(nal[0], offset == 1, offset + take == |nal|);
  }

  /** One fragment behind the first. */
  lemma FragmentContinues(rx: Rx, nal: Nal, offset: nat, take: nat, marker: bool, sequence: u16)
    requires |nal| > PAYLOAD_BUDGET && 1 < offset && 0 < take && offset + take <= |nal|
    requires rx.partial == Some(Partial(Restored(nal)[..offset], sequence))
    ensures ReceivePayload(rx, FuPayload(nal, offset, take), marker, sequence) ==
            if offset + take == |nal| then Deliver(rx, Restored(nal), marker)
            else rx.(partial := Some(Partial(Restored(nal)[..offset + take], Advance(sequence, 1))))
  {
    hide FuPayload, Deliver, Advance;
    FuBits(nal, offset, take);
    assert Restored(nal)[..offset] + nal[offset..offset + take] == Restored(nal)[..offset + take];
    assert Restored(nal)[..|nal|] == Restored(nal);
  }

  lemma {:induction false} ReceiveFragments(rx: Rx, h: Header, sequence: u16, nal: Nal, offset: nat, more: bool)
    requires |nal| > PAYLOAD_BUDGET && 1 < offset < |nal|
    requires rx.partial == Some(Partial(Restored(nal)[..offset], Advance(sequence, 1)))
    ensures ReceiveAll(rx, Stamp(h, sequence, FuChunks(nal, offset, more))) == Deliver(rx, Restored(nal), !more)
    decreases |nal| - offset
  {
    hide FuPayload, Stamp, Deliver, Advance, ReceivePayload, Restored;
    var take := FuTake(nal, offset);
    var next := offset + take;
    var c := Chunk(FuPayload(nal, offset, take), next == |nal| && !more);
    var rest := FuChunks(nal, next, more);
    ReceiveFirst(rx, h, sequence, c, rest);
    FragmentContinues(rx, nal, offset, take, c.marker, Advance(sequence, 1));
    if next == |nal| {
      assert Stamp(h, Advance(sequence, 1), rest) == [];
    } else {
      var rx' := ReceivePayload(rx, c.payload, c.marker, Advance(sequence, 1));
      DeliverIgnoresPartial(rx, rx', Restored(nal), !more);
      ReceiveFragments(rx', h, Advance(sequence, 1), nal, next, more);
    }
  }

  lemma DeliverIgnoresPartial(rx: Rx, rx': Rx, nal: Nal, marker: bool)
    requires rx.done == rx'.done && rx.current == rx'.current
    ensures Deliver(rx, nal, marker) == Deliver(rx', nal, marker)
  {
  }

  /** The first fragment. */
  lemma FragmentOpens(rx: Rx, nal: Nal, take: nat, sequence: u16)
    requires |nal| > PAYLOAD_BUDGET && 0 < take && 1 + take < |nal|
    ensures ReceivePayload(rx, FuPayload(nal, 1, take), false, sequence) ==
            rx.(partial := Some(Partial(Restored(nal)[..1 + take], Advance(sequence, 1))))
  {
    hide FuPayload, Deliver, Advance;
    FuBits(nal, 1, take);
    assert [nal[0] as int % 128] + nal[1..1 + take] == Restored(nal)[..1 + take];
  }

  lemma ReceiveSplit(rx: Rx, h: Header, sequence: u16, nal: Nal, more: bool)
    requires |nal| > PAYLOAD_BUDGET
    ensures ReceiveAll(rx, Stamp(h, sequence, FuChunks(nal, 1, more))) == Deliver(rx, Restored(nal), !more)
  {
    hide FuPayload, Stamp, Deliver, Advance, ReceivePayload, Restored;
    var take := FuTake(nal, 1);
    var c := Chunk(FuPayload(nal, 1, take), false);
    ReceiveFirst(rx, h, sequence, c, FuChunks(nal, 1 + take, more));
    FragmentOpens(rx, nal, take, Advance(sequence, 1));
    var rx' := ReceivePayload(rx, c.payload, false, Advance(sequence, 1));
    DeliverIgnoresPartial(rx, rx', Restored(nal), !more);
    ReceiveFragments(rx', h, Advance(sequence, 1), nal, 1 + take, more);
  }

  /** The packets of one carriable NAL unit deliver it, whatever the receiver was doing. */
  lemma ReceiveNal(rx: Rx, h: Header, sequence: u16, nal: Nal, more: bool)
    requires nal != [] && (|nal| <= PAYLOAD_BUDGET ==> Carriable(nal))
    ensures ReceiveAll(rx, Stamp(h, sequence, NalChunks(nal, more))) == Deliver(rx, Restored(nal), !more)
  {
    hide FuPayload, FuChunks, Stamp, Deliver, Advance;
    if |nal| <= PAYLOAD_BUDGET {
      var c := Chunk(nal, !more);
      assert [c] + [] == NalChunks(nal, more);
      ReceiveFirst(rx, h, sequence, c, []);
      assert Stamp(h, Advance(sequence, 1), []) == [];
    } else {
      ReceiveSplit(rx, h, sequence, nal, more);
    }
  }

  const START: Rx := Rx([], [], None)

  /** A NAL unit of any other type, sent whole, is not delivered. */
  lemma ReceiveForeign(h: Header, sequence: u16, nal: Nal)
    requires nal != [] && |nal| <= PAYLOAD_BUDGET && !Carriable(nal)
    ensures ReceiveAll(START, Stamp(h, sequence, NalChunks(nal, false))).done == []
  {
    hide Stamp, Advance;
    var c := Chunk(nal, true);
    assert [c] + [] == NalChunks(nal, false);
    ReceiveFirst(START, h, sequence, c, []);
    assert Stamp(h, Advance(sequence, 1), []) == [];
  }

  /** One NAL unit survives the trip exactly when it is carriable. */
  lemma NalRoundTrip(h: Header, sequence: u16, nal: Nal)
    requires nal != []
    ensures ReceiveAll(START, Stamp(h, sequence, NalChunks(nal, false))).done == [[nal]] <==> Carriable(nal)
  {
    hide ReceiveAll, Stamp, NalChunks;
    if |nal| <= PAYLOAD_BUDGET && !Carriable(nal) {
      ReceiveForeign(h, sequence, nal);
    } else {
      ReceiveNal(START, h, sequence, nal, false);
      assert START.current + [Restored(nal)] == [Restored(nal)];
      assert START.done + [[Restored(nal)]] == [[Restored(nal)]];
      assert [[Restored(nal)]][0][0] == Restored(nal) && [[nal]][0][0] == nal;
      assert nal == [nal[0]] + nal[1..];
      assert Restored(nal)[0] == if |nal| <= PAYLOAD_BUDGET then nal[0] else nal[0] as int % 128;
    }
  }

  // -------------------------------------------------------------------------
  // One access unit
  // -------------------------------------------------------------------------

  ghost predicate AllCarriable(nals: seq<Nal>) {
    forall i :: 0 <= i < |nals| ==> nals[i] == [] || Carriable(nals[i])
  }

  /** The non-empty NAL units, cut into access units wherever an empty one follows. */
  function Runs(current: seq<Nal>, nals: seq<Nal>): (r: seq<seq<Nal>>)
    decreases |nals|
  {
    if nals == [] then (if current == [] then [] else [current])
    else if nals[0] == [] then (if current == [] then [] else [current]) + Runs([], nals[1..])
    else Runs(current + [nals[0]], nals[1..])
  }

  /** The receiver recovers the runs of any access unit, empty NAL units included. */
  lemma {:induction false} ReceiveAu(rx: Rx, h: Header, sequence: u16, nals: seq<Nal>)
    requires AllCarriable(nals) && rx.partial == None
    requires rx.current != [] ==> HasMore(nals)
    ensures ReceiveAll(rx, Stamp(h, sequence, AuChunks(nals))) == Rx(rx.done + Runs(rx.current, nals), [], None)
    decreases |nals|
  {
    hide Stamp, NalChunks, Advance;
    if nals == [] {
      assert Stamp(h, sequence, []) == [];
    } else if nals[0] == [] {
      ReceiveAu(rx, h, sequence, nals[1..]);
      assert Runs(rx.current, nals) == Runs([], nals[1..]);
    } else {
      var nal, rest := nals[0], nals[1..];
      var more := HasMore(rest);
      var chunks := NalChunks(nal, more);
      assert Carriable(nal);
      assert |nal| > PAYLOAD_BUDGET ==> Restored(nal) == nal;
      StampConcat(h, sequence, chunks, AuChunks(rest));
      ReceiveConcat(rx, Stamp(h, sequence, chunks), Stamp(h, Advance(sequence, |chunks|), AuChunks(rest)));
      ReceiveNal(rx, h, sequence, nal, more);
      var rx' := Deliver(rx, nal, !more);
      ReceiveAu(rx', h, Advance(sequence, |chunks|), rest);
      if !more {
        RunsCut(rx.current + [nal], rest);
        assert rx'.done + Runs([], rest) == rx.done + ([rx.current + [nal]] + Runs([], rest));
      }
    }
  }

  lemma RunsCut(current: seq<Nal>, rest: seq<Nal>)
    requires current != [] && !HasMore(rest)
    ensures Runs(current, rest) == [current] + Runs([], rest)
  {
    if rest != [] {
      assert Runs([], rest) == [] + Runs([], rest[1..]);
    }
  }

  /** No empty NAL unit: the access unit arrives in one piece. */
  lemma {:induction false} RunsWhole(current: seq<Nal>, nals: seq<Nal>)
    requires forall i :: 0 <= i < |nals| ==> nals[i] != []
    requires current + nals != []
    ensures Runs(current, nals) == [current + nals]
    decreases |nals|
  {
    if nals == [] {
      assert current + nals == current;
    } else {
      assert (current + [nals[0]]) + nals[1..] == current + nals;
      RunsWhole(current + [nals[0]], nals[1..]);
    }
  }

  /** An access unit as a receiver expects it: some NAL units, none empty, all carriable. */
  ghost predicate CleanAu(au: seq<byte>) {
    && Nals(au) != []
    && forall i :: 0 <= i < |Nals(au)| ==> Nals(au)[i] != [] && Carriable(Nals(au)[i])
  }

  /** Packetizing an access unit and receiving it is the identity on its NAL units. */
  lemma StepRoundTrip(done: seq<seq<Nal>>, p: PState, au: seq<byte>, ptsUs: u64)
    requires CleanAu(au)
    ensures ReceiveAll(Rx(done, [], None), Step(p, au, ptsUs).1) == Rx(done + [Nals(au)], [], None)
  {
    if au == [] {
      NalsOfNothing();
    }
    hide Nals, Stamp, AuChunks, ReceiveAll, Runs;
    var nals := Nals(au);
    var h := Header(p.ssrc, p.payloadType, Clock(BaseAfter(p, ptsUs), ptsUs));
    assert AllCarriable(nals);
    ReceiveAu(Rx(done, [], None), h, p.sequence, nals);
    RunsWhole([], nals);
    assert [] + nals == nals;
  }

  lemma NalsOfNothing()
    ensures Nals([]) == []
  {
  }

  /** The round trip from a list of NAL units, joined with any mix of start codes, to the same list. */
  lemma RoundTrip(done: seq<seq<Nal>>, p: PState, units: seq<Unit>, ptsUs: u64)
    requires units != [] && Recoverable(units)
    requires forall i :: 0 <= i < |units| ==> units[i].nal != [] && Carriable(units[i].nal)
    ensures ReceiveAll(Rx(done, [], None), Step(p, Join(units), ptsUs).1) == Rx(done + [NalsOf(units)], [], None)
  {
    hide Step, ReceiveAll, Nals, Join, CleanAu;
    ScanJoin(units);
    CleanJoin(units);
    StepRoundTrip(done, p, Join(units), ptsUs);
  }

  lemma CleanJoin(units: seq<Unit>)
    requires units != [] && Recoverable(units)
    requires forall i :: 0 <= i < |units| ==> units[i].nal != [] && Carriable(units[i].nal)
    ensures CleanAu(Join(units))
  {
    hide Nals, Join, Carriable, NalsOf;
    ScanJoin(units);
    NalsOfIndex(units);
  }

  lemma {:induction false} NalsOfIndex(units: seq<Unit>)
    ensures forall i :: 0 <= i < |units| ==> NalsOf(units)[i] == units[i].nal
  {
    if units != [] {
      NalsOfIndex(units[1..]);
      forall i | 0 <= i < |units|
        ensures NalsOf(units)[i] == units[i].nal
      {
        if i > 0 {
          assert NalsOf(units)[i] == NalsOf(units[1..])[i - 1];
        }
      }
    }
  }
}
