/**
 The RTP packets of one access unit: single NAL unit packets (section 5.6 of RFC 6184)
 and FU-A fragments (section 5.8), as src/webrtc/rtp_h264.c emits them.
 */
module Packetizer {
  import opened Bytes
  import opened AnnexB

  const RTP_HEADER_SIZE: nat := 12
  const RTP_MAX_PACKET: nat := 1200
  const PAYLOAD_BUDGET: nat := RTP_MAX_PACKET - RTP_HEADER_SIZE
  const FU_CHUNK: nat := PAYLOAD_BUDGET - 2
  const FU_A: nat := 28

  // -------------------------------------------------------------------------
  // Payloads
  // -------------------------------------------------------------------------

  /** One RTP payload and the marker bit of the packet that carries it. */
  datatype Chunk = Chunk(payload: seq<byte>, marker: bool)

  function FuPayload(nal: Nal, offset: nat, take: nat): (p: seq<byte>)
    requires 1 <= offset && offset + take <= |nal|
    ensures |p| == 2 + take
  {
    [nal[0] as int / 32 % 4 * 32 + FU_A,
     (if offset == 1 then 128 else 0) + (if offset + take == |nal| then 64 else 0) + nal[0] as int % 32]
    + nal[offset..offset + take]
  }

  function FuTake(nal: Nal, offset: nat): (take: nat)
    requires offset < |nal|
    ensures 0 < take <= FU_CHUNK && offset + take <= |nal|
  {
    if |nal| - offset > FU_CHUNK then FU_CHUNK else |nal| - offset
  }

  /** The FU-A fragments of a NAL unit from an offset on. */
  function FuChunks(nal: Nal, offset: nat, more: bool): (r: seq<Chunk>)
    requires 1 <= offset <= |nal|
    decreases |nal| - offset
  {
    if offset == |nal| then []
    else
      var take := FuTake(nal, offset);
      [Chunk(FuPayload(nal, offset, take), offset + take == |nal| && !more)] + FuChunks(nal, offset + take, more)
  }

  function NalChunks(nal: Nal, more: bool): (r: seq<Chunk>)
    requires nal != []
  {
    if |nal| <= PAYLOAD_BUDGET then [Chunk(nal, !more)] else FuChunks(nal, 1, more)
  }

  /** The lookahead: another NAL unit follows and it is not empty. */
  predicate HasMore(rest: seq<Nal>) {
    rest != [] && rest[0] != []
  }

  /** The payloads of an access unit, empty NAL units skipped. */
  function AuChunks(nals: seq<Nal>): (r: seq<Chunk>)
  {
    if nals == [] then []
    else if nals[0] == [] then AuChunks(nals[1..])
    else NalChunks(nals[0], HasMore(nals[1..])) + AuChunks(nals[1..])
  }

  // -------------------------------------------------------------------------
  // Packets
  // -------------------------------------------------------------------------

  datatype Header = Header(ssrc: u32, payloadType: u32, timestamp: u32)

  /** The fixed RTP header (section 5.1 of RFC 3550). */
  function HeaderBytes(h: Header, marker: bool, sequence: u16): (s: seq<byte>)
    ensures |s| == RTP_HEADER_SIZE
  {
    [0x80, (if marker then 0x80 else 0) + h.payloadType as int % 128]
    + Be16(sequence) + Be32(h.timestamp) + Be32(h.ssrc)
  }

  lemma HeaderIs(s: seq<byte>, h: Header, marker: bool, sequence: u16)
    requires |s| == RTP_HEADER_SIZE && s[0] == 0x80 && s[1] == (if marker then 0x80 else 0) + h.payloadType as int % 128
    requires s[2] == sequence / 256 && s[3] == sequence % 256
    requires s[4..8] == Be32(h.timestamp) && s[8..12] == Be32(h.ssrc)
    ensures s == HeaderBytes(h, marker, sequence)
  {
    assert s == [s[0], s[1]] + [s[2], s[3]] + s[4..8] + s[8..12];
  }

  /** One call of the packet sink. */
  datatype SinkCall = SinkCall(packet: seq<byte>, marker: bool, sequence: u16)

  function Advance(sequence: u16, n: nat): (s: u16) {
    (sequence as int + n) % 0x1_0000
  }

  function StampOne(h: Header, sequence: u16, c: Chunk): (r: SinkCall) {
    SinkCall(HeaderBytes(h, c.marker, sequence) + c.payload, c.marker, sequence)
  }

  /** The packets of a list of payloads, numbered from the successor of `sequence` on. */
  function Stamp(h: Header, sequence: u16, chunks: seq<Chunk>): (r: seq<SinkCall>)
    ensures |r| == |chunks|
  {
    seq(|chunks|, i requires 0 <= i < |chunks| => StampOne(h, Advance(sequence, i + 1), chunks[i]))
  }

  lemma AdvanceSum(s: u16, a: nat, b: nat)
    ensures Advance(Advance(s, a), b) == Advance(s, a + b)
  {
  }

  lemma StampSingle(h: Header, sequence: u16, c: Chunk)
    ensures Stamp(h, sequence, [c]) == [StampOne(h, Advance(sequence, 1), c)]
  {
    hide StampOne, Advance;
  }

  lemma StampConcat(h: Header, sequence: u16, a: seq<Chunk>, b: seq<Chunk>)
    ensures Stamp(h, sequence, a + b) == Stamp(h, sequence, a) + Stamp(h, Advance(sequence, |a|), b)
  {
    hide StampOne, Advance;
    var lhs, rhs := Stamp(h, sequence, a + b), Stamp(h, sequence, a) + Stamp(h, Advance(sequence, |a|), b);
    forall i | 0 <= i < |lhs|
      ensures lhs[i] == rhs[i]
    {
      if i >= |a| {
        AdvanceSum(sequence, |a|, i - |a| + 1);
      }
    }
  }

  function Octets(chunks: seq<Chunk>): (n: nat)
  {
    if chunks == [] then 0 else |chunks[0].payload| + Octets(chunks[1..])
  }

  lemma {:induction false} OctetsConcat(a: seq<Chunk>, b: seq<Chunk>)
    ensures Octets(a + b) == Octets(a) + Octets(b)
  {
    if a == [] {
      assert a + b == b;
    } else {
      assert (a + b)[1..] == a[1..] + b;
      OctetsConcat(a[1..], b);
    }
  }

  // -------------------------------------------------------------------------
  // The packetizer as a function of its state
  // -------------------------------------------------------------------------

  datatype PState = PState(
    ssrc: u32,
    payloadType: u32,
    sequence: u16,
    base: Option<u64>,
    lastTimestamp: u32,
    packets: u32,
    octets: u32)

  function Add32(a: u32, n: nat): (r: u32) {
    (a as int + n) % 0x1_0000_0000
  }

  /** The counters after a list of payloads has gone out. */
  function After(p: PState, chunks: seq<Chunk>): (r: PState)
  {
    p.(sequence := Advance(p.sequence, |chunks|),
       packets := Add32(p.packets, |chunks|),
       octets := Add32(p.octets, Octets(chunks)))
  }

  lemma Add32Sum(x: u32, a: nat, b: nat)
    ensures Add32(Add32(x, a), b) == Add32(x, a + b)
  {
  }

  lemma AfterSingle(p: PState, c: Chunk)
    ensures After(p, [c]) == p.(sequence := Advance(p.sequence, 1), packets := Add32(p.packets, 1),
                                octets := Add32(p.octets, |c.payload|))
  {
    hide Advance, Add32;
    assert Octets([c]) == |c.payload|;
  }

  lemma AfterConcat(p: PState, a: seq<Chunk>, b: seq<Chunk>)
    ensures After(After(p, a), b) == After(p, a + b)
  {
    hide Advance, Add32, Octets;
    OctetsConcat(a, b);
    AdvanceSum(p.sequence, |a|, |b|);
    Add32Sum(p.packets, |a|, |b|);
    Add32Sum(p.octets, Octets(a), Octets(b));
  }

  lemma AfterNothing(p: PState)
    ensures After(p, []) == p
  {
  }

  lemma AfterSequence(p: PState, chunks: seq<Chunk>)
    ensures After(p, chunks).sequence == Advance(p.sequence, |chunks|)
  {
  }

  /** The 90 kHz media clock, in the 64 and 32 bit arithmetic of the source. */
  function Clock(base: u64, ptsUs: u64): (ts: u32) {
    var deltaUs := if ptsUs >= base then ptsUs - base else 0;
    deltaUs * 90000 % 0x1_0000_0000_0000_0000 / 1000000 % 0x1_0000_0000
  }

  function BaseAfter(p: PState, ptsUs: u64): (b: u64) {
    if p.base.Some? then p.base.value else ptsUs
  }

  /** What one call of rtp_h264_packetize does: the new state and the packets handed out. */
  function Step(p: PState, au: seq<byte>, ptsUs: u64): (r: (PState, seq<SinkCall>))
  {
    if au == [] then (p, [])
    else
      var base := BaseAfter(p, ptsUs);
      var ts := Clock(base, ptsUs);
      var chunks := AuChunks(Nals(au));
      (After(p.(base := Some(base), lastTimestamp := ts), chunks),
       Stamp(Header(p.ssrc, p.payloadType, ts), p.sequence, chunks))
  }

  // -------------------------------------------------------------------------
  // The packetizer itself
  // -------------------------------------------------------------------------

  /** Between two packets: what went out so far, and where that leaves the counters. */
  ghost predicate Progress(h: Header, p0: PState, p: PState, sent: seq<Chunk>, calls: seq<SinkCall>) {
    calls == Stamp(h, p0.sequence, sent) && p == After(p0, sent)
  }

  lemma ProgressStart(h: Header, p0: PState)
    ensures Progress(h, p0, p0, [], [])
  {
    hide After;
    AfterNothing(p0);
  }

  lemma ProgressMeans(h: Header, p0: PState, p: PState, sent: seq<Chunk>, calls: seq<SinkCall>)
    requires Progress(h, p0, p, sent, calls)
    ensures calls == Stamp(h, p0.sequence, sent) && p == After(p0, sent)
  {
  }

  lemma ProgressStep(h: Header, p0: PState, p: PState, sent: seq<Chunk>, calls: seq<SinkCall>, chunks: seq<Chunk>)
    requires Progress(h, p0, p, sent, calls)
    ensures Progress(h, p0, After(p, chunks), sent + chunks, calls + Stamp(h, p.sequence, chunks))
  {
    hide After, Stamp, Advance;
    AfterSequence(p0, sent);
    StampConcat(h, p0.sequence, sent, chunks);
    AfterConcat(p0, sent, chunks);
  }

  /** The payloads still to come at a cursor: those of the next NAL unit, then the rest. */
  lemma ChunksFrom(au: seq<byte>, cursor: nat)
    requires cursor <= |au|
    ensures AuChunks(Nals(au[cursor..])) ==
            match NextSpan(au, cursor)
            case None => []
            case Some(n) =>
              var after := n.offset + n.length;
              var probe := NextSpan(au, after);
              if n.length == 0 then AuChunks(Nals(au[after..]))
              else
                NalChunks(au[n.offset..after], probe.Some? && probe.value.length > 0) + AuChunks(Nals(au[after..]))
  {
    hide Nals, NextSpan, NalChunks;
    NalsFrom(au, cursor);
    match NextSpan(au, cursor)
    case None =>
    case Some(n) =>
      NalsFrom(au, n.offset + n.length);
  }

  class RtpH264 {
    var ssrc: u32
    var payloadType: u32
    var sequence: u16
    var basePtsUs: u64
    var haveBase: bool
    var lastTimestamp: u32
    var packets: u32
    var octets: u32

    function View(): PState
      reads this
    {
      PState(ssrc, payloadType, sequence, if haveBase then Some(basePtsUs) else None, lastTimestamp, packets, octets)
    }

    constructor ()
      ensures View() == PState(0, 0, 0, None, 0, 0, 0)
    {
      ssrc, payloadType, sequence, basePtsUs := 0, 0, 0, 0;
      haveBase, lastTimestamp, packets, octets := false, 0, 0, 0;
    }

    /** rtp_h264_reset: a new stream identity; the sequence number carries on. */
    method Reset(newSsrc: u32, newPayloadType: u32)
      modifies this
      ensures View() == old(View()).(ssrc := newSsrc, payloadType := newPayloadType, base := None,
                                     packets := 0, octets := 0)
    {
      ssrc := newSsrc;
      payloadType := newPayloadType;
      haveBase := false;
      packets := 0;
      octets := 0;
    }

    /** The header octets that stay the same for every packet of an access unit. */
    ghost predicate Prepared(packet: array<byte>, h: Header)
      reads packet, this`payloadType
    {
      && packet.Length == RTP_MAX_PACKET
      && h.payloadType == payloadType
      && packet[0] == 0x80
      && packet[4..8] == Be32(h.timestamp)
      && packet[8..12] == Be32(h.ssrc)
    }

    method Memcpy(packet: array<byte>, at: nat, src: seq<byte>, ghost h: Header)
      requires Prepared(packet, h) && RTP_HEADER_SIZE <= at && at + |src| <= packet.Length
      modifies packet
      ensures Prepared(packet, h)
      ensures packet[at..at + |src|] == src && packet[..at] == old(packet[..at])
    {
      hide Be32;
      forall k | at <= k < at + |src| {
        packet[k] := src[k - at];
      }
      assert packet[4..8] == old(packet[4..8]) && packet[8..12] == old(packet[8..12]);
    }

    /** The two header fields that change from packet to packet. */
    method Number(packet: array<byte>, ghost h: Header, marker: bool)
      requires Prepared(packet, h)
      modifies packet
      ensures Prepared(packet, h)
      ensures packet[..12] == HeaderBytes(h, marker, sequence) && packet[12..] == old(packet[12..])
    {
      hide Be32, HeaderBytes;
      packet[1] := (if marker then 0x80 else 0) + payloadType as int % 128;
      packet[2] := sequence / 256;
      packet[3] := sequence % 256;
      assert packet[4..8] == old(packet[4..8]) && packet[8..12] == old(packet[8..12]);
      HeaderIs(packet[..12], h, marker, sequence);
    }

    /** Number the packet whose payload is already in the buffer, hand it to the sink and count it. */
    method Emit(packet: array<byte>, ghost h: Header, length: nat, marker: bool) returns (call: SinkCall)
      requires Prepared(packet, h) && length <= PAYLOAD_BUDGET
      modifies packet, this`sequence, this`packets, this`octets
      ensures Prepared(packet, h)
      ensures var c := Chunk(old(packet[12..12 + length]), marker);
              View() == After(old(View()), [c]) && [call] == Stamp(h, old(sequence), [c])
    {
      hide Be32, HeaderBytes, After, Stamp;
      ghost var c := Chunk(packet[12..12 + length], marker);
      AfterSingle(View(), c);
      StampSingle(h, sequence, c);
      sequence := (sequence as int + 1) % 0x1_0000;
      Number(packet, h, marker);
      call := SinkCall(packet[..RTP_HEADER_SIZE + length], marker, sequence);
      assert call.packet == packet[..12] + packet[12..][..length];
      assert packet[12..][..length] == c.payload;
      packets := (packets as int + 1) % 0x1_0000_0000;
      octets := (octets as int + length) % 0x1_0000_0000;
    }

    method SendSingle(packet: array<byte>, ghost h: Header, nal: Nal, more: bool) returns (calls: seq<SinkCall>)
      requires Prepared(packet, h) && 0 < |nal| <= PAYLOAD_BUDGET
      modifies packet, this`sequence, this`packets, this`octets
      ensures Prepared(packet, h)
      ensures calls == Stamp(h, old(sequence), NalChunks(nal, more))
      ensures View() == After(old(View()), NalChunks(nal, more))
    {
      hide After, Stamp, Be32;
      Memcpy(packet, RTP_HEADER_SIZE, nal, h);
      var call := Emit(packet, h, |nal|, !more);
      calls := [call];
    }

    /** One FU-A fragment: its two header octets, its piece of the NAL unit, and the packet. */
    method SendFragment(packet: array<byte>, ghost h: Header, nal: Nal, offset: nat, take: nat, last: bool, more: bool)
      returns (call: SinkCall)
      requires Prepared(packet, h) && 1 <= offset < |nal|
      requires take == FuTake(nal, offset) && (last <==> offset + take == |nal|)
      modifies packet, this`sequence, this`packets, this`octets
      ensures Prepared(packet, h)
      ensures var c := Chunk(FuPayload(nal, offset, take), last && !more);
              View() == After(old(View()), [c]) && [call] == Stamp(h, old(sequence), [c])
    {
      hide After, Stamp, Be32;
      packet[RTP_HEADER_SIZE] := nal[0] as int / 32 % 4 * 32 + FU_A;
      packet[RTP_HEADER_SIZE + 1] :=
        (if offset == 1 then 0x80 else 0) + (if last then 0x40 else 0) + nal[0] as int % 32;
      assert packet[4..8] == old(packet[4..8]) && packet[8..12] == old(packet[8..12]);
      assert packet[12..14] == FuPayload(nal, offset, take)[..2];
      label Indicated:
      Memcpy(packet, RTP_HEADER_SIZE + 2, nal[offset..offset + take], h);
      assert packet[12..14] == old@Indicated(packet[12..14]);
      assert packet[12..14 + take] == packet[12..14] + packet[14..14 + take];
      call := Emit(packet, h, 2 + take, last && !more);
    }

    method SendFragments(packet: array<byte>, ghost h: Header, nal: Nal, more: bool) returns (calls: seq<SinkCall>)
      requires Prepared(packet, h) && |nal| > PAYLOAD_BUDGET
      modifies packet, this`sequence, this`packets, this`octets
      ensures Prepared(packet, h)
      ensures calls == Stamp(h, old(sequence), NalChunks(nal, more))
      ensures View() == After(old(View()), NalChunks(nal, more))
    {
      hide After, Stamp, FuPayload, Progress;
      calls := [];
      var offset := 1;
      ghost var p, sent: seq<Chunk> := View(), [];
      ProgressStart(h, p);
      while offset < |nal|
        invariant 1 <= offset <= |nal|
        invariant Prepared(packet, h)
        invariant sent + FuChunks(nal, offset, more) == FuChunks(nal, 1, more)
        invariant Progress(h, p, View(), sent, calls)
      {
        var take := |nal| - offset;
        var last := false;
        if take > FU_CHUNK {
          take := FU_CHUNK;
        } else {
          last := true;
        }
        ghost var c := Chunk(FuPayload(nal, offset, take), last && !more);
        ghost var rest := FuChunks(nal, offset + take, more);
        assert sent + ([c] + rest) == (sent + [c]) + rest;
        ProgressStep(h, p, View(), sent, calls, [c]);
        var call := SendFragment(packet, h, nal, offset, take, last, more);
        calls := calls + [call];
        sent := sent + [c];
        offset := offset + take;
      }
      assert sent == NalChunks(nal, more);
      ProgressMeans(h, p, View(), sent, calls);
    }

    method SendNal(packet: array<byte>, ghost h: Header, nal: Nal, more: bool) returns (calls: seq<SinkCall>)
      requires Prepared(packet, h) && nal != []
      modifies packet, this`sequence, this`packets, this`octets
      ensures Prepared(packet, h)
      ensures calls == Stamp(h, old(sequence), NalChunks(nal, more))
      ensures View() == After(old(View()), NalChunks(nal, more))
    {
      hide After, Stamp, NalChunks;
      if |nal| <= PAYLOAD_BUDGET {
        calls := SendSingle(packet, h, nal, more);
      } else {
        calls := SendFragments(packet, h, nal, more);
      }
    }

    /** The RTP header fields that one access unit shares. */
    method Prepare(ts: u32) returns (packet: array<byte>, ghost h: Header)
      ensures fresh(packet) && h == Header(ssrc, payloadType, ts) && Prepared(packet, h)
    {
      packet := new byte[RTP_MAX_PACKET];
      packet[0] := 0x80;
      packet[8], packet[9], packet[10], packet[11] :=
        ssrc / 0x100_0000, ssrc / 0x1_0000 % 256, ssrc / 256 % 256, ssrc % 256;
      packet[4], packet[5], packet[6], packet[7] :=
        ts / 0x100_0000, ts / 0x1_0000 % 256, ts / 256 % 256, ts % 256;
      h := Header(ssrc, payloadType, ts);
    }

    /** The first presentation time starts the clock; the packets carry ticks since then. */
    method Tick(ptsUs: u64)
      modifies this`basePtsUs, this`haveBase, this`lastTimestamp
      ensures var base := BaseAfter(old(View()), ptsUs);
              View() == old(View()).(base := Some(base), lastTimestamp := Clock(base, ptsUs))
    {
      if !haveBase {
        basePtsUs := ptsUs;
        haveBase := true;
      }
      var deltaUs: u64 := if ptsUs >= basePtsUs then ptsUs - basePtsUs else 0;
      lastTimestamp := deltaUs as int * 90000 % 0x1_0000_0000_0000_0000 / 1000000 % 0x1_0000_0000;
    }

    /** rtp_h264_packetize: `calls` is what the sink was handed, in order. */
    method Packetize(au: seq<byte>, ptsUs: u64) returns (emitted: int, calls: seq<SinkCall>)
      modifies this
      ensures (View(), calls) == Step(old(View()), au, ptsUs)
      ensures emitted == if au == [] then -1 else |calls|
    {
      hide After, Stamp, Nals, NextSpan, NalChunks, AuChunks, Progress;
      calls := [];
      if |au| == 0 {
        return -1, calls;
      }
      Tick(ptsUs);
      var packet, h := Prepare(lastTimestamp);
      ghost var p, sent: seq<Chunk> := View(), [];
      ProgressStart(h, p);

      var cursor := 0;
      emitted := 0;
      assert au[0..] == au;
      var span := NextNal(au, cursor);
      while span.Some?
        invariant cursor <= |au| && span == NextSpan(au, cursor)
        invariant fresh(packet) && Prepared(packet, h)
        invariant sent + AuChunks(Nals(au[cursor..])) == AuChunks(Nals(au))
        invariant Progress(h, p, View(), sent, calls) && emitted == |calls|
        decreases |au| - cursor
      {
        var n := span.value;
        ChunksFrom(au, cursor);
        if n.length == 0 {
          cursor := n.offset;
        } else {
          var after := n.offset + n.length;
          var probe := NextNal(au, after);
          var hasMore := probe.Some? && probe.value.length > 0;
          var nal := au[n.offset..after];
          ghost var chunks := NalChunks(nal, hasMore);
          ghost var rest := AuChunks(Nals(au[after..]));
          assert sent + (chunks + rest) == (sent + chunks) + rest;
          ProgressStep(h, p, View(), sent, calls, chunks);
          var more := SendNal(packet, h, nal, hasMore);
          calls := calls + more;
          emitted := emitted + |more|;
          sent := sent + chunks;
          cursor := after;
        }
        span := NextNal(au, cursor);
      }
      ChunksFrom(au, cursor);
      assert sent == AuChunks(Nals(au));
      ProgressMeans(h, p, View(), sent, calls);
    }
  }
}
