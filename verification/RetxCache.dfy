/**
 The retransmission cache of src/webrtc/webrtc_session.c: protected packets kept in 512 slots
 by sequence number, and the answer to a NACK. The cache agrees with the history of what was
 sent, and with the packetizer and the RTCP parser on both sides of it.
 */
module RetxCache {
  import opened Bytes
  import opened Packetizer
  import opened RtpStream
  import Rtcp

  const CACHE_SIZE: nat := 512
  const ROW_SIZE: nat := RTP_MAX_PACKET + 64

  // -------------------------------------------------------------------------
  // History
  // -------------------------------------------------------------------------

  /** One packet given to SRTP: its number, and the protected packet sent, if protection succeeded. */
  datatype Attempt = Attempt(sequence: u16, sent: Option<seq<byte>>)

  /** SRTP protection: the outcome of each call in turn. */
  type Protect = (nat, seq<byte>) -> Option<seq<byte>>

  /** Protection only appends a trailer of at most 64 octets. */
  ghost predicate Trailing(protect: Protect) {
    forall n: nat, p: seq<byte> ::
      protect(n, p).Some? ==> |p| <= |protect(n, p).value| <= |p| + 64
  }

  function Slot(sequence: u16): (s: nat)
    ensures s < CACHE_SIZE
  {
    sequence as int % CACHE_SIZE
  }

  /** Index of the last packet sent in a slot, -1 when there is none. */
  function LatestIndex(h: seq<Attempt>, slot: nat): (i: int)
    ensures -1 <= i < |h|
    ensures i >= 0 ==> h[i].sent.Some? && Slot(h[i].sequence) == slot
    ensures forall k :: i < k < |h| ==> h[k].sent.None? || Slot(h[k].sequence) != slot
  {
    if h == [] then -1
    else
      var last := h[|h| - 1];
      if last.sent.Some? && Slot(last.sequence) == slot then |h| - 1
      else LatestIndex(h[..|h| - 1], slot)
  }

  /** What a slot should hold. */
  function Latest(h: seq<Attempt>, slot: nat): (packet: seq<byte>) {
    var i := LatestIndex(h, slot);
    if i < 0 then [] else h[i].sent.value
  }

  lemma NothingSent(slot: nat)
    ensures Latest([], slot) == []
  {
  }

  lemma LatestStep(h: seq<Attempt>, a: Attempt, slot: nat)
    ensures Latest(h + [a], slot) ==
            if a.sent.Some? && Slot(a.sequence) == slot then a.sent.value else Latest(h, slot)
  {
    hide Slot;
    assert (h + [a])[..|h|] == h;
  }

  /** The answer to a NACK list: the packets of the slots in use. */
  function Answer(h: seq<Attempt>, numbers: seq<u16>): (packets: seq<seq<byte>>)
  {
    if numbers == [] then []
    else
      var rest := Answer(h, numbers[..|numbers| - 1]);
      var packet := Latest(h, Slot(numbers[|numbers| - 1]));
      if packet == [] then rest else rest + [packet]
  }

  lemma RowsApart(s: nat, t: nat)
    requires s != t
    ensures s * ROW_SIZE + ROW_SIZE <= t * ROW_SIZE || t * ROW_SIZE + ROW_SIZE <= s * ROW_SIZE
  {
  }

  // -------------------------------------------------------------------------
  // The cache
  // -------------------------------------------------------------------------

  class RetxCache {
    const data: array<byte>
    const lens: array<nat>
    var packetsSent: nat
    var retransmissions: nat
    /** How often protection has been asked for: the index of the next outcome. */
    var attempts: nat
    /** Everything given to the sink so far. */
    ghost var history: seq<Attempt>

    ghost predicate Shaped() {
      data.Length == CACHE_SIZE * ROW_SIZE && lens.Length == CACHE_SIZE
    }

    ghost function Row(s: nat): (row: seq<byte>)
      reads data, lens
      requires Shaped() && s < CACHE_SIZE && lens[s] <= ROW_SIZE
    {
      data[s * ROW_SIZE..s * ROW_SIZE + lens[s]]
    }

    /** A slot holds the last packet sent in it. */
    ghost predicate Holds(s: nat, packet: seq<byte>)
      reads data, lens
      requires Shaped() && s < CACHE_SIZE
    {
      lens[s] <= ROW_SIZE && Row(s) == packet
    }

    ghost predicate Valid()
      reads this, data, lens
    {
      Shaped() && attempts == |history| && forall s: nat :: s < CACHE_SIZE ==> Holds(s, Latest(history, s))
    }

    constructor ()
      ensures Valid() && history == [] && fresh(data) && fresh(lens) && packetsSent == 0 && retransmissions == 0
    {
      data := new byte[CACHE_SIZE * ROW_SIZE];
      lens := new nat[CACHE_SIZE](i => 0);
      packetsSent, retransmissions, attempts := 0, 0, 0;
      history := [];
      new;
      forall s: nat | s < CACHE_SIZE
        ensures Holds(s, Latest(history, s))
      {
        NothingSent(s);
        hide Latest;
        assert Row(s) == [];
      }
    }

    method Store(s: nat, packet: seq<byte>)
      requires Shaped() && s < CACHE_SIZE && |packet| <= ROW_SIZE
      modifies data, lens
      ensures Holds(s, packet)
      ensures forall t: nat, other :: t < CACHE_SIZE && t != s && old(Holds(t, other)) ==> Holds(t, other)
    {
      Memcpy(data, s * ROW_SIZE, packet);
      lens[s] := |packet|;
      forall t: nat, other | t < CACHE_SIZE && t != s && old(Holds(t, other))
        ensures Holds(t, other)
      {
        RowsApart(s, t);
        assert Row(t) == old(Row(t));
      }
    }

    /** rtp_packet_sink: protect, send, remember. */
    method Sink(call: SinkCall, protect: Protect) returns (ok: bool)
      requires Valid() && Trailing(protect) && |call.packet| <= RTP_MAX_PACKET
      modifies this`packetsSent, this`attempts, this`history, data, lens
      ensures Valid()
      ensures history == old(history) + [Attempt(call.sequence, protect(|old(history)|, call.packet))]
      ensures ok == protect(|old(history)|, call.packet).Some?
      ensures packetsSent == old(packetsSent) + if ok then 1 else 0
    {
      hide Holds, Latest, Slot;
      var outcome := protect(attempts, call.packet);
      ghost var before := history;
      attempts := attempts + 1;
      history := history + [Attempt(call.sequence, outcome)];
      forall t: nat | t < CACHE_SIZE
        ensures Latest(history, t) ==
                if outcome.Some? && Slot(call.sequence) == t then outcome.value else Latest(before, t)
      {
        LatestStep(before, Attempt(call.sequence, outcome), t);
      }
      ok := outcome.Some?;
      if ok {
        Store(Slot(call.sequence), outcome.value);
        packetsSent := packetsSent + 1;
      }
    }

    /** The packets of one access unit, in the order the packetizer hands them out. */
    method SinkAll(calls: seq<SinkCall>, protect: Protect)
      requires Valid() && Trailing(protect)
      requires forall i :: 0 <= i < |calls| ==> |calls[i].packet| <= RTP_MAX_PACKET
      modifies this`packetsSent, this`attempts, this`history, data, lens
      ensures Valid()
      ensures history == old(history) + Attempts(calls, protect, |old(history)|)
    {
      hide Valid, Trailing;
      for i := 0 to |calls|
        invariant Valid()
        invariant |history| == |old(history)| + i
        invariant history == old(history) + Attempts(calls[..i], protect, |old(history)|)
      {
        var ok := Sink(calls[i], protect);
        assert calls[..i + 1] == calls[..i] + [calls[i]];
        AttemptsStep(calls[..i], calls[i], protect, |old(history)|);
      }
      assert calls[..|calls|] == calls;
    }

    /** The NACK half of dtls_on_rtcp: one lookup and at most one packet per number asked for. */
    method Resend(numbers: seq<u16>) returns (packets: seq<seq<byte>>)
      requires Valid()
      modifies this`retransmissions
      ensures Valid()
      ensures packets == Answer(history, numbers)
      ensures retransmissions == old(retransmissions) + |packets|
    {
      hide Latest;
      packets := [];
      for i := 0 to |numbers|
        invariant Valid()
        invariant packets == Answer(history, numbers[..i])
        invariant retransmissions == old(retransmissions) + |packets|
      {
        var s := numbers[i] as int % CACHE_SIZE;
        assert Holds(s, Latest(history, s));
        assert numbers[..i + 1][..i] == numbers[..i];
        if lens[s] > 0 {
          packets := packets + [data[s * ROW_SIZE..s * ROW_SIZE + lens[s]]];
          retransmissions := retransmissions + 1;
        }
      }
      assert numbers[..|numbers|] == numbers;
    }
  }

  /** The history a list of packets leaves behind. */
  function Attempts(calls: seq<SinkCall>, protect: Protect, from: nat): (h: seq<Attempt>)
    ensures |h| == |calls|
  {
    seq(|calls|, i requires 0 <= i < |calls| =>
        Attempt(calls[i].sequence, protect(from + i, calls[i].packet)))
  }

  lemma AttemptsStep(calls: seq<SinkCall>, c: SinkCall, protect: Protect, from: nat)
    ensures Attempts(calls + [c], protect, from) ==
            Attempts(calls, protect, from) + [Attempt(c.sequence, protect(from + |calls|, c.packet))]
  {
  }

  // -------------------------------------------------------------------------
  // The cache agrees with the stream
  // -------------------------------------------------------------------------

  /** Everything sent for a list of access units. */
  function Stream(p: PState, inputs: seq<Input>, protect: Protect): (h: seq<Attempt>) {
    Attempts(Run(p, inputs).1, protect, 0)
  }

  lemma AttemptsConcat(a: seq<SinkCall>, b: seq<SinkCall>, protect: Protect)
    ensures Attempts(a + b, protect, 0) == Attempts(a, protect, 0) + Attempts(b, protect, |a|)
  {
  }

  lemma StreamAppend(p: PState, inputs: seq<Input>, x: Input, protect: Protect)
    ensures var h := Stream(p, inputs, protect);
            Stream(p, inputs + [x], protect) ==
            h + Attempts(Step(Run(p, inputs).0, x.au, x.ptsUs).1, protect, |h|)
  {
    hide Attempts, Run, Step;
    RunAppend(p, inputs, x);
    AttemptsConcat(Run(p, inputs).1, Step(Run(p, inputs).0, x.au, x.ptsUs).1, protect);
  }

  /** The media path of a session: the packetizer in front of the sink. */
  class MediaPath {
    const packetizer: RtpH264
    const cache: RetxCache
    /** Where the packetizer started, and the access units given to it while streaming. */
    ghost const start: PState
    ghost var inputs: seq<Input>

    ghost predicate Valid(protect: Protect)
      reads this, packetizer, cache, cache.data, cache.lens
    {
      && cache.Valid()
      && packetizer.View() == Run(start, inputs).0
      && cache.history == Stream(start, inputs, protect)
    }

    constructor (p: RtpH264, c: RetxCache)
      requires c.Valid() && c.history == []
      ensures packetizer == p && cache == c && start == p.View() && inputs == []
      ensures forall protect :: Valid(protect)
    {
      packetizer, cache, start, inputs := p, c, p.View(), [];
    }

    /** rtc_session_send_access_unit. */
    method SendAccessUnit(au: seq<byte>, ptsUs: u64, streaming: bool, protect: Protect) returns (packets: int)
      requires Valid(protect) && Trailing(protect)
      modifies this`inputs, packetizer, cache, cache.data, cache.lens
      ensures Valid(protect)
      ensures inputs == old(inputs) + if streaming then [Input(au, ptsUs)] else []
      ensures packets == if !streaming then 0 else if au == [] then -1
                         else |cache.history| - |old(cache.history)|
    {
      hide Run, Step, Stream, Trailing, cache.Valid;
      if !streaming {
        return 0;
      }
      StreamAppend(start, inputs, Input(au, ptsUs), protect);
      StepFraming(packetizer.View(), au, ptsUs);
      RunAppend(start, inputs, Input(au, ptsUs));
      var calls;
      packets, calls := packetizer.Packetize(au, ptsUs);
      cache.SinkAll(calls, protect);
      inputs := inputs + [Input(au, ptsUs)];
    }
  }

  lemma StreamNumbers(p: PState, inputs: seq<Input>, protect: Protect, i: nat)
    requires i < |Stream(p, inputs, protect)|
    ensures Stream(p, inputs, protect)[i].sequence == Advance(p.sequence, i + 1)
  {
    hide WellFormedCall, Advance, Run;
    RunFraming(p, inputs);
  }

  /** 512 divides 65536: numbers share a slot exactly when they are a multiple of 512 apart. */
  lemma SlotsCollide(s: u16, i: nat, k: nat)
    ensures Slot(Advance(s, i)) == Slot(Advance(s, k)) <==> (i - k) % 512 == 0
  {
    SlotOf(s as int + i);
    SlotOf(s as int + k);
    hide Slot;
    SameRemainder(s as int + i, s as int + k);
  }

  lemma SlotOf(x: nat)
    ensures Slot(x % 0x1_0000) == x % CACHE_SIZE
  {
    var q := x / 0x1_0000;
    assert x == 128 * q * CACHE_SIZE + x % 0x1_0000;
  }

  lemma SameRemainder(x: int, y: int)
    ensures x % CACHE_SIZE == y % CACHE_SIZE <==> (x - y) % CACHE_SIZE == 0
  {
  }

  /** For each of the last 512 packets, the slot of its number holds that very packet exactly when
      its protection succeeded, across any number of wraps of the 16 bit number. */
  lemma WindowExact(p: PState, inputs: seq<Input>, protect: Protect, i: nat)
    requires var h := Stream(p, inputs, protect); |h| - 512 <= i < |h|
    ensures var h := Stream(p, inputs, protect);
            LatestIndex(h, Slot(h[i].sequence)) == i <==> h[i].sent.Some?
  {
    hide Stream, LatestIndex;
    var h := Stream(p, inputs, protect);
    var j := LatestIndex(h, Slot(h[i].sequence));
    if h[i].sent.Some? {
      assert i <= j;
      StreamNumbers(p, inputs, protect, i);
      StreamNumbers(p, inputs, protect, j);
      SlotsCollide(p.sequence, j + 1, i + 1);
    }
  }

  /** Whatever is resent for any number at all is the latest packet sent whose number is
      congruent to it modulo 512. */
  lemma ResentIsLatest(h: seq<Attempt>, n: u16)
    ensures var i := LatestIndex(h, Slot(n));
            && Answer(h, [n]) == (if Latest(h, Slot(n)) == [] then [] else [Latest(h, Slot(n))])
            && (i < 0 ==> Answer(h, [n]) == [])
            && (i >= 0 ==>
                  && Latest(h, Slot(n)) == h[i].sent.value && (h[i].sequence - n) % 512 == 0
                  && forall k :: i < k < |h| && h[k].sent.Some? ==> (h[k].sequence - n) % 512 != 0)
  {
    hide LatestIndex;
    assert [n][..0] == [];
  }

  /** Numbers a receiver asks for: those of the packets at these places of the stream. */
  function NumbersAt(h: seq<Attempt>, places: seq<nat>): (numbers: seq<u16>)
    requires forall j :: 0 <= j < |places| ==> places[j] < |h|
  {
    seq(|places|, j requires 0 <= j < |places| => h[places[j]].sequence)
  }

  /** Every place asked for is among the last 512 packets, and was sent. */
  ghost predicate Recent(h: seq<Attempt>, places: seq<nat>) {
    forall j :: 0 <= j < |places| ==>
      |h| - 512 <= places[j] < |h| && h[places[j]].sent.Some? && h[places[j]].sent.value != []
  }

  function PacketsAt(h: seq<Attempt>, places: seq<nat>): (packets: seq<seq<byte>>)
    requires Recent(h, places)
  {
    seq(|places|, j requires 0 <= j < |places| => h[places[j]].sent.value)
  }

  /** Asking for recent packets by number gets exactly those packets, in the order asked. */
  lemma {:induction false} AnswerExact(p: PState, inputs: seq<Input>, protect: Protect, places: seq<nat>)
    requires Recent(Stream(p, inputs, protect), places)
    ensures var h := Stream(p, inputs, protect);
            Answer(h, NumbersAt(h, places)) == PacketsAt(h, places)
    decreases |places|
  {
    hide Stream, LatestIndex;
    if places != [] {
      var h := Stream(p, inputs, protect);
      var n := |places| - 1;
      AnswerExact(p, inputs, protect, places[..n]);
      WindowExact(p, inputs, protect, places[n]);
      assert NumbersAt(h, places)[..n] == NumbersAt(h, places[..n]);
      assert PacketsAt(h, places) == PacketsAt(h, places[..n]) + [h[places[n]].sent.value];
    }
  }

  /** The whole path: a Generic NACK whose entries expand to the numbers of recent packets is
      answered with the first 128 of those packets, byte for byte as they were sent. */
  lemma NackRoundTrip(p: PState, inputs: seq<Input>, protect: Protect, places: seq<nat>,
                      sender: u32, media: u32, pairs: seq<Rtcp.Pair>)
    requires |pairs| <= 65533 && Recent(Stream(p, inputs, protect), places)
    requires Rtcp.Expand(pairs) == NumbersAt(Stream(p, inputs, protect), places)
    ensures var h := Stream(p, inputs, protect);
            var first := places[..if |places| <= 128 then |places| else 128];
            Answer(h, Rtcp.Parse(Rtcp.NOTHING, Rtcp.EncodeNack(sender, media, pairs)).nacks) == PacketsAt(h, first)
  {
    hide Stream, Answer, Rtcp.Parse, Rtcp.EncodeNack, Rtcp.Expand;
    var h := Stream(p, inputs, protect);
    var first := places[..if |places| <= 128 then |places| else 128];
    Rtcp.NackInverse(sender, media, pairs);
    assert Rtcp.First(Rtcp.Expand(pairs)) == NumbersAt(h, first);
    AnswerExact(p, inputs, protect, first);
  }

  // -------------------------------------------------------------------------
  // Lists of numbers
  // -------------------------------------------------------------------------

  /** Each number is answered by itself, in its place. */
  lemma {:induction false} AnswerConcat(h: seq<Attempt>, a: seq<u16>, b: seq<u16>)
    ensures Answer(h, a + b) == Answer(h, a) + Answer(h, b)
    decreases |b|
  {
    hide Latest, Slot;
    if b == [] {
      assert a + b == a;
    } else {
      var n := |b| - 1;
      assert (a + b)[..|a + b| - 1] == a + b[..n];
      AnswerConcat(h, a, b[..n]);
    }
  }

  /** No packet sent has a number congruent to this one modulo 512. */
  ghost predicate Unheard(h: seq<Attempt>, n: u16) {
    forall i :: 0 <= i < |h| && h[i].sent.Some? ==> (h[i].sequence - n) % 512 != 0
  }

  /** What a number stands for: one of the last 512 packets, or none. */
  ghost predicate StandsFor(h: seq<Attempt>, n: u16, place: Option<nat>) {
    match place
    case None => Unheard(h, n)
    case Some(i) => |h| - 512 <= i < |h| && h[i].sent.Some? && h[i].sent.value != [] && h[i].sequence == n
  }

  /** The places there are. */
  function Present(places: seq<Option<nat>>): (r: seq<nat>) {
    if places == [] then []
    else
      var last := places[|places| - 1];
      Present(places[..|places| - 1]) + if last.Some? then [last.value] else []
  }

  lemma UnheardEmpty(h: seq<Attempt>, n: u16)
    requires Unheard(h, n)
    ensures Latest(h, Slot(n)) == []
  {
    var i := LatestIndex(h, Slot(n));
    if i >= 0 {
      SameSlot(h[i].sequence, n);
      assert false;
    }
  }

  lemma SameSlot(a: u16, b: u16)
    ensures Slot(a) == Slot(b) <==> (a - b) % 512 == 0
  {
    SameRemainder(a, b);
  }

  lemma {:induction false} PresentRecent(h: seq<Attempt>, numbers: seq<u16>, places: seq<Option<nat>>)
    requires |numbers| == |places| && forall j :: 0 <= j < |numbers| ==> StandsFor(h, numbers[j], places[j])
    ensures Recent(h, Present(places))
    decreases |places|
  {
    if places != [] {
      var n := |places| - 1;
      assert StandsFor(h, numbers[n], places[n]);
      PresentRecent(h, numbers[..n], places[..n]);
    }
  }

  /** A list that mixes recent numbers with such as were never used, in any order and with repeats, is
      answered with the packets of the recent ones, in the order asked. */
  lemma {:induction false} AnswerMixed(p: PState, inputs: seq<Input>, protect: Protect, numbers: seq<u16>,
                                       places: seq<Option<nat>>)
    requires |numbers| == |places|
    requires forall j :: 0 <= j < |numbers| ==> StandsFor(Stream(p, inputs, protect), numbers[j], places[j])
    ensures var h := Stream(p, inputs, protect);
            Recent(h, Present(places)) && Answer(h, numbers) == PacketsAt(h, Present(places))
    decreases |numbers|
  {
    hide Stream, Latest, Unheard;
    var h := Stream(p, inputs, protect);
    PresentRecent(h, numbers, places);
    if numbers != [] {
      var n := |numbers| - 1;
      assert StandsFor(h, numbers[n], places[n]);
      AnswerMixed(p, inputs, protect, numbers[..n], places[..n]);
      AnswerConcat(h, numbers[..n], [numbers[n]]);
      assert numbers == numbers[..n] + [numbers[n]];
      if places[n].None? {
        UnheardEmpty(h, numbers[n]);
        OneNumber(h, numbers[n]);
        assert Answer(h, numbers[..n]) + [] == Answer(h, numbers[..n]);
      } else {
        var i := places[n].value;
        assert NumbersAt(h, [i]) == [numbers[n]];
        AnswerExact(p, inputs, protect, [i]);
        assert PacketsAt(h, Present(places)) == PacketsAt(h, Present(places[..n])) + PacketsAt(h, [i]);
      }
    }
  }

  lemma OneNumber(h: seq<Attempt>, n: u16)
    ensures Answer(h, [n]) == if Latest(h, Slot(n)) == [] then [] else [Latest(h, Slot(n))]
  {
    hide Latest;
    assert [n][..0] == [];
  }
}
