/**
 The receive queue between the socket and OpenSSL in src/webrtc/dtls_srtp.c: 64 datagrams, the
 oldest dropped on overflow, read back through the custom BIO one datagram per call.
 */
module DtlsRx {
  import opened Bytes

  const SLOTS: nat := 64

  function Slot(head: nat, i: nat): (s: nat)
    requires head < SLOTS && i <= SLOTS
    ensures s < SLOTS && s == (head + i) % SLOTS
  {
    if head + i < SLOTS then head + i else head + i - SLOTS
  }

  // -------------------------------------------------------------------------
  // Histories
  // -------------------------------------------------------------------------

  /** Everything that arrived, and by its place in that order what was read, what was dropped on
      overflow, and what was thrown away for not fitting the reader's buffer. The rest is waiting. */
  datatype History = History(arrived: seq<seq<byte>>, waiting: nat, read: seq<nat>, dropped: nat, oversize: nat)

  function Oldest(h: History): int {
    |h.arrived| - h.waiting
  }

  function Arrive(h: History, packet: seq<byte>): (r: History) {
    if h.waiting >= SLOTS then h.(arrived := h.arrived + [packet], dropped := h.dropped + 1)
    else h.(arrived := h.arrived + [packet], waiting := h.waiting + 1)
  }

  function Read(h: History, size: nat): (r: History)
    ensures r.arrived == h.arrived
  {
    if h.waiting == 0 || h.waiting > |h.arrived| then h
    else if size < |h.arrived[Oldest(h)]| then h.(waiting := h.waiting - 1, oversize := h.oversize + 1)
    else h.(waiting := h.waiting - 1, read := h.read + [Oldest(h)])
  }

  /** OpenSSL sees datagrams in the order they arrived, none twice; the unread ones are the latest
      64 at most; and every datagram is accounted for. */
  ghost predicate Ordered(h: History) {
    && h.waiting <= |h.arrived| && h.waiting <= SLOTS
    && (forall i, j :: 0 <= i < j < |h.read| ==> h.read[i] < h.read[j])
    && (forall i :: 0 <= i < |h.read| ==> h.read[i] < Oldest(h))
    && |h.arrived| == |h.read| + h.dropped + h.oversize + h.waiting
  }

  datatype Op = ArriveOp(packet: seq<byte>) | ReadOp(size: nat)

  ghost predicate Runs(h: History, ops: seq<Op>, t: History)
    decreases |ops|
  {
    if ops == [] then h == t
    else
      match ops[0]
      case ArriveOp(packet) => Runs(Arrive(h, packet), ops[1..], t)
      case ReadOp(size) => Runs(Read(h, size), ops[1..], t)
  }

  lemma {:induction false} RunOrdered(h: History, ops: seq<Op>, t: History)
    requires Ordered(h) && Runs(h, ops, t)
    ensures Ordered(t)
    decreases |ops|
  {
    if ops != [] {
      match ops[0] {
        case ArriveOp(packet) => RunOrdered(Arrive(h, packet), ops[1..], t);
        case ReadOp(size) => RunOrdered(Read(h, size), ops[1..], t);
      }
    }
  }

  /** Several reads in a row, with buffers of these sizes. */
  function ReadAll(h: History, sizes: seq<nat>): (r: History)
    ensures r.arrived == h.arrived
  {
    if sizes == [] then h else Read(ReadAll(h, sizes[..|sizes| - 1]), sizes[|sizes| - 1])
  }

  lemma {:induction false} ReadAllOrdered(h: History, sizes: seq<nat>)
    requires Ordered(h)
    ensures Ordered(ReadAll(h, sizes))
  {
    if sizes != [] {
      ReadAllOrdered(h, sizes[..|sizes| - 1]);
    }
  }

  lemma ArriveOrdered(h: History, packet: seq<byte>)
    requires Ordered(h)
    ensures Ordered(Arrive(h, packet)) && Arrive(h, packet).arrived == h.arrived + [packet]
  {
  }

  function ArriveAll(h: History, packets: seq<seq<byte>>): (r: History) {
    if packets == [] then h else Arrive(ArriveAll(h, packets[..|packets| - 1]), packets[|packets| - 1])
  }

  /** Without reads the queue takes 64 datagrams; only from then on each new one costs an old one. */
  lemma {:induction false} HoldsSixtyFour(packets: seq<seq<byte>>)
    ensures var h := ArriveAll(History([], 0, [], 0, 0), packets);
            && h.arrived == packets && h.read == [] && h.oversize == 0
            && h.waiting == (if |packets| <= 64 then |packets| else 64)
            && h.dropped == if |packets| <= 64 then 0 else |packets| - 64
    decreases |packets|
  {
    if packets != [] {
      HoldsSixtyFour(packets[..|packets| - 1]);
      assert packets[..|packets| - 1] + [packets[|packets| - 1]] == packets;
    }
  }

  /** A datagram that fits the reader's buffer is read, and only one that does not is thrown away. */
  lemma ReadExact(h: History, size: nat)
    requires Ordered(h) && h.waiting > 0
    ensures var next := |h.arrived| - h.waiting;
            Read(h, size) == if |h.arrived[next]| <= size then h.(waiting := h.waiting - 1, read := h.read + [next])
                             else h.(waiting := h.waiting - 1, oversize := h.oversize + 1)
  {
  }

  // -------------------------------------------------------------------------
  // The ring
  // -------------------------------------------------------------------------

  class RxRing {
    const rxq: array<seq<byte>>
    var rxHead: nat
    var rxTail: nat
    var rxCount: nat
    ghost var history: History

    ghost predicate Valid()
      reads this, rxq
    {
      && rxq.Length == SLOTS && rxHead < SLOTS && rxCount == history.waiting && Ordered(history)
      && rxTail == Slot(rxHead, rxCount)
      && forall i :: 0 <= i < rxCount ==> Holds(i)
    }

    /** The i-th unread datagram sits in its slot. */
    ghost predicate Holds(i: nat)
      reads this, rxq
      requires rxq.Length == SLOTS && rxHead < SLOTS && history.waiting <= |history.arrived|
      requires i < history.waiting <= SLOTS
    {
      rxq[Slot(rxHead, i)] == history.arrived[Oldest(history) + i]
    }

    constructor ()
      ensures Valid() && history == History([], 0, [], 0, 0) && fresh(rxq)
    {
      rxq := new seq<byte>[SLOTS](i => []);
      rxHead, rxTail, rxCount := 0, 0, 0;
      history := History([], 0, [], 0, 0);
    }

    /** Move past the oldest datagram, which `h` accounts for. */
    method Advance(ghost h: History)
      requires Valid() && rxCount > 0 && Ordered(h)
      requires h.arrived == history.arrived && h.waiting == history.waiting - 1
      modifies this`rxHead, this`rxCount, this`history
      ensures Valid() && history == h && rxCount == old(rxCount) - 1 && rxTail == old(rxTail)
    {
      rxHead := (rxHead + 1) % SLOTS;
      rxCount := rxCount - 1;
      history := h;
      forall i | 0 <= i < rxCount
        ensures Holds(i)
      {
        assert old(Holds(i + 1));
      }
    }

    /** Store behind the newest datagram. */
    method Append(packet: seq<byte>, ghost h: History)
      requires Valid() && rxCount < SLOTS && Ordered(h)
      requires h.arrived == history.arrived + [packet] && h.waiting == history.waiting + 1
      modifies this`rxTail, this`rxCount, this`history, rxq
      ensures Valid() && history == h
    {
      var tail := rxTail;
      rxq[tail] := packet;
      rxTail := (tail + 1) % SLOTS;
      rxCount := rxCount + 1;
      history := h;
      forall i | 0 <= i < rxCount
        ensures Holds(i)
      {
        if i < rxCount - 1 {
          assert old(Holds(i));
        }
      }
    }

    /** The queueing half of dtls_srtp_on_udp. */
    method OnUdp(packet: seq<byte>)
      requires Valid()
      modifies this, rxq
      ensures Valid() && history == Arrive(old(history), packet)
    {
      hide Holds;
      ghost var h := Arrive(history, packet);
      if rxCount >= SLOTS {
        Advance(history.(waiting := history.waiting - 1, dropped := history.dropped + 1));
      }
      Append(packet, h);
    }

    /** bio_rx_read: the oldest datagram, or nothing; one too large for the buffer is lost. */
    method BioRead(size: nat) returns (packet: Option<seq<byte>>)
      requires Valid()
      modifies this
      ensures Valid() && history == Read(old(history), size)
      ensures packet == if |history.read| == |old(history).read| then None
                        else Some(history.arrived[history.read[|history.read| - 1]])
    {
      if rxCount == 0 {
        return None;
      }
      assert Holds(0);
      var data := rxq[rxHead];
      Advance(Read(history, size));
      packet := if size < |data| then None else Some(data);
    }

    /** The reads of one OpenSSL call. */
    method ReadDatagrams(sizes: seq<nat>)
      requires Valid()
      modifies this
      ensures Valid() && history == ReadAll(old(history), sizes)
    {
      hide Valid, Read;
      for i := 0 to |sizes|
        invariant Valid() && history == ReadAll(old(history), sizes[..i])
      {
        assert sizes[..i + 1][..i] == sizes[..i];
        var packet := BioRead(sizes[i]);
      }
      assert sizes[..|sizes|] == sizes;
    }
  }
}
