/**
 RTCP feedback, src/webrtc/rtcp.c: the compound packet parser with its NACK expansion
 (section 6.2.1 of RFC 4585), and the NTP timestamp of sender reports.
 */
module Rtcp {
  import opened Bytes

  const MAX_NACKS: nat := 128

  datatype ReceiverReport = ReceiverReport(fractionLost: byte, highestSeq: u32, jitter: u32)

  /** What one datagram reported. */
  datatype Feedback = Feedback(pli: nat, fir: nat, bye: bool, nacks: seq<u16>, rr: Option<ReceiverReport>)

  const NOTHING: Feedback := Feedback(0, 0, false, [], None)

  // -------------------------------------------------------------------------
  // NACK entries
  // -------------------------------------------------------------------------

  function Pow2(k: nat): (r: nat)
    ensures r > 0
  {
    if k == 0 then 1 else 2 * Pow2(k - 1)
  }

  predicate Bit(mask: u16, k: nat) {
    mask as int / Pow2(k) % 2 == 1
  }

  /** The numbers that bits 0 to k-1 of the mask stand for, relative to a packet number. */
  function MaskSeqs(pid: u16, mask: u16, k: nat): (r: seq<u16>)
    ensures |r| <= k
  {
    if k == 0 then []
    else MaskSeqs(pid, mask, k - 1) + if Bit(mask, k - 1) then [(pid as int + k) % 0x1_0000] else []
  }

  /** One entry: a packet number, and one bit for each of the 16 after it. */
  datatype Pair = Pair(pid: u16, blp: u16)

  function ExpandPair(p: Pair): (r: seq<u16>) {
    [p.pid] + MaskSeqs(p.pid, p.blp, 16)
  }

  function Expand(pairs: seq<Pair>): (r: seq<u16>)
  {
    if pairs == [] then [] else ExpandPair(pairs[0]) + Expand(pairs[1..])
  }

  /** The entries of a feedback control information field; a partial one at the end is ignored. */
  function Pairs(fci: seq<byte>): (r: seq<Pair>)
    decreases |fci|
  {
    if |fci| < 4 then [] else [Pair(ReadBe16(fci, 0), ReadBe16(fci, 2))] + Pairs(fci[4..])
  }

  function First(s: seq<u16>): (r: seq<u16>)
    ensures |r| <= MAX_NACKS && r <= s
  {
    if |s| <= MAX_NACKS then s else s[..MAX_NACKS]
  }

  lemma FirstConcat(a: seq<u16>, b: seq<u16>)
    ensures First(First(a) + b) == First(a + b)
    ensures First(a + First(b)) == First(a + b)
  {
  }

  // -------------------------------------------------------------------------
  // Packets
  // -------------------------------------------------------------------------

  /** Length in octets of the packet at the front, from its length field. */
  function PacketLength(d: seq<byte>): (n: nat)
    requires |d| >= 4
    ensures n >= 4
  {
    (ReadBe16(d, 2) as int + 1) * 4
  }

  function ParsePacket(fb: Feedback, p: seq<byte>): (r: Feedback)
    requires |p| >= 4
  {
    var fmt := p[0] as int % 32;
    match p[1]
    case 205 =>
      if fmt == 1 && |p| >= 12 then fb.(nacks := First(fb.nacks + Expand(Pairs(p[12..])))) else fb
    case 201 =>
      if fmt >= 1 && |p| >= 32 then fb.(rr := Some(ReceiverReport(p[12], ReadBe32(p, 16), ReadBe32(p, 20)))) else fb
    case 203 => fb.(bye := true)
    case 206 =>
      if fmt == 1 then fb.(pli := fb.pli + 1)
      else if fmt == 4 then fb.(fir := fb.fir + 1)
      else fb
    case _ => fb
  }

  predicate Complete(d: seq<byte>) {
    |d| >= 4 && d[0] as int / 64 == 2 && PacketLength(d) <= |d|
  }

  /** The compound packet: parsing stops for good at the first malformed header. */
  function Parse(fb: Feedback, d: seq<byte>): (r: Feedback)
    decreases |d|
  {
    if !Complete(d) then fb
    else Parse(ParsePacket(fb, d[..PacketLength(d)]), d[PacketLength(d)..])
  }

  // -------------------------------------------------------------------------
  // What an entry means
  // -------------------------------------------------------------------------

  /** Whether an entry asks for packet n: its own number, or a set bit for one of the 16 after it. */
  predicate Asks(p: Pair, n: u16) {
    var ahead := (n as int - p.pid as int) % 0x1_0000;
    ahead == 0 || (1 <= ahead <= 16 && Bit(p.blp, ahead - 1))
  }

  /** The same for the first k bits of the mask. */
  predicate AsksBelow(p: Pair, n: u16, k: nat) {
    var ahead := (n as int - p.pid as int) % 0x1_0000;
    1 <= ahead <= k && Bit(p.blp, ahead - 1)
  }

  lemma AheadBy(pid: u16, n: u16, k: nat)
    requires 0 <= k <= 16
    ensures n == (pid as int + k) % 0x1_0000 <==> (n as int - pid as int) % 0x1_0000 == k
  {
  }

  lemma {:induction false} MaskMeaning(p: Pair, n: u16, k: nat)
    requires k <= 16
    ensures n in MaskSeqs(p.pid, p.blp, k) <==> AsksBelow(p, n, k)
  {
    if k > 0 {
      MaskMeaning(p, n, k - 1);
      AheadBy(p.pid, n, k);
      hide Bit;
    }
  }

  /** The expansion lists exactly the numbers an entry asks for, wrapping at 2^16. */
  lemma PairMeaning(p: Pair, n: u16)
    ensures n in ExpandPair(p) <==> Asks(p, n)
  {
    MaskMeaning(p, n, 16);
    hide MaskSeqs, Bit;
    AheadBy(p.pid, n, 0);
  }

  /** So a list of entries reports n exactly when one of them asks for it. */
  lemma {:induction false} ExpandMeaning(pairs: seq<Pair>, n: u16)
    ensures n in Expand(pairs) <==> exists i :: 0 <= i < |pairs| && Asks(pairs[i], n)
  {
    hide ExpandPair, Asks;
    if pairs != [] {
      PairMeaning(pairs[0], n);
      ExpandMeaning(pairs[1..], n);
      assert forall i :: 1 <= i < |pairs| ==> pairs[i] == pairs[1..][i - 1];
    }
  }

  // -------------------------------------------------------------------------
  // Compound packets
  // -------------------------------------------------------------------------

  /** A sequence of complete packets that ends where the last one does. */
  predicate Compound(d: seq<byte>)
    decreases |d|
  {
    d == [] || (Complete(d) && Compound(d[PacketLength(d)..]))
  }

  lemma FrontPacket(a: seq<byte>, b: seq<byte>)
    requires Complete(a)
    ensures Complete(a + b) && PacketLength(a + b) == PacketLength(a)
    ensures (a + b)[..PacketLength(a)] == a[..PacketLength(a)]
    ensures (a + b)[PacketLength(a)..] == a[PacketLength(a)..] + b
  {
  }

  /** Parsing a compound and then whatever follows it is parsing the two in turn. */
  lemma {:induction false} ParseConcat(fb: Feedback, a: seq<byte>, b: seq<byte>)
    requires Compound(a)
    ensures Parse(fb, a + b) == Parse(Parse(fb, a), b)
    decreases |a|
  {
    hide ParsePacket, PacketLength;
    if a == [] {
      assert a + b == b;
    } else {
      FrontPacket(a, b);
      var n := PacketLength(a);
      ParseConcat(ParsePacket(fb, a[..n]), a[n..], b);
      hide Complete;
    }
  }

  /** Two reports taken together: counts add, flags or, lists join up to the limit, the later report wins. */
  function Merge(x: Feedback, y: Feedback): Feedback {
    Feedback(x.pli + y.pli, x.fir + y.fir, x.bye || y.bye, First(x.nacks + y.nacks),
             if y.rr.Some? then y.rr else x.rr)
  }

  lemma MergeAssociative(x: Feedback, y: Feedback, z: Feedback)
    ensures Merge(Merge(x, y), z) == Merge(x, Merge(y, z))
  {
    FirstConcat(x.nacks + y.nacks, z.nacks);
    FirstConcat(x.nacks, y.nacks + z.nacks);
    assert x.nacks + y.nacks + z.nacks == x.nacks + (y.nacks + z.nacks);
    hide First;
  }

  lemma PacketMerge(fb: Feedback, p: seq<byte>)
    requires |p| >= 4 && |fb.nacks| <= MAX_NACKS
    ensures ParsePacket(fb, p) == Merge(fb, ParsePacket(NOTHING, p))
    ensures |ParsePacket(fb, p).nacks| <= MAX_NACKS
  {
    hide Pairs, Expand;
    assert fb.nacks + [] == fb.nacks && First(fb.nacks) == fb.nacks;
    if p[1] == 205 && |p| >= 12 {
      var e := Expand(Pairs(p[12..]));
      FirstConcat(fb.nacks, e);
      assert NOTHING.nacks + e == e;
    }
  }

  /** Parsing is a homomorphism: what was reported before only merges with what the datagram reports. */
  lemma {:induction false} ParseMerge(fb: Feedback, d: seq<byte>)
    requires |fb.nacks| <= MAX_NACKS
    ensures Parse(fb, d) == Merge(fb, Parse(NOTHING, d))
    ensures |Parse(fb, d).nacks| <= MAX_NACKS
    decreases |d|
  {
    hide ParsePacket, PacketLength, First;
    if !Complete(d) {
      assert fb.nacks + [] == fb.nacks;
      FirstIdentity(fb.nacks);
    } else {
      var p, rest := d[..PacketLength(d)], d[PacketLength(d)..];
      PacketMerge(fb, p);
      PacketMerge(NOTHING, p);
      ParseMerge(ParsePacket(fb, p), rest);
      ParseMerge(ParsePacket(NOTHING, p), rest);
      hide Merge, Complete;
      MergeAssociative(fb, ParsePacket(NOTHING, p), Parse(NOTHING, rest));
    }
  }

  lemma FirstIdentity(s: seq<u16>)
    requires |s| <= MAX_NACKS
    ensures First(s) == s
  {
  }

  /** A compound followed by anything reports the merge of what each part reports. */
  lemma Compositional(a: seq<byte>, b: seq<byte>)
    requires Compound(a)
    ensures Parse(NOTHING, a + b) == Merge(Parse(NOTHING, a), Parse(NOTHING, b))
  {
    hide Parse, Merge, Compound;
    ParseConcat(NOTHING, a, b);
    ParseMerge(NOTHING, a);
    ParseMerge(Parse(NOTHING, a), b);
  }

  // -------------------------------------------------------------------------
  // The NACK encoder that parsing inverts
  // -------------------------------------------------------------------------

  function EncodePairs(pairs: seq<Pair>): (r: seq<byte>)
    ensures |r| == 4 * |pairs|
  {
    if pairs == [] then []
    else Be16(pairs[0].pid) + Be16(pairs[0].blp) + EncodePairs(pairs[1..])
  }

  /** A Generic NACK packet, section 6.2.1 of RFC 4585. */
  function EncodeNack(sender: u32, media: u32, pairs: seq<Pair>): (r: seq<byte>)
    requires |pairs| <= 65533
    ensures |r| == 12 + 4 * |pairs|
  {
    [129, 205] + Be16(2 + |pairs|) + Be32(sender) + Be32(media) + EncodePairs(pairs)
  }

  lemma OnePair(p: Pair, tail: seq<byte>)
    ensures Pairs(Be16(p.pid) + Be16(p.blp) + tail) == [p] + Pairs(tail)
  {
    var s := Be16(p.pid) + Be16(p.blp) + tail;
    assert s[0] == Be16(p.pid)[0] && s[1] == Be16(p.pid)[1] && s[2] == Be16(p.blp)[0] && s[3] == Be16(p.blp)[1];
    assert s[4..] == tail;
  }

  lemma {:induction false} PairsInverse(pairs: seq<Pair>)
    ensures Pairs(EncodePairs(pairs)) == pairs
  {
    if pairs != [] {
      PairsInverse(pairs[1..]);
      OnePair(pairs[0], EncodePairs(pairs[1..]));
    }
  }

  lemma NackFrame(sender: u32, media: u32, pairs: seq<Pair>)
    requires |pairs| <= 65533
    ensures var r := EncodeNack(sender, media, pairs);
      Complete(r) && PacketLength(r) == |r| && r[0] as int % 32 == 1 && r[1] == 205 && r[12..] == EncodePairs(pairs)
  {
    var r := EncodeNack(sender, media, pairs);
    var size := Be16(2 + |pairs|);
    assert r[0] == 129 && r[1] == 205 && r[2] == size[0] && r[3] == size[1];
    assert ReadBe16(r, 2) == ReadBe16(size, 0);
  }

  /** Parsing an encoded NACK reports the first 128 numbers of its expansion, in order, and nothing else. */
  lemma NackInverse(sender: u32, media: u32, pairs: seq<Pair>)
    requires |pairs| <= 65533
    ensures Compound(EncodeNack(sender, media, pairs))
    ensures Parse(NOTHING, EncodeNack(sender, media, pairs)) == NOTHING.(nacks := First(Expand(pairs)))
  {
    hide EncodeNack, PacketLength, First, Expand, Pairs, EncodePairs;
    var r := EncodeNack(sender, media, pairs);
    NackFrame(sender, media, pairs);
    PairsInverse(pairs);
    assert r[..|r|] == r && r[|r|..] == [];
    assert NOTHING.nacks + Expand(pairs) == Expand(pairs);
  }

  // -------------------------------------------------------------------------
  // The parser
  // -------------------------------------------------------------------------

  /** What is listed once an entry's number and its first `bit` mask bits are handled. */
  function Upto(seen: seq<u16>, p: Pair, bit: nat): seq<u16> {
    seen + [p.pid] + MaskSeqs(p.pid, p.blp, bit)
  }

  lemma UptoStart(seen: seq<u16>, p: Pair)
    ensures Upto(seen, p, 0) == seen + [p.pid]
  {
  }

  lemma UptoStep(seen: seq<u16>, p: Pair, bit: nat)
    ensures Upto(seen, p, bit + 1) ==
            Upto(seen, p, bit) + if Bit(p.blp, bit) then [(p.pid as int + bit + 1) % 0x1_0000] else []
  {
    hide Bit;
  }

  lemma {:induction false} MaskGrows(pid: u16, mask: u16, j: nat, k: nat)
    requires j <= k
    ensures MaskSeqs(pid, mask, j) <= MaskSeqs(pid, mask, k)
  {
    hide Bit;
    if j < k {
      MaskGrows(pid, mask, j, k - 1);
    }
  }

  /** The loop may stop early at a full table: the remaining bits would not fit. */
  lemma UptoFull(seen: seq<u16>, p: Pair, bit: nat)
    requires bit <= 16 && (bit == 16 || |First(Upto(seen, p, bit))| == MAX_NACKS)
    ensures First(Upto(seen, p, bit)) == First(seen + ExpandPair(p))
  {
    MaskGrows(p.pid, p.blp, bit, 16);
    hide MaskSeqs;
    assert seen + ExpandPair(p) == Upto(seen, p, 16);
  }

  lemma FullTable(a: seq<u16>, rest: seq<u16>)
    requires |a| == MAX_NACKS
    ensures First(a + rest) == a
  {
  }

  lemma EntryFront(fci: seq<byte>)
    requires |fci| >= 4
    ensures Expand(Pairs(fci)) ==
            ExpandPair(Pair(ReadBe16(fci, 0), ReadBe16(fci, 2))) + Expand(Pairs(fci[4..]))
  {
    hide ExpandPair;
    assert Pairs(fci)[1..] == Pairs(fci[4..]);
  }

  /** One entry consumed from the front of what is left of the field. */
  lemma EntryStep(seen: seq<u16>, entry: seq<u16>, rest: seq<u16>)
    ensures First(seen + (entry + rest)) == First(First(seen + entry) + rest)
  {
    FirstConcat(seen + entry, rest);
    hide First;
    assert seen + (entry + rest) == seen + entry + rest;
  }

  lemma FieldEnd(seen: seq<u16>, fci: seq<byte>)
    requires |seen| <= MAX_NACKS && (|fci| < 4 || |seen| == MAX_NACKS)
    ensures First(seen + Expand(Pairs(fci))) == seen
  {
    hide Expand, ExpandPair;
    if |fci| < 4 {
      assert Pairs(fci) == [] && Expand([]) == [] by { NoEntries(); }
      assert seen + [] == seen;
    } else {
      FullTable(seen, Expand(Pairs(fci)));
    }
  }

  lemma NoEntries()
    ensures Expand([]) == []
  {
  }

  class RtcpFeedback {
    var pli: nat
    var fir: nat
    var bye: bool
    var nackSeqs: nat
    const nackSeq: array<u16>
    var hasRr: bool
    var rrFractionLost: byte
    var rrJitter: u32
    var rrHighestSeq: u32

    constructor ()
      ensures Valid() && View() == NOTHING && fresh(nackSeq)
    {
      pli, fir, bye, nackSeqs := 0, 0, false, 0;
      nackSeq := new u16[MAX_NACKS](i => 0);
      hasRr, rrFractionLost, rrJitter, rrHighestSeq := false, 0, 0, 0;
    }

    ghost predicate Valid()
      reads this`nackSeqs
    {
      nackSeq.Length == MAX_NACKS && nackSeqs <= MAX_NACKS
    }

    ghost function Nacks(): (r: seq<u16>)
      reads this`nackSeqs, nackSeq
      requires Valid()
      ensures |r| == nackSeqs
    {
      nackSeq[..nackSeqs]
    }

    ghost function View(): Feedback
      reads this, nackSeq
      requires Valid()
    {
      Feedback(pli, fir, bye, Nacks(),
               if hasRr then Some(ReceiverReport(rrFractionLost, rrHighestSeq, rrJitter)) else None)
    }

    /** Record one number, unless the table is full. */
    method Add(n: u16)
      requires Valid()
      modifies this`nackSeqs, nackSeq
      ensures Valid() && Nacks() == First(old(Nacks()) + [n])
    {
      if nackSeqs < MAX_NACKS {
        nackSeq[nackSeqs] := n;
        nackSeqs := nackSeqs + 1;
        assert Nacks() == old(Nacks()) + [n];
      } else {
        FullTable(Nacks(), [n]);
      }
    }

    /** One NACK entry: the packet number and the numbers its mask stands for. */
    method AddPair(p: Pair)
      requires Valid()
      modifies this`nackSeqs, nackSeq
      ensures Valid() && Nacks() == First(old(Nacks()) + ExpandPair(p))
    {
      hide Upto, First, MaskSeqs, ExpandPair;
      ghost var seen := Nacks();
      Add(p.pid);
      UptoStart(seen, p);
      var bit := 0;
      var power := 1;
      while bit < 16 && nackSeqs < MAX_NACKS
        invariant 0 <= bit <= 16 && Valid() && power == Pow2(bit)
        invariant Nacks() == First(Upto(seen, p, bit))
      {
        UptoStep(seen, p, bit);
        if p.blp as int / power % 2 == 1 {
          FirstConcat(Upto(seen, p, bit), [(p.pid as int + bit + 1) % 0x1_0000]);
          Add((p.pid as int + bit + 1) % 0x1_0000);
        } else {
          assert Upto(seen, p, bit) + [] == Upto(seen, p, bit);
        }
        bit := bit + 1;
        power := power * 2;
      }
      UptoFull(seen, p, bit);
    }

    /** The entries between two offsets of the datagram. */
    method AddEntries(buffer: seq<byte>, fci: nat, end: nat)
      requires Valid() && fci <= end <= |buffer|
      modifies this`nackSeqs, nackSeq
      ensures Valid() && Nacks() == First(old(Nacks()) + Expand(Pairs(buffer[fci..end])))
    {
      hide First, Expand, Pairs, ExpandPair;
      var i := fci;
      while i + 4 <= end && nackSeqs < MAX_NACKS
        invariant fci <= i <= end && Valid()
        invariant First(Nacks() + Expand(Pairs(buffer[i..end]))) == First(old(Nacks()) + Expand(Pairs(buffer[fci..end])))
        decreases end - i
      {
        var p := Pair(ReadBe16(buffer, i), ReadBe16(buffer, i + 2));
        EntryFront(buffer[i..end]);
        assert buffer[i..end][4..] == buffer[i + 4..end];
        EntryStep(Nacks(), ExpandPair(p), Expand(Pairs(buffer[i + 4..end])));
        AddPair(p);
        i := i + 4;
      }
      FieldEnd(Nacks(), buffer[i..end]);
    }

    /** One packet of the compound, at an offset of the datagram. */
    method AddPacket(buffer: seq<byte>, offset: nat, end: nat)
      requires Valid() && offset + 4 <= end <= |buffer|
      modifies this, nackSeq
      ensures Valid() && View() == ParsePacket(old(View()), buffer[offset..end])
    {
      hide First, Expand, Pairs;
      ghost var p := buffer[offset..end];
      var fmt := buffer[offset] as int % 32;
      match buffer[offset + 1]
      case 205 =>
        if fmt == 1 && offset + 12 <= end {
          AddEntries(buffer, offset + 12, end);
          assert p[12..] == buffer[offset + 12..end];
        }
      case 201 =>
        if fmt >= 1 && end - offset >= 32 {
          hasRr := true;
          rrFractionLost := buffer[offset + 12];
          rrHighestSeq := ReadBe32(buffer, offset + 16);
          rrJitter := ReadBe32(buffer, offset + 20);
        }
      case 203 => bye := true;
      case 206 =>
        if fmt == 1 {
          pli := pli + 1;
        } else if fmt == 4 {
          fir := fir + 1;
        }
      case _ =>
    }

    /** rtcp_parse: clears the report, then walks the datagram until its end or a malformed header. */
    method ParseDatagram(buffer: seq<byte>)
      requires Valid()
      modifies this, nackSeq
      ensures Valid() && View() == Parse(NOTHING, buffer)
    {
      hide ParsePacket, First;
      pli, fir, bye, nackSeqs, hasRr := 0, 0, false, 0, false;
      assert View() == NOTHING;
      var offset := 0;
      assert buffer[0..] == buffer;
      while offset + 4 <= |buffer|
        invariant offset <= |buffer| && Valid()
        invariant Parse(View(), buffer[offset..]) == Parse(NOTHING, buffer)
        decreases |buffer| - offset
      {
        ghost var rest := buffer[offset..];
        if buffer[offset] as int / 64 != 2 {
          return;
        }
        var length := (ReadBe16(buffer, offset + 2) as int + 1) * 4;
        if offset + length > |buffer| {
          return;
        }
        assert rest[..PacketLength(rest)] == buffer[offset..offset + length];
        assert rest[PacketLength(rest)..] == buffer[offset + length..];
        AddPacket(buffer, offset, offset + length);
        offset := offset + length;
      }
    }
  }

  // -------------------------------------------------------------------------
  // Sender reports
  // -------------------------------------------------------------------------

  const SR_SIZE: nat := 28

  /** Fraction of a second in units of 2^-32, the low half of an NTP timestamp. */
  function NtpFraction(us: u64): (f: u32)
    ensures f as int * 1_000_000 <= us as int % 1_000_000 * 0x1_0000_0000 < (f as int + 1) * 1_000_000
  {
    (us as int % 1_000_000) * 0x1_0000_0000 / 1_000_000
  }

  /** Seconds since 1900, kept to 32 bits. */
  function NtpSeconds(us: u64): (s: u32) {
    (us as int / 1_000_000 + 2_208_988_800) % 0x1_0000_0000
  }

  /** The microsecond a fraction came from: scaled back and rounded up. */
  function MicrosOf(f: u32): nat {
    (f as int * 1_000_000 + 0xFFFF_FFFF) / 0x1_0000_0000
  }

  /** The fraction loses nothing: the microsecond of the second can be read back exactly. */
  lemma FractionExact(us: u64)
    ensures MicrosOf(NtpFraction(us)) == us as int % 1_000_000
  {
    var m, f := us as int % 1_000_000, NtpFraction(us) as int;
    hide NtpFraction;
    assert m * 0x1_0000_0000 - 1_000_000 < f * 1_000_000 <= m * 0x1_0000_0000;
  }

  /** Within a second, later microseconds have larger fractions. */
  lemma FractionMonotone(a: u64, b: u64)
    requires a as int % 1_000_000 < b as int % 1_000_000
    ensures NtpFraction(a) < NtpFraction(b)
  {
    hide NtpFraction, MicrosOf;
    FractionExact(a);
    FractionExact(b);
    MicrosMonotone(NtpFraction(a), NtpFraction(b));
  }

  lemma MicrosMonotone(x: u32, y: u32)
    ensures x >= y ==> MicrosOf(x) >= MicrosOf(y)
  {
  }

  function SenderReport(ssrc: u32, us: u64, timestamp: u32, packets: u32, octets: u32): (r: seq<byte>)
    ensures |r| == SR_SIZE
  {
    [0x80, 200] + Be16(6) + Be32(ssrc) + Be32(NtpSeconds(us)) + Be32(NtpFraction(us)) + Be32(timestamp) +
    Be32(packets) + Be32(octets)
  }

  /** rtcp_build_sender_report. */
  method BuildSenderReport(out: array<byte>, ssrc: u32, us: u64, timestamp: u32, packets: u32, octets: u32)
    returns (size: nat)
    requires out.Length >= SR_SIZE
    modifies out
    ensures size == SR_SIZE
    ensures out[..] == SenderReport(ssrc, us, timestamp, packets, octets) + old(out[SR_SIZE..])
  {
    hide NtpSeconds, NtpFraction, Be16, Be32;
    out[0], out[1] := 0x80, 200;
    assert out[..2] == [0x80, 200];
    WriteBe16(out, 2, 6);
    WriteBe32(out, 4, ssrc);
    WriteBe32(out, 8, NtpSeconds(us));
    WriteBe32(out, 12, NtpFraction(us));
    WriteBe32(out, 16, timestamp);
    WriteBe32(out, 20, packets);
    WriteBe32(out, 24, octets);
    assert out[..] == out[..SR_SIZE] + out[SR_SIZE..];
    assert out[SR_SIZE..] == old(out[SR_SIZE..]);
    size := SR_SIZE;
  }

  /** A sender report is never taken for feedback: in front of any datagram it changes nothing. */
  lemma ReportIsNotFeedback(ssrc: u32, us: u64, timestamp: u32, packets: u32, octets: u32, fb: Feedback, b: seq<byte>)
    ensures Parse(fb, SenderReport(ssrc, us, timestamp, packets, octets) + b) == Parse(fb, b)
  {
    var r := SenderReport(ssrc, us, timestamp, packets, octets);
    assert r[0] == 0x80 && r[1] == 200 && r[2] == 0 && r[3] == 6;
    assert PacketLength(r) == SR_SIZE;
    FrontPacket(r, b);
    assert r[..SR_SIZE] == r && r[SR_SIZE..] + b == b;
  }

  datatype Report = Report(ssrc: u32, wallUs: nat, timestamp: u32, packets: u32, octets: u32)

  /** A receiver of sender reports, section 6.4.1 of RFC 3550: the wall clock, counted from 1900 in the
      first two words, is turned back into microseconds since 1970. */
  function ReadReport(d: seq<byte>): (r: Option<Report>) {
    if |d| != 28 || d[0] != 128 || d[1] != 200 || d[2] != 0 || d[3] != 6 then None
    else
      var seconds := (ReadBe32(d, 8) as int - (70 * 365 + 17) * 86400) % 0x1_0000_0000;
      Some(Report(ReadBe32(d, 4), seconds * 1_000_000 + MicrosOf(ReadBe32(d, 12)), ReadBe32(d, 16), ReadBe32(d, 20),
                  ReadBe32(d, 24)))
  }

  /** A receiver reads back everything that was reported, the time to the microsecond for the 136
      years that 32 bits of seconds cover. */
  lemma ReportReadBack(ssrc: u32, us: u64, timestamp: u32, packets: u32, octets: u32)
    ensures ReadReport(SenderReport(ssrc, us, timestamp, packets, octets)) ==
            Some(Report(ssrc, us as int / 1_000_000 % 0x1_0000_0000 * 1_000_000 + us as int % 1_000_000,
                        timestamp, packets, octets))
  {
    hide Be32, NtpFraction, MicrosOf;
    var r := SenderReport(ssrc, us, timestamp, packets, octets);
    FractionExact(us);
    SecondsBack(us);
    assert Be16(6) == [0, 6];
    assert r[..4] == [128, 200, 0, 6] && r[0] == r[..4][0] && r[1] == r[..4][1] && r[2] == r[..4][2] && r[3] == r[..4][3];
    ReadWord(r, 4, ssrc);
    ReadWord(r, 8, NtpSeconds(us));
    ReadWord(r, 12, NtpFraction(us));
    ReadWord(r, 16, timestamp);
    ReadWord(r, 20, packets);
    ReadWord(r, 24, octets);
  }

  lemma ReadWord(d: seq<byte>, at: nat, v: u32)
    requires at + 4 <= |d| && d[at..at + 4] == Be32(v)
    ensures ReadBe32(d, at) == v
  {
    hide Be32;
    assert d[at..at + 4][0] == d[at] && d[at..at + 4][1] == d[at + 1];
    assert d[at..at + 4][2] == d[at + 2] && d[at..at + 4][3] == d[at + 3];
    assert ReadBe32(d, at) == ReadBe32(Be32(v), 0);
  }

  lemma SecondsBack(us: u64)
    ensures (NtpSeconds(us) as int - (70 * 365 + 17) * 86400) % 0x1_0000_0000 == us as int / 1_000_000 % 0x1_0000_0000
  {
    ShiftBack(us as int / 1_000_000, 2_208_988_800);
  }

  lemma ShiftBack(x: nat, y: nat)
    ensures ((x + y) % 0x1_0000_0000 - y) % 0x1_0000_0000 == x % 0x1_0000_0000
  {
  }

  // -------------------------------------------------------------------------
  // Feedback as receivers send it
  // -------------------------------------------------------------------------

  /** One whole packet with this header, whatever follows the header. */
  predicate WholePacket(d: seq<byte>, kind: byte, count: nat) {
    && 4 <= |d| && count < 32
    && d[0] as int == 128 + count && d[1] == kind
    && 4 * (d[2] as int * 256 + d[3] as int + 1) == |d|
  }

  lemma OnePacket(fb: Feedback, d: seq<byte>, kind: byte, count: nat)
    requires WholePacket(d, kind, count)
    ensures Compound(d) && Parse(fb, d) == ParsePacket(fb, d) && d[0] as int % 32 == count
  {
    assert PacketLength(d) == |d| && d[..|d|] == d && d[|d|..] == [];
  }

  /** A picture loss indication, section 6.3.1 of RFC 4585. */
  function EncodePli(sender: u32, media: u32): (d: seq<byte>) {
    [129, 206, 0, 2] + Be32(sender) + Be32(media)
  }

  /** A full intra request for some sources, section 4.3.1 of RFC 5104. */
  function EncodeFir(sender: u32, entries: seq<(u32, byte)>): (d: seq<byte>)
    requires |entries| <= 32000
    ensures |d| == 12 + 8 * |entries|
  {
    [132, 206] + Be16(2 + 2 * |entries|) + Be32(sender) + Be32(0) + FirEntries(entries)
  }

  function FirEntries(entries: seq<(u32, byte)>): (d: seq<byte>)
    ensures |d| == 8 * |entries|
  {
    if entries == [] then [] else Be32(entries[0].0) + [entries[0].1, 0, 0, 0] + FirEntries(entries[1..])
  }

  /** A goodbye of some sources with any reason, padded to words; section 6.6 of RFC 3550. */
  function EncodeBye(sources: seq<u32>, reason: seq<byte>): (d: seq<byte>)
    requires |sources| < 32 && |reason| % 4 == 0 && |reason| <= 256
    ensures |d| == 4 + 4 * |sources| + |reason|
  {
    [128 + |sources|, 203] + Be16(|sources| + |reason| / 4) + Words(sources) + reason
  }

  function Words(ws: seq<u32>): (d: seq<byte>)
    ensures |d| == 4 * |ws|
  {
    if ws == [] then [] else Be32(ws[0]) + Words(ws[1..])
  }

  /** A report block: the source, fraction lost, the three octets of the cumulative loss, the highest
      number received, the jitter, and the last report with the delay since. */
  datatype Block = Block(source: u32, lost: byte, cumulative: seq<byte>, highest: u32, jitter: u32, last: u32, delay: u32)

  function EncodeBlock(b: Block): (d: seq<byte>)
    requires |b.cumulative| == 3
    ensures |d| == 24
  {
    Be32(b.source) + [b.lost] + b.cumulative + Be32(b.highest) + Be32(b.jitter) + Be32(b.last) + Be32(b.delay)
  }

  ghost predicate AllBlocks(blocks: seq<Block>) {
    forall i :: 0 <= i < |blocks| ==> |blocks[i].cumulative| == 3
  }

  ghost function EncodeBlocks(blocks: seq<Block>): (d: seq<byte>)
    requires AllBlocks(blocks)
    ensures |d| == 24 * |blocks|
  {
    if blocks == [] then [] else EncodeBlock(blocks[0]) + EncodeBlocks(blocks[1..])
  }

  /** A receiver report, section 6.4.2 of RFC 3550. */
  ghost function EncodeRr(sender: u32, blocks: seq<Block>): (d: seq<byte>)
    requires |blocks| < 32 && AllBlocks(blocks)
    ensures |d| == 8 + 24 * |blocks|
  {
    [128 + |blocks|, 201] + Be16(1 + 6 * |blocks|) + Be32(sender) + EncodeBlocks(blocks)
  }

  /** The header of an encoded packet. */
  lemma Header(d: seq<byte>, count: nat, kind: byte, words: u16, rest: seq<byte>)
    requires count < 32 && d == [128 + count, kind] + Be16(words) + rest && |rest| == 4 * words
    ensures WholePacket(d, kind, count)
  {
    assert d[2] == Be16(words)[0] && d[3] == Be16(words)[1];
  }

  /** A PLI asks for one picture, a FIR for one, and neither reports anything else. */
  lemma KeyframeRequestsParse(sender: u32, media: u32, entries: seq<(u32, byte)>)
    requires |entries| <= 32000
    ensures Parse(NOTHING, EncodePli(sender, media)) == Feedback(1, 0, false, [], None)
    ensures Parse(NOTHING, EncodeFir(sender, entries)) == Feedback(0, 1, false, [], None)
  {
    hide Be32, FirEntries, Parse;
    OnePacket(NOTHING, EncodePli(sender, media), 206, 1);
    var fir := EncodeFir(sender, entries);
    var rest := Be32(sender) + Be32(0) + FirEntries(entries);
    assert fir == [132, 206] + Be16(2 + 2 * |entries|) + rest;
    Header(fir, 4, 206, 2 + 2 * |entries|, rest);
    OnePacket(NOTHING, fir, 206, 4);
  }

  /** A BYE says goodbye, whatever sources it names, and nothing else. */
  lemma ByeParses(sources: seq<u32>, reason: seq<byte>)
    requires |sources| < 32 && |reason| % 4 == 0 && |reason| <= 256
    ensures Parse(NOTHING, EncodeBye(sources, reason)) == Feedback(0, 0, true, [], None)
  {
    hide Words, Parse;
    var d := EncodeBye(sources, reason);
    assert d == [128 + |sources|, 203] + Be16(|sources| + |reason| / 4) + (Words(sources) + reason);
    Header(d, |sources|, 203, |sources| + |reason| / 4, Words(sources) + reason);
    OnePacket(NOTHING, d, 203, |sources|);
  }

  /** A receiver report gives the three figures of its first block, if it has one, and nothing else. */
  lemma ReceiverReportParses(sender: u32, blocks: seq<Block>)
    requires |blocks| < 32 && AllBlocks(blocks)
    ensures Parse(NOTHING, EncodeRr(sender, blocks)) ==
            Feedback(0, 0, false, [], if blocks == [] then None
                                      else Some(ReceiverReport(blocks[0].lost, blocks[0].highest, blocks[0].jitter)))
  {
    hide Be32, Parse;
    var d := EncodeRr(sender, blocks);
    var rest := Be32(sender) + EncodeBlocks(blocks);
    assert d == [128 + |blocks|, 201] + Be16(1 + 6 * |blocks|) + rest;
    Header(d, |blocks|, 201, 1 + 6 * |blocks|, rest);
    OnePacket(NOTHING, d, 201, |blocks|);
    if blocks != [] {
      var b := EncodeBlock(blocks[0]);
      FirstBlock(blocks[0]);
      assert d[8..32] == b;
      assert d[12] == d[8..32][4];
      assert d[16..20] == d[8..32][8..12] && d[20..24] == d[8..32][12..16];
      ReadWord(d, 16, blocks[0].highest);
      ReadWord(d, 20, blocks[0].jitter);
    }
  }

  lemma FirstBlock(b: Block)
    requires |b.cumulative| == 3
    ensures var d := EncodeBlock(b); d[4] == b.lost && d[8..12] == Be32(b.highest) && d[12..16] == Be32(b.jitter)
  {
    hide Be32;
  }

  /** Every other packet is passed over: other types, other formats of feedback, and receiver reports
      without a whole block. */
  lemma OthersIgnored(fb: Feedback, d: seq<byte>, kind: byte, count: nat)
    requires WholePacket(d, kind, count) && kind != 203
    requires kind == 205 ==> count != 1
    requires kind == 206 ==> count != 1 && count != 4
    requires kind == 201 ==> count == 0 || |d| < 32
    ensures Parse(fb, d) == fb
  {
    hide Parse;
    OnePacket(fb, d, kind, count);
  }
}
