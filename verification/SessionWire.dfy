/**
 What a session makes of a datagram, told from its octets: the ranges of the first two octets, the
 fields of a connectivity check, and RTCP packets as receivers write them.
 */
module SessionWire {
  import opened Bytes
  import opened Session
  import DtlsRx
  import Fingerprint
  import RetxCache
  import Rtcp
  import RtpStream
  import Stun

  /** The datagram counts as a sign of life, and nothing else comes of it. */
  function Heard(s: Joint, w: World): (t: Joint) {
    s.(lastRx := w.arrival)
  }

  // -------------------------------------------------------------------------
  // RTP and RTCP
  // -------------------------------------------------------------------------

  /** RTCP with any of its packet types, 192 to 223, of version 2. */
  predicate LooksRtcp(d: seq<byte>) {
    |d| >= 2 && 128 <= d[0] <= 191 && 192 <= d[1] <= 223
  }

  lemma RtcpHandled(c: Config, s: Joint, d: seq<byte>, source: Stun.Peer, w: World, plain: seq<byte>)
    requires Sound(c) && Quiescent(c, s) && s.state == Streaming && LooksRtcp(d) && w.rtcp == Some(plain)
    ensures OnUdpOf(c, s, d, source, w) == RtcpOf(c, Heard(s, w), plain, w.idrClock)
  {
    hide Authentic, RtcpOf;
    Stun.ClassOctets(d);
  }

  lemma NothingPosted(c: Config, s: Joint)
    ensures ResendOf(c, s, []) == s
  {
    assert s.log.resent + [] == s.log.resent;
  }

  /** A keyframe is asked for unless the last request was less than 400 ms ago. */
  function Refreshing(c: Config, s: Joint, now: u64): (t: Joint) {
    if c.idrHook && (s.lastIdr == 0 || (now as int - s.lastIdr as int) % 0x1_0000_0000_0000_0000 >= 400)
    then s.(lastIdr := now, idrRequested := true, log := s.log.(idrs := s.log.idrs + [now]))
    else s
  }

  /** A PLI, or a FIR with whatever entries, makes a streaming session ask for a keyframe, subject to
      the limit of one in 400 ms, and does nothing else. */
  lemma KeyframeAsked(c: Config, s: Joint, d: seq<byte>, source: Stun.Peer, w: World,
                      sender: u32, media: u32, entries: seq<(u32, byte)>)
    requires Sound(c) && Quiescent(c, s) && s.state == Streaming && LooksRtcp(d) && |entries| <= 32000
    requires w.rtcp == Some(Rtcp.EncodePli(sender, media)) || w.rtcp == Some(Rtcp.EncodeFir(sender, entries))
    ensures OnUdpOf(c, s, d, source, w) == Refreshing(c, Heard(s, w), w.idrClock)
  {
    hide Rtcp.Parse, Rtcp.EncodePli, Rtcp.EncodeFir, ResendOf, OnUdpOf, Quiescent;
    Rtcp.KeyframeRequestsParse(sender, media, entries);
    RtcpHandled(c, s, d, source, w, w.rtcp.value);
    NothingPosted(c, Refreshing(c, Heard(s, w), w.idrClock));
  }

  /** A BYE closes a streaming session: both machines, one shutdown message, and the hook told once. */
  lemma ByeCloses(c: Config, s: Joint, d: seq<byte>, source: Stun.Peer, w: World, sources: seq<u32>, reason: seq<byte>)
    requires Sound(c) && Quiescent(c, s) && s.state == Streaming && LooksRtcp(d)
    requires |sources| < 32 && |reason| % 4 == 0 && |reason| <= 256
    requires w.rtcp == Some(Rtcp.EncodeBye(sources, reason))
    ensures OnUdpOf(c, s, d, source, w) ==
            s.(lastRx := w.arrival, state := Closed, dtls := Shut,
               log := s.log.(closes := if c.closeHook then 1 else 0, shutdowns := s.log.shutdowns + 1))
  {
    hide Rtcp.Parse, Rtcp.EncodeBye, ResendOf, OnUdpOf, Authentic;
    Rtcp.ByeParses(sources, reason);
    RtcpHandled(c, s, d, source, w, w.rtcp.value);
  }

  /** After any run that leaves a session streaming, an RTCP datagram that decrypts to a NACK for recent
      packets has the first 128 of them sent again, in the order asked, to the source of the latest
      accepted check, and does nothing else. */
  lemma NackAnswered(c: Config, now: u64, events: seq<Event>, d: seq<byte>, source: Stun.Peer, w: World,
                     places: seq<nat>, sender: u32, media: u32, pairs: seq<Rtcp.Pair>)
    requires Sound(c) && |pairs| <= 65533 && RunOf(c, Fresh(now), events).state == Streaming
    requires LooksRtcp(d) && w.rtcp == Some(Rtcp.EncodeNack(sender, media, pairs))
    requires RetxCache.Recent(Sent(c, RunOf(c, Fresh(now), events)), places)
    requires Rtcp.Expand(pairs) == RetxCache.NumbersAt(Sent(c, RunOf(c, Fresh(now), events)), places)
    ensures var s := RunOf(c, Fresh(now), events);
            var first := places[..if |places| <= 128 then |places| else 128];
            var packets := Posted(LatestCheck(c, events), RetxCache.PacketsAt(Sent(c, s), first));
            OnUdpOf(c, s, d, source, w) == s.(lastRx := w.arrival, log := s.log.(resent := s.log.resent + packets))
  {
    hide RunOf, Rtcp.Parse, Rtcp.EncodeNack, Rtcp.Expand, RetxCache.Stream, RetxCache.Answer, IsCheck, Quiescent,
         OnUdpOf;
    var s := RunOf(c, Fresh(now), events);
    RunQuiescent(c, now, events);
    RunPeer(c, now, events);
    RtcpHandled(c, s, d, source, w, w.rtcp.value);
    RetxCache.NackRoundTrip(Unsent(c), s.inputs, c.protect, places, sender, media, pairs);
    Rtcp.NackInverse(sender, media, pairs);
  }

  /** Media from the peer is not wanted: with a second octet that is not of RTCP nothing comes of it. */
  lemma MediaIgnored(c: Config, s: Joint, d: seq<byte>, source: Stun.Peer, w: World)
    requires Sound(c) && s.state != Closed
    requires |d| >= 2 && 128 <= d[0] && !(64 <= d[1] as int % 128 <= 95)
    ensures OnUdpOf(c, s, d, source, w) == Heard(s, w)
  {
    Stun.ClassOctets(d);
  }

  /** RTCP that comes too early, or does not decrypt, is not looked at. */
  lemma UnreadableIgnored(c: Config, s: Joint, d: seq<byte>, source: Stun.Peer, w: World)
    requires Sound(c) && s.state != Closed && d != [] && 128 <= d[0] && (s.state != Streaming || w.rtcp.None?)
    ensures OnUdpOf(c, s, d, source, w) == Heard(s, w)
  {
    Stun.ClassOctets(d);
  }

  /** First octets that belong to no protocol, and empty datagrams. */
  lemma OthersIgnored(c: Config, s: Joint, d: seq<byte>, source: Stun.Peer, w: World)
    requires Sound(c) && s.state != Closed
    requires d == [] || 4 <= d[0] <= 19 || 64 <= d[0] <= 127
    ensures OnUdpOf(c, s, d, source, w) == Heard(s, w)
  {
    if d != [] {
      Stun.ClassOctets(d);
    }
  }

  // -------------------------------------------------------------------------
  // DTLS
  // -------------------------------------------------------------------------

  /** The certificate's digest is, digit by digit in either case, what follows the first blank of the
      offer's fingerprint; anyone will do if the offer has none. */
  predicate Identified(c: Config, digest: Option<seq<byte>>) {
    c.expected == "" ||
    (digest.Some? &&
     var digits := Fingerprint.Stripped(Fingerprint.AfterSpace(c.expected));
     && |digits| == 2 * |digest.value|
     && forall i :: 0 <= i < |digits| ==>
          Fingerprint.DigitValue(digits[i]) == Some(Fingerprint.HalfOctet(digest.value, i)))
  }

  lemma IdentifiedMeans(c: Config, digest: Option<seq<byte>>)
    ensures Authentic(c, digest) <==> Identified(c, digest)
  {
    hide Fingerprint.Names;
    if digest.Some? {
      Fingerprint.NamesExact(c.expected, digest.value);
    }
  }

  /** Over every run: a session that streams has checked the peer's certificate against the offer. */
  lemma RunIdentified(c: Config, now: u64, events: seq<Event>)
    requires Sound(c) && RunOf(c, Fresh(now), events).state == Streaming
    ensures Identified(c, RunOf(c, Fresh(now), events).log.checked)
  {
    hide RunOf, Authentic, Identified;
    RunQuiescent(c, now, events);
    IdentifiedMeans(c, RunOf(c, Fresh(now), events).log.checked);
  }

  /** DTLS, first octet 20 to 63, is ignored before there is a peer; afterwards OpenSSL is offered it
      behind what waits. The session closes exactly if OpenSSL reports a failure or a close notice, or
      finishes a handshake without keys for the certificate named; it streams exactly if it did, or the
      handshake finishes with them. */
  lemma DtlsHandled(c: Config, s: Joint, d: seq<byte>, source: Stun.Peer, w: World)
    requires Sound(c) && Quiescent(c, s) && s.state != Closed && d != [] && 20 <= d[0] <= 63
    ensures var t := OnUdpOf(c, s, d, source, w);
            if s.remote.None? then t == Heard(s, w)
            else
              && t.rx == DtlsRx.ReadAll(DtlsRx.Arrive(s.rx, d), w.room)
              && t.lastRx == w.arrival && t.remote == s.remote && t.inputs == s.inputs
              && (t.state == Closed <==>
                    || w.ssl == Fails || w.ssl == CloseNotify
                    || (s.state != Streaming && w.initFinished && !(w.keys && Identified(c, w.digest))))
              && (t.state == Streaming <==>
                    && w.ssl != Fails && w.ssl != CloseNotify
                    && (s.state == Streaming || (w.initFinished && w.keys && Identified(c, w.digest))))
  {
    hide Authentic, Identified, PumpOf, DtlsRx.Arrive, DtlsRx.ReadAll;
    Stun.ClassOctets(d);
    IdentifiedMeans(c, w.digest);
    if s.remote.Some? {
      QueueKeeps(c, Heard(s, w), d, w);
      PumpOutcome(c, Heard(s, w).(rx := DtlsRx.Arrive(s.rx, d)), w);
    }
  }

  // -------------------------------------------------------------------------
  // Connectivity checks
  // -------------------------------------------------------------------------

  /** The octets of a binding request: type 00 01, the magic cookie, and a length within the datagram. */
  predicate LooksRequest(m: seq<byte>) {
    |m| >= 20 && m[..2] == [0, 1] && m[4..8] == [0x21, 0x12, 0xA4, 0x42] && m[2] as int * 256 + m[3] as int + 20 <= |m|
  }

  lemma StunHandled(c: Config, s: Joint, m: seq<byte>, source: Stun.Peer, w: World)
    requires Sound(c) && s.state != Closed && m != [] && m[0] <= 3
    ensures OnUdpOf(c, s, m, source, w) == StunOf(c, Heard(s, w), m, source)
    ensures Stun.IsBindingRequest(m) <==> LooksRequest(m)
  {
    hide StunOf, Stun.IsBindingRequest;
    Stun.ClassOctets(m);
    if |m| >= 20 {
      Stun.RequestOctets(m);
    } else {
      TooShort(m);
    }
  }

  lemma TooShort(m: seq<byte>)
    requires |m| < 20
    ensures !Stun.IsBindingRequest(m)
  {
  }

  /** Anything else in the STUN range, keepalive indications included, moves nothing. */
  lemma IndicationsIgnored(c: Config, s: Joint, m: seq<byte>, source: Stun.Peer, w: World)
    requires Sound(c) && s.state != Closed && m != [] && m[0] <= 3 && !LooksRequest(m)
    ensures OnUdpOf(c, s, m, source, w) == Heard(s, w)
  {
    hide Stun.IsBindingRequest, OnUdpOf;
    StunHandled(c, s, m, source, w);
  }

  /** A check whose MESSAGE-INTEGRITY is not the HMAC of what precedes it, is of another size, or is not
      there at all, never moves the peer, whatever name it gives: it is answered with a 401. */
  lemma ForgedRefused(c: Config, s: Joint, m: seq<byte>, source: Stun.Peer, w: World,
                      before: seq<Stun.Attr>, at: nat, size: nat)
    requires Sound(c) && s.state != Closed && LooksRequest(m)
    requires || (Stun.FirstAt(m, before, at, 0x0008, size)
                 && !(size == 20 && m[at + 4..at + 24] ==
                        c.hmac(c.pwd, m[..2] + [(at + 4) / 256, (at + 4) % 256] + m[4..at])))
             || (at == Stun.MessageLength(m) + 20 && Stun.LaidOut(m, 20, at, before) && Stun.Lacks(before, 0x0008))
    ensures OnUdpOf(c, s, m, source, w) ==
            s.(lastRx := w.arrival, log := s.log.(replies := s.log.replies + [Unauthorized(source)]))
  {
    hide Stun.LaidOut, Stun.Lacks, Stun.IsBindingRequest, Stun.VerifyMi, Stun.UsernameMatches, OnUdpOf;
    assert m[0] == m[..2][0];
    StunHandled(c, s, m, source, w);
    if Stun.FirstAt(m, before, at, 0x0008, size) {
      Stun.VerifyExact(m, before, at, size, c.pwd, c.hmac);
    } else {
      Stun.UnsignedFails(m, before, c.pwd, c.hmac);
    }
  }

  /** The fate of every check that has a MESSAGE-INTEGRITY of 20 octets and a USERNAME: if the one is the
      HMAC and the other our fragment beside a colon, the peer is where it came from and gets a signed
      answer; otherwise nothing moves and it gets a 401. */
  lemma CheckExact(c: Config, s: Joint, m: seq<byte>, source: Stun.Peer, w: World,
                   before: seq<Stun.Attr>, at: nat, others: seq<Stun.Attr>, nameAt: nat, nameSize: nat)
    requires Sound(c) && s.state != Closed && LooksRequest(m)
    requires Stun.FirstAt(m, before, at, 0x0008, 20) && Stun.FirstAt(m, others, nameAt, 0x0006, nameSize)
    ensures var t := OnUdpOf(c, s, m, source, w);
            var name := m[nameAt + 4..nameAt + 4 + nameSize];
            if && m[at + 4..at + 24] == c.hmac(c.pwd, m[..2] + [(at + 4) / 256, (at + 4) % 256] + m[4..at])
               && c.ufrag != [] && (Stun.OursFirst(name, c.ufrag) || Stun.OursSecond(name, c.ufrag))
            then
              t == s.(lastRx := w.arrival, remote := Some(source), state := if s.state == New then Ice else s.state,
                      log := s.log.(replies := s.log.replies +
                                               [Success(source, Stun.Response(c.pwd, m, source, c.hmac))]))
            else t == s.(lastRx := w.arrival, log := s.log.(replies := s.log.replies + [Unauthorized(source)]))
  {
    hide Stun.LaidOut, Stun.Lacks, Stun.IsBindingRequest, Stun.VerifyMi, Stun.UsernameMatches, Stun.Response,
         Stun.OursFirst, Stun.OursSecond, OnUdpOf;
    assert m[0] == m[..2][0];
    StunHandled(c, s, m, source, w);
    Stun.VerifyExact(m, before, at, 20, c.pwd, c.hmac);
    Stun.FoundAt(m, others, nameAt, 0x0006, nameSize);
    Stun.UsernameMeaning(m, c.ufrag);
  }

  // -------------------------------------------------------------------------
  // Time
  // -------------------------------------------------------------------------

  /** A tick closes an open session for more than 15 s of silence, or for 30 s of age while only checks
      have come; otherwise a streaming one reports exactly when its next report is due, and sets the
      next for a second later. A clock behind the stamps counts as no time at all. */
  lemma TickExact(c: Config, s: Joint, now: u64, w: World)
    requires Sound(c) && Quiescent(c, s) && s.state != Closed
    ensures var t := TickOf(c, s, now, w);
            && (now as int - s.lastRx as int > 15000 || (s.state == Ice && now as int - s.created as int > 30000) ==>
                  t.state == Closed && t.log.reports == s.log.reports && t.remote == s.remote)
            && (now as int - s.lastRx as int <= 15000 && s.state == Streaming ==>
                  t == if now < s.nextSr then s
                       else s.(nextSr := (now as int + 1000) % 0x1_0000_0000_0000_0000,
                               log := s.log.(reports := s.log.reports + [now])))
            && (now as int - s.lastRx as int <= 15000 && (s.state == New || s.state == Ice) ==>
                  t == if s.state == Ice && now as int - s.created as int > 30000 then CloseOf(c, s) else s)
  {
    hide Authentic, PumpOf;
  }

  /** A session streams with its first report due a second after the handshake was finished. */
  lemma FirstReport(c: Config, s: Joint, d: seq<byte>, source: Stun.Peer, w: World)
    requires Sound(c) && Quiescent(c, s) && s.state != Streaming && OnUdpOf(c, s, d, source, w).state == Streaming
    ensures OnUdpOf(c, s, d, source, w).nextSr == (w.srClock as int + 1000) % 0x1_0000_0000_0000_0000
  {
    hide Authentic, Stun.Classify, StunOf, RtcpOf, RequestIdrOf, DtlsRx.ReadAll, DtlsRx.Arrive;
    if s.state != Closed {
      StunKeeps(c, Heard(s, w), d, source);
    }
  }

  // -------------------------------------------------------------------------
  // What is sent
  // -------------------------------------------------------------------------

  /** The access units of a run that were handed to a session while it streamed. */
  ghost function Given(c: Config, now: u64, events: seq<Event>): (inputs: seq<RtpStream.Input>)
    requires Sound(c)
  {
    if events == [] then []
    else
      var before, e := events[..|events| - 1], events[|events| - 1];
      Given(c, now, before) +
      if e.Unit? && RunOf(c, Fresh(now), before).state == Streaming then [RtpStream.Input(e.au, e.ptsUs)] else []
  }

  lemma HappenInputs(c: Config, s: Joint, e: Event)
    requires Sound(c) && Quiescent(c, s)
    ensures HappenOf(c, s, e).inputs ==
            s.inputs + if e.Unit? && s.state == Streaming then [RtpStream.Input(e.au, e.ptsUs)] else []
    ensures e.Unit? ==> HappenOf(c, s, e) ==
                        s.(inputs := HappenOf(c, s, e).inputs, idrRequested := s.idrRequested && !e.idr)
  {
    hide PumpOf, QueueOf, StunOf, SrtpOf, Stun.Classify, Authentic;
    match e
    case Datagram(d, source, w) =>
      SrtpKeeps(c, Heard(s, w), d, w);
      if s.state != Closed {
        StunKeeps(c, Heard(s, w), d, source);
        if s.remote.Some? {
          QueueKeeps(c, Heard(s, w), d, w);
        }
      }
    case TickAt(now, w) =>
      if s.dtls == Handshaking {
        PumpKeeps(c, s, w);
      }
    case Unit(au, ptsUs, idr) =>
    case CloseNow =>
  }

  /** Over every run a session packetizes exactly the access units handed to it while it streamed, in
      order, with their presentation times; its packets are those of that stream. */
  lemma {:induction false} RunSends(c: Config, now: u64, events: seq<Event>)
    requires Sound(c)
    ensures Sent(c, RunOf(c, Fresh(now), events)) == RetxCache.Stream(Unsent(c), Given(c, now, events), c.protect)
    ensures RunOf(c, Fresh(now), events).inputs == Given(c, now, events)
    decreases |events|
  {
    hide HappenOf, Quiescent, RetxCache.Stream;
    if events != [] {
      var before := events[..|events| - 1];
      RunSends(c, now, before);
      RunQuiescent(c, now, before);
      HappenInputs(c, RunOf(c, Fresh(now), before), events[|events| - 1]);
    }
  }
}
