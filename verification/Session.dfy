/**
 The life cycle of a WebRTC session, src/webrtc/webrtc_session.c and src/webrtc/dtls_srtp.c: two
 objects whose state machines call back into each other, with the receive queue in front of
 OpenSSL and the media path behind them. OpenSSL, libsrtp and the clock are oracles. The
 re-entrant methods are proved against flat functions of one joint state.
 */
module Session {
  import opened Bytes
  import Crc32
  import DtlsRx
  import Fingerprint
  import Packetizer
  import RetxCache
  import Rtcp
  import RtpStream
  import Stun

  const IDLE_TIMEOUT_MS: nat := 15000
  const WATCHDOG_MS: nat := 30000
  const IDR_MIN_INTERVAL_MS: nat := 400
  const SR_INTERVAL_MS: nat := 1000

  datatype SessionState = New | Ice | Dtls | Streaming | Closed

  datatype DtlsState = Init | Handshaking | Connected | Failed | Shut

  /** What is fixed for a session. `expected` is the fingerprint from the offer, empty when absent. */
  datatype Config = Config(pwd: seq<byte>, ufrag: seq<byte>, expected: string, idrHook: bool, closeHook: bool,
                           hmac: Stun.Hmac, table: seq<bv32>, ssrc: u32, payloadType: u32,
                           protect: RetxCache.Protect)

  ghost predicate Sound(c: Config) {
    c.pwd != [] && Stun.Sized(c.hmac) && Crc32.IsTable(c.table) && RetxCache.Trailing(c.protect)
  }

  /** The packetizer of a session that has sent nothing. */
  function Unsent(c: Config): Packetizer.PState {
    Packetizer.PState(c.ssrc, c.payloadType, 0, None, 0, 0, 0)
  }

  /** How SSL_accept and SSL_read can come back. */
  datatype Outcome = Done | Wants | Fails | CloseNotify

  /** One call's share of the outside world: what OpenSSL does if it is called and the sizes of the
      buffers it reads datagrams into, whether key export and both SRTP sessions succeed, the digest
      of the peer's certificate if there is one, SRTCP decryption, the octet behind the datagram in
      the receive buffer, and what the clock reads. */
  datatype World = World(ssl: Outcome, room: seq<nat>, initFinished: bool, keys: bool, digest: Option<seq<byte>>,
                         rtcp: Option<seq<byte>>, behind: byte, arrival: u64, idrClock: u64, srClock: u64)

  ghost predicate Possible(w: World) {
    w.digest.Some? ==> |w.digest.value| == Fingerprint.DIGEST_SIZE
  }

  datatype Reply = Unauthorized(to: Stun.Peer) | Success(to: Stun.Peer, message: seq<byte>)

  /** The joint state of a session and its DTLS object: `rx` is the receive queue's history, `inputs`
      the access units packetized, and `log` what has been done to the outside. */
  datatype Joint = Joint(
    state: SessionState,
    dtls: DtlsState,
    handshakeStarted: bool,
    srtpReady: bool,
    fingerprintOk: bool,
    remote: Option<Stun.Peer>,
    created: u64,
    lastRx: u64,
    lastIdr: u64,
    nextSr: u64,
    idrRequested: bool,
    rx: DtlsRx.History,
    inputs: seq<RtpStream.Input>,
    log: Log)

  datatype Resent = Resent(to: Stun.Peer, packet: seq<byte>)

  /** Calls of the hooks, reports attempted, replies to checks, SSL_shutdown calls, packets sent
      again, and the digest that was checked against the offer. */
  datatype Log = Log(closes: nat, idrs: seq<u64>, reports: seq<u64>, replies: seq<Reply>, shutdowns: nat,
                     resent: seq<Resent>, checked: Option<seq<byte>>)

  const SILENT: Log := Log(0, [], [], [], 0, [], None)

  const UNREAD: DtlsRx.History := DtlsRx.History([], 0, [], 0, 0)

  // -------------------------------------------------------------------------
  // The flat functions
  // -------------------------------------------------------------------------

  /** rtc_session_close: both machines closed, the hook told once. */
  function CloseOf(c: Config, s: Joint): (t: Joint) {
    if s.state == Closed then s
    else
      s.(state := Closed, dtls := Shut,
         log := s.log.(closes := s.log.closes + (if c.closeHook then 1 else 0),
                       shutdowns := s.log.shutdowns + (if s.dtls == Connected then 1 else 0)))
  }

  /** dtls_set_state with everything its callback sets off. */
  function DtlsMove(c: Config, s: Joint, d: DtlsState): (t: Joint) {
    if s.dtls == d then s
    else
      match d
      case Handshaking => s.(dtls := d, state := Dtls)
      case Failed => CloseOf(c, s.(dtls := d))
      case Shut => CloseOf(c, s.(dtls := d))
      case _ => s.(dtls := d)
  }

  function RequestIdrOf(c: Config, s: Joint, now: u64): (t: Joint) {
    if !c.idrHook || (s.lastIdr != 0 && (now - s.lastIdr) % 0x1_0000_0000_0000_0000 < IDR_MIN_INTERVAL_MS) then s
    else s.(lastIdr := now, idrRequested := true, log := s.log.(idrs := s.log.idrs + [now]))
  }

  /** The peer's certificate is the one its offer named, when it named one. */
  predicate Authentic(c: Config, digest: Option<seq<byte>>) {
    c.expected == "" || (digest.Some? && Fingerprint.Names(c.expected, digest.value))
  }

  /** derive_srtp_keys succeeds. */
  predicate Derives(c: Config, w: World) {
    w.keys && Authentic(c, w.digest)
  }

  function After64(now: u64, ms: nat): u64 {
    (now as int + ms) % 0x1_0000_0000_0000_0000
  }

  /** dtls_on_connected. */
  function ConnectedOf(c: Config, s: Joint, w: World): (t: Joint) {
    RequestIdrOf(c, s.(state := Streaming), w.idrClock).(nextSr := After64(w.srClock, SR_INTERVAL_MS))
  }

  /** The tail of pump_ssl: keys, once the handshake is finished. */
  function FinishOf(c: Config, s: Joint, w: World): (t: Joint) {
    if s.srtpReady || !w.initFinished then s
    else if !Derives(c, w) then DtlsMove(c, s, Failed)
    else
      ConnectedOf(c, s.(dtls := Connected, srtpReady := true, fingerprintOk := true,
                        log := s.log.(checked := w.digest)), w)
  }

  /** pump_ssl: one call of OpenSSL, which reads datagrams from the queue. */
  function PumpOf(c: Config, s: Joint, w: World): (t: Joint) {
    if s.dtls == Shut || s.dtls == Failed then s else DriveOf(c, s.(rx := DtlsRx.ReadAll(s.rx, w.room)), w)
  }

  function DriveOf(c: Config, s: Joint, w: World): (t: Joint) {
    if !s.handshakeStarted then
      var h := DtlsMove(c, s.(handshakeStarted := true), Handshaking);
      if w.ssl == Fails || w.ssl == CloseNotify then DtlsMove(c, h, Failed) else FinishOf(c, h, w)
    else
      match w.ssl
      case Fails => DtlsMove(c, s, Failed)
      case CloseNotify => DtlsMove(c, s, Shut)
      case _ => FinishOf(c, s, w)
  }

  /** dtls_srtp_on_udp. */
  function QueueOf(c: Config, s: Joint, packet: seq<byte>, w: World): (t: Joint) {
    if s.dtls == Failed then s else PumpOf(c, s.(rx := DtlsRx.Arrive(s.rx, packet)), w)
  }

  /** A STUN packet that moves the session: an authenticated check that names us. */
  predicate Accepted(c: Config, buffer: seq<byte>) {
    && Stun.IsBindingRequest(buffer)
    && Stun.VerifyMi(buffer, c.pwd, c.hmac)
    && Stun.UsernameMatches(buffer, c.ufrag)
  }

  function StunOf(c: Config, s: Joint, buffer: seq<byte>, source: Stun.Peer): (t: Joint)
    requires Sound(c)
  {
    if !Stun.IsBindingRequest(buffer) then s
    else if !Accepted(c, buffer) then s.(log := s.log.(replies := s.log.replies + [Unauthorized(source)]))
    else
      var message := Stun.Response(c.pwd, buffer, source, c.hmac);
      s.(remote := Some(source), state := if s.state == New then Ice else s.state,
         log := s.log.(replies := s.log.replies + [Success(source, message)]))
  }

  /** Everything the session has sent as media. */
  function Sent(c: Config, s: Joint): seq<RetxCache.Attempt> {
    RetxCache.Stream(Unsent(c), s.inputs, c.protect)
  }

  /** Packets go nowhere before there is a peer. */
  function Posted(to: Option<Stun.Peer>, packets: seq<seq<byte>>): (r: seq<Resent>) {
    if to.None? then [] else seq(|packets|, i requires 0 <= i < |packets| => Resent(to.value, packets[i]))
  }

  function ResendOf(c: Config, s: Joint, numbers: seq<u16>): (t: Joint) {
    s.(log := s.log.(resent := s.log.resent + Posted(s.remote, RetxCache.Answer(Sent(c, s), numbers))))
  }

  /** dtls_on_rtcp. */
  function RtcpOf(c: Config, s: Joint, packet: seq<byte>, now: u64): (t: Joint) {
    var fb := Rtcp.Parse(Rtcp.NOTHING, packet);
    if fb.bye then CloseOf(c, s)
    else ResendOf(c, if fb.pli > 0 || fb.fir > 0 then RequestIdrOf(c, s, now) else s, fb.nacks)
  }

  /** The second octet decides between RTP and RTCP, whether the datagram has one or not. */
  predicate IsRtcp(buffer: seq<byte>, w: World) {
    64 <= (if |buffer| >= 2 then buffer[1] else w.behind) as int % 128 <= 95
  }

  function SrtpOf(c: Config, s: Joint, buffer: seq<byte>, w: World): (t: Joint) {
    if IsRtcp(buffer, w) && s.state == Streaming && s.srtpReady && w.rtcp.Some?
    then RtcpOf(c, s, w.rtcp.value, w.idrClock)
    else s
  }

  /** rtc_session_send_access_unit. */
  function SendOf(s: Joint, au: seq<byte>, ptsUs: u64, idr: bool): (t: Joint) {
    s.(idrRequested := s.idrRequested && !idr,
       inputs := s.inputs + if s.state == Streaming then [RtpStream.Input(au, ptsUs)] else [])
  }

  /** rtc_session_on_udp. */
  function OnUdpOf(c: Config, s: Joint, buffer: seq<byte>, source: Stun.Peer, w: World): (t: Joint)
    requires Sound(c)
  {
    if s.state == Closed then s
    else
      var r := s.(lastRx := w.arrival);
      match Stun.Classify(buffer)
      case StunPacket => StunOf(c, r, buffer, source)
      case DtlsPacket => if r.remote.Some? then QueueOf(c, r, buffer, w) else r
      case RtpPacket => SrtpOf(c, r, buffer, w)
      case OtherPacket => r
  }

  function Age(now: u64, since: u64): nat {
    if now >= since then now - since else 0
  }

  /** rtc_session_tick. */
  function TickOf(c: Config, s: Joint, now: u64, w: World): (t: Joint) {
    if s.state == Closed then s
    else if Age(now, s.lastRx) > IDLE_TIMEOUT_MS then CloseOf(c, s)
    else if s.state == Ice && Age(now, s.created) > WATCHDOG_MS then CloseOf(c, s)
    else
      var p := if s.dtls == Handshaking then PumpOf(c, s, w) else s;
      if p.state == Streaming && now >= p.nextSr then
        p.(nextSr := After64(now, SR_INTERVAL_MS), log := p.log.(reports := p.log.reports + [now]))
      else p
  }

  // -------------------------------------------------------------------------
  // The two objects
  // -------------------------------------------------------------------------

  /** How far along a DTLS object is; states are only ever entered in this order. */
  function Left(d: DtlsState): nat {
    match d
    case Init => 4
    case Handshaking => 3
    case Connected => 2
    case Failed => 1
    case Shut => 0
  }

  class DtlsSrtp {
    var user: RtcSession?
    var state: DtlsState
    var handshakeStarted: bool
    var srtpReady: bool
    var fingerprintOk: bool
    const rx: DtlsRx.RxRing

    constructor ()
      ensures state == Init && !handshakeStarted && !srtpReady && !fingerprintOk && user == null
      ensures fresh(rx) && fresh(rx.rxq) && rx.Valid() && rx.history == UNREAD
    {
      user, state, handshakeStarted, srtpReady, fingerprintOk := null, Init, false, false, false;
      rx := new DtlsRx.RxRing();
    }

    ghost predicate Wired()
      reads this, user
    {
      user != null && user.dtls == this
    }

    /** dtls_set_state. */
    method SetState(d: DtlsState)
      requires Wired() && user.Wired()
      requires Left(d) <= Left(state) && d != Init
      requires d == Handshaking ==> user.state != Closed
      modifies this`state, user`state, user`log
      ensures user.View() == DtlsMove(user.config, old(user.View()), d)
      decreases user.state != Closed, Left(state), 2
    {
      if state == d {
        return;
      }
      state := d;
      user.OnState(d);
    }

    /** dtls_srtp_close. */
    method Close()
      requires Wired() && user.Wired() && user.state == Closed
      modifies this`state, user`state, user`log
      ensures user.View() == old(user.View()).(dtls := Shut,
                log := old(user.log).(shutdowns := old(user.log).shutdowns + if old(state) == Connected then 1 else 0))
      decreases user.state != Closed, Left(state), 3
    {
      if state == Connected {
        user.log := user.log.(shutdowns := user.log.shutdowns + 1);
      }
      SetState(Shut);
    }

    /** The certificate check and the keys. */
    method DeriveKeys(w: World) returns (ok: bool)
      requires Wired() && user.Wired() && Possible(w)
      modifies this`srtpReady, this`fingerprintOk, user`log
      ensures ok == Derives(user.config, w)
      ensures user.View() == if !ok then old(user.View())
                             else old(user.View()).(srtpReady := true, fingerprintOk := true,
                                                    log := old(user.log).(checked := w.digest))
    {
      if !w.keys {
        return false;
      }
      if user.config.expected != "" {
        if w.digest.None? {
          return false;
        }
        var equal := Fingerprint.HexEqual(user.config.expected, w.digest.value);
        if !equal {
          return false;
        }
      }
      fingerprintOk := true;
      srtpReady := true;
      user.log := user.log.(checked := w.digest);
      return true;
    }

    /** The tail of pump_ssl: the keys, once the handshake is finished. */
    method Finish(w: World)
      requires Wired() && user.Wired() && Possible(w) && Left(Connected) <= Left(state)
      modifies this`state, this`srtpReady, this`fingerprintOk, user
      ensures Wired() && user.Wired() && user.View() == FinishOf(user.config, old(user.View()), w)
    {
      hide Derives, RequestIdrOf;
      if !srtpReady && w.initFinished {
        var ok := DeriveKeys(w);
        if !ok {
          SetState(Failed);
          return;
        }
        SetState(Connected);
        user.OnConnected(w);
      }
    }

    /** pump_ssl. */
    method Pump(w: World)
      requires Wired() && user.Wired() && Possible(w) && user.state != Closed && rx.Valid()
      requires Quiescent(user.config, user.View())
      modifies this, user, rx
      ensures Wired() && user == old(user) && user.Wired() && rx.Valid()
      ensures user.View() == PumpOf(user.config, old(user.View()), w)
    {
      hide FinishOf, Authentic, rx.Valid, DtlsRx.ReadAll;
      if state == Shut || state == Failed {
        return;
      }
      if !handshakeStarted {
        handshakeStarted := true;
        SetState(Handshaking);
        rx.ReadDatagrams(w.room);
        if w.ssl == Fails || w.ssl == CloseNotify {
          SetState(Failed);
          return;
        }
      } else {
        rx.ReadDatagrams(w.room);
        if w.ssl == Fails {
          SetState(Failed);
          return;
        } else if w.ssl == CloseNotify {
          SetState(Shut);
          return;
        }
      }
      Finish(w);
    }

    /** dtls_srtp_on_udp. */
    method OnUdp(packet: seq<byte>, w: World)
      requires Wired() && user.Wired() && Possible(w) && user.state != Closed && rx.Valid()
      requires Quiescent(user.config, user.View())
      modifies this, user, rx, rx.rxq
      ensures Wired() && user == old(user) && user.Wired() && rx.Valid()
      ensures user.View() == QueueOf(user.config, old(user.View()), packet, w)
    {
      hide PumpOf, rx.Valid, DtlsRx.Arrive;
      if state == Failed {
        return;
      }
      rx.OnUdp(packet);
      Pump(w);
    }
  }

  class RtcSession {
    const config: Config
    const dtls: DtlsSrtp
    const media: RetxCache.MediaPath
    var state: SessionState
    var remote: Option<Stun.Peer>
    var createdMs: u64
    var lastRxMs: u64
    var lastIdrMs: u64
    var nextSrMs: u64
    var idrRequested: bool
    ghost var log: Log

    ghost predicate Wired()
      reads this, dtls`user
    {
      dtls.user == this && Sound(config)
    }

    /** The receive queue is in order, and the cache holds what the packetizer sent. */
    ghost predicate Stocked()
      reads dtls, dtls.rx, dtls.rx.rxq
      reads media, media.packetizer, media.cache, media.cache.data, media.cache.lens
    {
      dtls.rx.Valid() && MediaStocked()
    }

    ghost predicate MediaStocked()
      reads media, media.packetizer, media.cache, media.cache.data, media.cache.lens
    {
      media.Valid(config.protect) && media.start == Unsent(config)
    }

    ghost function View(): Joint
      reads this, dtls, dtls.rx, media
    {
      Joint(state, dtls.state, dtls.handshakeStarted, dtls.srtpReady, dtls.fingerprintOk, remote, createdMs, lastRxMs,
            lastIdrMs, nextSrMs, idrRequested, dtls.rx.history, media.inputs, log)
    }

    constructor (c: Config, now: u64)
      requires Sound(c)
      ensures Wired() && Stocked() && config == c && fresh(dtls) && fresh(media)
      ensures View() == Fresh(now)
    {
      hide Sound, RetxCache.Stream, RtpStream.Run;
      var d := new DtlsSrtp();
      var rtp := new Packetizer.RtpH264();
      rtp.Reset(c.ssrc, c.payloadType);
      var cache := new RetxCache.RetxCache();
      var path := new RetxCache.MediaPath(rtp, cache);
      config, dtls, media, state, remote := c, d, path, New, None;
      createdMs, lastRxMs, lastIdrMs, nextSrMs, idrRequested := now, now, 0, 0, false;
      log := SILENT;
      new;
      d.user := this;
    }

    /** rtc_session_close: the state is closed before DTLS is torn down, so that the call this
        sets off comes back to a closed session. */
    method Close()
      requires Wired() && dtls.Wired()
      modifies this`state, this`log, dtls`state
      ensures View() == CloseOf(config, old(View()))
      decreases state != Closed, Left(dtls.state), 0
    {
      if state == Closed {
        return;
      }
      state := Closed;
      dtls.Close();
      if config.closeHook {
        log := log.(closes := log.closes + 1);
      }
    }

    /** dtls_on_state. */
    method OnState(d: DtlsState)
      requires Wired() && dtls.Wired() && dtls.state == d
      requires d == Handshaking ==> state != Closed
      modifies this`state, this`log, dtls`state
      ensures View() == match d
                        case Handshaking => old(View()).(state := Dtls)
                        case Failed => CloseOf(config, old(View()))
                        case Shut => CloseOf(config, old(View()))
                        case _ => old(View())
      decreases state != Closed, Left(dtls.state), 1
    {
      if d == Handshaking {
        state := Dtls;
      } else if d == Failed {
        Close();
      } else if d == Shut {
        Close();
      }
    }

    /** rtc_session_request_idr, at most once in 400 ms. */
    method RequestIdr(now: u64)
      requires Wired()
      modifies this`lastIdrMs, this`idrRequested, this`log
      ensures View() == RequestIdrOf(config, old(View()), now)
    {
      if !config.idrHook {
        return;
      }
      if lastIdrMs != 0 && (now as int - lastIdrMs as int) % 0x1_0000_0000_0000_0000 < IDR_MIN_INTERVAL_MS {
        return;
      }
      lastIdrMs := now;
      idrRequested := true;
      log := log.(idrs := log.idrs + [now]);
    }

    /** dtls_on_connected. */
    method OnConnected(w: World)
      requires Wired()
      modifies this
      ensures Wired() && View() == ConnectedOf(config, old(View()), w)
    {
      state := Streaming;
      RequestIdr(w.idrClock);
      nextSrMs := (w.srClock as int + SR_INTERVAL_MS) % 0x1_0000_0000_0000_0000;
    }

    /** The tail of dtls_on_rtcp: look the numbers up and send what is there to the peer. */
    method Resend(numbers: seq<u16>)
      requires Wired() && Stocked()
      modifies this`log, media.cache`retransmissions
      ensures Wired() && Stocked() && View() == ResendOf(config, old(View()), numbers)
    {
      hide RetxCache.Stream, RetxCache.Answer;
      var packets := media.cache.Resend(numbers);
      if remote.Some? {
        log := log.(resent := log.resent + Posted(remote, packets));
      }
    }

    /** dtls_on_rtcp. */
    method OnRtcp(packet: seq<byte>, now: u64)
      requires Wired() && dtls.Wired() && Stocked()
      modifies this, dtls`state, media.cache`retransmissions
      ensures Wired() && dtls.Wired() && Stocked() && View() == RtcpOf(config, old(View()), packet, now)
    {
      hide Rtcp.Parse, dtls.rx.Valid, MediaStocked, ResendOf;
      var feedback := new Rtcp.RtcpFeedback();
      feedback.ParseDatagram(packet);
      if feedback.bye {
        Close();
        return;
      }
      if feedback.pli > 0 || feedback.fir > 0 {
        RequestIdr(now);
      }
      Resend(feedback.nackSeq[..feedback.nackSeqs]);
    }

    /** rtc_session_send_access_unit. */
    method SendAccessUnit(au: seq<byte>, ptsUs: u64, idr: bool) returns (packets: int)
      requires Wired() && Stocked()
      modifies this`idrRequested, media`inputs, media.packetizer, media.cache, media.cache.data, media.cache.lens
      ensures Wired() && Stocked() && View() == SendOf(old(View()), au, ptsUs, idr)
      ensures packets == if state != Streaming then 0 else if au == [] then -1
                         else |Sent(config, View())| - |Sent(config, old(View()))|
    {
      hide RetxCache.Trailing, dtls.rx.Valid, RetxCache.Stream;
      if idr && idrRequested {
        idrRequested := false;
      }
      packets := media.SendAccessUnit(au, ptsUs, state == Streaming, config.protect);
    }

    /** A STUN packet: refuse it, or follow its source and answer. */
    method OnStun(buffer: seq<byte>, source: Stun.Peer)
      requires Wired()
      modifies this`state, this`remote, this`log
      ensures View() == StunOf(config, old(View()), buffer, source)
    {
      hide Stun.IsBindingRequest, Stun.VerifyMi, Stun.UsernameMatches, Stun.Response;
      if !Stun.IsBindingRequest(buffer) {
        return;
      }
      var verified := Stun.StunVerifyMi(buffer, config.pwd, config.hmac);
      if !verified || !Stun.UsernameMatches(buffer, config.ufrag) {
        log := log.(replies := log.replies + [Unauthorized(source)]);
        return;
      }
      if remote.None? {
        remote := Some(source);
      } else if source.ip != remote.value.ip || source.port != remote.value.port {
        remote := Some(source);
      }
      if state == New {
        state := Ice;
      }
      var response := new byte[128];
      var ok, size := Stun.BuildBindingResponse(config.pwd, buffer, source, response, config.hmac, config.table);
      Requests(buffer);
      if ok {
        log := log.(replies := log.replies + [Success(source, response[..size])]);
      }
    }

    /** rtc_session_on_udp. */
    method OnUdp(buffer: seq<byte>, source: Stun.Peer, w: World)
      requires Wired() && dtls.Wired() && Stocked() && Possible(w) && Quiescent(config, View())
      modifies this, dtls, dtls.rx, dtls.rx.rxq, media.cache`retransmissions
      ensures Wired() && dtls.Wired() && Stocked() && View() == OnUdpOf(config, old(View()), buffer, source, w)
    {
      hide Stun.Classify, Stun.Response, QueueOf, StunOf, RtcpOf, dtls.rx.Valid, MediaStocked;
      if state == Closed {
        return;
      }
      lastRxMs := w.arrival;
      match Stun.Classify(buffer)
      case StunPacket => OnStun(buffer, source);
      case DtlsPacket =>
        if remote.Some? {
          dtls.OnUdp(buffer, w);
        }
      case RtpPacket =>
        if IsRtcp(buffer, w) && state == Streaming {
          if dtls.srtpReady && w.rtcp.Some? {
            OnRtcp(w.rtcp.value, w.idrClock);
          }
        }
      case OtherPacket =>
    }

    /** rtc_session_tick. */
    method Tick(now: u64, w: World)
      requires Wired() && dtls.Wired() && Stocked() && Possible(w) && Quiescent(config, View())
      modifies this, dtls, dtls.rx
      ensures Wired() && dtls.Wired() && Stocked() && View() == TickOf(config, old(View()), now, w)
    {
      hide PumpOf, CloseOf, Authentic, dtls.rx.Valid, MediaStocked;
      if state == Closed {
        return;
      }
      var idleMs := if now >= lastRxMs then now - lastRxMs else 0;
      if idleMs > IDLE_TIMEOUT_MS {
        Close();
        return;
      }
      var ageMs := if now >= createdMs then now - createdMs else 0;
      if state == Ice && ageMs > WATCHDOG_MS {
        Close();
        return;
      }
      if dtls.state == Handshaking {
        dtls.Pump(w);
      }
      if state == Streaming && now >= nextSrMs {
        log := log.(reports := log.reports + [now]);
        nextSrMs := (now as int + SR_INTERVAL_MS) % 0x1_0000_0000_0000_0000;
      }
    }
  }

  lemma Requests(buffer: seq<byte>)
    ensures Stun.IsBindingRequest(buffer) ==> |buffer| >= Stun.HEADER_SIZE
  {
  }

  // -------------------------------------------------------------------------
  // Between two events
  // -------------------------------------------------------------------------

  function Fresh(now: u64): Joint {
    Joint(New, Init, false, false, false, None, now, now, 0, 0, false, UNREAD, [], SILENT)
  }

  /** The two machines agree, streaming means authenticated, and the close hook ran once if at all. */
  ghost predicate Quiescent(c: Config, s: Joint) {
    && (s.dtls == Init <==> s.state == New || s.state == Ice)
    && (s.dtls == Handshaking <==> s.state == Dtls)
    && (s.dtls == Connected <==> s.state == Streaming)
    && (s.dtls == Shut <==> s.state == Closed)
    && (s.state != Closed ==> (s.handshakeStarted <==> s.dtls != Init))
    && (s.state != Closed ==> (s.srtpReady <==> s.state == Streaming))
    && (s.srtpReady ==> s.fingerprintOk && Authentic(c, s.log.checked))
    && (s.state != Closed ==> (s.remote.None? <==> s.state == New))
    && s.log.closes == (if s.state == Closed && c.closeHook then 1 else 0)
  }

  // -------------------------------------------------------------------------
  // Whole runs
  // -------------------------------------------------------------------------

  datatype Event =
    | Datagram(buffer: seq<byte>, source: Stun.Peer, w: World)
    | TickAt(now: u64, w: World)
    | Unit(au: seq<byte>, ptsUs: u64, idr: bool)
    | CloseNow

  function HappenOf(c: Config, s: Joint, e: Event): (t: Joint)
    requires Sound(c)
  {
    match e
    case Datagram(buffer, source, w) => OnUdpOf(c, s, buffer, source, w)
    case TickAt(now, w) => TickOf(c, s, now, w)
    case Unit(au, ptsUs, idr) => SendOf(s, au, ptsUs, idr)
    case CloseNow => CloseOf(c, s)
  }

  function RunOf(c: Config, s: Joint, events: seq<Event>): (t: Joint)
    requires Sound(c)
  {
    if events == [] then s else HappenOf(c, RunOf(c, s, events[..|events| - 1]), events[|events| - 1])
  }

  /** Position in the one order the states are ever entered. */
  function Rank(state: SessionState): nat {
    match state
    case New => 0
    case Ice => 1
    case Dtls => 2
    case Streaming => 3
    case Closed => 4
  }

  /** All that no handshake touches. */
  predicate Untouched(s: Joint, t: Joint) {
    && t.remote == s.remote && t.lastRx == s.lastRx && t.created == s.created
    && t.inputs == s.inputs && t.log.resent == s.log.resent
  }

  lemma FinishKeeps(c: Config, s: Joint, w: World)
    requires Quiescent(c, s) && s.remote.Some? && (s.state == Dtls || s.state == Streaming)
    ensures var t := FinishOf(c, s, w);
            Quiescent(c, t) && Rank(s.state) <= Rank(t.state) && Untouched(s, t) && t.rx == s.rx
  {
    hide Authentic, Derives, RequestIdrOf;
    DerivesAuthentic(c, w);
    IdrKeeps(c, s.(dtls := Connected, srtpReady := true, fingerprintOk := true,
                   log := s.log.(checked := w.digest), state := Streaming), w.idrClock);
  }

  /** An open session in the state in which one call of OpenSSL finds it. */
  function Begun(s: Joint, w: World): (t: Joint) {
    var r := s.(rx := DtlsRx.ReadAll(s.rx, w.room));
    if s.handshakeStarted then r else r.(handshakeStarted := true, dtls := Handshaking, state := Dtls)
  }

  predicate Breaks(w: World) {
    w.ssl == Fails || w.ssl == CloseNotify
  }

  /** A call of OpenSSL closes the session or gets to the keys. */
  lemma PumpShape(c: Config, s: Joint, w: World)
    requires Quiescent(c, s) && s.state != Closed
    ensures PumpOf(c, s, w) ==
            if Breaks(w) then CloseOf(c, Begun(s, w).(dtls := Failed)) else FinishOf(c, Begun(s, w), w)
  {
    hide Authentic, FinishOf, DtlsRx.ReadAll;
  }

  lemma BegunKeeps(c: Config, s: Joint, w: World)
    requires Quiescent(c, s) && s.remote.Some? && s.state != Closed
    ensures var t := Begun(s, w);
            && Quiescent(c, t) && (t.state == Dtls || t.state == Streaming) && Rank(s.state) <= Rank(t.state)
            && Untouched(s, t) && t.rx == DtlsRx.ReadAll(s.rx, w.room)
            && (t.state == Streaming <==> s.state == Streaming)
  {
    hide Authentic, DtlsRx.ReadAll;
  }

  /** Closing on a broken handshake or connection. */
  lemma BreakKeeps(c: Config, s: Joint)
    requires Quiescent(c, s) && s.state != Closed
    ensures var t := CloseOf(c, s.(dtls := Failed));
            Quiescent(c, t) && Untouched(s, t) && t.rx == s.rx && t.state == Closed
  {
    hide Authentic;
  }

  lemma PumpKeeps(c: Config, s: Joint, w: World)
    requires Quiescent(c, s) && s.remote.Some? && s.state != Closed
    ensures var t := PumpOf(c, s, w);
            && Quiescent(c, t) && Rank(s.state) <= Rank(t.state) && Untouched(s, t)
            && t.rx == DtlsRx.ReadAll(s.rx, w.room)
  {
    hide Quiescent, PumpOf, FinishOf, Begun, CloseOf;
    PumpShape(c, s, w);
    BegunKeeps(c, s, w);
    BreakKeeps(c, Begun(s, w));
    FinishKeeps(c, Begun(s, w), w);
  }

  lemma QueueKeeps(c: Config, s: Joint, packet: seq<byte>, w: World)
    requires Quiescent(c, s) && s.remote.Some? && s.state != Closed
    ensures var t := QueueOf(c, s, packet, w);
            && Quiescent(c, t) && Rank(s.state) <= Rank(t.state) && Untouched(s, t)
            && t.rx == DtlsRx.ReadAll(DtlsRx.Arrive(s.rx, packet), w.room)
  {
    hide Authentic, PumpOf, DtlsRx.Arrive, DtlsRx.ReadAll;
    PumpKeeps(c, s.(rx := DtlsRx.Arrive(s.rx, packet)), w);
  }

  lemma DerivesAuthentic(c: Config, w: World)
    ensures Derives(c, w) ==> Authentic(c, w.digest)
  {
  }

  /** A keyframe request touches only its own bookkeeping. */
  lemma IdrKeeps(c: Config, s: Joint, now: u64)
    ensures var t := RequestIdrOf(c, s, now);
            t == s.(lastIdr := t.lastIdr, idrRequested := t.idrRequested, log := s.log.(idrs := t.log.idrs))
  {
  }

  lemma StunKeeps(c: Config, s: Joint, buffer: seq<byte>, source: Stun.Peer)
    requires Sound(c) && Quiescent(c, s) && s.state != Closed
    ensures var t := StunOf(c, s, buffer, source);
            && Quiescent(c, t) && Rank(s.state) <= Rank(t.state) && t.state != Closed
            && t == s.(remote := t.remote, state := t.state, log := s.log.(replies := t.log.replies))
            && t.remote == if Accepted(c, buffer) then Some(source) else s.remote
  {
    hide Stun.Response, Authentic, Stun.VerifyMi, Stun.UsernameMatches;
  }

  lemma SrtpKeeps(c: Config, s: Joint, buffer: seq<byte>, w: World)
    requires Quiescent(c, s)
    ensures var t := SrtpOf(c, s, buffer, w);
            && Quiescent(c, t) && Rank(s.state) <= Rank(t.state)
            && t.remote == s.remote && t.inputs == s.inputs && t.rx == s.rx && t.lastRx == s.lastRx
  {
    hide Rtcp.Parse, Authentic, RequestIdrOf, IsRtcp, Posted, Sent;
    IdrKeeps(c, s, w.idrClock);
  }

  lemma OnUdpKeeps(c: Config, s: Joint, buffer: seq<byte>, source: Stun.Peer, w: World)
    requires Sound(c) && Quiescent(c, s)
    ensures var t := OnUdpOf(c, s, buffer, source, w); Quiescent(c, t) && Rank(s.state) <= Rank(t.state)
  {
    hide QueueOf, Stun.Classify, StunOf, SrtpOf, Authentic;
    var r := s.(lastRx := w.arrival);
    if s.state != Closed {
      StunKeeps(c, r, buffer, source);
      SrtpKeeps(c, r, buffer, w);
      if r.remote.Some? {
        QueueKeeps(c, r, buffer, w);
      }
    }
  }

  lemma TickKeeps(c: Config, s: Joint, now: u64, w: World)
    requires Sound(c) && Quiescent(c, s)
    ensures var t := TickOf(c, s, now, w); Quiescent(c, t) && Rank(s.state) <= Rank(t.state)
  {
    hide PumpOf, Authentic;
    if s.dtls == Handshaking {
      PumpKeeps(c, s, w);
    }
  }

  /** Every event leads from one quiescent state to another, and never backwards. */
  lemma HappenQuiescent(c: Config, s: Joint, e: Event)
    requires Sound(c) && Quiescent(c, s)
    ensures Quiescent(c, HappenOf(c, s, e)) && Rank(s.state) <= Rank(HappenOf(c, s, e).state)
  {
    hide OnUdpOf, TickOf, Authentic;
    match e
    case Datagram(buffer, source, w) => OnUdpKeeps(c, s, buffer, source, w);
    case TickAt(now, w) => TickKeeps(c, s, now, w);
    case Unit(au, ptsUs, idr) =>
    case CloseNow =>
  }

  /** A state but for the flag that an access unit with a keyframe clears, closed or not. */
  function Frozen(s: Joint): (t: Joint) {
    s.(idrRequested := false)
  }

  lemma ClosedAbsorbs(c: Config, s: Joint, e: Event)
    requires Sound(c) && s.state == Closed
    ensures HappenOf(c, s, e).state == Closed && Frozen(HappenOf(c, s, e)) == Frozen(s)
  {
    hide QueueOf, PumpOf, StunOf, SrtpOf;
  }

  /** Over every run from creation: the two machines agree, the state has only moved forward, only
      authenticated peers stream, the close hook ran exactly once if the session is closed, and from
      then on nothing happened to it. */
  lemma {:induction false} RunQuiescent(c: Config, now: u64, events: seq<Event>)
    requires Sound(c)
    ensures Quiescent(c, RunOf(c, Fresh(now), events))
    ensures forall k :: 0 <= k <= |events| ==>
              var early, late := RunOf(c, Fresh(now), events[..k]), RunOf(c, Fresh(now), events);
              && Rank(early.state) <= Rank(late.state)
              && (early.state == Closed ==> Frozen(early) == Frozen(late))
    decreases |events|
  {
    hide Quiescent, HappenOf, Rank;
    if events == [] {
      FreshQuiescent(c, now);
    } else {
      var before := events[..|events| - 1];
      var s := RunOf(c, Fresh(now), before);
      RunQuiescent(c, now, before);
      HappenQuiescent(c, s, events[|events| - 1]);
      if s.state == Closed {
        ClosedAbsorbs(c, s, events[|events| - 1]);
      }
      forall k | 0 <= k <= |events|
        ensures var early, late := RunOf(c, Fresh(now), events[..k]), RunOf(c, Fresh(now), events);
                && Rank(early.state) <= Rank(late.state)
                && (early.state == Closed ==> Frozen(early) == Frozen(late))
      {
        if k < |events| {
          assert events[..k] == before[..k];
        } else {
          assert events[..k] == events;
        }
      }
    }
  }

  lemma FreshQuiescent(c: Config, now: u64)
    ensures Quiescent(c, Fresh(now))
  {
  }

  // -------------------------------------------------------------------------
  // Where media goes
  // -------------------------------------------------------------------------

  ghost predicate IsCheck(c: Config, e: Event) {
    e.Datagram? && Stun.Classify(e.buffer) == Stun.StunPacket && Accepted(c, e.buffer)
  }

  /** The source of the last accepted connectivity check of a run. */
  ghost function LatestCheck(c: Config, events: seq<Event>): (source: Option<Stun.Peer>) {
    if events == [] then None
    else
      var e := events[|events| - 1];
      if IsCheck(c, e) then Some(e.source) else LatestCheck(c, events[..|events| - 1])
  }

  lemma HappenPeer(c: Config, s: Joint, e: Event)
    requires Sound(c) && Quiescent(c, s) && HappenOf(c, s, e).state != Closed
    ensures s.state != Closed
    ensures HappenOf(c, s, e).remote == if IsCheck(c, e) then Some(e.source) else s.remote
  {
    hide PumpOf, QueueOf, Stun.Classify, StunOf, SrtpOf, Accepted, Authentic;
    HappenQuiescent(c, s, e);
    match e
    case Datagram(buffer, source, w) =>
      var r := s.(lastRx := w.arrival);
      StunKeeps(c, r, buffer, source);
      SrtpKeeps(c, r, buffer, w);
      if s.remote.Some? {
        QueueKeeps(c, r, buffer, w);
      }
    case TickAt(now, w) =>
      if s.dtls == Handshaking {
        PumpKeeps(c, s, w);
      }
    case Unit(au, ptsUs, idr) =>
    case CloseNow =>
  }

  /** While a session is open its media goes to the source of the latest accepted check. */
  lemma {:induction false} RunPeer(c: Config, now: u64, events: seq<Event>)
    requires Sound(c) && RunOf(c, Fresh(now), events).state != Closed
    ensures RunOf(c, Fresh(now), events).remote == LatestCheck(c, events)
    decreases |events|
  {
    hide HappenOf, Quiescent, IsCheck;
    if events != [] {
      var before := events[..|events| - 1];
      RunQuiescent(c, now, before);
      HappenPeer(c, RunOf(c, Fresh(now), before), events[|events| - 1]);
      RunPeer(c, now, before);
    }
  }

  // -------------------------------------------------------------------------
  // What goes out
  // -------------------------------------------------------------------------

  /** Every success reply authenticates and names the address it is sent to. */
  ghost predicate Answered(c: Config, replies: seq<Reply>) {
    forall i :: 0 <= i < |replies| && replies[i].Success? ==>
      && Stun.VerifyMi(replies[i].message, c.pwd, c.hmac)
      && Stun.MappedPeer(replies[i].message) == Some(replies[i].to)
      && Stun.FingerprintHolds(replies[i].message)
  }

  /** No two keyframe requests within 400 ms, unless the earlier was stamped with clock zero,
      which the limiter takes for "never". */
  ghost predicate Spaced(idrs: seq<u64>, last: u64) {
    && last == (if idrs == [] then 0 else idrs[|idrs| - 1])
    && forall i :: 0 < i < |idrs| ==>
         idrs[i - 1] == 0 || (idrs[i] - idrs[i - 1]) % 0x1_0000_0000_0000_0000 >= IDR_MIN_INTERVAL_MS
  }

  /** Sender reports are at least a second apart. */
  ghost predicate Paced(reports: seq<u64>, next: u64) {
    && (reports != [] ==> next == After64(reports[|reports| - 1], SR_INTERVAL_MS))
    && forall i :: 0 < i < |reports| ==> reports[i] >= After64(reports[i - 1], SR_INTERVAL_MS)
  }

  ghost predicate Outgoing(c: Config, s: Joint) {
    && Answered(c, s.log.replies)
    && Spaced(s.log.idrs, s.lastIdr)
    && Paced(s.log.reports, s.nextSr)
    && (s.log.reports != [] ==> Rank(s.state) >= Rank(Streaming))
    && Refreshed(c, s)
  }

  /** No keyframe is asked for before streaming, and a session that streams has asked for one. */
  ghost predicate Refreshed(c: Config, s: Joint) {
    && (Rank(s.state) < Rank(Streaming) ==> s.log.idrs == [])
    && (s.state == Streaming && c.idrHook ==> s.log.idrs != [])
  }

  lemma SpacedAppend(idrs: seq<u64>, last: u64, now: u64)
    requires Spaced(idrs, last)
    requires last == 0 || (now - last) % 0x1_0000_0000_0000_0000 >= IDR_MIN_INTERVAL_MS
    ensures Spaced(idrs + [now], now)
  {
  }

  lemma SpacedStep(c: Config, s: Joint, now: u64)
    requires Spaced(s.log.idrs, s.lastIdr)
    ensures var t := RequestIdrOf(c, s, now); Spaced(t.log.idrs, t.lastIdr) && t.nextSr == s.nextSr && t.state == s.state
    ensures var t := RequestIdrOf(c, s, now); t.log.replies == s.log.replies && t.log.reports == s.log.reports
  {
    hide Spaced;
    if RequestIdrOf(c, s, now) != s {
      SpacedAppend(s.log.idrs, s.lastIdr, now);
    }
  }

  /** The first request of a session is never held back. */
  lemma FirstRequest(c: Config, s: Joint, now: u64)
    requires s.lastIdr == 0
    ensures c.idrHook ==> RequestIdrOf(c, s, now).log.idrs == s.log.idrs + [now]
    ensures RequestIdrOf(c, s, now).log.idrs == s.log.idrs || RequestIdrOf(c, s, now).log.idrs == s.log.idrs + [now]
  {
  }

  lemma RequestsGrow(c: Config, s: Joint, now: u64)
    ensures s.log.idrs <= RequestIdrOf(c, s, now).log.idrs
  {
  }

  lemma CloseOutgoing(c: Config, s: Joint)
    requires Outgoing(c, s)
    ensures Outgoing(c, CloseOf(c, s))
  {
    hide Answered, Spaced, Paced;
  }

  lemma FinishOutgoing(c: Config, s: Joint, w: World)
    requires Outgoing(c, s) && Rank(s.state) < Rank(Streaming)
    ensures Outgoing(c, FinishOf(c, s, w))
  {
    hide Answered, Spaced, RequestIdrOf, Derives;
    var d := s.(dtls := Connected, srtpReady := true, fingerprintOk := true, log := s.log.(checked := w.digest),
                state := Streaming);
    SpacedStep(c, d, w.idrClock);
    SpacedNone(s);
    FirstRequest(c, d, w.idrClock);
  }

  lemma PumpOutgoing(c: Config, s: Joint, w: World)
    requires Quiescent(c, s) && s.state != Closed && s.remote.Some? && Outgoing(c, s)
    ensures Outgoing(c, PumpOf(c, s, w))
  {
    hide Answered, Spaced, Paced, Authentic, FinishOf, DtlsRx.ReadAll;
    if s.srtpReady {
      FinishedAlready(c, Begun(s, w), w);
    } else {
      FinishOutgoing(c, Begun(s, w), w);
    }
  }

  lemma QueueOutgoing(c: Config, s: Joint, packet: seq<byte>, w: World)
    requires Quiescent(c, s) && s.state != Closed && s.remote.Some? && Outgoing(c, s)
    ensures Outgoing(c, QueueOf(c, s, packet, w))
  {
    hide Answered, Spaced, Paced, Authentic, PumpOf;
    PumpOutgoing(c, s.(rx := DtlsRx.Arrive(s.rx, packet)), w);
  }

  lemma FinishedAlready(c: Config, s: Joint, w: World)
    requires s.srtpReady
    ensures FinishOf(c, s, w) == s
  {
  }

  lemma SpacedNone(s: Joint)
    ensures Spaced(s.log.idrs, s.lastIdr) && s.log.idrs == [] ==> s.lastIdr == 0
  {
  }

  lemma StunOutgoing(c: Config, s: Joint, buffer: seq<byte>, source: Stun.Peer)
    requires Sound(c) && Outgoing(c, s) && s.state != Closed
    ensures Outgoing(c, StunOf(c, s, buffer, source))
  {
    hide Spaced, Paced, Stun.Response, Stun.VerifyMi, Stun.MappedPeer, Stun.FingerprintHolds, Stun.UsernameMatches;
    if Accepted(c, buffer) {
      Requests(buffer);
      Stun.ResponseRoundTrip(c.pwd, buffer, source, c.hmac);
    }
  }

  lemma RtcpOutgoing(c: Config, s: Joint, buffer: seq<byte>, w: World)
    requires Outgoing(c, s)
    ensures Outgoing(c, SrtpOf(c, s, buffer, w))
  {
    hide Answered, Spaced, RequestIdrOf, CloseOf, Rtcp.Parse;
    CloseOutgoing(c, s);
    SpacedStep(c, s, w.idrClock);
    RequestsGrow(c, s, w.idrClock);
  }

  lemma HappenOutgoing(c: Config, s: Joint, e: Event)
    requires Sound(c) && Quiescent(c, s) && Outgoing(c, s)
    ensures Outgoing(c, HappenOf(c, s, e))
  {
    hide PumpOf, QueueOf, StunOf, SrtpOf, CloseOf, Stun.Classify, Answered, Spaced, Authentic;
    CloseOutgoing(c, s);
    match e
    case Datagram(buffer, source, w) =>
      var r := s.(lastRx := w.arrival);
      if s.state != Closed {
        StunOutgoing(c, r, buffer, source);
        RtcpOutgoing(c, r, buffer, w);
        if s.remote.Some? {
          QueueOutgoing(c, r, buffer, w);
        }
      }
    case TickAt(now, w) =>
      if s.dtls == Handshaking {
        PumpOutgoing(c, s, w);
      }
    case Unit(au, ptsUs, idr) =>
    case CloseNow =>
  }

  /** Over every run: answers verify, keyframe requests and sender reports keep their distance. */
  lemma {:induction false} RunOutgoing(c: Config, now: u64, events: seq<Event>)
    requires Sound(c)
    ensures Outgoing(c, RunOf(c, Fresh(now), events))
    decreases |events|
  {
    hide HappenOf, Quiescent;
    if events != [] {
      hide Outgoing;
      var before := events[..|events| - 1];
      RunQuiescent(c, now, before);
      RunOutgoing(c, now, before);
      HappenOutgoing(c, RunOf(c, Fresh(now), before), events[|events| - 1]);
    }
  }

  // -------------------------------------------------------------------------
  // Time
  // -------------------------------------------------------------------------

  /** What one call of OpenSSL makes of a session: it closes exactly on failure, a close notice, or a
      finished handshake that yields no keys or the wrong certificate; it streams exactly when it
      did before or the finished handshake yields both. */
  lemma PumpOutcome(c: Config, s: Joint, w: World)
    requires Quiescent(c, s) && s.state != Closed && s.remote.Some?
    ensures var t := PumpOf(c, s, w);
            && (t.state == Closed <==> Breaks(w) || (s.state != Streaming && w.initFinished && !Derives(c, w)))
            && (t.state == Streaming <==>
                  !Breaks(w) && (s.state == Streaming || (w.initFinished && Derives(c, w))))
  {
    hide Quiescent, PumpOf, FinishOf, Begun, CloseOf;
    PumpShape(c, s, w);
    BegunKeeps(c, s, w);
    BreakKeeps(c, Begun(s, w));
    FinishOutcome(c, Begun(s, w), w);
  }

  lemma FinishOutcome(c: Config, s: Joint, w: World)
    requires Quiescent(c, s) && (s.state == Dtls || s.state == Streaming)
    ensures var t := FinishOf(c, s, w);
            && (t.state == Closed <==> s.state == Dtls && w.initFinished && !Derives(c, w))
            && (t.state == Streaming <==> s.state == Streaming || (w.initFinished && Derives(c, w)))
  {
    hide Authentic, Derives, RequestIdrOf;
    IdrKeeps(c, s.(dtls := Connected, srtpReady := true, fingerprintOk := true,
                   log := s.log.(checked := w.digest), state := Streaming), w.idrClock);
  }

  /** A datagram closes a session exactly if it is DTLS for a validated peer and the handshake or
      connection breaks on it, or decrypts to RTCP that says BYE to a streaming session. */
  lemma UdpCloses(c: Config, s: Joint, buffer: seq<byte>, source: Stun.Peer, w: World)
    requires Sound(c) && Quiescent(c, s) && s.state != Closed
    ensures OnUdpOf(c, s, buffer, source, w).state == Closed <==>
            || (Stun.Classify(buffer) == Stun.DtlsPacket && s.remote.Some? &&
                (Breaks(w) || (s.state != Streaming && w.initFinished && !Derives(c, w))))
            || (Stun.Classify(buffer) == Stun.RtpPacket && IsRtcp(buffer, w) && s.state == Streaming &&
                w.rtcp.Some? && Rtcp.Parse(Rtcp.NOTHING, w.rtcp.value).bye)
  {
    hide PumpOf, Stun.Classify, Stun.Response, Rtcp.Parse, Accepted, Stun.IsBindingRequest, Authentic, Derives,
         RequestIdrOf, IsRtcp, DtlsRx.Arrive;
    var r := s.(lastRx := w.arrival);
    IdrKeeps(c, r, w.idrClock);
    if r.remote.Some? {
      PumpOutcome(c, r.(rx := DtlsRx.Arrive(r.rx, buffer)), w);
    }
  }

  /** A tick closes a session exactly for silence, for a check without a handshake, or because the
      handshake it drives fails. */
  lemma TickCloses(c: Config, s: Joint, now: u64, w: World)
    requires Sound(c) && Quiescent(c, s) && s.state != Closed
    ensures TickOf(c, s, now, w).state == Closed <==>
            || Age(now, s.lastRx) > IDLE_TIMEOUT_MS
            || (s.state == Ice && Age(now, s.created) > WATCHDOG_MS)
            || (s.state == Dtls && (Breaks(w) || (w.initFinished && !Derives(c, w))))
  {
    hide Authentic, Derives, PumpOf;
    if s.state == Dtls {
      PumpOutcome(c, s, w);
    }
  }

  /** A handshake that has started is not watched: while datagrams keep coming it may stall for any
      length of time. */
  lemma StalledHandshakeStays(c: Config, s: Joint, now: u64, w: World)
    requires Sound(c) && Quiescent(c, s) && s.state == Dtls && Age(now, s.lastRx) <= IDLE_TIMEOUT_MS
    requires w.ssl == Wants && !w.initFinished
    ensures TickOf(c, s, now, w) == s.(rx := DtlsRx.ReadAll(s.rx, w.room))
  {
    hide Authentic, DtlsRx.ReadAll;
  }

  /** Any datagram at all, valid or not, from anywhere, restarts the idle timer. */
  lemma AnyDatagramRestartsIdle(c: Config, s: Joint, buffer: seq<byte>, source: Stun.Peer, w: World)
    requires Sound(c) && Quiescent(c, s) && s.state != Closed
    ensures OnUdpOf(c, s, buffer, source, w).lastRx == w.arrival
  {
    hide QueueOf, Stun.Classify, Stun.Response, Rtcp.Parse, Accepted, Stun.IsBindingRequest, Authentic;
    var r := s.(lastRx := w.arrival);
    if r.remote.Some? {
      QueueKeeps(c, r, buffer, w);
    }
  }

  // -------------------------------------------------------------------------
  // What OpenSSL is offered
  // -------------------------------------------------------------------------

  /** The DTLS datagrams of a run that came to an open session after its first accepted check. */
  ghost function Offered(c: Config, now: u64, events: seq<Event>): (packets: seq<seq<byte>>)
    requires Sound(c)
  {
    if events == [] then []
    else
      var before, e := events[..|events| - 1], events[|events| - 1];
      Offered(c, now, before) +
      if e.Datagram? && Stun.Classify(e.buffer) == Stun.DtlsPacket && LatestCheck(c, before).Some? &&
         RunOf(c, Fresh(now), before).state != Closed then [e.buffer] else []
  }

  lemma HappenReceives(c: Config, s: Joint, e: Event)
    requires Sound(c) && Quiescent(c, s) && DtlsRx.Ordered(s.rx)
    ensures var t := HappenOf(c, s, e);
            && DtlsRx.Ordered(t.rx)
            && t.rx.arrived == s.rx.arrived +
                 if e.Datagram? && Stun.Classify(e.buffer) == Stun.DtlsPacket && s.remote.Some? && s.state != Closed
                 then [e.buffer] else []
  {
    hide PumpOf, QueueOf, StunOf, SrtpOf, Stun.Classify, Accepted, Authentic, DtlsRx.Ordered, DtlsRx.Arrive,
         DtlsRx.ReadAll;
    match e
    case Datagram(buffer, source, w) =>
      var r := s.(lastRx := w.arrival);
      SrtpKeeps(c, r, buffer, w);
      if s.state != Closed {
        StunKeeps(c, r, buffer, source);
        if s.remote.Some? {
          QueueKeeps(c, r, buffer, w);
          DtlsRx.ArriveOrdered(s.rx, buffer);
          DtlsRx.ReadAllOrdered(DtlsRx.Arrive(s.rx, buffer), w.room);
        }
      }
    case TickAt(now, w) =>
      DtlsRx.ReadAllOrdered(s.rx, w.room);
      if s.dtls == Handshaking {
        PumpKeeps(c, s, w);
      }
    case Unit(au, ptsUs, idr) =>
    case CloseNow =>
  }

  /** Over every run OpenSSL was offered exactly the DTLS datagrams that came to the open session
      once it had a validated peer, and has read of them, in order, what the queue let through. */
  lemma {:induction false} RunReceives(c: Config, now: u64, events: seq<Event>)
    requires Sound(c)
    ensures var rx := RunOf(c, Fresh(now), events).rx;
            DtlsRx.Ordered(rx) && rx.arrived == Offered(c, now, events)
    decreases |events|
  {
    hide HappenOf, Quiescent, IsCheck;
    if events != [] {
      hide DtlsRx.Ordered;
      var before := events[..|events| - 1];
      var s := RunOf(c, Fresh(now), before);
      RunReceives(c, now, before);
      RunQuiescent(c, now, before);
      HappenReceives(c, s, events[|events| - 1]);
      if s.state != Closed {
        RunPeer(c, now, before);
      }
    }
  }

  // -------------------------------------------------------------------------
  // What is sent again
  // -------------------------------------------------------------------------

  ghost predicate WasSent(h: seq<RetxCache.Attempt>, packet: seq<byte>) {
    exists k :: 0 <= k < |h| && h[k].sent == Some(packet)
  }

  /** Whatever has been sent again was sent before. */
  ghost predicate Genuine(c: Config, s: Joint) {
    forall i :: 0 <= i < |s.log.resent| ==> WasSent(Sent(c, s), s.log.resent[i].packet)
  }

  lemma {:induction false} AnswerWasSent(h: seq<RetxCache.Attempt>, numbers: seq<u16>)
    ensures forall packet :: packet in RetxCache.Answer(h, numbers) ==> WasSent(h, packet)
    decreases |numbers|
  {
    hide WasSent, RetxCache.Latest, RetxCache.Slot;
    if numbers != [] {
      var n := |numbers| - 1;
      AnswerWasSent(h, numbers[..n]);
      LatestWasSent(h, RetxCache.Slot(numbers[n]));
    }
  }

  lemma LatestWasSent(h: seq<RetxCache.Attempt>, slot: nat)
    ensures RetxCache.Latest(h, slot) != [] ==> WasSent(h, RetxCache.Latest(h, slot))
  {
    var i := RetxCache.LatestIndex(h, slot);
    assert i >= 0 ==> h[i].sent == Some(h[i].sent.value);
  }

  lemma SendGenuine(c: Config, s: Joint, au: seq<byte>, ptsUs: u64, idr: bool)
    requires Genuine(c, s)
    ensures Genuine(c, SendOf(s, au, ptsUs, idr))
  {
    hide RetxCache.Stream;
    RetxCache.StreamAppend(Unsent(c), s.inputs, RtpStream.Input(au, ptsUs), c.protect);
    assert s.inputs + [] == s.inputs;
    var h, t := Sent(c, s), Sent(c, SendOf(s, au, ptsUs, idr));
    forall packet | WasSent(h, packet)
      ensures WasSent(t, packet)
    {
      var k :| 0 <= k < |h| && h[k].sent == Some(packet);
      assert t[k] == h[k];
    }
  }

  lemma ResendGenuine(c: Config, s: Joint, numbers: seq<u16>)
    requires Genuine(c, s)
    ensures Genuine(c, ResendOf(c, s, numbers))
  {
    hide RetxCache.Stream, WasSent, RetxCache.Answer;
    AnswerWasSent(Sent(c, s), numbers);
    var t := ResendOf(c, s, numbers);
    forall i | 0 <= i < |t.log.resent|
      ensures WasSent(Sent(c, t), t.log.resent[i].packet)
    {
      var n := |s.log.resent|;
      if i < n {
        assert t.log.resent[i] == s.log.resent[i];
      } else {
        assert t.log.resent[i].packet in RetxCache.Answer(Sent(c, s), numbers);
      }
    }
  }

  lemma SrtpGenuine(c: Config, s: Joint, buffer: seq<byte>, w: World)
    requires Genuine(c, s)
    ensures Genuine(c, SrtpOf(c, s, buffer, w))
  {
    hide Rtcp.Parse, IsRtcp, RequestIdrOf, RetxCache.Stream, ResendOf, WasSent;
    IdrKeeps(c, s, w.idrClock);
    if w.rtcp.Some? {
      var fb := Rtcp.Parse(Rtcp.NOTHING, w.rtcp.value);
      ResendGenuine(c, s, fb.nacks);
      ResendGenuine(c, RequestIdrOf(c, s, w.idrClock), fb.nacks);
    }
  }

  lemma HappenGenuine(c: Config, s: Joint, e: Event)
    requires Sound(c) && Quiescent(c, s) && Genuine(c, s)
    ensures Genuine(c, HappenOf(c, s, e))
  {
    hide PumpOf, QueueOf, StunOf, SrtpOf, SendOf, Stun.Classify, Accepted, Authentic, WasSent, RetxCache.Stream;
    match e
    case Datagram(buffer, source, w) =>
      var r := s.(lastRx := w.arrival);
      SrtpGenuine(c, r, buffer, w);
      if s.state != Closed {
        StunKeeps(c, r, buffer, source);
        if s.remote.Some? {
          QueueKeeps(c, r, buffer, w);
        }
      }
    case TickAt(now, w) =>
      if s.dtls == Handshaking {
        PumpKeeps(c, s, w);
      }
    case Unit(au, ptsUs, idr) => SendGenuine(c, s, au, ptsUs, idr);
    case CloseNow =>
  }

  /** Over every run nothing is sent again that was not sent before, octet for octet. */
  lemma {:induction false} RunGenuine(c: Config, now: u64, events: seq<Event>)
    requires Sound(c)
    ensures Genuine(c, RunOf(c, Fresh(now), events))
    decreases |events|
  {
    hide HappenOf, Quiescent;
    if events != [] {
      hide Genuine;
      var before := events[..|events| - 1];
      RunGenuine(c, now, before);
      RunQuiescent(c, now, before);
      HappenGenuine(c, RunOf(c, Fresh(now), before), events[|events| - 1]);
    }
  }

  /** After any run that leaves a session streaming, a NACK for recent packets has the first 128 of
      them sent again, in the order asked, to the source of the latest accepted check, and does
      nothing else but restart the idle timer. */
  lemma NackServed(c: Config, now: u64, events: seq<Event>, e: Event, places: seq<nat>,
                   sender: u32, media: u32, pairs: seq<Rtcp.Pair>)
    requires Sound(c) && |pairs| <= 65533 && RunOf(c, Fresh(now), events).state == Streaming
    requires e.Datagram? && Stun.Classify(e.buffer) == Stun.RtpPacket && IsRtcp(e.buffer, e.w)
    requires e.w.rtcp == Some(Rtcp.EncodeNack(sender, media, pairs))
    requires RetxCache.Recent(Sent(c, RunOf(c, Fresh(now), events)), places)
    requires Rtcp.Expand(pairs) == RetxCache.NumbersAt(Sent(c, RunOf(c, Fresh(now), events)), places)
    ensures var s := RunOf(c, Fresh(now), events);
            var first := places[..if |places| <= 128 then |places| else 128];
            var packets := Posted(LatestCheck(c, events), RetxCache.PacketsAt(Sent(c, s), first));
            RunOf(c, Fresh(now), events + [e]) ==
            s.(lastRx := e.w.arrival, log := s.log.(resent := s.log.resent + packets))
  {
    hide Stun.Classify, Rtcp.Parse, Rtcp.EncodeNack, Rtcp.Expand, RetxCache.Stream, RetxCache.Answer, IsRtcp,
         IsCheck, Authentic;
    RunQuiescent(c, now, events);
    RunPeer(c, now, events);
    RetxCache.NackRoundTrip(Unsent(c), RunOf(c, Fresh(now), events).inputs, c.protect, places, sender, media, pairs);
    Rtcp.NackInverse(sender, media, pairs);
    assert (events + [e])[..|events|] == events;
  }
}
