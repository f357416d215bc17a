/**
 SDP handling of src/webrtc/sdp.c: the line visitor, the offer parser and the answer generator.
 Parsing an answer recovers what was put into it.
 */
module Sdp {
  import opened Bytes
  import Fingerprint
  import Json

  const LINE_SIZE: nat := 512
  const BUFFER_SIZE: nat := 8192

  // -------------------------------------------------------------------------
  // Lines
  // -------------------------------------------------------------------------

  function LineEnd(t: string): (n: nat)
    ensures n <= |t| && '\n' !in t[..n] && (n < |t| ==> t[n] == '\n')
  {
    if t == "" || t[0] == '\n' then 0
    else
      assert t[..LineEnd(t[1..]) + 1] == [t[0]] + t[1..][..LineEnd(t[1..])];
      1 + LineEnd(t[1..])
  }

  function Trimmed(s: string): (r: string)
    ensures |r| <= |s| && r == s[..|r|]
  {
    if s != "" && (s[|s| - 1] == '\r' || s[|s| - 1] == '\n') then Trimmed(s[..|s| - 1]) else s
  }

  /** A line is cut off at the visitor's buffer. */
  function Cut(s: string): (r: string)
    ensures |r| < LINE_SIZE
  {
    if |s| >= LINE_SIZE then s[..LINE_SIZE - 1] else s
  }

  /** The line at the front of a text, as the visitor gets it. */
  function FirstLine(t: string): (line: string) {
    Cut(Trimmed(t[..LineEnd(t)]))
  }

  /** What follows it. */
  function AfterLine(t: string): (rest: string)
    ensures t != "" ==> |rest| < |t|
  {
    if LineEnd(t) < |t| then t[LineEnd(t) + 1..] else ""
  }

  /** The lines the visitor is called with. */
  function Lines(t: string): (r: seq<string>)
    decreases |t|
  {
    if t == "" then [] else [FirstLine(t)] + Lines(AfterLine(t))
  }

  /** Lines as the generator writes them. */
  function Text(lines: seq<string>): (t: string) {
    if lines == [] then "" else lines[0] + "\r\n" + Text(lines[1..])
  }

  predicate Plain(s: string) {
    '\r' !in s && '\n' !in s
  }

  ghost predicate AllPlain(lines: seq<string>) {
    forall i :: 0 <= i < |lines| ==> Plain(lines[i]) && |lines[i]| < LINE_SIZE
  }

  lemma {:induction false} LineEndAt(s: string, tail: string)
    requires '\n' !in s
    ensures LineEnd(s + "\n" + tail) == |s|
    decreases |s|
  {
    var t := s + "\n" + tail;
    if s == "" {
      assert t[0] == '\n';
    } else {
      assert t[0] == s[0] && t[1..] == s[1..] + "\n" + tail;
      LineEndAt(s[1..], tail);
    }
  }

  lemma OneLine(l: string, tail: string)
    requires Plain(l) && |l| < LINE_SIZE
    ensures Lines(l + "\r\n" + tail) == [l] + Lines(tail)
  {
    var t := l + "\r\n" + tail;
    var s := l + "\r";
    assert t == s + "\n" + tail;
    LineEndAt(s, tail);
    assert t[..|s|] == s && t[|s| + 1..] == tail;
    assert s[..|s| - 1] == l;
    if l != "" {
      assert l[|l| - 1] in l;
    }
    assert Trimmed(l) == l;
  }

  /** A bare line feed ends a line too, and the end of the text the last one; a line of 512 characters or
      more is cut to 511. */
  lemma OtherLines(l: string, tail: string)
    requires Plain(l)
    ensures Lines(l + "\n" + tail) == [if |l| < 512 then l else l[..511]] + Lines(tail)
    ensures l != "" ==> Lines(l) == [if |l| < 512 then l else l[..511]]
  {
    var t := l + "\n" + tail;
    LineEndAt(l, tail);
    assert t[..|l|] == l && t[|l| + 1..] == tail;
    if l != "" {
      assert l[|l| - 1] in l;
    }
    assert Trimmed(l) == l;
    NoLineEnd(l);
    assert l[..|l|] == l;
  }

  lemma {:induction false} NoLineEnd(l: string)
    requires '\n' !in l
    ensures LineEnd(l) == |l|
    decreases |l|
  {
    if l != "" {
      NoLineEnd(l[1..]);
    }
  }

  /** The visitor sees exactly the lines that were written. */
  lemma {:induction false} LinesInverse(lines: seq<string>)
    requires AllPlain(lines)
    ensures Lines(Text(lines)) == lines
  {
    hide Lines;
    if lines == [] {
      NoLines();
    } else {
      OneLine(lines[0], Text(lines[1..]));
      LinesInverse(lines[1..]);
    }
  }

  lemma NoLines()
    ensures Lines("") == []
  {
  }

  lemma {:induction false} TextConcat(a: seq<string>, b: seq<string>)
    ensures Text(a + b) == Text(a) + Text(b)
  {
    if a == [] {
      assert a + b == b;
    } else {
      TextConcat(a[1..], b);
      assert (a + b)[1..] == a[1..] + b && (a + b)[0] == a[0];
      Json.Associative(a[0] + "\r\n", Text(a[1..]), Text(b));
    }
  }

  // -------------------------------------------------------------------------
  // The parser
  // -------------------------------------------------------------------------

  datatype Offer = Offer(ufrag: string, pwd: string, fingerprint: string, setup: string, videoMid: string,
                         audioMid: string, hasAudio: bool, payloadType: int, packetizationMode: int)

  datatype Media = NoMedia | Audio | Video

  datatype Context = Context(offer: Offer, media: Media, haveUfrag: bool, havePwd: bool, haveFingerprint: bool)

  /** strncmp against a prefix. */
  predicate Starts(line: string, prefix: string) {
    |line| >= |prefix| && forall i :: 0 <= i < |prefix| ==> line[i] == prefix[i]
  }

  predicate WordAt(line: string, i: nat, word: string) {
    i + |word| <= |line| && line[i..i + |word|] == word
  }

  predicate Contains(line: string, word: string) {
    exists i :: 0 <= i <= |line| && WordAt(line, i, word)
  }

  /** Up to the end of the value, a line break, or the end of the field. */
  function Field(value: string, size: nat): (r: string)
    requires size > 0
  {
    if value == "" || value[0] == '\r' || value[0] == '\n' || size == 1 then ""
    else [value[0]] + Field(value[1..], size - 1)
  }

  predicate Digit(c: char) {
    '0' <= c <= '9'
  }

  predicate Space(c: char) {
    c == ' ' || 9 as char <= c <= 13 as char
  }

  function Digits(s: string, value: nat): (r: nat)
    decreases |s|
  {
    if s == "" || !Digit(s[0]) then value else Digits(s[1..], value * 10 + (s[0] - '0') as int)
  }

  function Atoi(s: string): (r: int)
  {
    if s == "" then 0
    else if Space(s[0]) then Atoi(s[1..])
    else if s[0] == '-' then -(Digits(s[1..], 0) as int)
    else if s[0] == '+' then Digits(s[1..], 0)
    else Digits(s, 0)
  }

  const UFRAG: string := "a=ice-ufrag:"
  const PWD: string := "a=ice-pwd:"
  const FINGERPRINT: string := "a=fingerprint:"
  const SETUP: string := "a=setup:"
  const MID: string := "a=mid:"
  const RTPMAP: string := "a=rtpmap:"
  const FMTP: string := "a=fmtp:"

  function MediaOf(media: Media, line: string): Media {
    if !Starts(line, "m=") then media
    else if Starts(line, "m=audio") then Audio
    else if Starts(line, "m=video") then Video
    else NoMedia
  }

  /** parse_visit, for a line in its media section. */
  function Visit(c: Context, line: string): (r: Context) {
    var media := MediaOf(c.media, line);
    var d := c.(media := media);
    var o := c.offer;
    if Starts(line, UFRAG) then d.(offer := o.(ufrag := Field(line[12..], 80)), haveUfrag := true)
    else if Starts(line, PWD) then d.(offer := o.(pwd := Field(line[10..], 128)), havePwd := true)
    else if Starts(line, FINGERPRINT) then
      d.(offer := o.(fingerprint := Field(line[14..], 128)), haveFingerprint := true)
    else if Starts(line, SETUP) then d.(offer := o.(setup := Field(line[8..], 24)))
    else if media == Video && Starts(line, MID) then d.(offer := o.(videoMid := Field(line[6..], 24)))
    else if media == Audio && Starts(line, MID) then
      d.(offer := o.(audioMid := Field(line[6..], 24), hasAudio := true))
    else if media == Video && Starts(line, RTPMAP) then
      if Contains(line, "H264/90000") && o.payloadType < 0 then d.(offer := o.(payloadType := Atoi(line[9..]))) else d
    else if media == Video && Starts(line, FMTP) then
      if Atoi(line[7..]) == o.payloadType && Contains(line, "packetization-mode=0")
      then d.(offer := o.(packetizationMode := 0)) else d
    else d
  }

  function VisitAll(c: Context, lines: seq<string>): (r: Context)
    decreases |lines|
  {
    if lines == [] then c else VisitAll(Visit(c, lines[0]), lines[1..])
  }

  const BLANK: Context := Context(Offer("", "", "", "", "", "", false, -1, 1), NoMedia, false, false, false)

  /** sdp_parse_offer as a function. */
  function ParseOffer(t: string): (r: Option<Offer>) {
    var c := VisitAll(BLANK, Lines(t));
    if !c.haveUfrag || !c.havePwd || !c.haveFingerprint || c.offer.payloadType < 0 then None
    else Some(if c.offer.setup == "" then c.offer.(setup := "actpass") else c.offer)
  }

  lemma {:induction false} VisitConcat(c: Context, a: seq<string>, b: seq<string>)
    ensures VisitAll(c, a + b) == VisitAll(VisitAll(c, a), b)
    decreases |a|
  {
    hide Visit;
    if a == [] {
      assert a + b == b;
    } else {
      VisitConcat(Visit(c, a[0]), a[1..], b);
      assert (a + b)[1..] == a[1..] + b;
    }
  }

  method FindEnd(sdp: string, offset: nat) returns (end: nat)
    requires offset <= |sdp|
    ensures offset <= end <= |sdp| && end - offset == LineEnd(sdp[offset..])
  {
    end := offset;
    while end < |sdp| && sdp[end] != '\n'
      invariant offset <= end <= |sdp|
      invariant LineEnd(sdp[offset..]) == end - offset + LineEnd(sdp[end..])
    {
      assert sdp[end..][1..] == sdp[end + 1..];
      end := end + 1;
    }
  }

  method TrimEnd(sdp: string, offset: nat, end: nat) returns (lineLen: nat)
    requires offset <= end <= |sdp|
    ensures lineLen <= end - offset && sdp[offset..offset + lineLen] == Trimmed(sdp[offset..end])
  {
    lineLen := end - offset;
    while lineLen > 0 && (sdp[offset + lineLen - 1] == '\r' || sdp[offset + lineLen - 1] == '\n')
      invariant 0 <= lineLen <= end - offset
      invariant Trimmed(sdp[offset..end]) == Trimmed(sdp[offset..offset + lineLen])
    {
      assert sdp[offset..offset + lineLen][..lineLen - 1] == sdp[offset..offset + lineLen - 1];
      lineLen := lineLen - 1;
    }
  }

  lemma Prefix(s: string, a: nat, b: nat, n: nat)
    requires a + n <= b <= |s|
    ensures s[a..b][..n] == s[a..a + n]
  {
  }

  /** One turn of sdp_for_each_line: find the end of the line, trim it, cut it to the buffer. */
  method NextLine(sdp: string, offset: nat) returns (line: string, next: nat)
    requires offset < |sdp|
    ensures offset < next <= |sdp|
    ensures Lines(sdp[offset..]) == [line] + Lines(sdp[next..])
  {
    hide LineEnd, Trimmed;
    ghost var t := sdp[offset..];
    var end := FindEnd(sdp, offset);
    assert t[..end - offset] == sdp[offset..end];
    var lineLen := TrimEnd(sdp, offset, end);
    ghost var trimmed := sdp[offset..offset + lineLen];
    if lineLen >= LINE_SIZE {
      Prefix(sdp, offset, offset + lineLen, LINE_SIZE - 1);
      lineLen := LINE_SIZE - 1;
    }
    line := sdp[offset..offset + lineLen];
    assert line == Cut(trimmed);
    next := if end < |sdp| then end + 1 else end;
    if end < |sdp| {
      assert sdp[next..] == t[end - offset + 1..];
    } else {
      assert sdp[next..] == "";
    }
    assert line == FirstLine(t) && sdp[next..] == AfterLine(t);
  }

  /** sdp_parse_offer: every line of the text, through the visitor. */
  method Parse(sdp: string) returns (r: Option<Offer>)
    ensures r == ParseOffer(sdp)
  {
    hide Lines, Visit;
    var c := BLANK;
    var offset := 0;
    assert sdp[0..] == sdp;
    while offset < |sdp|
      invariant offset <= |sdp|
      invariant VisitAll(c, Lines(sdp[offset..])) == VisitAll(BLANK, Lines(sdp))
      decreases |sdp| - offset
    {
      var line, next := NextLine(sdp, offset);
      assert ([line] + Lines(sdp[next..]))[1..] == Lines(sdp[next..]);
      c := Visit(c, line);
      offset := next;
    }
    assert sdp[offset..] == "";
    NoLines();
    assert VisitAll(c, []) == c;
    if !c.haveUfrag || !c.havePwd || !c.haveFingerprint {
      return None;
    }
    if c.offer.payloadType < 0 {
      return None;
    }
    return Some(if c.offer.setup == "" then c.offer.(setup := "actpass") else c.offer);
  }

  // -------------------------------------------------------------------------
  // The answer
  // -------------------------------------------------------------------------

  /** What the session puts into its answer. */
  datatype Local = Local(fingerprint: string, ufrag: string, pwd: string, ip: string, extraIps: seq<string>, port: u16,
                         ssrc: u32)

  function VideoMid(o: Offer): string {
    if o.videoMid != "" then o.videoMid else "video"
  }

  function AudioMid(o: Offer): string {
    if o.audioMid != "" then o.audioMid else "audio"
  }

  function SessionLines(o: Offer, l: Local): (r: seq<string>)
    ensures |r| == 12
  {
    ["v=0", "o=- 1 1 IN IP4 " + l.ip, "s=camstream", "t=0 0", "a=ice-lite", "a=ice-options:trickle",
     "a=group:BUNDLE " + VideoMid(o), "a=msid-semantic: WMS camstream"] +
    [FINGERPRINT + l.fingerprint, SETUP + "passive", UFRAG + l.ufrag, PWD + l.pwd]
  }

  function AudioLines(o: Offer): (r: seq<string>) {
    if !o.hasAudio then []
    else ["m=audio" + " 0 UDP/TLS/RTP/SAVPF 0"] + ["c=IN IP4 0.0.0.0", "a=inactive"] + [MID + AudioMid(o)]
  }

  function PayloadLine(pt: nat): string {
    RTPMAP + Json.Decimal(pt) + " H264/90000"
  }

  const MODE: string := " packetization-mode=1"
  const PROFILE: string := ";profile-level-id=42e01f"
  const ASYMMETRY: string := ";level-asymmetry-allowed=1"

  function FormatLine(pt: nat): string {
    FMTP + Json.Decimal(pt) + MODE + (PROFILE + ASYMMETRY)
  }

  function VideoLines(o: Offer, l: Local): (r: seq<string>)
    requires o.payloadType >= 0
  {
    var pt := Json.Decimal(o.payloadType);
    ["m=video" + (" 9 UDP/TLS/RTP/SAVPF " + pt)] + ["c=IN IP4 " + l.ip] +
    [MID + VideoMid(o), UFRAG + l.ufrag, PWD + l.pwd] + ["a=ice-options:trickle"] +
    [FINGERPRINT + l.fingerprint, SETUP + "passive"] +
    ["a=sendonly", "a=rtcp-mux", "a=msid:camstream camstream-video",
     "a=ssrc:" + Json.Decimal(l.ssrc) + " cname:camstream",
     "a=ssrc:" + Json.Decimal(l.ssrc) + " msid:camstream camstream-video"] +
    [PayloadLine(o.payloadType), FormatLine(o.payloadType)] +
    ["a=rtcp-fb:" + pt + " nack", "a=rtcp-fb:" + pt + " nack pli", "a=rtcp-fb:" + pt + " ccm fir"]
  }

  function Candidate(foundation: nat, priority: nat, ip: string, port: u16): string {
    "a=candidate:" + Json.Decimal(foundation) + " 1 udp " + Json.Decimal(priority) + " " + ip + " " +
    Json.Decimal(port) + " typ host generation 0"
  }

  function Priority(i: nat): nat {
    var p := 2130706431 - (i + 1) * 10;
    if p < 1000 then 1000 else p
  }

  /** Further addresses; empty ones and repeats of the first are skipped, but keep their number. */
  function ExtraLines(l: Local, k: nat): (r: seq<string>)
    requires k <= |l.extraIps|
    ensures |r| <= k
  {
    if k == 0 then []
    else
      var ip := l.extraIps[k - 1];
      ExtraLines(l, k - 1) +
      if ip == "" || ip == l.ip then [] else [Candidate(k + 1, Priority(k - 1), ip, l.port)]
  }

  function CandidateLines(l: Local): (r: seq<string>) {
    [Candidate(1, 2130706431, l.ip, l.port)] + ExtraLines(l, |l.extraIps|) + ["a=end-of-candidates"]
  }

  function AnswerLines(o: Offer, l: Local): (r: seq<string>)
    requires o.payloadType >= 0
  {
    SessionLines(o, l) + AudioLines(o) + VideoLines(o, l) + CandidateLines(l)
  }

  // -------------------------------------------------------------------------
  // Lines the parser passes over
  // -------------------------------------------------------------------------

  /** Told apart from everything the parser knows by a few characters. */
  predicate Foreign(l: string) {
    || (|l| >= 1 && l[0] != 'a' && l[0] != 'm')
    || (|l| >= 7 && l[0] == 'a' &&
        (|| (l[2] != 'i' && l[2] != 'f' && l[2] != 's' && l[2] != 'm' && l[2] != 'r')
         || (l[2] == 'i' && (l[3] != 'c' || (l[6] != 'u' && l[6] != 'p')))
         || (l[2] == 's' && (l[3] != 'e' || l[4] != 't'))
         || (l[2] == 'm' && l[3] != 'i')
         || (l[2] == 'r' && l[4] != 'p')))
  }

  lemma ForeignStarts(l: string)
    requires Foreign(l)
    ensures !Starts(l, "m=") && !Starts(l, UFRAG) && !Starts(l, PWD) && !Starts(l, FINGERPRINT)
    ensures !Starts(l, SETUP) && !Starts(l, MID) && !Starts(l, RTPMAP) && !Starts(l, FMTP)
  {
  }

  lemma ForeignIgnored(c: Context, l: string)
    requires Foreign(l)
    ensures Visit(c, l) == c
  {
    ForeignStarts(l);
    hide Starts, Foreign, Field, Atoi, Contains;
  }

  ghost predicate AllForeign(lines: seq<string>) {
    forall i :: 0 <= i < |lines| ==> Foreign(lines[i])
  }

  lemma {:induction false} ForeignAll(c: Context, lines: seq<string>)
    requires AllForeign(lines)
    ensures VisitAll(c, lines) == c
    decreases |lines|
  {
    hide Visit, Foreign;
    if lines != [] {
      ForeignIgnored(c, lines[0]);
      ForeignAll(c, lines[1..]);
    }
  }

  // -------------------------------------------------------------------------
  // Lines the parser reads
  // -------------------------------------------------------------------------

  lemma {:induction false} FieldWhole(v: string, size: nat)
    requires Plain(v) && |v| < size
    ensures Field(v, size) == v
  {
    if v != "" {
      FieldWhole(v[1..], size - 1);
    }
  }

  lemma VisitUfrag(c: Context, v: string)
    requires Plain(v) && |v| < 80
    ensures Visit(c, UFRAG + v) == c.(offer := c.offer.(ufrag := v), haveUfrag := true)
  {
    var l := UFRAG + v;
    FieldWhole(v, 80);
    assert l[0] == 'a' && l[12..] == v;
  }

  lemma VisitPwd(c: Context, v: string)
    requires Plain(v) && |v| < 128
    ensures Visit(c, PWD + v) == c.(offer := c.offer.(pwd := v), havePwd := true)
  {
    var l := PWD + v;
    FieldWhole(v, 128);
    assert l[0] == 'a' && l[6] == 'p' && l[10..] == v;
  }

  lemma VisitFingerprint(c: Context, v: string)
    requires Plain(v) && |v| < 128
    ensures Visit(c, FINGERPRINT + v) == c.(offer := c.offer.(fingerprint := v), haveFingerprint := true)
  {
    var l := FINGERPRINT + v;
    FieldWhole(v, 128);
    assert l[0] == 'a' && l[2] == 'f' && l[14..] == v;
  }

  lemma VisitSetup(c: Context, v: string)
    requires Plain(v) && |v| < 24
    ensures Visit(c, SETUP + v) == c.(offer := c.offer.(setup := v))
  {
    var l := SETUP + v;
    FieldWhole(v, 24);
    assert l[0] == 'a' && l[2] == 's' && l[8..] == v;
  }

  lemma VisitMid(c: Context, v: string)
    requires Plain(v) && |v| < 24 && c.media != NoMedia
    ensures Visit(c, MID + v) == if c.media == Video then c.(offer := c.offer.(videoMid := v))
                                 else c.(offer := c.offer.(audioMid := v, hasAudio := true))
  {
    var l := MID + v;
    FieldWhole(v, 24);
    assert l[0] == 'a' && l[2] == 'm' && l[6..] == v;
  }

  lemma VisitAudio(c: Context, tail: string)
    ensures Visit(c, "m=audio" + tail) == c.(media := Audio)
  {
    assert ("m=audio" + tail)[0] == 'm';
  }

  lemma VisitVideo(c: Context, tail: string)
    ensures Visit(c, "m=video" + tail) == c.(media := Video)
  {
    var l := "m=video" + tail;
    assert l[0] == 'm' && l[2] == 'v';
  }

  // -------------------------------------------------------------------------
  // Numbers
  // -------------------------------------------------------------------------

  lemma {:induction false} DigitsConcat(a: string, b: string, value: nat)
    requires forall i :: 0 <= i < |a| ==> Digit(a[i])
    ensures Digits(a + b, value) == Digits(b, Digits(a, value))
    decreases |a|
  {
    if a == "" {
      assert a + b == b;
    } else {
      assert (a + b)[0] == a[0] && (a + b)[1..] == a[1..] + b;
      DigitsConcat(a[1..], b, value * 10 + (a[0] - '0') as int);
    }
  }

  lemma DigitsOne(c: char, value: nat)
    requires Digit(c)
    ensures Digits([c], value) == value * 10 + (c - '0') as int
  {
    assert [c][1..] == "";
  }

  lemma {:induction false} DecimalDigits(n: nat)
    ensures forall i :: 0 <= i < |Json.Decimal(n)| ==> Digit(Json.Decimal(n)[i])
    ensures Digits(Json.Decimal(n), 0) == n
  {
    var c := '0' + (n % 10) as char;
    DigitsOne(c, n / 10);
    if n < 10 {
      DigitsOne(c, 0);
      assert Json.Decimal(n) == [c];
    } else {
      DecimalDigits(n / 10);
      DigitsConcat(Json.Decimal(n / 10), [c], 0);
    }
  }

  /** atoi undoes %d. */
  lemma AtoiDecimal(n: nat, tail: string)
    requires tail == "" || !Digit(tail[0])
    ensures Atoi(Json.Decimal(n) + tail) == n
  {
    DecimalDigits(n);
    hide Json.Decimal;
    var d := Json.Decimal(n);
    DigitsConcat(d, tail, 0);
    assert (d + tail)[0] == d[0] && Digit(d[0]);
  }

  lemma VisitPayload(c: Context, pt: nat)
    requires c.media == Video && c.offer.payloadType == -1
    ensures Visit(c, PayloadLine(pt)) == c.(offer := c.offer.(payloadType := pt))
  {
    hide Json.Decimal, Atoi;
    var d := Json.Decimal(pt);
    var l := PayloadLine(pt);
    AtoiDecimal(pt, " H264/90000");
    assert l[9..] == d + " H264/90000";
    assert WordAt(l, 9 + |d| + 1, "H264/90000");
    assert l[0] == 'a' && l[2] == 'r';
  }

  /** Every p is followed by something other than a. */
  ghost predicate Harmless(t: string) {
    forall i :: 0 <= i < |t| && t[i] == 'p' ==> i + 1 < |t| && t[i + 1] != 'a'
  }

  lemma HarmlessConcat(a: string, b: string)
    requires Harmless(a) && Harmless(b)
    ensures Harmless(a + b)
  {
    var t := a + b;
    forall i | 0 <= i < |t| && t[i] == 'p'
      ensures i + 1 < |t| && t[i + 1] != 'a'
    {
      if i >= |a| {
        assert b[i - |a|] == 'p' && t[i + 1] == b[i + 1 - |a|];
      } else {
        assert a[i] == 'p' && t[i + 1] == a[i + 1];
      }
    }
  }

  lemma ModeOnce(i: nat)
    requires i + 1 < |MODE| && MODE[i] == 'p' && MODE[i + 1] == 'a'
    ensures i == 1
  {
  }

  lemma PartsHarmless(pt: nat)
    ensures Harmless(FMTP + Json.Decimal(pt)) && Harmless(PROFILE + ASYMMETRY)
  {
    DecimalDigits(pt);
    hide Json.Decimal;
    assert Harmless(FMTP) && Harmless(Json.Decimal(pt));
    HarmlessConcat(FMTP, Json.Decimal(pt));
    assert Harmless(PROFILE) && Harmless(ASYMMETRY);
    HarmlessConcat(PROFILE, ASYMMETRY);
  }

  /** The only place of the format line where a p is followed by an a is followed by mode 1. */
  lemma FormatOnce(head: string, tail: string, l: string, i: nat)
    requires Harmless(head) && Harmless(tail) && l == head + MODE + tail
    requires i + 19 < |l| && l[i] == 'p' && l[i + 1] == 'a'
    ensures l[i + 19] == '1'
  {
    if |head| <= i < |head| + |MODE| {
      var j := i - |head|;
      assert l[i] == MODE[j];
      if j + 1 < |MODE| {
        assert l[i + 1] == MODE[j + 1];
        ModeOnce(j);
        assert l[i + 19] == MODE[20];
      }
    }
  }

  lemma WordMeans(l: string, i: nat)
    requires WordAt(l, i, "packetization-mode=0")
    ensures i + 19 < |l| && l[i] == 'p' && l[i + 1] == 'a' && l[i + 19] == '0'
  {
    var w := l[i..i + 20];
    assert w[0] == l[i] && w[1] == l[i + 1] && w[19] == l[i + 19];
  }

  /** The format line never asks for packetization mode 0. */
  lemma FormatMode(pt: nat)
    ensures !Contains(FormatLine(pt), "packetization-mode=0")
  {
    hide Json.Decimal, WordAt, Harmless;
    var l := FormatLine(pt);
    PartsHarmless(pt);
    forall i | 0 <= i <= |l|
      ensures !WordAt(l, i, "packetization-mode=0")
    {
      if WordAt(l, i, "packetization-mode=0") {
        WordMeans(l, i);
        FormatOnce(FMTP + Json.Decimal(pt), PROFILE + ASYMMETRY, l, i);
      }
    }
  }

  lemma VisitFormat(c: Context, pt: nat)
    requires c.media == Video
    ensures Visit(c, FormatLine(pt)) == c
  {
    FormatMode(pt);
    hide Json.Decimal, Atoi, Contains;
    var l := FormatLine(pt);
    assert l[0] == 'a' && l[2] == 'f' && l[3] == 'm';
  }

  // -------------------------------------------------------------------------
  // The round trip
  // -------------------------------------------------------------------------

  lemma VisitOne(c: Context, l: string)
    ensures VisitAll(c, [l]) == Visit(c, l)
  {
    hide Visit;
    assert [l][1..] == [];
  }

  lemma VisitFour(c: Context, w: string, x: string, y: string, z: string)
    ensures VisitAll(c, [w, x, y, z]) == Visit(Visit(Visit(Visit(c, w), x), y), z)
  {
    hide Visit;
    assert [w, x, y, z] == [w] + [x] + [y] + [z];
    VisitConcat(c, [w] + [x] + [y], [z]);
    VisitConcat(c, [w] + [x], [y]);
    VisitConcat(c, [w], [x]);
    VisitOne(c, w);
    VisitOne(Visit(c, w), x);
    VisitOne(Visit(Visit(c, w), x), y);
    VisitOne(Visit(Visit(Visit(c, w), x), y), z);
  }

  /** What the caller of the generator guarantees: no line breaks, and everything within its field. */
  ghost predicate Within(o: Offer, l: Local) {
    && Plain(l.fingerprint) && |l.fingerprint| < 128
    && Plain(l.ufrag) && |l.ufrag| < 16 && Plain(l.pwd) && |l.pwd| < 44
    && Plain(l.ip) && |l.ip| < 64
    && (forall i :: 0 <= i < |l.extraIps| ==> Plain(l.extraIps[i]) && |l.extraIps[i]| < 64) && |l.extraIps| <= 16
    && Plain(o.videoMid) && |o.videoMid| < 24 && Plain(o.audioMid) && |o.audioMid| < 24
    && 0 <= o.payloadType < 0x8000_0000
  }

  /** What parsing the answer gives. */
  function Recovered(o: Offer, l: Local): Offer {
    Offer(l.ufrag, l.pwd, l.fingerprint, "passive", VideoMid(o), if o.hasAudio then AudioMid(o) else "", o.hasAudio,
          o.payloadType, 1)
  }

  lemma Literals()
    ensures Plain("passive") && Plain("video") && Plain("audio")
  {
  }

  lemma MidsPlain(o: Offer, l: Local)
    requires Within(o, l)
    ensures Plain(VideoMid(o)) && |VideoMid(o)| < 24 && Plain(AudioMid(o)) && |AudioMid(o)| < 24
  {
    Literals();
  }

  lemma SessionForeign(o: Offer, l: Local)
    ensures AllForeign(SessionLines(o, l)[..8])
    ensures SessionLines(o, l)[8..] == [FINGERPRINT + l.fingerprint, SETUP + "passive", UFRAG + l.ufrag, PWD + l.pwd]
  {
    hide Foreign, VideoMid;
    GeneralForeign(l.ip);
    IceForeign(VideoMid(o));
  }

  lemma GeneralForeign(ip: string)
    ensures Foreign("v=0") && Foreign("o=- 1 1 IN IP4 " + ip) && Foreign("s=camstream") && Foreign("t=0 0")
  {
  }

  lemma IceForeign(mid: string)
    ensures Foreign("a=ice-lite") && Foreign("a=ice-options:trickle") && Foreign("a=group:BUNDLE " + mid)
    ensures Foreign("a=msid-semantic: WMS camstream")
  {
  }

  lemma SessionVisited(o: Offer, l: Local)
    requires Within(o, l)
    ensures VisitAll(BLANK, SessionLines(o, l)) ==
            Context(Offer(l.ufrag, l.pwd, l.fingerprint, "passive", "", "", false, -1, 1), NoMedia, true, true, true)
  {
    hide Visit, Foreign, Plain, SessionLines, Starts;
    Literals();
    var lines := SessionLines(o, l);
    SessionForeign(o, l);
    assert lines == lines[..8] + lines[8..];
    VisitConcat(BLANK, lines[..8], lines[8..]);
    ForeignAll(BLANK, lines[..8]);
    VisitFour(BLANK, FINGERPRINT + l.fingerprint, SETUP + "passive", UFRAG + l.ufrag, PWD + l.pwd);
    VisitFingerprint(BLANK, l.fingerprint);
    var c1 := Visit(BLANK, FINGERPRINT + l.fingerprint);
    VisitSetup(c1, "passive");
    var c2 := Visit(c1, SETUP + "passive");
    VisitUfrag(c2, l.ufrag);
    VisitPwd(Visit(c2, UFRAG + l.ufrag), l.pwd);
  }

  lemma AudioVisited(c: Context, o: Offer, l: Local)
    requires Within(o, l)
    ensures VisitAll(c, AudioLines(o)) ==
            if o.hasAudio then c.(media := Audio, offer := c.offer.(audioMid := AudioMid(o), hasAudio := true)) else c
  {
    hide Visit, Plain, Starts;
    MidsPlain(o, l);
    if o.hasAudio {
      var first := "m=audio" + " 0 UDP/TLS/RTP/SAVPF 0";
      var middle := ["c=IN IP4 0.0.0.0", "a=inactive"];
      assert Foreign(middle[0]) && Foreign(middle[1]);
      hide Foreign, AudioMid;
      VisitConcat(c, [first] + middle, [MID + AudioMid(o)]);
      VisitConcat(c, [first], middle);
      VisitOne(c, first);
      VisitAudio(c, " 0 UDP/TLS/RTP/SAVPF 0");
      ForeignAll(c.(media := Audio), middle);
      VisitOne(c.(media := Audio), MID + AudioMid(o));
      VisitMid(c.(media := Audio), AudioMid(o));
    }
  }

  /** The video section before its codec lines. */
  lemma TransportVisited(c: Context, o: Offer, l: Local, head: string)
    requires Within(o, l) && c.haveUfrag && c.havePwd && c.haveFingerprint
    requires c.offer == c.offer.(ufrag := l.ufrag, pwd := l.pwd, fingerprint := l.fingerprint, setup := "passive")
    ensures VisitAll(c, ["m=video" + head] + ["c=IN IP4 " + l.ip] +
                        [MID + VideoMid(o), UFRAG + l.ufrag, PWD + l.pwd] + ["a=ice-options:trickle"] +
                        [FINGERPRINT + l.fingerprint, SETUP + "passive"]) ==
            c.(media := Video, offer := c.offer.(videoMid := VideoMid(o)))
  {
    hide Visit, Plain, Starts;
    MidsPlain(o, l);
    Literals();
    assert Foreign("c=IN IP4 " + l.ip) && Foreign("a=ice-options:trickle");
    hide Foreign, VideoMid;
    var v, net, opt := "m=video" + head, "c=IN IP4 " + l.ip, "a=ice-options:trickle";
    var mid, ufrag, pwd := MID + VideoMid(o), UFRAG + l.ufrag, PWD + l.pwd;
    var digest, setup := FINGERPRINT + l.fingerprint, SETUP + "passive";
    var c1 := c.(media := Video);
    var c2 := c1.(offer := c.offer.(videoMid := VideoMid(o)));
    VisitVideo(c, head);
    ForeignIgnored(c1, net);
    VisitMid(c1, VideoMid(o));
    VisitUfrag(c2, l.ufrag);
    VisitPwd(c2, l.pwd);
    ForeignIgnored(c2, opt);
    VisitFingerprint(c2, l.fingerprint);
    VisitSetup(c2, "passive");
    VisitFour(c, v, net, mid, ufrag);
    VisitFour(c2, pwd, opt, digest, setup);
    VisitConcat(c, [v, net, mid, ufrag], [pwd, opt, digest, setup]);
    assert [v] + [net] + [mid, ufrag, pwd] + [opt] + [digest, setup] == [v, net, mid, ufrag] + [pwd, opt, digest, setup];
  }

  lemma MediaForeign(ssrc: string, pt: string)
    ensures AllForeign(["a=sendonly", "a=rtcp-mux", "a=msid:camstream camstream-video",
                        "a=ssrc:" + ssrc + " cname:camstream", "a=ssrc:" + ssrc + " msid:camstream camstream-video"])
    ensures AllForeign(["a=rtcp-fb:" + pt + " nack", "a=rtcp-fb:" + pt + " nack pli", "a=rtcp-fb:" + pt + " ccm fir"])
  {
  }

  lemma VideoVisited(c: Context, o: Offer, l: Local)
    requires Within(o, l) && c.haveUfrag && c.havePwd && c.haveFingerprint && c.offer.payloadType == -1
    requires c.offer == c.offer.(ufrag := l.ufrag, pwd := l.pwd, fingerprint := l.fingerprint, setup := "passive")
    ensures VisitAll(c, VideoLines(o, l)) ==
            c.(media := Video, offer := c.offer.(videoMid := VideoMid(o), payloadType := o.payloadType))
  {
    hide Visit, Plain, Starts, Foreign, VideoMid, Json.Decimal, PayloadLine, FormatLine;
    var pt, ssrc := Json.Decimal(o.payloadType), Json.Decimal(l.ssrc);
    var a := ["m=video" + (" 9 UDP/TLS/RTP/SAVPF " + pt)] + ["c=IN IP4 " + l.ip] +
             [MID + VideoMid(o), UFRAG + l.ufrag, PWD + l.pwd] + ["a=ice-options:trickle"] +
             [FINGERPRINT + l.fingerprint, SETUP + "passive"];
    var b := ["a=sendonly", "a=rtcp-mux", "a=msid:camstream camstream-video", "a=ssrc:" + ssrc + " cname:camstream",
              "a=ssrc:" + ssrc + " msid:camstream camstream-video"];
    var d := [PayloadLine(o.payloadType), FormatLine(o.payloadType)];
    var e := ["a=rtcp-fb:" + pt + " nack", "a=rtcp-fb:" + pt + " nack pli", "a=rtcp-fb:" + pt + " ccm fir"];
    assert VideoLines(o, l) == a + b + d + e;
    TransportVisited(c, o, l, " 9 UDP/TLS/RTP/SAVPF " + pt);
    MediaForeign(ssrc, pt);
    CodecVisited(c.(media := Video, offer := c.offer.(videoMid := VideoMid(o))), o.payloadType, b, d, e);
    VisitConcat(c, a + b + d, e);
    VisitConcat(c, a + b, d);
    VisitConcat(c, a, b);
  }

  lemma CodecVisited(c: Context, pt: nat, b: seq<string>, d: seq<string>, e: seq<string>)
    requires AllForeign(b) && AllForeign(e) && d == [PayloadLine(pt), FormatLine(pt)]
    requires c.media == Video && c.offer.payloadType == -1
    ensures VisitAll(c, b) == c
    ensures VisitAll(c, d) == c.(offer := c.offer.(payloadType := pt))
    ensures VisitAll(c.(offer := c.offer.(payloadType := pt)), e) == c.(offer := c.offer.(payloadType := pt))
  {
    hide Visit, Foreign, PayloadLine, FormatLine;
    var p := c.(offer := c.offer.(payloadType := pt));
    ForeignAll(c, b);
    ForeignAll(p, e);
    assert d == [PayloadLine(pt)] + [FormatLine(pt)];
    VisitConcat(c, [PayloadLine(pt)], [FormatLine(pt)]);
    VisitOne(c, PayloadLine(pt));
    VisitOne(p, FormatLine(pt));
    VisitPayload(c, pt);
    VisitFormat(p, pt);
  }

  lemma CandidateForeign(foundation: nat, priority: nat, ip: string, port: u16)
    ensures Foreign(Candidate(foundation, priority, ip, port))
  {
    hide Json.Decimal;
    var l := Candidate(foundation, priority, ip, port);
    assert l[0] == 'a' && l[2] == 'c';
  }

  lemma {:induction false} ExtraForeign(l: Local, k: nat)
    requires k <= |l.extraIps|
    ensures AllForeign(ExtraLines(l, k))
  {
    hide Foreign, Candidate;
    if k > 0 {
      ExtraForeign(l, k - 1);
      CandidateForeign(k + 1, Priority(k - 1), l.extraIps[k - 1], l.port);
    }
  }

  lemma EndForeign()
    ensures Foreign("a=end-of-candidates")
  {
  }

  lemma CandidatesForeign(l: Local)
    ensures AllForeign(CandidateLines(l))
  {
    hide Foreign, Candidate, ExtraLines;
    EndForeign();
    CandidateForeign(1, 2130706431, l.ip, l.port);
    ExtraForeign(l, |l.extraIps|);
  }

  /** Visiting the answer's lines. */
  lemma AnswerVisited(o: Offer, l: Local)
    requires Within(o, l)
    ensures VisitAll(BLANK, AnswerLines(o, l)) == Context(Recovered(o, l), Video, true, true, true)
  {
    hide Within, VisitAll, SessionLines, AudioLines, VideoLines, CandidateLines, VideoMid, AudioMid, AllForeign;
    PayloadPositive(o, l);
    var s, a, v, d := SessionLines(o, l), AudioLines(o), VideoLines(o, l), CandidateLines(l);
    SessionVisited(o, l);
    var c1 := VisitAll(BLANK, s);
    AudioVisited(c1, o, l);
    var c2 := VisitAll(c1, a);
    VideoVisited(c2, o, l);
    CandidatesForeign(l);
    ForeignAll(VisitAll(c2, v), d);
    VisitConcat(BLANK, s + a + v, d);
    VisitConcat(BLANK, s + a, v);
    VisitConcat(BLANK, s, a);
  }

  lemma PayloadPositive(o: Offer, l: Local)
    requires Within(o, l)
    ensures o.payloadType >= 0
  {
  }

  // -------------------------------------------------------------------------
  // Sizes
  // -------------------------------------------------------------------------

  /** No line breaks, and no longer than a bound. */
  ghost predicate Short(s: string, k: nat) {
    Plain(s) && |s| <= k
  }

  ghost predicate AllShort(lines: seq<string>, k: nat) {
    forall i :: 0 <= i < |lines| ==> Short(lines[i], k)
  }

  lemma ShortConcat(a: string, b: string, j: nat, k: nat)
    requires Short(a, j) && Short(b, k)
    ensures Short(a + b, j + k)
  {
  }

  lemma {:induction false} TextShort(lines: seq<string>, k: nat)
    requires AllShort(lines, k)
    ensures |Text(lines)| <= |lines| * (k + 2)
  {
    hide Plain;
    if lines != [] {
      assert Short(lines[0], k);
      TextShort(lines[1..], k);
      assert |lines| * (k + 2) == (|lines| - 1) * (k + 2) + (k + 2);
    }
  }

  lemma DecimalTen(n: nat)
    requires n < 0x1_0000_0000
    ensures Short(Json.Decimal(n), 10)
  {
    Json.Tens();
    Json.DecimalShort(n, 10, 10000000000);
    DecimalDigits(n);
    hide Json.Decimal;
  }

  lemma DecimalFive(n: u16)
    ensures Short(Json.Decimal(n), 5)
  {
    Json.Tens();
    Json.DecimalShort(n, 5, 100000);
    DecimalDigits(n);
    hide Json.Decimal;
  }

  lemma FirstWords()
    ensures Short("v=0", 150) && Short("s=camstream", 150) && Short("t=0 0", 150)
  {
  }

  lemma IceWords()
    ensures Short("a=ice-lite", 150) && Short("a=ice-options:trickle", 150)
  {
  }

  lemma SemanticWords()
    ensures Short("a=msid-semantic: WMS camstream", 150)
  {
  }

  lemma AddressWords()
    ensures Short("o=- 1 1 IN IP4 ", 15) && Short("a=group:BUNDLE ", 15)
  {
  }

  lemma SetupWords()
    ensures Short(SETUP + "passive", 150) && Short(MID, 6)
  {
  }

  lemma AttributeWords()
    ensures Short(FINGERPRINT, 14) && Short(UFRAG, 12) && Short(PWD, 10)
  {
  }

  lemma AudioWords()
    ensures Short("m=audio" + " 0 UDP/TLS/RTP/SAVPF 0", 150)
  {
  }

  lemma InactiveWords()
    ensures Short("c=IN IP4 0.0.0.0", 150) && Short("a=inactive", 150)
  {
  }

  lemma VideoWords()
    ensures Short("m=video", 7) && Short(" 9 UDP/TLS/RTP/SAVPF ", 21)
  {
  }

  lemma NetworkWords()
    ensures Short("c=IN IP4 ", 9)
  {
  }

  lemma DirectionWords()
    ensures Short("a=sendonly", 150) && Short("a=rtcp-mux", 150)
  {
  }

  lemma StreamWords()
    ensures Short("a=msid:camstream camstream-video", 150)
  {
  }

  lemma SourceWords()
    ensures Short("a=ssrc:", 7) && Short(" cname:camstream", 16)
  {
  }

  lemma LabelWords()
    ensures Short(" msid:camstream camstream-video", 31)
  {
  }

  lemma MapWords()
    ensures Short(RTPMAP, 9) && Short(" H264/90000", 11) && Short(FMTP, 7)
  {
  }

  lemma ModeWords()
    ensures Short(MODE, 21)
  {
  }

  lemma ProfileWords()
    ensures Short(PROFILE, 24)
  {
  }

  lemma LevelWords()
    ensures Short(ASYMMETRY, 26)
  {
  }

  lemma CandidateWords()
    ensures Short("a=candidate:", 12) && Short(" 1 udp ", 7) && Short(" ", 1)
  {
  }

  lemma HostWords()
    ensures Short(" typ host generation 0", 22)
  {
  }

  lemma SessionShort(o: Offer, l: Local)
    requires Within(o, l)
    ensures AllShort(SessionLines(o, l), 150)
  {
    MidsPlain(o, l);
    hide VideoMid;
    hide Plain;
    FirstWords();
    IceWords();
    SemanticWords();
    AddressWords();
    SetupWords();
    AttributeWords();
    ShortConcat("o=- 1 1 IN IP4 ", l.ip, 15, 63);
    ShortConcat("a=group:BUNDLE ", VideoMid(o), 15, 23);
    ShortConcat(FINGERPRINT, l.fingerprint, 14, 127);
    ShortConcat(UFRAG, l.ufrag, 12, 15);
    ShortConcat(PWD, l.pwd, 10, 43);
  }

  lemma AudioShort(o: Offer, l: Local)
    requires Within(o, l)
    ensures AllShort(AudioLines(o), 150) && |AudioLines(o)| <= 4
  {
    MidsPlain(o, l);
    hide AudioMid;
    hide Plain;
    AudioWords();
    InactiveWords();
    SetupWords();
    ShortConcat(MID, AudioMid(o), 6, 23);
  }

  lemma TransportShort(o: Offer, l: Local, pt: string)
    requires Within(o, l) && Short(pt, 10)
    ensures AllShort(["m=video" + (" 9 UDP/TLS/RTP/SAVPF " + pt)] + ["c=IN IP4 " + l.ip] +
                     [MID + VideoMid(o), UFRAG + l.ufrag, PWD + l.pwd] + ["a=ice-options:trickle"] +
                     [FINGERPRINT + l.fingerprint, SETUP + "passive"], 150)
  {
    MidsPlain(o, l);
    hide VideoMid;
    hide Plain;
    VideoWords();
    NetworkWords();
    IceWords();
    SetupWords();
    AttributeWords();
    ShortConcat(" 9 UDP/TLS/RTP/SAVPF ", pt, 21, 10);
    ShortConcat("m=video", " 9 UDP/TLS/RTP/SAVPF " + pt, 7, 31);
    ShortConcat("c=IN IP4 ", l.ip, 9, 63);
    ShortConcat(MID, VideoMid(o), 6, 23);
    ShortConcat(FINGERPRINT, l.fingerprint, 14, 127);
    ShortConcat(UFRAG, l.ufrag, 12, 15);
    ShortConcat(PWD, l.pwd, 10, 43);
  }

  lemma MediaShort(ssrc: string)
    requires Short(ssrc, 10)
    ensures AllShort(["a=sendonly", "a=rtcp-mux", "a=msid:camstream camstream-video",
                      "a=ssrc:" + ssrc + " cname:camstream", "a=ssrc:" + ssrc + " msid:camstream camstream-video"], 150)
  {
    hide Plain;
    DirectionWords();
    StreamWords();
    SourceWords();
    LabelWords();
    ShortConcat("a=ssrc:", ssrc, 7, 10);
    ShortConcat("a=ssrc:" + ssrc, " cname:camstream", 17, 16);
    ShortConcat("a=ssrc:" + ssrc, " msid:camstream camstream-video", 17, 31);
  }

  lemma CodecShort(pt: nat)
    requires Short(Json.Decimal(pt), 10)
    ensures AllShort([PayloadLine(pt), FormatLine(pt)], 150)
  {
    hide Json.Decimal;
    var d := Json.Decimal(pt);
    hide Plain;
    MapWords();
    ModeWords();
    ProfileWords();
    LevelWords();
    ShortConcat(RTPMAP, d, 9, 10);
    ShortConcat(RTPMAP + d, " H264/90000", 19, 11);
    ShortConcat(FMTP, d, 7, 10);
    ShortConcat(FMTP + d, MODE, 17, 21);
    ShortConcat(PROFILE, ASYMMETRY, 24, 26);
    ShortConcat(FMTP + d + MODE, PROFILE + ASYMMETRY, 38, 50);
  }

  lemma FeedbackShort(pt: string)
    requires Short(pt, 10)
    ensures AllShort(["a=rtcp-fb:" + pt + " nack", "a=rtcp-fb:" + pt + " nack pli", "a=rtcp-fb:" + pt + " ccm fir"], 150)
  {
    assert Short("a=rtcp-fb:", 10) && Short(" nack", 5) && Short(" nack pli", 9) && Short(" ccm fir", 8);
    hide Plain;
    ShortConcat("a=rtcp-fb:", pt, 10, 10);
    ShortConcat("a=rtcp-fb:" + pt, " nack", 20, 5);
    ShortConcat("a=rtcp-fb:" + pt, " nack pli", 20, 9);
    ShortConcat("a=rtcp-fb:" + pt, " ccm fir", 20, 8);
  }

  lemma VideoShort(o: Offer, l: Local)
    requires Within(o, l)
    ensures AllShort(VideoLines(o, l), 150) && |VideoLines(o, l)| == 18
  {
    DecimalTen(o.payloadType);
    DecimalTen(l.ssrc);
    var pt, ssrc := Json.Decimal(o.payloadType), Json.Decimal(l.ssrc);
    TransportShort(o, l, pt);
    MediaShort(ssrc);
    CodecShort(o.payloadType);
    FeedbackShort(pt);
    hide Plain, VideoMid, Json.Decimal, PayloadLine, FormatLine, Short;
  }

  lemma CandidateShort(foundation: nat, priority: nat, ip: string, port: u16)
    requires Short(ip, 63) && foundation < 0x1_0000_0000 && priority < 0x1_0000_0000
    ensures Short(Candidate(foundation, priority, ip, port), 133)
  {
    DecimalTen(foundation);
    DecimalTen(priority);
    DecimalFive(port);
    hide Json.Decimal;
    var f, p, q := Json.Decimal(foundation), Json.Decimal(priority), Json.Decimal(port);
    hide Plain;
    CandidateWords();
    HostWords();
    ShortConcat("a=candidate:", f, 12, 10);
    ShortConcat("a=candidate:" + f, " 1 udp ", 22, 7);
    ShortConcat("a=candidate:" + f + " 1 udp ", p, 29, 10);
    ShortConcat("a=candidate:" + f + " 1 udp " + p, " ", 39, 1);
    ShortConcat("a=candidate:" + f + " 1 udp " + p + " ", ip, 40, 63);
    ShortConcat("a=candidate:" + f + " 1 udp " + p + " " + ip, " ", 103, 1);
    ShortConcat("a=candidate:" + f + " 1 udp " + p + " " + ip + " ", q, 104, 5);
    ShortConcat("a=candidate:" + f + " 1 udp " + p + " " + ip + " " + q, " typ host generation 0", 109, 22);
  }

  lemma {:induction false} ExtraShort(l: Local, k: nat)
    requires k <= |l.extraIps| <= 16 && forall i :: 0 <= i < |l.extraIps| ==> Short(l.extraIps[i], 63)
    ensures AllShort(ExtraLines(l, k), 133) && |Text(ExtraLines(l, k))| <= k * 135
  {
    hide Candidate, Short;
    if k > 0 {
      ExtraShort(l, k - 1);
      CandidateShort(k + 1, Priority(k - 1), l.extraIps[k - 1], l.port);
    }
    TextShort(ExtraLines(l, k), 133);
  }

  lemma EndShort()
    ensures Short("a=end-of-candidates", 133)
  {
  }

  lemma AddressesShort(o: Offer, l: Local)
    requires Within(o, l)
    ensures Short(l.ip, 63) && |l.extraIps| <= 16
    ensures forall i :: 0 <= i < |l.extraIps| ==> Short(l.extraIps[i], 63)
  {
    hide Plain;
  }

  lemma CandidatesShort(o: Offer, l: Local)
    requires Within(o, l)
    ensures AllShort(CandidateLines(l), 133)
  {
    AddressesShort(o, l);
    hide Within, Plain, Candidate, Short, ExtraLines;
    EndShort();
    CandidateShort(1, 2130706431, l.ip, l.port);
    ExtraShort(l, |l.extraIps|);
  }

  /** The three fixed sections together. */
  function FixedLines(o: Offer, l: Local): (r: seq<string>)
    requires o.payloadType >= 0
  {
    SessionLines(o, l) + AudioLines(o) + VideoLines(o, l)
  }

  lemma FixedShort(o: Offer, l: Local)
    requires Within(o, l)
    ensures AllShort(FixedLines(o, l), 150) && |FixedLines(o, l)| <= 34 && |Text(FixedLines(o, l))| <= 5168
  {
    SessionShort(o, l);
    AudioShort(o, l);
    VideoShort(o, l);
    hide Within, SessionLines, AudioLines, VideoLines, Short;
    TextShort(FixedLines(o, l), 150);
  }

  lemma ShortIsPlain(lines: seq<string>, k: nat)
    requires AllShort(lines, k) && k < LINE_SIZE
    ensures AllPlain(lines)
  {
    hide Plain;
    forall i | 0 <= i < |lines|
      ensures Plain(lines[i]) && |lines[i]| < LINE_SIZE
    {
      assert Short(lines[i], k);
    }
  }

  lemma AllPlainConcat(a: seq<string>, b: seq<string>)
    requires AllPlain(a) && AllPlain(b)
    ensures AllPlain(a + b)
  {
  }

  lemma AnswerPlain(o: Offer, l: Local)
    requires Within(o, l)
    ensures AllPlain(AnswerLines(o, l))
  {
    FixedShort(o, l);
    CandidatesShort(o, l);
    hide Within, SessionLines, AudioLines, VideoLines, CandidateLines, AllShort;
    ShortIsPlain(FixedLines(o, l), 150);
    ShortIsPlain(CandidateLines(l), 133);
    AllPlainConcat(FixedLines(o, l), CandidateLines(l));
  }

  /** Parsing an answer recovers every value that went into it. */
  lemma AnswerRoundTrip(o: Offer, l: Local)
    requires Within(o, l)
    ensures ParseOffer(Text(AnswerLines(o, l))) == Some(Recovered(o, l))
  {
    AnswerPlain(o, l);
    AnswerVisited(o, l);
    hide Within, AnswerLines, VisitAll, Lines, Text;
    LinesInverse(AnswerLines(o, l));
  }

  /** The whole way to the other side: the answer escaped into the JSON payload, extracted again and
      parsed, with room for it. */
  lemma SignallingRoundTrip(o: Offer, l: Local, id: u32, size: nat, strtol: Json.Strtol)
    requires Within(o, l) && size > |Text(AnswerLines(o, l))|
    ensures var body := Json.Payload(id, l.port, Text(AnswerLines(o, l)));
            && Json.GetString(body, "sdp", size, strtol).Some?
            && ParseOffer(Json.GetString(body, "sdp", size, strtol).value) == Some(Recovered(o, l))
  {
    hide Within, AnswerLines, Text, ParseOffer, Json.Payload, Json.GetString;
    PayloadPositive(o, l);
    AnswerRoundTrip(o, l);
    Json.PayloadRoundTrip(id, l.port, Text(AnswerLines(o, l)), size, strtol);
  }

  /** The certificate the answer names is the one it was printed from, and no other. */
  lemma FingerprintSurvives(o: Offer, l: Local, md: seq<byte>, other: seq<byte>)
    requires Within(o, l) && l.fingerprint == Fingerprint.Print(md)
    ensures var r := ParseOffer(Text(AnswerLines(o, l)));
            r.Some? && (Fingerprint.Names(r.value.fingerprint, other) <==> other == md)
  {
    hide Within, AnswerLines, Text, ParseOffer, Fingerprint.Print, Fingerprint.Names;
    PayloadPositive(o, l);
    AnswerRoundTrip(o, l);
    Fingerprint.PrintNamesExactly(md, other);
  }

  // -------------------------------------------------------------------------
  // The generator
  // -------------------------------------------------------------------------

  lemma TextSingle(line: string)
    ensures Text([line]) == line + "\r\n"
  {
    assert [line][1..] == [];
    assert line + "\r\n" + "" == line + "\r\n";
  }

  /** One further address adds a line behind everything so far, or nothing. */
  lemma ExtraStep(l: Local, k: nat, head: string)
    requires k < |l.extraIps|
    ensures var ip := l.extraIps[k];
            head + Text(ExtraLines(l, k + 1)) ==
            if ip == "" || ip == l.ip then head + Text(ExtraLines(l, k))
            else head + Text(ExtraLines(l, k)) + (Candidate(k + 2, Priority(k), ip, l.port) + "\r\n")
  {
    hide Candidate, Priority;
    var ip := l.extraIps[k];
    if ip == "" || ip == l.ip {
      assert ExtraLines(l, k) + [] == ExtraLines(l, k);
      assert Text(ExtraLines(l, k)) + "" == Text(ExtraLines(l, k));
    } else {
      var line := Candidate(k + 2, Priority(k), ip, l.port);
      TextConcat(ExtraLines(l, k), [line]);
      TextSingle(line);
      Json.Associative(head, Text(ExtraLines(l, k)), line + "\r\n");
    }
  }

  /** sdp_build_answer_multi: the answer, or nothing when the caller's buffer is too small. The
      generator's own buffer is never exceeded, nor is the loop over further addresses cut short. */
  method BuildAnswer(o: Offer, l: Local, capacity: nat) returns (answer: string)
    requires Within(o, l)
    ensures |Text(AnswerLines(o, l))| < BUFFER_SIZE
    ensures answer == if |Text(AnswerLines(o, l))| + 1 <= capacity then Text(AnswerLines(o, l)) else ""
  {
    hide FixedLines, Candidate, ExtraLines, Text, AnswerLines, AllShort, Plain;
    FixedShort(o, l);
    ExtraBounds(o, l);
    var buffer := Text(FixedLines(o, l)) + (Candidate(1, 2130706431, l.ip, l.port) + "\r\n");
    buffer := AddCandidates(l, buffer);
    buffer := buffer + "a=end-of-candidates\r\n";
    AnswerText(o, l);
    answer := if |buffer| + 1 > capacity then "" else buffer;
  }

  /** The loop over further addresses; its check for 256 octets of room never ends it early. */
  method AddCandidates(l: Local, head: string) returns (buffer: string)
    requires forall k :: 0 <= k <= |l.extraIps| ==> |head| + |Text(ExtraLines(l, k))| + 256 <= BUFFER_SIZE
    ensures buffer == head + Text(ExtraLines(l, |l.extraIps|))
  {
    hide Candidate, ExtraLines, Text, Priority;
    buffer := head;
    ExtraNone(l);
    assert head + "" == head;
    for i := 0 to |l.extraIps|
      invariant buffer == head + Text(ExtraLines(l, i))
    {
      var ip := l.extraIps[i];
      ExtraStep(l, i, head);
      if ip == "" || ip == l.ip {
        continue;
      }
      buffer := buffer + (Candidate(i + 2, Priority(i), ip, l.port) + "\r\n");
      assert |buffer| + 256 <= BUFFER_SIZE;
    }
  }

  lemma ExtraNone(l: Local)
    ensures Text(ExtraLines(l, 0)) == ""
  {
  }

  lemma ExtraBounds(o: Offer, l: Local)
    requires Within(o, l)
    ensures |l.extraIps| <= 16 && |Candidate(1, 2130706431, l.ip, l.port)| <= 133
    ensures forall k :: 0 <= k <= |l.extraIps| ==> |Text(ExtraLines(l, k))| <= 2160
  {
    AddressesShort(o, l);
    hide Within, Plain, Candidate, ExtraLines;
    CandidateShort(1, 2130706431, l.ip, l.port);
    forall k | 0 <= k <= |l.extraIps|
      ensures |Text(ExtraLines(l, k))| <= 2160
    {
      ExtraShort(l, k);
    }
  }

  /** The answer's text, piece by piece. */
  lemma AnswerText(o: Offer, l: Local)
    requires o.payloadType >= 0
    ensures Text(AnswerLines(o, l)) ==
            Text(FixedLines(o, l)) + (Candidate(1, 2130706431, l.ip, l.port) + "\r\n") +
            Text(ExtraLines(l, |l.extraIps|)) + "a=end-of-candidates\r\n"
  {
    hide SessionLines, AudioLines, VideoLines, Candidate, ExtraLines, Text;
    var f, c, e := FixedLines(o, l), Candidate(1, 2130706431, l.ip, l.port), ExtraLines(l, |l.extraIps|);
    assert AnswerLines(o, l) == f + [c] + e + ["a=end-of-candidates"];
    TextConcat(f + [c] + e, ["a=end-of-candidates"]);
    TextConcat(f + [c], e);
    TextConcat(f, [c]);
    TextSingle(c);
    TextSingle("a=end-of-candidates");
    assert "a=end-of-candidates" + "\r\n" == "a=end-of-candidates\r\n";
  }
}
