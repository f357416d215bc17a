/**
 What src/webrtc/sdp.c takes from an offer with any number of lines, and how the candidate lines of
 an answer name the addresses: each told from the lines, not from the order of visiting them.
 */
module SdpOffers {
  import opened Bytes
  import opened Sdp
  import Json

  // -------------------------------------------------------------------------
  // The choice of the payload type
  // -------------------------------------------------------------------------

  /** The section the lines end in: that of the last media line. */
  function Section(lines: seq<string>): (m: Media) {
    if lines == [] then NoMedia
    else
      var l := lines[|lines| - 1];
      if Starts(l, "m=audio") then Audio
      else if Starts(l, "m=video") then Video
      else if Starts(l, "m=") then NoMedia
      else Section(lines[..|lines| - 1])
  }

  /** The i-th line maps a payload type of the video section to H.264. */
  predicate OffersH264(lines: seq<string>, i: nat)
    requires i < |lines|
  {
    && Section(lines[..i + 1]) == Video
    && Starts(lines[i], "a=rtpmap:") && Contains(lines[i], "H264/90000")
  }

  /** The payload type on such a line. */
  function TypeOn(line: string): (pt: int)
    requires Starts(line, "a=rtpmap:")
  {
    Atoi(line[9..])
  }

  /** Line i is the first to offer H.264 with a payload type that is not negative. */
  ghost predicate FirstOffer(lines: seq<string>, i: nat) {
    && i < |lines| && OffersH264(lines, i) && TypeOn(lines[i]) >= 0
    && forall j :: 0 <= j < i && OffersH264(lines, j) ==> TypeOn(lines[j]) < 0
  }

  lemma VisitLast(lines: seq<string>)
    requires lines != []
    ensures VisitAll(BLANK, lines) == Visit(VisitAll(BLANK, lines[..|lines| - 1]), lines[|lines| - 1])
  {
    hide Visit;
    var n := |lines| - 1;
    assert lines == lines[..n] + [lines[n]];
    VisitConcat(BLANK, lines[..n], [lines[n]]);
    VisitOne(VisitAll(BLANK, lines[..n]), lines[n]);
  }

  /** What a line starts with decides which of the fields it is read for. */
  lemma Exclusive(l: string)
    ensures Starts(l, "a=rtpmap:") ==>
              && !Starts(l, UFRAG) && !Starts(l, PWD) && !Starts(l, FINGERPRINT) && !Starts(l, SETUP)
              && !Starts(l, MID) && !Starts(l, FMTP) && !Starts(l, "m=")
    ensures Starts(l, "m=audio") ==> Starts(l, "m=") && !Starts(l, "m=video")
    ensures Starts(l, "m=video") ==> Starts(l, "m=")
  {
    Differ(l, RTPMAP, UFRAG, 2);
    Differ(l, RTPMAP, PWD, 2);
    Differ(l, RTPMAP, FINGERPRINT, 2);
    Differ(l, RTPMAP, SETUP, 2);
    Differ(l, RTPMAP, MID, 2);
    Differ(l, RTPMAP, FMTP, 2);
    Differ(l, RTPMAP, "m=", 0);
    Differ(l, "m=audio", "m=video", 2);
    assert "m=audio"[0] == "m="[0] && "m=audio"[1] == "m="[1] && "m=video"[0] == "m="[0] && "m=video"[1] == "m="[1];
  }

  lemma Differ(l: string, a: string, b: string, i: nat)
    requires i < |a| && i < |b| && a[i] != b[i]
    ensures !(Starts(l, a) && Starts(l, b))
  {
  }

  /** The context after some lines: the section they end in, and the type of the first offer. */
  ghost predicate Chosen(lines: seq<string>, c: Context) {
    && c.media == Section(lines)
    && (c.offer.payloadType >= 0 ==> exists i: nat :: FirstOffer(lines, i) && TypeOn(lines[i]) == c.offer.payloadType)
    && (c.offer.payloadType < 0 ==> forall i :: 0 <= i < |lines| && OffersH264(lines, i) ==> TypeOn(lines[i]) < 0)
  }

  /** One line, as far as the choice goes. */
  lemma VisitChoice(c: Context, l: string)
    ensures var d := Visit(c, l);
            && d.media == (if Starts(l, "m=audio") then Audio else if Starts(l, "m=video") then Video
                           else if Starts(l, "m=") then NoMedia else c.media)
            && d.offer.payloadType ==
               if d.media == Video && Starts(l, "a=rtpmap:") && Contains(l, "H264/90000") && c.offer.payloadType < 0
               then Atoi(l[9..]) else c.offer.payloadType
  {
    Exclusive(l);
    hide Starts, Contains, Atoi, Field;
  }

  lemma PrefixOffers(lines: seq<string>, i: nat)
    requires i + 1 < |lines|
    ensures OffersH264(lines[..|lines| - 1], i) == OffersH264(lines, i)
  {
    hide Section, Starts, Contains;
    assert lines[..|lines| - 1][..i + 1] == lines[..i + 1];
  }

  lemma {:induction false} VisitedChosen(lines: seq<string>)
    ensures Chosen(lines, VisitAll(BLANK, lines))
    decreases |lines|
  {
    hide Visit, Starts, Contains, Atoi;
    if lines != [] {
      var n := |lines| - 1;
      var before, l := lines[..n], lines[n];
      var c := VisitAll(BLANK, before);
      VisitedChosen(before);
      VisitLast(lines);
      VisitChoice(c, l);
      forall i | 0 <= i < n
        ensures OffersH264(lines, i) == OffersH264(before, i) && lines[i] == before[i]
      {
        PrefixOffers(lines, i);
      }
      LastOffers(lines, c);
      if c.offer.payloadType >= 0 {
        var i: nat :| FirstOffer(before, i) && TypeOn(before[i]) == c.offer.payloadType;
        assert FirstOffer(lines, i);
      } else if OffersH264(lines, n) && TypeOn(l) >= 0 {
        assert FirstOffer(lines, n);
      }
    }
  }

  lemma LastOffers(lines: seq<string>, c: Context)
    requires lines != [] && c.media == Section(lines[..|lines| - 1])
    ensures var l := lines[|lines| - 1];
            && Section(lines) == (if Starts(l, "m=audio") then Audio else if Starts(l, "m=video") then Video
                                  else if Starts(l, "m=") then NoMedia else c.media)
            && (OffersH264(lines, |lines| - 1) <==>
                  Section(lines) == Video && Starts(l, "a=rtpmap:") && Contains(l, "H264/90000"))
            && (Starts(l, "a=rtpmap:") ==> TypeOn(l) == Atoi(l[9..]))
  {
    hide Starts, Contains, Atoi;
    assert lines[..|lines| - 1 + 1] == lines;
  }

  /** An offer's payload type is that of the first H.264 line in its video sections, whatever other
      codecs and further H.264 lines it has; without such a line it is refused. */
  lemma TypeChosen(t: string)
    ensures ParseOffer(t).Some? ==>
              exists i: nat :: FirstOffer(Lines(t), i) && TypeOn(Lines(t)[i]) == ParseOffer(t).value.payloadType
    ensures (forall i: nat :: !FirstOffer(Lines(t), i)) ==> ParseOffer(t).None?
  {
    hide OffersH264, Section, TypeOn, Lines, Visit;
    VisitedChosen(Lines(t));
  }

  // -------------------------------------------------------------------------
  // Session or media, the last value counts
  // -------------------------------------------------------------------------

  /** The value on the last line with a prefix, cut to a field. */
  function LastValue(lines: seq<string>, prefix: string, size: nat): (v: Option<string>)
    requires size > 0
  {
    if lines == [] then None
    else
      var l := lines[|lines| - 1];
      if Starts(l, prefix) then Some(Field(l[|prefix|..], size)) else LastValue(lines[..|lines| - 1], prefix, size)
  }

  function Or(v: Option<string>, other: string): string {
    if v.Some? then v.value else other
  }

  lemma VisitValues(c: Context, l: string)
    ensures var d := Visit(c, l);
            && d.offer.ufrag == (if Starts(l, "a=ice-ufrag:") then Field(l[12..], 80) else c.offer.ufrag)
            && d.offer.pwd == (if Starts(l, "a=ice-pwd:") then Field(l[10..], 128) else c.offer.pwd)
            && d.offer.fingerprint == (if Starts(l, "a=fingerprint:") then Field(l[14..], 128) else c.offer.fingerprint)
            && d.offer.setup == (if Starts(l, "a=setup:") then Field(l[8..], 24) else c.offer.setup)
            && d.haveUfrag == (c.haveUfrag || Starts(l, "a=ice-ufrag:"))
            && d.havePwd == (c.havePwd || Starts(l, "a=ice-pwd:"))
            && d.haveFingerprint == (c.haveFingerprint || Starts(l, "a=fingerprint:"))
  {
    hide Starts, Contains, Atoi, Field;
    Differ(l, UFRAG, PWD, 6);
    Differ(l, UFRAG, FINGERPRINT, 2);
    Differ(l, UFRAG, SETUP, 2);
    Differ(l, PWD, FINGERPRINT, 2);
    Differ(l, PWD, SETUP, 2);
    Differ(l, FINGERPRINT, SETUP, 2);
  }

  ghost predicate Valued(lines: seq<string>, c: Context) {
    && c.offer.ufrag == Or(LastValue(lines, "a=ice-ufrag:", 80), "")
    && c.offer.pwd == Or(LastValue(lines, "a=ice-pwd:", 128), "")
    && c.offer.fingerprint == Or(LastValue(lines, "a=fingerprint:", 128), "")
    && c.offer.setup == Or(LastValue(lines, "a=setup:", 24), "")
    && c.haveUfrag == LastValue(lines, "a=ice-ufrag:", 80).Some?
    && c.havePwd == LastValue(lines, "a=ice-pwd:", 128).Some?
    && c.haveFingerprint == LastValue(lines, "a=fingerprint:", 128).Some?
  }

  lemma {:induction false} VisitedValued(lines: seq<string>)
    ensures Valued(lines, VisitAll(BLANK, lines))
    decreases |lines|
  {
    hide Visit, Starts, Field;
    if lines != [] {
      VisitedValued(lines[..|lines| - 1]);
      VisitLast(lines);
      VisitValues(VisitAll(BLANK, lines[..|lines| - 1]), lines[|lines| - 1]);
    }
  }

  /** An offer is accepted exactly if it has a fragment, a password, a fingerprint, and H.264 in a video
      section; of each the last line counts, so that media sections win over the session, and the role
      is actpass if it names none. */
  lemma ValuesChosen(t: string)
    ensures var lines := Lines(t);
            var u, p, f := LastValue(lines, "a=ice-ufrag:", 80), LastValue(lines, "a=ice-pwd:", 128),
                           LastValue(lines, "a=fingerprint:", 128);
            var s := Or(LastValue(lines, "a=setup:", 24), "");
            && (ParseOffer(t).Some? <==> u.Some? && p.Some? && f.Some? && exists i: nat :: FirstOffer(lines, i))
            && (ParseOffer(t).Some? ==>
                  && ParseOffer(t).value.ufrag == u.value && ParseOffer(t).value.pwd == p.value
                  && ParseOffer(t).value.fingerprint == f.value
                  && ParseOffer(t).value.setup == if s == "" then "actpass" else s)
  {
    hide OffersH264, Section, TypeOn, Lines, Visit, LastValue;
    VisitedChosen(Lines(t));
    VisitedValued(Lines(t));
  }

  // -------------------------------------------------------------------------
  // Candidates
  // -------------------------------------------------------------------------

  /** A line cut at its blanks. */
  function Words(s: string): (words: seq<string>)
    ensures words != []
  {
    if s == "" then [""]
    else
      var rest := Words(s[1..]);
      if s[0] == ' ' then [""] + rest else [[s[0]] + rest[0]] + rest[1..]
  }

  lemma {:induction false} WordsFront(w: string, rest: string)
    requires ' ' !in w
    ensures Words(w + " " + rest) == [w] + Words(rest)
    decreases |w|
  {
    var s := w + " " + rest;
    if w == "" {
      assert s[1..] == rest;
    } else {
      assert s[0] == w[0] && s[1..] == w[1..] + " " + rest;
      WordsFront(w[1..], rest);
      assert [w[0]] + w[1..] == w;
    }
  }

  lemma {:induction false} DecimalDigits(n: nat)
    ensures forall c :: c in Json.Decimal(n) ==> '0' <= c <= '9'
  {
    if n >= 10 {
      DecimalDigits(n / 10);
    }
  }

  const TAIL: string := "typ host generation 0"

  lemma TailWords()
    ensures Words(TAIL) == ["typ", "host", "generation", "0"]
  {
    hide Words;
    HostWords();
    WordsFront("typ", "host generation 0");
    assert "typ" + " " + "host generation 0" == TAIL;
  }

  lemma HostWords()
    ensures Words("host generation 0") == ["host", "generation", "0"]
  {
    hide Words;
    GenerationWords();
    WordsFront("host", "generation 0");
    assert "host" + " " + "generation 0" == "host generation 0";
  }

  lemma GenerationWords()
    ensures Words("generation 0") == ["generation", "0"]
  {
    hide Words;
    OneWord();
    WordsFront("generation", "0");
    assert "generation" + " " + "0" == "generation 0";
  }

  lemma OneWord()
    ensures Words("0") == ["0"]
  {
    var w := "0";
    assert w[1..] == "" && Words("") == [""];
    assert Words(w) == [[w[0]] + ""] + [""][1..];
    assert [w[0]] + "" == w && [""][1..] == [];
  }

  /** The fields a candidate line should have, in their order: foundation, component, transport, priority,
      address, port and type (section 15.1 of RFC 5245). */
  function Fields(foundation: nat, priority: nat, ip: string, port: u16): (words: seq<string>) {
    ["a=candidate:" + Json.Decimal(foundation), "1", "udp", Json.Decimal(priority), ip, Json.Decimal(port),
     "typ", "host", "generation", "0"]
  }

  /** Cut at its blanks, a candidate line has them. */
  lemma CandidateWords(foundation: nat, priority: nat, ip: string, port: u16)
    requires ' ' !in ip
    ensures Words(Candidate(foundation, priority, ip, port)) == Fields(foundation, priority, ip, port)
  {
    hide Json.Decimal, Words;
    var f, p, n := Json.Decimal(foundation), Json.Decimal(priority), Json.Decimal(port);
    DecimalDigits(foundation);
    DecimalDigits(priority);
    DecimalDigits(port);
    var t6 := n + " " + TAIL;
    var t5 := ip + " " + t6;
    var t4 := p + " " + t5;
    var t3 := "udp" + " " + t4;
    var t2 := "1" + " " + t3;
    TailWords();
    WordsFront(n, TAIL);
    WordsFront(ip, t6);
    WordsFront(p, t5);
    WordsFront("udp", t4);
    WordsFront("1", t3);
    WordsFront("a=candidate:" + f, t2);
    CandidateText(foundation, priority, ip, port);
  }

  lemma CandidateText(foundation: nat, priority: nat, ip: string, port: u16)
    ensures Candidate(foundation, priority, ip, port) ==
            ("a=candidate:" + Json.Decimal(foundation)) + " " + ("1" + " " + ("udp" + " " + (Json.Decimal(priority) + " " +
              (ip + " " + (Json.Decimal(port) + " " + TAIL)))))
  {
    hide Json.Decimal;
    var f, p, n := "a=candidate:" + Json.Decimal(foundation), Json.Decimal(priority), Json.Decimal(port);
    TailText(n);
    Glue(f, " 1 udp ", p, ip, n, " typ host generation 0");
    FrontText(f, p + " " + (ip + " " + (n + " " + TAIL)));
  }

  lemma Glue(f: string, b: string, p: string, ip: string, n: string, z: string)
    ensures f + b + p + " " + ip + " " + n + z == f + (b + (p + " " + (ip + " " + (n + z))))
  {
  }

  lemma FrontText(f: string, x: string)
    ensures f + (" 1 udp " + x) == f + " " + ("1" + " " + ("udp" + " " + x))
  {
    assert " 1 udp " == " " + ("1" + " " + ("udp" + " "));
  }

  lemma TailText(n: string)
    ensures n + " typ host generation 0" == n + " " + TAIL
  {
    assert " typ host generation 0" == " " + TAIL;
  }

  /** The further addresses worth a candidate, by their place in the list. */
  function Further(l: Local, k: nat): (places: seq<nat>)
    requires k <= |l.extraIps|
    ensures forall i :: 0 <= i < |places| ==> places[i] < k
  {
    if k == 0 then []
    else Further(l, k - 1) + if l.extraIps[k - 1] == "" || l.extraIps[k - 1] == l.ip then [] else [k - 1]
  }

  /** No address is left out but empty ones and repeats of the first, and none comes twice. */
  lemma {:induction false} FurtherExact(l: Local, k: nat)
    requires k <= |l.extraIps|
    ensures forall i: nat :: i in Further(l, k) <==> i < k && l.extraIps[i] != "" && l.extraIps[i] != l.ip
    ensures forall i, j :: 0 <= i < j < |Further(l, k)| ==> Further(l, k)[i] < Further(l, k)[j]
  {
    if k > 0 {
      FurtherExact(l, k - 1);
    }
  }

  lemma {:induction false} ExtraAt(l: Local, k: nat, i: nat)
    requires k <= |l.extraIps| && i < |Further(l, k)|
    ensures |ExtraLines(l, k)| == |Further(l, k)|
    ensures var place := Further(l, k)[i];
            ExtraLines(l, k)[i] == Candidate(place + 2, Priority(place), l.extraIps[place], l.port)
    decreases k
  {
    hide Candidate, Priority;
    if i < |Further(l, k - 1)| {
      ExtraAt(l, k - 1, i);
    } else {
      ExtraCount(l, k - 1);
    }
  }

  lemma {:induction false} ExtraCount(l: Local, k: nat)
    requires k <= |l.extraIps|
    ensures |ExtraLines(l, k)| == |Further(l, k)|
  {
    hide Candidate, Priority;
    if k > 0 {
      ExtraCount(l, k - 1);
    }
  }

  /** The candidates of an answer: the advertised address first, then every further one that is neither
      empty nor the same, in order, all with the session's port, and the end mark. */
  lemma CandidatesExact(l: Local, i: nat)
    requires ' ' !in l.ip && forall k :: 0 <= k < |l.extraIps| ==> ' ' !in l.extraIps[k]
    requires i < |CandidateLines(l)|
    ensures var places, lines := Further(l, |l.extraIps|), CandidateLines(l);
            && |lines| == |places| + 2
            && (if i == |places| + 1 then lines[i] == "a=end-of-candidates"
                else if i == 0 then Words(lines[i]) == Fields(1, 2130706431, l.ip, l.port)
                else Words(lines[i]) == Fields(places[i - 1] + 2, Priority(places[i - 1]), l.extraIps[places[i - 1]], l.port))
  {
    hide Candidate, Priority, Json.Decimal, Words, Fields;
    var n := |l.extraIps|;
    ExtraCount(l, n);
    if i == 0 {
      CandidateWords(1, 2130706431, l.ip, l.port);
    } else if i <= |Further(l, n)| {
      ExtraAt(l, n, i - 1);
      var place := Further(l, n)[i - 1];
      CandidateWords(place + 2, Priority(place), l.extraIps[place], l.port);
    }
  }

  /** Further addresses have falling priorities, all below the first one's, as long as there are fewer
      than two hundred million of them. */
  lemma PrioritiesFall(i: nat, j: nat)
    requires i < j < 200_000_000
    ensures 1000 < Priority(j) < Priority(i) < 2130706431
  {
  }

  // -------------------------------------------------------------------------
  // What an answer must say
  // -------------------------------------------------------------------------

  /** The attributes a browser needs: ICE lite, bundling, the passive role, media in one direction on one
      port with its control packets, the mapping of the payload type, and the feedback it may send. */
  lemma AnswerSays(o: Offer, l: Local)
    requires o.payloadType >= 0
    ensures var lines, pt := AnswerLines(o, l), Json.Decimal(o.payloadType);
            && "a=ice-lite" in lines && "a=setup:passive" in lines && "a=group:BUNDLE " + VideoMid(o) in lines
            && "a=sendonly" in lines && "a=rtcp-mux" in lines
            && "a=ice-ufrag:" + l.ufrag in lines && "a=ice-pwd:" + l.pwd in lines
            && "a=fingerprint:" + l.fingerprint in lines && "a=mid:" + VideoMid(o) in lines
            && "a=rtpmap:" + pt + " H264/90000" in lines
            && "a=rtcp-fb:" + pt + " nack" in lines && "a=rtcp-fb:" + pt + " nack pli" in lines
            && "a=rtcp-fb:" + pt + " ccm fir" in lines
            && "a=end-of-candidates" in lines
  {
    hide VideoMid, AudioLines, ExtraLines, Candidate, Json.Decimal;
    SessionSays(o, l);
    VideoSays(o, l);
    MediaSays(o, l);
    CandidatesSay(l);
    hide SessionLines, VideoLines, CandidateLines;
    var s, a, v, c := SessionLines(o, l), AudioLines(o), VideoLines(o, l), CandidateLines(l);
    assert forall x :: x in s || x in v || x in c ==> x in s + a + v + c;
  }

  lemma SessionSays(o: Offer, l: Local)
    ensures var lines := SessionLines(o, l);
            && "a=ice-lite" in lines && "a=group:BUNDLE " + VideoMid(o) in lines && "a=setup:passive" in lines
            && "a=ice-ufrag:" + l.ufrag in lines && "a=ice-pwd:" + l.pwd in lines
            && "a=fingerprint:" + l.fingerprint in lines
  {
    hide VideoMid;
    var lines := SessionLines(o, l);
    assert SETUP + "passive" == "a=setup:passive";
    assert lines[4] == "a=ice-lite" && lines[6] == "a=group:BUNDLE " + VideoMid(o);
    assert lines[8] == "a=fingerprint:" + l.fingerprint && lines[9] == SETUP + "passive";
    assert lines[10] == "a=ice-ufrag:" + l.ufrag && lines[11] == "a=ice-pwd:" + l.pwd;
  }

  lemma VideoSays(o: Offer, l: Local)
    requires o.payloadType >= 0
    ensures var lines, pt := VideoLines(o, l), Json.Decimal(o.payloadType);
            && |lines| == 18 && lines[8] == "a=sendonly" && lines[9] == "a=rtcp-mux"
            && lines[2] == "a=mid:" + VideoMid(o)
            && lines[13] == "a=rtpmap:" + pt + " H264/90000"
  {
    hide VideoMid, Json.Decimal, FormatLine;
  }

  lemma MediaSays(o: Offer, l: Local)
    requires o.payloadType >= 0
    ensures var lines, pt := VideoLines(o, l), Json.Decimal(o.payloadType);
            && |lines| == 18
            && lines[15] == "a=rtcp-fb:" + pt + " nack" && lines[16] == "a=rtcp-fb:" + pt + " nack pli"
            && lines[17] == "a=rtcp-fb:" + pt + " ccm fir"
  {
    hide VideoMid, Json.Decimal, FormatLine, PayloadLine;
  }

  lemma CandidatesSay(l: Local)
    ensures "a=end-of-candidates" in CandidateLines(l)
  {
    hide Candidate, ExtraLines;
    var lines := CandidateLines(l);
    assert lines[|lines| - 1] == "a=end-of-candidates";
  }
}
