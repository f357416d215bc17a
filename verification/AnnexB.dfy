/**
 The Annex B start code scanner of src/webrtc/rtp_h264.c (ITU-T H.264 Annex B,
 section B.1): where a byte stream splits into NAL units, and exactly which lists of
 NAL units survive being joined with start codes and scanned again.
 */
module AnnexB {
  import opened Bytes

  type Nal = seq<byte>

  /** Length of the start code at position i: 3, 4, or 0 for none. */
  function CodeAt(d: seq<byte>, i: nat): (n: nat)
  {
    if i + 3 <= |d| && d[i] == 0 && d[i + 1] == 0 && d[i + 2] == 1 then 3
    else if i + 4 <= |d| && d[i] == 0 && d[i + 1] == 0 && d[i + 2] == 0 && d[i + 3] == 1 then 4
    else 0
  }

  /** The first position at or after i that holds a start code, |d| when there is none. */
  function NextCode(d: seq<byte>, i: nat): (j: nat)
    requires i <= |d|
    ensures i <= j <= |d|
    ensures j < |d| ==> CodeAt(d, j) > 0
    ensures forall k :: i <= k < j ==> CodeAt(d, k) == 0
    decreases |d| - i
  {
    if i + 3 > |d| then |d|
    else if CodeAt(d, i) > 0 then i
    else NextCode(d, i + 1)
  }

  /** NextCode is the only position with its two properties. */
  lemma NextCodeUnique(d: seq<byte>, i: nat, j: nat)
    requires i <= j <= |d|
    requires forall k :: i <= k < j ==> CodeAt(d, k) == 0
    requires j < |d| ==> CodeAt(d, j) > 0
    ensures NextCode(d, i) == j
  {
  }

  datatype Span = Span(offset: nat, length: nat)

  /** The span of the next NAL unit at or after the cursor. */
  function NextSpan(d: seq<byte>, cursor: nat): (r: Option<Span>)
    requires cursor <= |d|
    ensures r.Some? ==> cursor + 3 <= r.value.offset && r.value.offset + r.value.length <= |d|
  {
    var s := NextCode(d, cursor);
    if s == |d| then None
    else
      var body := s + CodeAt(d, s);
      Some(Span(body, NextCode(d, body) - body))
  }

  /** The NAL units of a byte stream, empty ones included. */
  function Nals(d: seq<byte>): (r: seq<Nal>)
    decreases |d|
  {
    match NextSpan(d, 0)
    case None => []
    case Some(n) => [d[n.offset..n.offset + n.length]] + Nals(d[n.offset + n.length..])
  }

  lemma NalsStep(d: seq<byte>, n: Span)
    requires NextSpan(d, 0) == Some(n)
    ensures Nals(d) == [d[n.offset..n.offset + n.length]] + Nals(d[n.offset + n.length..])
  {
    hide NextSpan;
  }

  lemma CodeAtSuffix(d: seq<byte>, c: nat, i: nat)
    requires c <= i <= |d|
    ensures CodeAt(d[c..], i - c) == CodeAt(d, i)
  {
  }

  lemma NextCodeSuffix(d: seq<byte>, c: nat, i: nat)
    requires c <= i <= |d|
    ensures NextCode(d[c..], i - c) == NextCode(d, i) - c
  {
    var j := NextCode(d, i);
    forall k | i - c <= k < j - c
      ensures CodeAt(d[c..], k) == 0
    {
      CodeAtSuffix(d, c, k + c);
    }
    CodeAtSuffix(d, c, j);
    NextCodeUnique(d[c..], i - c, j - c);
  }

  lemma SliceOfSuffix<T>(d: seq<T>, c: nat, a: nat, b: nat)
    requires c <= a <= b <= |d|
    ensures d[c..][a - c..b - c] == d[a..b]
    ensures d[c..][b - c..] == d[b..]
  {
  }

  lemma NextSpanSuffix(d: seq<byte>, cursor: nat)
    requires cursor <= |d|
    ensures NextSpan(d[cursor..], 0) ==
            match NextSpan(d, cursor)
            case None => None
            case Some(n) => Some(Span(n.offset - cursor, n.length))
  {
    var s := NextCode(d, cursor);
    NextCodeSuffix(d, cursor, cursor);
    if s < |d| {
      CodeAtSuffix(d, cursor, s);
      NextCodeSuffix(d, cursor, s + CodeAt(d, s));
    }
  }

  /** Stepping the scanner from a cursor enumerates the NAL units of the rest of the buffer. */
  lemma NalsFrom(d: seq<byte>, cursor: nat)
    requires cursor <= |d|
    ensures Nals(d[cursor..]) ==
            match NextSpan(d, cursor)
            case None => []
            case Some(n) => [d[n.offset..n.offset + n.length]] + Nals(d[n.offset + n.length..])
  {
    hide NextSpan;
    NextSpanSuffix(d, cursor);
    if n: Span :| NextSpan(d, cursor) == Some(n) {
      SliceOfSuffix(d, cursor, n.offset, n.offset + n.length);
      NalsStep(d[cursor..], NextSpan(d[cursor..], 0).value);
    }
  }

  /** next_nal: the scanner proper, one NAL unit from the cursor on. */
  method NextNal(d: seq<byte>, cursor: nat) returns (r: Option<Span>)
    requires cursor <= |d|
    ensures r == NextSpan(d, cursor)
  {
    var start := cursor;
    var codeLen := 0;
    while start + 3 <= |d|
      invariant cursor <= start <= |d|
      invariant codeLen == 0
      invariant NextCode(d, cursor) == NextCode(d, start)
    {
      if d[start] == 0 && d[start + 1] == 0 && d[start + 2] == 1 {
        codeLen := 3;
        break;
      }
      if start + 4 <= |d| && d[start] == 0 && d[start + 1] == 0 && d[start + 2] == 0 && d[start + 3] == 1 {
        codeLen := 4;
        break;
      }
      start := start + 1;
    }
    if codeLen == 0 {
      return None;
    }
    var body := start + codeLen;
    var end := body;
    while end + 3 <= |d|
      invariant body <= end <= |d|
      invariant NextCode(d, body) == NextCode(d, end)
    {
      if d[end] == 0 && d[end + 1] == 0 && d[end + 2] == 1 {
        break;
      }
      if end + 4 <= |d| && d[end] == 0 && d[end + 1] == 0 && d[end + 2] == 0 && d[end + 3] == 1 {
        break;
      }
      end := end + 1;
    }
    if end + 3 > |d| {
      end := |d|;
    }
    return Some(Span(body, end - body));
  }

  // -------------------------------------------------------------------------
  // Joining and scanning again
  // -------------------------------------------------------------------------

  /** One NAL unit with the start code written in front of it. */
  datatype Unit = Unit(nal: Nal, long: bool)

  function StartCode(long: bool): (c: seq<byte>)
    ensures |c| == if long then 4 else 3
  {
    if long then [0, 0, 0, 1] else [0, 0, 1]
  }

  /** The byte stream an encoder writes for a list of NAL units. */
  function Join(units: seq<Unit>): (d: seq<byte>)
  {
    if units == [] then [] else StartCode(units[0].long) + units[0].nal + Join(units[1..])
  }

  function NalsOf(units: seq<Unit>): (r: seq<Nal>)
    ensures |r| == |units|
  {
    if units == [] then [] else [units[0].nal] + NalsOf(units[1..])
  }

  predicate At001(d: seq<byte>, k: nat) {
    k + 3 <= |d| && d[k] == 0 && d[k + 1] == 0 && d[k + 2] == 1
  }

  /** 00 00 01 occurs inside the NAL unit. */
  ghost predicate Embeds(nal: Nal)
  {
    exists k: nat :: At001(nal, k)
  }

  /** Whether the scanner ends the first unit where it was written to end: no embedded
      start code, and no trailing zero octet that a three-octet start code would absorb. */
  ghost predicate Separable(units: seq<Unit>)
    requires units != []
  {
    var nal := units[0].nal;
    && !Embeds(nal)
    && (|units| > 1 && nal != [] && nal[|nal| - 1] == 0 ==> units[1].long)
  }

  ghost predicate Recoverable(units: seq<Unit>)
  {
    forall i :: 0 <= i < |units| ==> Separable(units[i..])
  }

  /** Inside a separable NAL unit there is no start code. */
  lemma NoCodeInside(nal: Nal, rest: seq<byte>, k: nat)
    requires k < |nal|
    requires !Embeds(nal)
    requires rest != [] ==> |rest| >= 3 && rest[0] == 0 && rest[1] == 0 && (rest[2] == 0 || nal[|nal| - 1] != 0)
    ensures CodeAt(nal + rest, k) == 0
  {
    assert !At001(nal, k) && !At001(nal, k + 1);
  }

  /** A NAL unit that is not separable holds a start code before its end. */
  lemma CodeInside(nal: Nal, rest: seq<byte>) returns (k: nat)
    requires Embeds(nal) || (nal != [] && nal[|nal| - 1] == 0 && |rest| >= 3 && rest[..3] == [0, 0, 1])
    ensures k < |nal| && CodeAt(nal + rest, k) > 0
  {
    if Embeds(nal) {
      k :| At001(nal, k);
    } else {
      k := |nal| - 1;
      assert (nal + rest)[k] == 0 && (nal + rest)[k + 1] == rest[..3][0];
      assert (nal + rest)[k + 2] == rest[..3][1] && (nal + rest)[k + 3] == rest[..3][2];
    }
  }

  lemma CodeHead(long: bool, tail: seq<byte>)
    ensures var code := StartCode(long);
            && CodeAt(code + tail, 0) == |code|
            && (code + tail)[|code|..] == tail
            && (code + tail)[0] == 0 && (code + tail)[1] == 0 && (code + tail)[2] == if long then 0 else 1
  {
  }

  lemma JoinHead(units: seq<Unit>)
    requires units != []
    ensures var code, tail := StartCode(units[0].long), units[0].nal + Join(units[1..]);
            Join(units) == code + tail
  {
  }

  /** The first NAL unit is cut at its written end exactly when it is Separable. */
  lemma FirstCut(units: seq<Unit>)
    requires units != []
    ensures var nal, rest := units[0].nal, Join(units[1..]);
            NextCode(nal + rest, 0) == |nal| <==> Separable(units)
  {
    var nal, rest := units[0].nal, Join(units[1..]);
    if |units| > 1 {
      JoinHead(units[1..]);
      CodeHead(units[1].long, units[1].nal + Join(units[1..][1..]));
    }
    if Separable(units) {
      forall k | 0 <= k < |nal|
        ensures CodeAt(nal + rest, k) == 0
      {
        NoCodeInside(nal, rest, k);
      }
      CodeAtSuffix(nal + rest, |nal|, |nal|);
      assert (nal + rest)[|nal|..] == rest;
      NextCodeUnique(nal + rest, 0, |nal|);
    } else {
      var k := CodeInside(nal, rest);
    }
  }

  lemma RecoverableStep(units: seq<Unit>)
    requires units != []
    ensures Recoverable(units) <==> Separable(units) && Recoverable(units[1..])
  {
    assert units[0..] == units;
    forall i | 0 <= i < |units| - 1
      ensures units[1..][i..] == units[i + 1..]
    {
    }
    if Separable(units) && Recoverable(units[1..]) {
      forall i | 0 <= i < |units|
        ensures Separable(units[i..])
      {
        if i > 0 {
          assert units[1..][i - 1..] == units[i..];
        }
      }
    }
    if Recoverable(units) {
      forall i | 0 <= i < |units[1..]|
        ensures Separable(units[1..][i..])
      {
        assert units[1..][i..] == units[i + 1..];
      }
    }
  }

  /** The scan of a stream that opens with a start code: up to the next one, then the rest. */
  lemma NalsAfterCode(long: bool, tail: seq<byte>)
    ensures var end := NextCode(tail, 0);
            Nals(StartCode(long) + tail) == [tail[..end]] + Nals(tail[end..])
  {
    hide Nals, NextCode;
    var b := |StartCode(long)|;
    var d := StartCode(long) + tail;
    var end := NextCode(tail, 0);
    CodeHead(long, tail);
    NextCodeUnique(d, 0, 0);
    NextCodeSuffix(d, b, b);
    NalsStep(d, Span(b, end));
    SliceOfSuffix(d, b, b, b + end);
  }

  /** Scanning undoes joining, for any mix of start codes, exactly for recoverable lists. */
  lemma {:induction false} ScanJoin(units: seq<Unit>)
    ensures Nals(Join(units)) == NalsOf(units) <==> Recoverable(units)
  {
    if units != [] {
      FirstCut(units);
      JoinHead(units);
      NalsAfterCode(units[0].long, units[0].nal + Join(units[1..]));
      RecoverableStep(units);
      ScanJoin(units[1..]);
      var nal := units[0].nal;
      var tail := nal + Join(units[1..]);
      var end := NextCode(tail, 0);
      var r := Nals(Join(units));
      assert r[0] == tail[..end] && r[1..] == Nals(tail[end..]);
      assert NalsOf(units)[0] == nal && NalsOf(units)[1..] == NalsOf(units[1..]);
      if end == |nal| {
        assert tail[..end] == nal && tail[end..] == Join(units[1..]);
        assert r == [r[0]] + r[1..];
      } else {
        assert |r[0]| == end;
      }
    }
  }
}
