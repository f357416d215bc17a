/**
 When the round trip through packetizer and receiver gives back the list of NAL units that was
 joined: exactly for recoverable, non-empty, carriable units. Scanning and receiving can only lose,
 so what arrives whole was not damaged on the way.
 */
module RoundTripExact {
  import opened Bytes
  import opened AnnexB
  import opened Packetizer
  import opened Depacketizer

  // -------------------------------------------------------------------------
  // Weights
  // -------------------------------------------------------------------------

  /** Octets, and among equally long NAL units the first octet, which holds the F bit. */
  function Weight(nal: Nal): (w: nat) {
    256 * |nal| + if nal == [] then 0 else nal[0] as int
  }

  function WeightOf(nals: seq<Nal>): (w: nat) {
    if nals == [] then 0 else Weight(nals[0]) + WeightOf(nals[1..])
  }

  function WeightOfAll(aus: seq<seq<Nal>>): (w: nat) {
    if aus == [] then 0 else WeightOf(aus[0]) + WeightOfAll(aus[1..])
  }

  /** All that a receiver has. */
  function Received(rx: Rx): (w: nat) {
    WeightOfAll(rx.done) + WeightOf(rx.current) + if rx.partial.Some? then Weight(rx.partial.value.nal) else 0
  }

  lemma {:induction false} WeightAppend(a: seq<Nal>, nal: Nal)
    ensures WeightOf(a + [nal]) == WeightOf(a) + Weight(nal)
    decreases |a|
  {
    hide Weight;
    if a == [] {
      assert a + [nal] == [nal] && [nal][1..] == [];
    } else {
      assert (a + [nal])[1..] == a[1..] + [nal];
      WeightAppend(a[1..], nal);
    }
  }

  lemma {:induction false} WeightAppendAll(a: seq<seq<Nal>>, au: seq<Nal>)
    ensures WeightOfAll(a + [au]) == WeightOfAll(a) + WeightOf(au)
    decreases |a|
  {
    hide WeightOf;
    if a == [] {
      assert a + [au] == [au] && [au][1..] == [];
    } else {
      assert (a + [au])[1..] == a[1..] + [au];
      WeightAppendAll(a[1..], au);
    }
  }

  // -------------------------------------------------------------------------
  // Scanning loses
  // -------------------------------------------------------------------------

  lemma CodeSplit(d: seq<byte>, i: nat)
    requires i <= |d| && CodeAt(d, i) > 0
    ensures d[i..] == StartCode(CodeAt(d, i) == 4) + d[i + CodeAt(d, i)..]
  {
  }

  lemma JoinOne(u: Unit, rest: seq<Unit>)
    ensures Join([u] + rest) == StartCode(u.long) + u.nal + Join(rest)
    ensures WeightOf(NalsOf([u] + rest)) == Weight(u.nal) + WeightOf(NalsOf(rest))
  {
    hide Weight;
    assert ([u] + rest)[0] == u && ([u] + rest)[1..] == rest;
    assert NalsOf([u] + rest)[1..] == NalsOf(rest);
  }

  /** A start code inside a NAL unit: what is behind it becomes a unit of its own. */
  lemma CutInside(nal: Nal, rest: seq<Unit>, end: nat) returns (left: seq<Unit>)
    requires var tail := nal + Join(rest); CodeAt(tail, end) > 0 && end + CodeAt(tail, end) <= |nal|
    ensures (nal + Join(rest))[end..] == Join(left)
    ensures Weight(nal[..end]) + WeightOf(NalsOf(left)) < Weight(nal) + WeightOf(NalsOf(rest))
  {
    hide Join, NalsOf, WeightOf;
    var tail := nal + Join(rest);
    var code := CodeAt(tail, end);
    var u := Unit(nal[end + code..], code == 4);
    left := [u] + rest;
    CodeSplit(tail, end);
    assert tail[end + code..] == u.nal + Join(rest);
    JoinOne(u, rest);
    Regroup(StartCode(u.long), u.nal, Join(rest));
  }

  lemma Regroup(a: seq<byte>, b: seq<byte>, c: seq<byte>)
    ensures a + (b + c) == a + b + c
  {
  }

  /** A start code that begins in a NAL unit and ends behind it: the unit loses a zero octet to the
      three-octet code of the next. */
  lemma CutAcross(nal: Nal, rest: seq<Unit>, end: nat) returns (left: seq<Unit>)
    requires var tail := nal + Join(rest);
             end < |nal| && CodeAt(tail, end) > 0 && end + CodeAt(tail, end) > |nal|
    ensures (nal + Join(rest))[end..] == Join(left)
    ensures Weight(nal[..end]) + WeightOf(NalsOf(left)) < Weight(nal) + WeightOf(NalsOf(rest))
  {
    hide NalsOf, WeightOf;
    var tail := nal + Join(rest);
    assert rest != [];
    var next, others := rest[0], rest[1..];
    var behind := next.nal + Join(others);
    Regroup(StartCode(next.long), next.nal, Join(others));
    CodeHead(next.long, behind);
    assert rest == [next] + others;
    hide Join;
    var d := StartCode(next.long) + behind;
    assert tail == nal + d;
    assert d[0] == 0 && d[1] == 0 && d[2] == if next.long then 0 else 1;
    Crossing(nal, d, end);
    assert !next.long && end == |nal| - 1;
    CodeSplit(tail, end);
    assert tail[end + 4..] == behind;
    left := [Unit(next.nal, true)] + others;
    JoinOne(Unit(next.nal, true), others);
    JoinOne(next, others);
    Regroup(StartCode(true), next.nal, Join(others));
  }

  lemma Crossing(nal: Nal, d: seq<byte>, end: nat)
    requires |d| >= 3 && d[0] == 0 && d[1] == 0 && d[2] <= 1
    requires end < |nal| && CodeAt(nal + d, end) > 0 && end + CodeAt(nal + d, end) > |nal|
    ensures end == |nal| - 1 && CodeAt(nal + d, end) == 4 && d[2] == 1
  {
  }

  /** What scanning a joined stream gives is lighter than what was joined, unless it is the same. */
  lemma {:induction false} ScanLoses(units: seq<Unit>)
    ensures WeightOf(Nals(Join(units))) <= WeightOf(NalsOf(units))
    ensures WeightOf(Nals(Join(units))) == WeightOf(NalsOf(units)) ==> Recoverable(units)
    decreases |Join(units)|
  {
    hide Weight, Separable, NextCode;
    if units != [] {
      var nal, rest := units[0].nal, units[1..];
      var tail := nal + Join(rest);
      var end := NextCode(tail, 0);
      JoinHead(units);
      FirstCut(units);
      NalsAfterCode(units[0].long, tail);
      RecoverableStep(units);
      var left;
      if Separable(units) {
        left := rest;
        assert tail[..end] == nal && tail[end..] == Join(rest);
      } else {
        left := CutShort(units);
      }
      ScanLoses(left);
      var r := Nals(Join(units));
      assert r == [tail[..end]] + Nals(tail[end..]);
      assert r[1..] == Nals(tail[end..]);
    }
  }

  lemma CutShort(units: seq<Unit>) returns (left: seq<Unit>)
    requires units != [] && !Separable(units)
    ensures var tail := units[0].nal + Join(units[1..]);
            var end := NextCode(tail, 0);
            && end < |units[0].nal| && tail[..end] == units[0].nal[..end] && tail[end..] == Join(left)
            && Weight(units[0].nal[..end]) + WeightOf(NalsOf(left)) < WeightOf(NalsOf(units))
  {
    hide Weight, WeightOf, NextCode;
    var nal, rest := units[0].nal, units[1..];
    var tail := nal + Join(rest);
    var end := NextCode(tail, 0);
    EndsBefore(units);
    assert units == [units[0]] + rest;
    JoinOne(units[0], rest);
    hide Join, NalsOf, Separable;
    if end + CodeAt(tail, end) <= |nal| {
      left := CutInside(nal, rest, end);
    } else {
      left := CutAcross(nal, rest, end);
    }
  }

  lemma EndsBefore(units: seq<Unit>)
    requires units != [] && !Separable(units)
    ensures var tail := units[0].nal + Join(units[1..]);
            NextCode(tail, 0) < |units[0].nal| && CodeAt(tail, NextCode(tail, 0)) > 0
  {
    if |units| > 1 {
      JoinHead(units[1..]);
      CodeHead(units[1].long, units[1].nal + Join(units[1..][1..]));
    }
    var k := CodeInside(units[0].nal, Join(units[1..]));
  }

  // -------------------------------------------------------------------------
  // Receiving loses
  // -------------------------------------------------------------------------

  lemma DeliverWeight(rx: Rx, nal: Nal, marker: bool)
    ensures Received(Deliver(rx, nal, marker)) == WeightOfAll(rx.done) + WeightOf(rx.current) + Weight(nal)
  {
    hide Weight;
    WeightAppend(rx.current, nal);
    if marker {
      WeightAppendAll(rx.done, rx.current + [nal]);
    }
  }

  lemma WeightConcat(a: Nal, b: Nal)
    ensures Weight(a + b) < Weight(a) + 256 * |b| + 256
  {
  }

  /** A fragment always costs its two header octets. */
  lemma FragmentLoses(rx: Rx, payload: seq<byte>, marker: bool, sequence: u16)
    requires |payload| >= 3
    ensures Received(ReceiveFu(rx, payload, marker, sequence)) < Received(rx) + Weight(payload)
  {
    var header := payload[0] as int / 32 * 32 + payload[1] as int % 32;
    WeightConcat([header], payload[2..]);
    assert Weight([header]) == 256 + header;
    if rx.partial.Some? {
      var nal := rx.partial.value.nal + payload[2..];
      WeightConcat(rx.partial.value.nal, payload[2..]);
      DeliverWeight(rx, nal, marker);
    }
    hide Deliver, Advance, WeightOf, WeightOfAll;
  }

  /** A NAL unit sent whole arrives whole exactly if a receiver takes it for one. */
  lemma PayloadLoses(rx: Rx, nal: Nal, marker: bool, sequence: u16)
    requires nal != []
    ensures var r := Received(ReceivePayload(rx, nal, marker, sequence));
            && r <= Received(rx) + Weight(nal)
            && (r == Received(rx) + Weight(nal) ==> 1 <= nal[0] as int % 32 <= 23)
  {
    hide ReceiveFu, Deliver, WeightOf, WeightOfAll;
    DeliverWeight(rx, nal, marker);
    if |nal| >= 3 {
      FragmentLoses(rx, nal, marker, sequence);
    }
    assert Weight(nal) > 0;
  }

  lemma NalLoses(rx: Rx, h: Header, sequence: u16, nal: Nal, more: bool)
    requires nal != []
    ensures var r := Received(ReceiveAll(rx, Stamp(h, sequence, NalChunks(nal, more))));
            && r <= Received(rx) + Weight(nal)
            && (r == Received(rx) + Weight(nal) ==> Carriable(nal))
  {
    hide Stamp, Advance, ReceivePayload, WeightOf, WeightOfAll, Deliver;
    if |nal| <= PAYLOAD_BUDGET {
      var c := Chunk(nal, !more);
      assert [c] + [] == NalChunks(nal, more);
      ReceiveFirst(rx, h, sequence, c, []);
      assert Stamp(h, Advance(sequence, 1), []) == [];
      PayloadLoses(rx, nal, !more, Advance(sequence, 1));
    } else {
      ReceiveNal(rx, h, sequence, nal, more);
      DeliverWeight(rx, Restored(nal), !more);
    }
  }

  /** A receiver has at most what was sent, and all of it only if every NAL unit is carriable. */
  lemma {:induction false} AuLoses(rx: Rx, h: Header, sequence: u16, nals: seq<Nal>)
    ensures var r := Received(ReceiveAll(rx, Stamp(h, sequence, AuChunks(nals))));
            && r <= Received(rx) + WeightOf(nals)
            && (r == Received(rx) + WeightOf(nals) ==> AllCarriable(nals))
    decreases |nals|
  {
    hide Stamp, NalChunks, Advance, Received, Carriable, ReceiveAll;
    if nals == [] {
      assert Stamp(h, sequence, []) == [];
      ReceiveNothing(rx);
    } else if nals[0] == [] {
      AuLoses(rx, h, sequence, nals[1..]);
    } else {
      var nal, rest := nals[0], nals[1..];
      var chunks := NalChunks(nal, HasMore(rest));
      var head := Stamp(h, sequence, chunks);
      StampConcat(h, sequence, chunks, AuChunks(rest));
      ReceiveConcat(rx, head, Stamp(h, Advance(sequence, |chunks|), AuChunks(rest)));
      NalLoses(rx, h, sequence, nal, HasMore(rest));
      AuLoses(ReceiveAll(rx, head), h, Advance(sequence, |chunks|), rest);
    }
  }

  lemma ReceiveNothing(rx: Rx)
    ensures ReceiveAll(rx, []) == rx
  {
  }

  // -------------------------------------------------------------------------
  // What arrives whole
  // -------------------------------------------------------------------------

  function Lengths(aus: seq<seq<Nal>>): (n: nat) {
    if aus == [] then 0 else |aus[0]| + Lengths(aus[1..])
  }

  lemma {:induction false} RunsLength(current: seq<Nal>, nals: seq<Nal>)
    ensures Lengths(Runs(current, nals)) <= |current| + |nals|
    ensures Lengths(Runs(current, nals)) == |current| + |nals| ==> forall i :: 0 <= i < |nals| ==> nals[i] != []
    decreases |nals|
  {
    if nals != [] {
      if nals[0] == [] {
        RunsLength([], nals[1..]);
        var rest := Runs([], nals[1..]);
        assert [] + rest == rest && ([current] + rest)[1..] == rest;
      } else {
        RunsLength(current + [nals[0]], nals[1..]);
        assert forall i :: 0 < i < |nals| ==> nals[i] == nals[1..][i - 1];
      }
    }
  }

  /** Packets received as one access unit of as many NAL units as were sent are of a clean one. */
  lemma OneRun(nals: seq<Nal>)
    requires Runs([], nals) == [nals]
    ensures nals != [] && forall i :: 0 <= i < |nals| ==> nals[i] != []
  {
    RunsLength([], nals);
    assert [nals][1..] == [];
    assert Lengths([nals]) == |nals|;
  }

  lemma ReceivedOne(done: seq<seq<Nal>>, nals: seq<Nal>)
    ensures Received(Rx(done + [nals], [], None)) == Received(Rx(done, [], None)) + WeightOf(nals)
  {
    WeightAppendAll(done, nals);
  }

  /** An access unit that comes back as a list at least as heavy as what the scanner finds in it, and
      different only if heavier, is clean. */
  lemma WholeIsClean(done: seq<seq<Nal>>, p: PState, au: seq<byte>, ptsUs: u64, nals: seq<Nal>)
    requires WeightOf(Nals(au)) <= WeightOf(nals) && (WeightOf(Nals(au)) == WeightOf(nals) ==> Nals(au) == nals)
    requires ReceiveAll(Rx(done, [], None), Step(p, au, ptsUs).1) == Rx(done + [nals], [], None)
    ensures Nals(au) == nals && CleanAu(au)
  {
    hide Nals, Stamp, WeightOf, Runs, AuChunks, Received, Carriable;
    var rx := Rx(done, [], None);
    assert done != done + [nals] by {
      assert |done + [nals]| == |done| + 1;
    }
    assert au != [] by {
      ReceiveNothing(rx);
    }
    var h := Header(p.ssrc, p.payloadType, Clock(BaseAfter(p, ptsUs), ptsUs));
    AuLoses(rx, h, p.sequence, Nals(au));
    ReceivedOne(done, nals);
    ReceiveAu(rx, h, p.sequence, nals);
    assert done + Runs([], nals) == done + [nals];
    assert Runs([], nals) == (done + Runs([], nals))[|done|..];
    assert [nals] == (done + [nals])[|done|..];
    OneRun(nals);
  }

  /** The round trip of a list of NAL units, joined with any mix of start codes: one access unit with
      exactly these NAL units comes back if and only if the list is not empty, recoverable, and of
      non-empty carriable NAL units. */
  lemma StreamExact(done: seq<seq<Nal>>, p: PState, units: seq<Unit>, ptsUs: u64)
    ensures ReceiveAll(Rx(done, [], None), Step(p, Join(units), ptsUs).1) == Rx(done + [NalsOf(units)], [], None) <==>
            && units != [] && Recoverable(units)
            && forall i :: 0 <= i < |units| ==> units[i].nal != [] && Carriable(units[i].nal)
  {
    hide ReceiveAll, Step, Nals, Join, WeightOf, NalsOf, Carriable, Recoverable;
    ScanLoses(units);
    ScanJoin(units);
    NalsOfIndex(units);
    if ReceiveAll(Rx(done, [], None), Step(p, Join(units), ptsUs).1) == Rx(done + [NalsOf(units)], [], None) {
      WholeIsClean(done, p, Join(units), ptsUs, NalsOf(units));
    } else if units != [] && Recoverable(units)
              && forall i :: 0 <= i < |units| ==> units[i].nal != [] && Carriable(units[i].nal) {
      RoundTrip(done, p, units, ptsUs);
    }
  }
}
