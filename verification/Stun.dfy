/**
 The STUN codec of src/webrtc/ice_lite.c: attribute walker, authenticated binding response and
 its verification (sections 15.2, 15.4 and 15.5 of RFC 5389), with HMAC-SHA1 left uninterpreted.
 */
module Stun {
  import opened Bytes
  import Crc32

  const HEADER_SIZE: nat := 20
  const MAGIC: bv32 := 0x2112A442
  const USERNAME: u16 := 0x0006
  const MESSAGE_INTEGRITY: u16 := 0x0008
  const XOR_MAPPED_ADDRESS: u16 := 0x0020
  const FINGERPRINT: u16 := 0x8028
  const CRC_MASK: bv32 := 0x5354554E
  const MI_SIZE: nat := 24
  const FP_SIZE: nat := 8
  const RESPONSE_SIZE: nat := 64

  /** HMAC-SHA1: key, then text. */
  type Hmac = (seq<byte>, seq<byte>) -> seq<byte>

  ghost predicate Sized(hmac: Hmac) {
    forall k, t :: |hmac(k, t)| == 20
  }

  // -------------------------------------------------------------------------
  // The walker
  // -------------------------------------------------------------------------

  /** An attribute's value: where it starts in the message, and its length. */
  datatype Place = Place(at: nat, length: nat)

  function Padded(n: nat): (r: nat)
    ensures n <= r < n + 4 && r % 4 == 0
  {
    (n + 3) / 4 * 4
  }

  function MessageLength(m: seq<byte>): (n: nat)
    requires |m| >= HEADER_SIZE
    ensures n < 0x1_0000
  {
    ReadBe16(m, 2)
  }

  /** The first attribute of a kind between two offsets, unless a malformed one comes before it. */
  function Walk(m: seq<byte>, offset: nat, end: nat, wanted: u16): (r: Option<Place>)
    requires end <= |m|
    ensures r.Some? ==> offset + 4 <= r.value.at && r.value.at + r.value.length <= end
    decreases end - offset
  {
    if offset + 4 > end then None
    else
      var n := ReadBe16(m, offset + 2) as nat;
      if offset + 4 + n > end then None
      else if ReadBe16(m, offset) == wanted then Some(Place(offset + 4, n))
      else Walk(m, offset + 4 + Padded(n), end, wanted)
  }

  function Find(m: seq<byte>, wanted: u16): (r: Option<Place>)
    ensures r.Some? ==> HEADER_SIZE + 4 <= r.value.at && r.value.at + r.value.length <= |m|
    ensures r.Some? ==> r.value.at + r.value.length <= HEADER_SIZE + MessageLength(m)
  {
    if |m| < HEADER_SIZE || MessageLength(m) + HEADER_SIZE > |m| then None
    else Walk(m, HEADER_SIZE, HEADER_SIZE + MessageLength(m), wanted)
  }

  /** stun_find_attribute. */
  method FindAttribute(buf: seq<byte>, wanted: u16) returns (r: Option<Place>)
    ensures r == Find(buf, wanted)
  {
    if |buf| < HEADER_SIZE {
      return None;
    }
    var messageLen := ReadBe16(buf, 2);
    if messageLen as int + HEADER_SIZE > |buf| {
      return None;
    }
    var offset := HEADER_SIZE;
    var end := HEADER_SIZE + messageLen;
    while offset + 4 <= end
      invariant Walk(buf, offset, end, wanted) == Find(buf, wanted)
      decreases end - offset
    {
      var kind := ReadBe16(buf, offset);
      var attrLen := ReadBe16(buf, offset + 2);
      if offset + 4 + attrLen > end {
        return None;
      }
      if kind == wanted {
        return Some(Place(offset + 4, attrLen));
      }
      offset := offset + 4 + Padded(attrLen);
    }
    return None;
  }

  // -------------------------------------------------------------------------
  // Messages as attribute lists
  // -------------------------------------------------------------------------

  datatype Attr = Attr(kind: u16, value: seq<byte>)

  predicate Fits(a: Attr) {
    |a.value| < 0x1_0000
  }

  function Zeros(n: nat): (z: seq<byte>)
    ensures |z| == n
  {
    seq(n, i => 0)
  }

  function EncodeAttr(a: Attr): (r: seq<byte>)
    requires Fits(a)
    ensures |r| == 4 + Padded(|a.value|)
  {
    Be16(a.kind) + Be16(|a.value|) + a.value + Zeros(Padded(|a.value|) - |a.value|)
  }

  ghost predicate AllFit(attrs: seq<Attr>) {
    forall i :: 0 <= i < |attrs| ==> Fits(attrs[i])
  }

  ghost function EncodeAttrs(attrs: seq<Attr>): (r: seq<byte>)
    requires AllFit(attrs)
  {
    if attrs == [] then [] else EncodeAttr(attrs[0]) + EncodeAttrs(attrs[1..])
  }

  /** Where the first attribute of a kind starts, when the list is written at an offset. */
  ghost function FirstOf(attrs: seq<Attr>, wanted: u16, offset: nat): (r: Option<Place>) {
    if attrs == [] then None
    else if attrs[0].kind == wanted then Some(Place(offset + 4, |attrs[0].value|))
    else FirstOf(attrs[1..], wanted, offset + 4 + Padded(|attrs[0].value|))
  }

  /** A list of attributes lies between two offsets of a message. */
  ghost predicate LaidOut(m: seq<byte>, offset: nat, end: nat, attrs: seq<Attr>)
    decreases |attrs|
  {
    if attrs == [] then offset == end <= |m|
    else
      var n := |attrs[0].value|;
      && Fits(attrs[0])
      && offset + 4 + Padded(n) <= end <= |m|
      && ReadBe16(m, offset) == attrs[0].kind
      && ReadBe16(m, offset + 2) == n
      && m[offset + 4..offset + 4 + n] == attrs[0].value
      && LaidOut(m, offset + 4 + Padded(n), end, attrs[1..])
  }

  lemma LaidOutNil(m: seq<byte>, offset: nat)
    requires offset <= |m|
    ensures LaidOut(m, offset, offset, [])
  {
  }

  lemma LaidOutCons(m: seq<byte>, offset: nat, next: nat, end: nat, attrs: seq<Attr>, rest: seq<Attr>)
    requires attrs != [] && Fits(attrs[0]) && rest == attrs[1..]
    requires var n := |attrs[0].value|;
             && next == offset + 4 + Padded(n) && next <= end <= |m|
             && ReadBe16(m, offset) == attrs[0].kind && ReadBe16(m, offset + 2) == n
             && m[offset + 4..offset + 4 + n] == attrs[0].value
    requires LaidOut(m, next, end, rest)
    ensures LaidOut(m, offset, end, attrs)
  {
    hide Padded;
  }

  lemma {:induction false} LaidOutOrder(m: seq<byte>, offset: nat, end: nat, attrs: seq<Attr>)
    requires LaidOut(m, offset, end, attrs)
    ensures offset <= end <= |m|
    decreases |attrs|
  {
    hide Padded;
    if attrs != [] {
      LaidOutOrder(m, offset + 4 + Padded(|attrs[0].value|), end, attrs[1..]);
    }
  }

  /** The encoder lays a list out. */
  lemma {:induction false} EncodedLaidOut(pre: seq<byte>, attrs: seq<Attr>, post: seq<byte>)
    requires AllFit(attrs)
    ensures LaidOut(pre + EncodeAttrs(attrs) + post, |pre|, |pre| + |EncodeAttrs(attrs)|, attrs)
    decreases |attrs|
  {
    hide EncodeAttr, Padded, LaidOut;
    var m := pre + EncodeAttrs(attrs) + post;
    if attrs == [] {
      LaidOutNil(m, |pre|);
    } else {
      var a, rest := attrs[0], attrs[1..];
      OneLaidOut(pre, a, EncodeAttrs(rest) + post);
      assert m == pre + EncodeAttr(a) + (EncodeAttrs(rest) + post);
      EncodedLaidOut(pre + EncodeAttr(a), rest, post);
      assert m == pre + EncodeAttr(a) + EncodeAttrs(rest) + post;
      LaidOutOrder(m, |pre + EncodeAttr(a)|, |pre| + |EncodeAttrs(attrs)|, rest);
      LaidOutCons(m, |pre|, |pre + EncodeAttr(a)|, |pre| + |EncodeAttrs(attrs)|, attrs, rest);
    }
  }

  lemma OneLaidOut(pre: seq<byte>, a: Attr, post: seq<byte>)
    requires Fits(a)
    ensures var m, n := pre + EncodeAttr(a) + post, |a.value|;
            && |pre| + 4 + Padded(n) <= |m|
            && ReadBe16(m, |pre|) == a.kind && ReadBe16(m, |pre| + 2) == n
            && m[|pre| + 4..|pre| + 4 + n] == a.value
  {
    var m, n := pre + EncodeAttr(a) + post, |a.value|;
    var kind, size := Be16(a.kind), Be16(n);
    assert m[|pre|] == kind[0] && m[|pre| + 1] == kind[1] && m[|pre| + 2] == size[0] && m[|pre| + 3] == size[1];
    assert ReadBe16(m, |pre|) == ReadBe16(kind, 0) && ReadBe16(m, |pre| + 2) == ReadBe16(size, 0);
    hide Be16, Padded;
  }

  /** Over laid out attributes the walker finds exactly the first of the kind, with its value. */
  lemma {:induction false} WalkLaidOut(m: seq<byte>, offset: nat, end: nat, attrs: seq<Attr>, wanted: u16)
    requires LaidOut(m, offset, end, attrs) && end <= |m|
    ensures Walk(m, offset, end, wanted) == FirstOf(attrs, wanted, offset)
    decreases |attrs|
  {
    hide Padded;
    if attrs != [] {
      WalkLaidOut(m, offset + 4 + Padded(|attrs[0].value|), end, attrs[1..], wanted);
    }
  }

  lemma {:induction false} LaidOutJoin(m: seq<byte>, offset: nat, middle: nat, end: nat, a: seq<Attr>, b: seq<Attr>)
    requires LaidOut(m, offset, middle, a) && LaidOut(m, middle, end, b) && middle <= end <= |m|
    ensures LaidOut(m, offset, end, a + b)
    decreases |a|
  {
    hide Padded;
    if a == [] {
      assert a + b == b;
    } else {
      LaidOutJoin(m, offset + 4 + Padded(|a[0].value|), middle, end, a[1..], b);
      assert (a + b)[1..] == a[1..] + b;
    }
  }

  lemma {:induction false} LaidOutFrame(m: seq<byte>, w: seq<byte>, offset: nat, end: nat, attrs: seq<Attr>)
    requires LaidOut(m, offset, end, attrs) && offset <= end <= |m| && end <= |w| && m[offset..end] == w[offset..end]
    ensures LaidOut(w, offset, end, attrs)
    decreases |attrs|
  {
    hide Padded;
    if attrs != [] {
      var n := |attrs[0].value|;
      var next := offset + 4 + Padded(n);
      Slice(m, w, offset, end, offset + 4, offset + 4 + n);
      Slice(m, w, offset, end, next, end);
      assert forall k :: offset <= k < end ==> m[k] == m[offset..end][k - offset] && w[k] == w[offset..end][k - offset];
      LaidOutFrame(m, w, next, end, attrs[1..]);
    }
  }

  lemma Slice(m: seq<byte>, w: seq<byte>, a: nat, b: nat, i: nat, j: nat)
    requires a <= i <= j <= b <= |m| && b <= |w| && m[a..b] == w[a..b]
    ensures m[i..j] == w[i..j]
  {
    forall k | i <= k < j
      ensures m[k] == w[k]
    {
      assert m[k] == m[a..b][k - a] && w[k] == w[a..b][k - a];
    }
  }

  lemma {:induction false} FirstOfJoin(a: seq<Attr>, b: seq<Attr>, wanted: u16, offset: nat, middle: nat, m: seq<byte>)
    requires LaidOut(m, offset, middle, a)
    ensures FirstOf(a + b, wanted, offset) ==
            if FirstOf(a, wanted, offset).Some? then FirstOf(a, wanted, offset) else FirstOf(b, wanted, middle)
    decreases |a|
  {
    hide Padded;
    if a == [] {
      assert a + b == b;
    } else {
      FirstOfJoin(a[1..], b, wanted, offset + 4 + Padded(|a[0].value|), middle, m);
      assert (a + b)[1..] == a[1..] + b;
    }
  }

  // -------------------------------------------------------------------------
  // Well-formed messages
  // -------------------------------------------------------------------------

  /** The length field is exact and attributes fill the message. */
  ghost predicate Tiles(m: seq<byte>, attrs: seq<Attr>) {
    |m| >= HEADER_SIZE && |m| == HEADER_SIZE + MessageLength(m) && LaidOut(m, HEADER_SIZE, |m|, attrs)
  }

  ghost predicate WellFormed(m: seq<byte>) {
    exists attrs :: Tiles(m, attrs)
  }

  function SetLength(m: seq<byte>, n: u16): (r: seq<byte>)
    requires |m| >= HEADER_SIZE
    ensures |r| == |m| && ReadBe16(r, 2) == n
    ensures r[4..] == m[4..] && r[..2] == m[..2]
  {
    m[..2] + Be16(n) + m[4..]
  }

  /** A message extended by one attribute, its length field counting it. */
  function Extend(m: seq<byte>, a: Attr): (r: seq<byte>)
    requires |m| >= HEADER_SIZE && Fits(a) && |m| + 4 + Padded(|a.value|) - HEADER_SIZE < 0x1_0000
    ensures |r| == |m| + 4 + Padded(|a.value|)
  {
    SetLength(m, |m| + 4 + Padded(|a.value|) - HEADER_SIZE) + EncodeAttr(a)
  }

  lemma ExtendTiles(m: seq<byte>, attrs: seq<Attr>, a: Attr)
    requires Tiles(m, attrs) && Fits(a) && |m| + 4 + Padded(|a.value|) - HEADER_SIZE < 0x1_0000
    ensures Tiles(Extend(m, a), attrs + [a])
    ensures forall wanted ::
      Find(Extend(m, a), wanted) ==
      if Find(m, wanted).Some? then Find(m, wanted)
      else if a.kind == wanted then Some(Place(|m| + 4, |a.value|)) else None
  {
    hide Padded, SetLength, EncodeAttr, LaidOut, Walk, FirstOf;
    var w := Extend(m, a);
    var h := SetLength(m, |m| + 4 + Padded(|a.value|) - HEADER_SIZE);
    assert h[HEADER_SIZE..|m|] == m[HEADER_SIZE..|m|] by {
      assert h[HEADER_SIZE..|m|] == h[4..][HEADER_SIZE - 4..] && m[HEADER_SIZE..|m|] == m[4..][HEADER_SIZE - 4..];
    }
    assert w[HEADER_SIZE..|m|] == h[HEADER_SIZE..|m|];
    assert ReadBe16(w, 2) == ReadBe16(h, 2);
    LaidOutFrame(m, w, HEADER_SIZE, |m|, attrs);
    SingleLaidOut(h, a);
    LaidOutJoin(w, HEADER_SIZE, |m|, |w|, attrs, [a]);
    forall wanted
      ensures Find(w, wanted) == if Find(m, wanted).Some? then Find(m, wanted)
                                 else if a.kind == wanted then Some(Place(|m| + 4, |a.value|)) else None
    {
      WalkLaidOut(m, HEADER_SIZE, |m|, attrs, wanted);
      WalkLaidOut(w, HEADER_SIZE, |w|, attrs + [a], wanted);
      FirstOfJoin(attrs, [a], wanted, HEADER_SIZE, |m|, m);
      FirstOfSingle(a, wanted, |m|);
    }
  }

  lemma FirstOfSingle(a: Attr, wanted: u16, offset: nat)
    ensures FirstOf([a], wanted, offset) == if a.kind == wanted then Some(Place(offset + 4, |a.value|)) else None
  {
    assert [a][1..] == [];
  }

  lemma SingleLaidOut(h: seq<byte>, a: Attr)
    requires Fits(a)
    ensures LaidOut(h + EncodeAttr(a), |h|, |h| + 4 + Padded(|a.value|), [a])
  {
    hide Padded, EncodeAttr, LaidOut;
    OneLaidOut(h, a, []);
    var m, end := h + EncodeAttr(a), |h| + 4 + Padded(|a.value|);
    assert m + [] == m;
    LaidOutNil(m, end);
    LaidOutCons(m, |h|, end, end, [a], []);
  }

  // -------------------------------------------------------------------------
  // MESSAGE-INTEGRITY
  // -------------------------------------------------------------------------

  /** stun_verify_mi as a function. */
  function VerifyMi(m: seq<byte>, pwd: seq<byte>, hmac: Hmac): (ok: bool)
  {
    pwd != [] && |m| >= HEADER_SIZE + MI_SIZE &&
    match Find(m, MESSAGE_INTEGRITY)
    case None => false
    case Some(p) =>
      p.length == 20 && hmac(pwd, SetLength(m[..p.at - 4], p.at - 4 + MI_SIZE - HEADER_SIZE)) == m[p.at..p.at + 20]
  }

  /** The message signed: the attribute's value authenticates what precedes it, under the length
      field that already counts it. */
  function Sign(m: seq<byte>, pwd: seq<byte>, hmac: Hmac): (r: seq<byte>)
    requires HEADER_SIZE <= |m| && |m| + MI_SIZE - HEADER_SIZE < 0x1_0000
    requires |hmac(pwd, SetLength(m, |m| + MI_SIZE - HEADER_SIZE))| == 20
    ensures |r| == |m| + MI_SIZE
  {
    Extend(m, Attr(MESSAGE_INTEGRITY, hmac(pwd, SetLength(m, |m| + MI_SIZE - HEADER_SIZE))))
  }

  lemma SetLengthTwice(m: seq<byte>, a: u16, b: u16)
    requires |m| >= HEADER_SIZE
    ensures SetLength(SetLength(m, a), b) == SetLength(m, b)
  {
    hide Be16;
  }

  /** Signing any well-formed message that has no MESSAGE-INTEGRITY yet makes it verify. */
  lemma SignVerifies(m: seq<byte>, pwd: seq<byte>, hmac: Hmac)
    requires WellFormed(m) && Find(m, MESSAGE_INTEGRITY).None?
    requires |m| + MI_SIZE - HEADER_SIZE < 0x1_0000 && pwd != [] && Sized(hmac)
    ensures VerifyMi(Sign(m, pwd, hmac), pwd, hmac) && WellFormed(Sign(m, pwd, hmac))
  {
    hide LaidOut, Walk, SetLength, Find;
    var attrs :| Tiles(m, attrs);
    var n: u16 := |m| + MI_SIZE - HEADER_SIZE;
    var a := Attr(MESSAGE_INTEGRITY, hmac(pwd, SetLength(m, n)));
    ExtendTiles(m, attrs, a);
    var w := Sign(m, pwd, hmac);
    assert w[..|m|] == SetLength(m, n);
    SetLengthTwice(m, n, n);
    OneLaidOut(SetLength(m, n), a, []);
    assert SetLength(m, n) + EncodeAttr(a) + [] == w;
  }

  // -------------------------------------------------------------------------
  // FINGERPRINT
  // -------------------------------------------------------------------------

  /** A checksum as FINGERPRINT carries it, so that it differs from a plain CRC-32. */
  function Masked(crc: bv32): u32 {
    (crc ^ CRC_MASK) as int
  }

  function Checksum(m: seq<byte>): u32 {
    Masked(Crc32.Crc(m))
  }

  /** The message with a FINGERPRINT: a checksum of what precedes it, under the final length field. */
  function AddFingerprint(m: seq<byte>): (r: seq<byte>)
    requires HEADER_SIZE <= |m| && |m| + FP_SIZE - HEADER_SIZE < 0x1_0000
    ensures |r| == |m| + FP_SIZE
  {
    Extend(m, Attr(FINGERPRINT, Be32(Checksum(SetLength(m, |m| + FP_SIZE - HEADER_SIZE)))))
  }

  /** The last attribute is a FINGERPRINT and its value is the checksum of everything before it. */
  ghost predicate FingerprintHolds(m: seq<byte>) {
    && |m| >= HEADER_SIZE + FP_SIZE
    && Find(m, FINGERPRINT) == Some(Place(|m| - 4, 4))
    && ReadBe32(m, |m| - 4) == Checksum(m[..|m| - FP_SIZE])
  }

  lemma FingerprintAdded(m: seq<byte>)
    requires WellFormed(m) && Find(m, FINGERPRINT).None? && |m| + FP_SIZE - HEADER_SIZE < 0x1_0000
    ensures FingerprintHolds(AddFingerprint(m)) && WellFormed(AddFingerprint(m))
  {
    hide LaidOut, Walk, SetLength, Find, Checksum, Be32;
    var attrs :| Tiles(m, attrs);
    var h := SetLength(m, |m| + FP_SIZE - HEADER_SIZE);
    var a := Attr(FINGERPRINT, Be32(Checksum(h)));
    ExtendTiles(m, attrs, a);
    var w := AddFingerprint(m);
    OneLaidOut(h, a, []);
    assert h + EncodeAttr(a) + [] == w;
    assert w[..|m|] == h;
    assert w[|m| + 4..|m| + 8] == a.value;
    assert ReadBe32(w, |w| - 4) == ReadBe32(w[|m| + 4..|m| + 8], 0);
  }

  /** Appending a FINGERPRINT to any well-formed message leaves its verification unchanged. */
  lemma FingerprintKeepsVerification(m: seq<byte>, pwd: seq<byte>, hmac: Hmac)
    requires WellFormed(m) && |m| + FP_SIZE - HEADER_SIZE < 0x1_0000
    ensures VerifyMi(AddFingerprint(m), pwd, hmac) == VerifyMi(m, pwd, hmac)
  {
    hide LaidOut, Walk, SetLength, Find, Checksum, EncodeAttr, Be32;
    var attrs :| Tiles(m, attrs);
    var h := SetLength(m, |m| + FP_SIZE - HEADER_SIZE);
    var a := Attr(FINGERPRINT, Be32(Checksum(h)));
    ExtendTiles(m, attrs, a);
    var w := AddFingerprint(m);
    match Find(m, MESSAGE_INTEGRITY)
    case None =>
    case Some(p) =>
      SameRange(m, w, h, EncodeAttr(a), p.at, p.at + p.length);
      PrefixPatch(m, h, p.at - 4, |m| + FP_SIZE - HEADER_SIZE, (p.at - 4 + MI_SIZE - HEADER_SIZE) % 0x1_0000);
      assert w[..p.at - 4] == h[..p.at - 4];
  }

  lemma SameRange(m: seq<byte>, w: seq<byte>, h: seq<byte>, tail: seq<byte>, i: nat, j: nat)
    requires w == h + tail && |h| == |m| && 4 <= i <= j <= |m| && h[4..] == m[4..]
    ensures w[i..j] == m[i..j]
  {
    assert w[i..j] == h[i..j];
    assert h[i..j] == h[4..][i - 4..j - 4] && m[i..j] == m[4..][i - 4..j - 4];
  }

  /** Patching the length field of a prefix hides whatever length the whole message carried. */
  lemma PrefixPatch(m: seq<byte>, h: seq<byte>, k: nat, n: u16, x: u16)
    requires HEADER_SIZE <= k <= |m| && h == SetLength(m, n)
    ensures SetLength(h[..k], x) == SetLength(m[..k], x)
  {
    hide Be16;
    assert h[..k][..2] == m[..k][..2];
    assert h[..k][4..] == m[..k][4..];
  }

  /** stun_verify_mi: the text is hashed from a patched copy. */
  method StunVerifyMi(buf: seq<byte>, password: seq<byte>, hmac: Hmac) returns (ok: bool)
    ensures ok == VerifyMi(buf, password, hmac)
  {
    hide Walk, Find, SetLength;
    if password == [] || |buf| < HEADER_SIZE + MI_SIZE {
      return false;
    }
    var mi := FindAttribute(buf, MESSAGE_INTEGRITY);
    if mi.None? || mi.value.length != 20 {
      return false;
    }
    var miHeader := mi.value.at - 4;
    if miHeader < HEADER_SIZE || miHeader + MI_SIZE > |buf| {
      return false;
    }
    var scratch := new byte[miHeader](i requires 0 <= i < |buf| => buf[i]);
    assert scratch[..] == buf[..miHeader];
    PatchLength(scratch, miHeader + MI_SIZE - HEADER_SIZE);
    var mac := hmac(password, scratch[..]);
    ok := |mac| == 20 && mac == buf[mi.value.at..mi.value.at + 20];
  }

  /** No attribute of a list has this kind. */
  predicate Lacks(attrs: seq<Attr>, kind: u16) {
    forall i :: 0 <= i < |attrs| ==> attrs[i].kind != kind
  }

  lemma {:induction false} WalkPast(m: seq<byte>, offset: nat, middle: nat, end: nat, before: seq<Attr>, wanted: u16)
    requires LaidOut(m, offset, middle, before) && Lacks(before, wanted) && middle <= end <= |m|
    ensures Walk(m, offset, end, wanted) == Walk(m, middle, end, wanted)
    decreases |before|
  {
    hide Padded;
    if before != [] {
      var next := offset + 4 + Padded(|before[0].value|);
      LaidOutOrder(m, next, middle, before[1..]);
      WalkPast(m, next, middle, end, before[1..], wanted);
    }
  }

  /** At `at`, behind attributes of other kinds and in front of anything at all, a message has an
      attribute of this kind, of this size. */
  ghost predicate FirstAt(m: seq<byte>, before: seq<Attr>, at: nat, kind: u16, size: nat) {
    && |m| >= 20 && MessageLength(m) + 20 <= |m| && size < 0x1_0000
    && LaidOut(m, 20, at, before) && Lacks(before, kind) && at + 4 + size <= MessageLength(m) + 20
    && m[at..at + 4] == [kind / 256, kind % 256, size / 256, size % 256]
  }

  lemma FoundAt(m: seq<byte>, before: seq<Attr>, at: nat, kind: u16, size: nat)
    requires FirstAt(m, before, at, kind, size)
    ensures at >= 20 && Find(m, kind) == Some(Place(at + 4, size))
  {
    WalkPast(m, 20, at, MessageLength(m) + 20, before, kind);
    LaidOutOrder(m, 20, at, before);
    var h := m[at..at + 4];
    assert m[at] == h[0] && m[at + 1] == h[1] && m[at + 2] == h[2] && m[at + 3] == h[3];
    hide LaidOut, Lacks;
    assert ReadBe16(m, at) == kind && ReadBe16(m, at + 2) == size;
  }

  /** The verdict on every message with a MESSAGE-INTEGRITY, whatever stands before and behind it: it
      verifies if and only if the attribute has 20 octets and these are the HMAC, under the password,
      of the octets before it with a length field that ends just behind it. */
  lemma VerifyExact(m: seq<byte>, before: seq<Attr>, at: nat, size: nat, pwd: seq<byte>, hmac: Hmac)
    requires FirstAt(m, before, at, 0x0008, size)
    ensures VerifyMi(m, pwd, hmac) <==>
            && pwd != [] && size == 20
            && m[at + 4..at + 24] == hmac(pwd, m[..2] + [(at + 4) / 256, (at + 4) % 256] + m[4..at])
  {
    FoundAt(m, before, at, 0x0008, size);
    hide Find, LaidOut, Lacks;
    if size == 20 {
      assert m[..at][..2] == m[..2] && m[..at][4..] == m[4..at];
      assert at + MI_SIZE - HEADER_SIZE == at + 4;
      assert Be16(at + 4) == [(at + 4) / 256, (at + 4) % 256];
    }
  }

  /** Without one nothing verifies. */
  lemma UnsignedFails(m: seq<byte>, attrs: seq<Attr>, pwd: seq<byte>, hmac: Hmac)
    requires |m| >= 20 && MessageLength(m) + 20 <= |m| && LaidOut(m, 20, MessageLength(m) + 20, attrs)
    requires Lacks(attrs, 0x0008)
    ensures !VerifyMi(m, pwd, hmac)
  {
    WalkPast(m, 20, MessageLength(m) + 20, MessageLength(m) + 20, attrs, 0x0008);
  }

  /** The octets of the request's type, its cookie and a length within the datagram make a request. */
  lemma RequestOctets(m: seq<byte>)
    requires |m| >= 20
    ensures IsBindingRequest(m) <==>
            m[..2] == [0, 1] && m[4..8] == [0x21, 0x12, 0xA4, 0x42] && m[2] as int * 256 + m[3] as int + 20 <= |m|
  {
    var kind, cookie := m[..2], m[4..8];
    assert kind[0] == m[0] && kind[1] == m[1];
    assert cookie[0] == m[4] && cookie[1] == m[5] && cookie[2] == m[6] && cookie[3] == m[7];
    if IsBindingRequest(m) {
      FourOctets(m[4], m[5], m[6], m[7]);
    }
  }

  lemma FourOctets(a: byte, b: byte, c: byte, d: byte)
    requires a as int * 0x100_0000 + b as int * 0x1_0000 + c as int * 256 + d as int == 0x2112A442
    ensures a == 0x21 && b == 0x12 && c == 0xA4 && d == 0x42
  {
  }

  /** The classes of RFC 7983 as far as the session has a use for them, by the first octet. */
  lemma ClassOctets(d: seq<byte>)
    requires d != []
    ensures Classify(d) == StunPacket <==> d[0] <= 3
    ensures Classify(d) == DtlsPacket <==> 20 <= d[0] <= 63
    ensures Classify(d) == RtpPacket <==> 128 <= d[0]
  {
  }

  /** Overwrite the length field. */
  method PatchLength(out: array<byte>, n: u16)
    requires out.Length >= HEADER_SIZE
    modifies out
    ensures out[..] == SetLength(old(out[..]), n)
  {
    hide Be16;
    ghost var was := out[..];
    WriteBe16(out, 2, n);
    assert out[..4] == was[..2] + Be16(n);
    assert out[4..] == was[4..];
    assert out[..] == out[..4] + out[4..];
  }

  // -------------------------------------------------------------------------
  // Requests
  // -------------------------------------------------------------------------

  datatype PacketClass = StunPacket | DtlsPacket | RtpPacket | OtherPacket

  /** rtc_classify_packet. */
  function Classify(buf: seq<byte>): PacketClass {
    if |buf| < 1 then OtherPacket
    else if buf[0] <= 3 then StunPacket
    else if 20 <= buf[0] <= 63 then DtlsPacket
    else if buf[0] >= 128 then RtpPacket
    else OtherPacket
  }

  /** stun_is_binding_request. */
  predicate IsBindingRequest(m: seq<byte>) {
    && |m| >= HEADER_SIZE
    && ReadBe16(m, 0) == 1
    && ReadBe32(m, 4) == 0x2112A442
    && MessageLength(m) + HEADER_SIZE <= |m|
  }

  const COLON: byte := 58

  /** The first occurrence of an octet, as memchr finds it. */
  function IndexOf(s: seq<byte>, c: byte): (r: Option<nat>)
    ensures r.Some? ==> r.value < |s| && s[r.value] == c && c !in s[..r.value]
    ensures r.None? ==> c !in s
  {
    if s == [] then None
    else if s[0] == c then Some(0)
    else
      match IndexOf(s[1..], c)
      case None => None
      case Some(i) =>
        assert s[..i + 1] == [s[0]] + s[1..][..i];
        Some(i + 1)
  }

  predicate Leads(name: seq<byte>, ufrag: seq<byte>) {
    |name| > |ufrag| && name[|ufrag|] == COLON && name[..|ufrag|] == ufrag
  }

  predicate Trails(name: seq<byte>, ufrag: seq<byte>) {
    match IndexOf(name, COLON)
    case None => false
    case Some(i) => name[i + 1..] == ufrag
  }

  /** stun_username_matches. */
  predicate UsernameMatches(m: seq<byte>, ufrag: seq<byte>) {
    ufrag != [] &&
    match Find(m, USERNAME)
    case None => false
    case Some(p) =>
      var name := m[p.at..p.at + p.length];
      Leads(name, ufrag) || Trails(name, ufrag)
  }

  /** The name is ours, a colon, and anything. */
  ghost predicate OursFirst(name: seq<byte>, ufrag: seq<byte>) {
    exists rest :: name == ufrag + [COLON] + rest
  }

  /** The name is a fragment without colons, a colon, and ours. */
  ghost predicate OursSecond(name: seq<byte>, ufrag: seq<byte>) {
    exists first :: COLON !in first && name == first + [COLON] + ufrag
  }

  lemma LeadsMeaning(name: seq<byte>, ufrag: seq<byte>)
    ensures Leads(name, ufrag) <==> OursFirst(name, ufrag)
  {
    if Leads(name, ufrag) {
      assert name == ufrag + [COLON] + name[|ufrag| + 1..];
    }
    if OursFirst(name, ufrag) {
      var rest :| name == ufrag + [COLON] + rest;
      assert name[|ufrag|] == COLON && name[..|ufrag|] == ufrag;
    }
  }

  lemma {:induction false} FirstColon(first: seq<byte>, rest: seq<byte>)
    requires COLON !in first
    ensures IndexOf(first + [COLON] + rest, COLON) == Some(|first|)
    decreases |first|
  {
    var s := first + [COLON] + rest;
    if first != [] {
      FirstColon(first[1..], rest);
      assert s[1..] == first[1..] + [COLON] + rest;
    }
  }

  lemma TrailsMeaning(name: seq<byte>, ufrag: seq<byte>)
    ensures Trails(name, ufrag) <==> OursSecond(name, ufrag)
  {
    hide IndexOf;
    if Trails(name, ufrag) {
      var i := IndexOf(name, COLON).value;
      assert name == name[..i] + [COLON] + name[i + 1..];
    }
    if OursSecond(name, ufrag) {
      var first: seq<byte> :| COLON !in first && name == first + [COLON] + ufrag;
      FirstColon(first, ufrag);
      assert name[|first| + 1..] == ufrag;
    }
  }

  /** The comparison accepts exactly the names with our fragment on one side of a colon. */
  lemma UsernameMeaning(m: seq<byte>, ufrag: seq<byte>)
    ensures UsernameMatches(m, ufrag) <==>
            && ufrag != [] && Find(m, USERNAME).Some?
            && var p := Find(m, USERNAME).value;
               var name := m[p.at..p.at + p.length];
               OursFirst(name, ufrag) || OursSecond(name, ufrag)
  {
    hide Find, Leads, Trails, OursFirst, OursSecond;
    if Find(m, USERNAME).Some? {
      var p := Find(m, USERNAME).value;
      LeadsMeaning(m[p.at..p.at + p.length], ufrag);
      TrailsMeaning(m[p.at..p.at + p.length], ufrag);
    }
  }

  // -------------------------------------------------------------------------
  // The binding response
  // -------------------------------------------------------------------------

  /** An IPv4 transport address. */
  datatype Peer = Peer(ip: bv32, port: bv16)

  function Mask16(x: bv16): bv16 {
    x ^ 0x2112
  }

  function Mask32(x: bv32): bv32 {
    x ^ MAGIC
  }

  function Word16(x: bv16): u16 {
    x as int
  }

  function Word32(x: bv32): u32 {
    x as int
  }

  function Bits16(x: u16): bv16 {
    (x as int) as bv16
  }

  function Bits32(x: u32): bv32 {
    (x as int) as bv32
  }

  lemma MaskTwice16(x: bv16)
    ensures Mask16(Mask16(x)) == x
  {
  }

  lemma MaskTwice32(x: bv32)
    ensures Mask32(Mask32(x)) == x
  {
  }

  lemma WordBack16(x: bv16)
    ensures Bits16(Word16(x)) == x
  {
  }

  lemma WordBack32(x: bv32)
    ensures Bits32(Word32(x)) == x
  {
  }

  function XorAddress(peer: Peer): (v: seq<byte>)
    ensures |v| == 8
  {
    [0, 1] + Be16(Word16(Mask16(peer.port))) + Be32(Word32(Mask32(peer.ip)))
  }

  /** The address 192.0.2.1, port 32853, as section 2.2 of RFC 5769 has it, and the mask of section
      15.5 of RFC 5389. */
  lemma KnownOctets()
    ensures XorAddress(Peer(0xC0000201, 32853)) == [0, 1, 0xA1, 0x47, 0xE1, 0x12, 0xA6, 0x43]
    ensures Masked(0) == 0x5354554E
  {
    assert Mask16(32853) == 0xA147 && Mask32(0xC0000201) == 0xE112A643;
    hide Mask16, Mask32;
    assert Word16(0xA147) == 0xA147 && Word32(0xE112A643) == 0xE112A643;
  }

  function ResponseHeader(request: seq<byte>): (h: seq<byte>)
    requires |request| >= HEADER_SIZE
    ensures |h| == HEADER_SIZE
  {
    [1, 1, 0, 0] + request[4..20]
  }

  /** The response before it is signed. */
  function Base(request: seq<byte>, peer: Peer): (m: seq<byte>)
    requires |request| >= HEADER_SIZE
    ensures |m| == HEADER_SIZE + 12
  {
    Extend(ResponseHeader(request), Attr(XOR_MAPPED_ADDRESS, XorAddress(peer)))
  }

  function Response(pwd: seq<byte>, request: seq<byte>, peer: Peer, hmac: Hmac): (r: seq<byte>)
    requires |request| >= HEADER_SIZE
    requires |hmac(pwd, SetLength(Base(request, peer), 36))| == 20
    ensures |r| == RESPONSE_SIZE
  {
    AddFingerprint(Sign(Base(request, peer), pwd, hmac))
  }

  lemma HeaderTiles(request: seq<byte>)
    requires |request| >= HEADER_SIZE
    ensures Tiles(ResponseHeader(request), [])
    ensures forall wanted :: Find(ResponseHeader(request), wanted).None?
  {
    var h := ResponseHeader(request);
    assert ReadBe16(h, 2) == 0;
  }

  /** What the transport address in a message says, undoing the xor of section 15.2. */
  function MappedPeer(m: seq<byte>): (r: Option<Peer>) {
    match Find(m, XOR_MAPPED_ADDRESS)
    case None => None
    case Some(p) =>
      if p.length == 8 && m[p.at + 1] == 1 then
        Some(Peer(Mask32(Bits32(ReadBe32(m, p.at + 4))), Mask16(Bits16(ReadBe16(m, p.at + 2)))))
      else None
  }

  /** Everything the response owes its reader: it verifies with the password it was built with,
      its fingerprint is the checksum of what precedes it, it names the sender of the request,
      and it carries the cookie and transaction of the request. */
  lemma ResponseRoundTrip(pwd: seq<byte>, request: seq<byte>, peer: Peer, hmac: Hmac)
    requires |request| >= HEADER_SIZE && pwd != [] && Sized(hmac)
    ensures var r := Response(pwd, request, peer, hmac);
            && VerifyMi(r, pwd, hmac)
            && FingerprintHolds(r)
            && MappedPeer(r) == Some(peer)
            && r[..2] == [1, 1] && r[4..20] == request[4..20] && WellFormed(r)
            && Find(r, 0x0020) == Some(Place(24, 8)) && Find(r, 0x0008) == Some(Place(36, 20))
            && Find(r, 0x8028) == Some(Place(60, 4))
  {
    hide Find, LaidOut, Walk, VerifyMi, FingerprintHolds, SetLength, Checksum, EncodeAttr, XorAddress, Be32, MappedPeer,
         ResponseHeader, Extend;
    var h := ResponseHeader(request);
    var xma := Attr(XOR_MAPPED_ADDRESS, XorAddress(peer));
    var base := Base(request, peer);
    HeaderTiles(request);
    ExtendTiles(h, [], xma);
    SignVerifies(base, pwd, hmac);
    var signed := Sign(base, pwd, hmac);
    var mac := Attr(MESSAGE_INTEGRITY, hmac(pwd, SetLength(base, 36)));
    ExtendTiles(base, [] + [xma], mac);
    FingerprintKeepsVerification(signed, pwd, hmac);
    FingerprintAdded(signed);
    var fp := Attr(FINGERPRINT, Be32(Checksum(SetLength(signed, 44))));
    ExtendTiles(signed, [] + [xma] + [mac], fp);
    var r := Response(pwd, request, peer, hmac);
    assert r == Extend(signed, fp) && signed == Extend(base, mac) && base == Extend(h, xma);
    ExtendKeeps(signed, fp);
    ExtendKeeps(base, mac);
    ExtendKeeps(h, xma);
    ResponseParts(request, h, base, signed, r);
    assert Find(r, XOR_MAPPED_ADDRESS) == Some(Place(24, 8));
    ValueOf(h, xma);
    assert r[24..32] == base[24..32] by { assert r[24..32] == r[4..32][20..]; assert base[24..32] == base[4..32][20..]; }
    PeerDecodes(r, peer);
  }

  lemma ResponseParts(request: seq<byte>, h: seq<byte>, base: seq<byte>, signed: seq<byte>, r: seq<byte>)
    requires |request| >= 20 && h == ResponseHeader(request) && |base| == 32 && |signed| == 56 && |r| == 64
    requires base[..2] == h[..2] && base[4..20] == h[4..20]
    requires signed[..2] == base[..2] && signed[4..32] == base[4..32]
    requires r[..2] == signed[..2] && r[4..56] == signed[4..56]
    ensures r[..2] == [1, 1] && r[4..20] == request[4..20] && r[4..32] == base[4..32]
  {
    assert r[4..20] == r[4..56][..16] && signed[4..20] == signed[4..56][..16];
    assert signed[4..20] == signed[4..32][..16] && base[4..20] == base[4..32][..16];
    assert r[4..32] == r[4..56][..28] && signed[4..32] == signed[4..56][..28];
    assert h[..2] == [1, 1];
  }

  /** Extending changes nothing of the message but its length field. */
  lemma ExtendKeeps(m: seq<byte>, a: Attr)
    requires |m| >= HEADER_SIZE && Fits(a) && |m| + 4 + Padded(|a.value|) - HEADER_SIZE < 0x1_0000
    ensures Extend(m, a)[..2] == m[..2] && Extend(m, a)[4..|m|] == m[4..|m|]
  {
    hide Padded, SetLength, EncodeAttr;
    var h := SetLength(m, |m| + 4 + Padded(|a.value|) - HEADER_SIZE);
    assert Extend(m, a)[4..|m|] == h[4..];
    assert m[4..|m|] == m[4..];
  }

  lemma ValueOf(m: seq<byte>, a: Attr)
    requires |m| >= HEADER_SIZE && Fits(a) && |m| + 4 + Padded(|a.value|) - HEADER_SIZE < 0x1_0000
    ensures Extend(m, a)[|m| + 4..|m| + 4 + |a.value|] == a.value
  {
    hide Padded, SetLength, EncodeAttr;
    var h := SetLength(m, |m| + 4 + Padded(|a.value|) - HEADER_SIZE);
    OneLaidOut(h, a, []);
    assert h + EncodeAttr(a) + [] == Extend(m, a);
  }

  lemma PeerDecodes(m: seq<byte>, peer: Peer)
    requires Find(m, XOR_MAPPED_ADDRESS) == Some(Place(24, 8)) && m[24..32] == XorAddress(peer)
    ensures MappedPeer(m) == Some(peer)
  {
    hide Find, Be16, Be32, Mask16, Mask32, Word16, Word32, Bits16, Bits32;
    var v := XorAddress(peer);
    var port, ip := Be16(Word16(Mask16(peer.port))), Be32(Word32(Mask32(peer.ip)));
    assert forall k :: 0 <= k < 8 ==> m[24 + k] == m[24..32][k];
    assert v[2..4] == port && v[4..8] == ip;
    assert ReadBe16(m, 26) == ReadBe16(port, 0);
    assert ReadBe32(m, 28) == ReadBe32(ip, 0);
    MaskTwice16(peer.port);
    MaskTwice32(peer.ip);
    WordBack16(Mask16(peer.port));
    WordBack32(Mask32(peer.ip));
  }

  // -------------------------------------------------------------------------
  // The builder
  // -------------------------------------------------------------------------

  lemma EncodeAligned(a: Attr)
    requires Fits(a) && |a.value| % 4 == 0
    ensures EncodeAttr(a) == Be16(a.kind) + Be16(|a.value|) + a.value
  {
    hide Be16;
    assert Zeros(0) == [];
  }

  /** An attribute whose value needs no padding, written in place. */
  method WriteAttr(out: array<byte>, at: nat, kind: u16, value: seq<byte>)
    requires |value| < 0x1_0000 && |value| % 4 == 0 && at + 4 + |value| <= out.Length
    modifies out
    ensures out[..at + 4 + |value|] == old(out[..at]) + EncodeAttr(Attr(kind, value))
    ensures forall k :: at + 4 + |value| <= k < out.Length ==> out[k] == old(out[k])
  {
    hide Be16, EncodeAttr;
    EncodeAligned(Attr(kind, value));
    WriteBe16(out, at, kind);
    WriteBe16(out, at + 2, |value|);
    ghost var head := out[..at + 4];
    assert head == old(out[..at]) + Be16(kind) + Be16(|value|);
    forall k | at + 4 <= k < at + 4 + |value| {
      out[k] := value[k - at - 4];
    }
    assert out[..at + 4] == head;
    assert out[at + 4..at + 4 + |value|] == value;
    assert out[..at + 4 + |value|] == head + value;
  }

  /** The length field rewritten under a finished prefix. */
  method WriteLength(out: array<byte>, size: nat, n: u16)
    requires HEADER_SIZE <= size <= out.Length
    modifies out
    ensures out[..size] == SetLength(old(out[..size]), n)
    ensures forall k :: size <= k < out.Length ==> out[k] == old(out[k])
  {
    hide Be16;
    ghost var was := out[..size];
    WriteBe16(out, 2, n);
    assert out[..4] == was[..2] + Be16(n);
    assert out[..size][4..] == was[4..];
    assert out[..size] == out[..4] + out[..size][4..];
  }

  lemma SameUnderLength(m: seq<byte>, w: seq<byte>, n: u16)
    requires |m| == |w| >= HEADER_SIZE && m[..2] == w[..2] && m[4..] == w[4..]
    ensures SetLength(m, n) == SetLength(w, n)
  {
  }

  /** Header and XOR-MAPPED-ADDRESS; the length field is still whatever the buffer held. */
  method WriteBase(out: array<byte>, request: seq<byte>, peer: Peer)
    requires |request| >= HEADER_SIZE && out.Length >= HEADER_SIZE + 12
    modifies out
    ensures forall n :: SetLength(out[..32], n) == SetLength(Base(request, peer), n)
    ensures forall k :: 32 <= k < out.Length ==> out[k] == old(out[k])
  {
    hide EncodeAttr, XorAddress, SetLength;
    out[0], out[1] := 1, 1;
    forall k | 4 <= k < 20 {
      out[k] := request[k];
    }
    ghost var h := out[..20];
    assert h[..2] == [1, 1] && h[4..] == request[4..20];
    WriteAttr(out, 20, XOR_MAPPED_ADDRESS, XorAddress(peer));
    ghost var a := Attr(XOR_MAPPED_ADDRESS, XorAddress(peer));
    ghost var base := Base(request, peer);
    ghost var g := SetLength(ResponseHeader(request), 12);
    assert out[..32] == h + EncodeAttr(a) && base == g + EncodeAttr(a);
    assert ResponseHeader(request)[..2] == [1, 1] && ResponseHeader(request)[4..] == request[4..20];
    assert h[..2] == g[..2] && h[4..] == g[4..];
    assert out[..32][..2] == base[..2] && out[..32][4..] == base[4..];
    forall n
      ensures SetLength(out[..32], n) == SetLength(base, n)
    {
      SameUnderLength(out[..32], base, n);
    }
  }

  /** stun_build_binding_response for an IPv4 peer. */
  method BuildBindingResponse(pwd: seq<byte>, request: seq<byte>, peer: Peer, out: array<byte>, hmac: Hmac,
                              table: seq<bv32>) returns (ok: bool, size: nat)
    requires Sized(hmac) && Crc32.IsTable(table)
    modifies out
    ensures ok <==> |request| >= HEADER_SIZE && out.Length >= 128
    ensures ok ==> size == RESPONSE_SIZE && out[..size] == Response(pwd, request, peer, hmac)
    ensures forall k :: (if ok then size else 0) <= k < out.Length ==> out[k] == old(out[k])
  {
    hide EncodeAttr, XorAddress, SetLength, Base, Response, Masked, Be32;
    if |request| < HEADER_SIZE || out.Length < 128 {
      return false, 0;
    }
    WriteBase(out, request, peer);
    WriteLength(out, 32, 36);
    ghost var h := out[..32];
    assert h == SetLength(Base(request, peer), 36);
    var mac := hmac(pwd, out[..32]);
    WriteAttr(out, 32, MESSAGE_INTEGRITY, mac);
    ghost var signed := h + EncodeAttr(Attr(MESSAGE_INTEGRITY, mac));
    assert out[..56] == signed;
    WriteLength(out, 56, 44);
    ghost var g := out[..56];
    assert g == SetLength(signed, 44);
    var crc := Crc32.Crc32Stun(out[..56], table);
    WriteAttr(out, 56, FINGERPRINT, Be32(Masked(crc)));
    ResponseBytes(pwd, request, peer, hmac);
    return true, RESPONSE_SIZE;
  }

  /** The response as the builder lays it down. */
  lemma ResponseBytes(pwd: seq<byte>, request: seq<byte>, peer: Peer, hmac: Hmac)
    requires |request| >= HEADER_SIZE && Sized(hmac)
    ensures var h := SetLength(Base(request, peer), 36);
            var signed := h + EncodeAttr(Attr(MESSAGE_INTEGRITY, hmac(pwd, h)));
            |signed| == 56 &&
            var g := SetLength(signed, 44);
            Response(pwd, request, peer, hmac) == g + EncodeAttr(Attr(FINGERPRINT, Be32(Checksum(g))))
  {
    hide EncodeAttr, SetLength, Base, Checksum, Be32;
  }
}
