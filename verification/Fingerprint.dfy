/**
 Certificate fingerprints of src/webrtc/dtls_srtp.c: the printed form that goes into the SDP,
 and the comparison of a received one with the digest of the peer's certificate.
 */
module Fingerprint {
  import opened Bytes

  const DIGEST_SIZE: nat := 32
  const NORMALIZED_SIZE: nat := 128
  const ACTUAL_SIZE: nat := 104

  function Digit(n: nat): (c: char)
    requires n < 16
    ensures c != ':' && c != ' ' && Upper(c) == c
  {
    if n < 10 then '0' + n as char else 'A' + (n - 10) as char
  }

  /** Fold a to f to upper case; every other character stays. */
  function Upper(c: char): char {
    if 'a' <= c <= 'f' then c - 32 as char else c
  }

  /** %02X */
  function HexOctet(b: byte): (s: string)
    ensures |s| == 2
  {
    [Digit(b as int / 16), Digit(b as int % 16)]
  }

  function Hex(md: seq<byte>): (s: string)
    ensures |s| == 2 * |md|
  {
    if md == [] then "" else Hex(md[..|md| - 1]) + HexOctet(md[|md| - 1])
  }

  /** Octets separated by colons. */
  function Colons(md: seq<byte>): (s: string)
    ensures |s| == if md == [] then 0 else 3 * |md| - 1
  {
    if md == [] then ""
    else if |md| == 1 then HexOctet(md[0])
    else Colons(md[..|md| - 1]) + ":" + HexOctet(md[|md| - 1])
  }

  /** The fingerprint attribute of a certificate digest. */
  function Print(md: seq<byte>): (s: string) {
    "sha-256 " + Colons(md)
  }

  /** The loop that prints it. */
  method Format(md: seq<byte>) returns (s: string)
    ensures s == Print(md)
  {
    hide HexOctet;
    s := "sha-256 ";
    for i := 0 to |md|
      invariant s == "sha-256 " + Colons(md[..i])
    {
      assert md[..i + 1][..i] == md[..i];
      s := s + (if i > 0 then ":" else "") + HexOctet(md[i]);
    }
    assert md[..|md|] == md;
  }

  // -------------------------------------------------------------------------
  // Comparison
  // -------------------------------------------------------------------------

  /** What follows the first space, or the whole value when there is none. */
  function AfterSpace(s: string): (r: string)
    ensures |r| <= |s|
  {
    if ' ' in s then Tail(s) else s
  }

  function Tail(s: string): (r: string)
    ensures |r| <= |s|
  {
    if s == "" then "" else if s[0] == ' ' then s[1..] else Tail(s[1..])
  }

  /** Colons stripped, case folded. */
  function Normalized(s: string): (r: string)
    ensures |r| <= |s|
  {
    if s == "" then ""
    else if s[|s| - 1] == ':' then Normalized(s[..|s| - 1])
    else Normalized(s[..|s| - 1]) + [Upper(s[|s| - 1])]
  }

  /** A received value names a digest: its hexadecimal digits, in either case, with any colons. */
  predicate Names(s: string, md: seq<byte>) {
    Normalized(AfterSpace(s)) == Hex(md)
  }

  lemma {:induction false} NormalizedGrows(s: string, k: nat)
    requires k <= |s|
    ensures Normalized(s[..k]) <= Normalized(s)
  {
    hide Upper;
    if k < |s| {
      NormalizedGrows(s[..|s| - 1], k);
      assert s[..|s| - 1][..k] == s[..k];
    } else {
      assert s[..k] == s;
    }
  }

  /** fingerprint_hex_equal: both sides are written into fixed buffers and compared. Cutting the
      normalized value off at its buffer never changes the answer for a SHA-256 digest. */
  method HexEqual(sdpValue: string, md: seq<byte>) returns (equal: bool)
    requires |md| == DIGEST_SIZE
    ensures equal == Names(sdpValue, md)
  {
    hide Upper, Normalized, Hex;
    var p := FindSpace(sdpValue);
    var normalized := Normalize(p);
    var actual := PrintHex(md);
    equal := normalized == actual;
  }

  method FindSpace(s: string) returns (p: string)
    ensures p == AfterSpace(s)
  {
    var i := 0;
    while i < |s| && s[i] != ' '
      invariant i <= |s| && ' ' !in s[..i]
      invariant Tail(s) == Tail(s[i..])
    {
      assert s[..i + 1] == s[..i] + [s[i]];
      assert s[i..][1..] == s[i + 1..];
      i := i + 1;
    }
    if i < |s| {
      assert s[i] in s;
      assert s[i..][1..] == s[i + 1..];
      p := s[i + 1..];
    } else {
      assert s[..i] == s;
      p := s;
    }
  }

  /** The first loop: at most 127 characters are kept. */
  method Normalize(p: string) returns (r: string)
    ensures |r| < NORMALIZED_SIZE && r <= Normalized(p)
    ensures |r| < NORMALIZED_SIZE - 1 ==> r == Normalized(p)
  {
    hide Upper;
    var normalized := new char[NORMALIZED_SIZE](i => '\0');
    var out := 0;
    var i := 0;
    while i < |p| && out + 1 < NORMALIZED_SIZE
      invariant 0 <= i <= |p| && 0 <= out < NORMALIZED_SIZE
      invariant normalized[..out] == Normalized(p[..i])
      decreases |p| - i
    {
      assert p[..i + 1][..i] == p[..i];
      if p[i] != ':' {
        normalized[out] := Upper(p[i]);
        out := out + 1;
        assert normalized[..out] == normalized[..out - 1] + [Upper(p[i])];
      }
      i := i + 1;
    }
    NormalizedGrows(p, i);
    if i == |p| {
      assert p[..i] == p;
    }
    r := normalized[..out];
  }

  method PrintHex(md: seq<byte>) returns (r: string)
    requires |md| <= DIGEST_SIZE
    ensures r == Hex(md)
  {
    var actual := new char[ACTUAL_SIZE](i => '\0');
    var out := 0;
    for i := 0 to |md|
      invariant out == 2 * i && actual[..out] == Hex(md[..i])
    {
      var two := HexOctet(md[i]);
      actual[out], actual[out + 1] := two[0], two[1];
      out := out + 2;
      assert md[..i + 1][..i] == md[..i];
      assert actual[..out] == actual[..out - 2] + two;
    }
    assert md[..|md|] == md;
    r := actual[..out];
  }

  // -------------------------------------------------------------------------
  // Printing and comparing undo each other
  // -------------------------------------------------------------------------

  lemma NormalizedOctet(s: string, b: byte)
    ensures Normalized(s + HexOctet(b)) == Normalized(s) + HexOctet(b)
    ensures Normalized(s + ":" + HexOctet(b)) == Normalized(s) + HexOctet(b)
  {
    var two := HexOctet(b);
    TwoMore(s, two[0], two[1]);
    TwoMore(s + ":", two[0], two[1]);
    assert two == [two[0], two[1]];
    assert (s + ":")[..|s|] == s;
  }

  lemma TwoMore(s: string, x: char, y: char)
    requires x != ':' && y != ':' && Upper(x) == x && Upper(y) == y
    ensures Normalized(s + [x, y]) == Normalized(s) + [x, y]
  {
    hide Upper;
    assert (s + [x, y])[..|s| + 1] == s + [x];
    assert (s + [x])[..|s|] == s;
    assert Normalized(s + [x]) == Normalized(s) + [x];
  }

  lemma {:induction false} NormalizedColons(md: seq<byte>)
    ensures Normalized(Colons(md)) == Hex(md)
  {
    hide HexOctet;
    if |md| == 1 {
      NormalizedOctet("", md[0]);
      assert "" + HexOctet(md[0]) == HexOctet(md[0]);
      assert md[..0] == [];
    } else if |md| > 1 {
      NormalizedColons(md[..|md| - 1]);
      NormalizedOctet(Colons(md[..|md| - 1]), md[|md| - 1]);
    }
  }

  lemma DigitInjective(m: nat, n: nat)
    requires m < 16 && n < 16 && Digit(m) == Digit(n)
    ensures m == n
  {
  }

  lemma OctetInjective(a: byte, b: byte)
    requires HexOctet(a) == HexOctet(b)
    ensures a == b
  {
    hide Digit;
    assert HexOctet(a)[0] == HexOctet(b)[0] && HexOctet(a)[1] == HexOctet(b)[1];
    DigitInjective(a as int / 16, b as int / 16);
    DigitInjective(a as int % 16, b as int % 16);
  }

  lemma {:induction false} HexInjective(a: seq<byte>, b: seq<byte>)
    requires Hex(a) == Hex(b)
    ensures a == b
    decreases |a|
  {
    hide HexOctet;
    if a != [] {
      var m, n := |a| - 1, |b| - 1;
      var s, t := Hex(a[..m]), Hex(b[..n]);
      assert Hex(a)[..2 * m] == s && Hex(b)[..2 * n] == t;
      assert Hex(a)[2 * m..] == HexOctet(a[m]) && Hex(b)[2 * n..] == HexOctet(b[n]);
      HexInjective(a[..m], b[..n]);
      OctetInjective(a[m], b[n]);
      assert a == a[..m] + [a[m]] && b == b[..n] + [b[n]];
    }
  }

  lemma AfterAlgorithm(md: seq<byte>)
    ensures AfterSpace(Print(md)) == Colons(md)
  {
    var s := Print(md);
    assert s[7] == ' ';
    TailAt(s, 7);
    assert s[8..] == Colons(md);
  }

  lemma {:induction false} TailAt(s: string, i: nat)
    requires i < |s| && s[i] == ' ' && ' ' !in s[..i]
    ensures Tail(s) == s[i + 1..]
    decreases i
  {
    if i > 0 {
      assert s[0] == s[..i][0];
      assert s[1..][..i - 1] == s[..i][1..];
      TailAt(s[1..], i - 1);
    }
  }

  /** The printed fingerprint of a digest names that digest and no other. */
  lemma PrintNamesExactly(md: seq<byte>, other: seq<byte>)
    ensures Names(Print(md), other) <==> md == other
  {
    hide Normalized, Hex, Colons, Print, AfterSpace;
    AfterAlgorithm(md);
    NormalizedColons(md);
    if Hex(md) == Hex(other) {
      HexInjective(md, other);
    }
  }

  /** No value of any form names two digests. */
  lemma NamesOneDigest(s: string, a: seq<byte>, b: seq<byte>)
    requires Names(s, a) && Names(s, b)
    ensures a == b
  {
    hide Hex;
    HexInjective(a, b);
  }

  // -------------------------------------------------------------------------
  // Digits as numbers
  // -------------------------------------------------------------------------

  /** A value without its colons. */
  function Stripped(s: string): (r: string)
    ensures |r| <= |s|
  {
    if s == "" then ""
    else Stripped(s[..|s| - 1]) + if s[|s| - 1] == ':' then "" else [s[|s| - 1]]
  }

  /** The number a hexadecimal digit stands for, in either case. */
  function DigitValue(c: char): (v: Option<nat>) {
    if '0' <= c <= '9' then Some((c - '0') as nat)
    else if 'A' <= c <= 'F' then Some((c - 'A') as nat + 10)
    else if 'a' <= c <= 'f' then Some((c - 'a') as nat + 10)
    else None
  }

  /** The i-th half octet of a digest, the upper one first. */
  function HalfOctet(md: seq<byte>, i: nat): (v: nat)
    requires i < 2 * |md|
  {
    if i % 2 == 0 then md[i / 2] as int / 16 else md[i / 2] as int % 16
  }

  lemma {:induction false} NormalizedStripped(s: string, i: nat)
    ensures |Normalized(s)| == |Stripped(s)|
    ensures i < |Normalized(s)| ==> Normalized(s)[i] == Upper(Stripped(s)[i])
    decreases |s|
  {
    hide Upper;
    if s != "" {
      NormalizedStripped(s[..|s| - 1], i);
    }
  }

  lemma {:induction false} HexAt(md: seq<byte>, i: nat)
    requires i < 2 * |md|
    ensures Hex(md)[i] == Digit(HalfOctet(md, i))
    decreases |md|
  {
    hide Digit;
    var n := |md| - 1;
    if i < 2 * n {
      HexAt(md[..n], i);
    } else {
      assert i / 2 == n;
    }
  }

  lemma DigitMeans(c: char, n: nat)
    requires n < 16
    ensures Upper(c) == Digit(n) <==> DigitValue(c) == Some(n)
  {
  }

  /** A received value names a digest if and only if, behind its first space and without its colons, it
      has two hexadecimal digits for each octet, in either case, with the values of its halves. */
  lemma NamesExact(s: string, md: seq<byte>)
    ensures Names(s, md) <==>
            var digits := Stripped(AfterSpace(s));
            && |digits| == 2 * |md|
            && forall i :: 0 <= i < |digits| ==> DigitValue(digits[i]) == Some(HalfOctet(md, i))
  {
    hide Normalized, Stripped, Hex, Upper, Digit, DigitValue, HalfOctet;
    var v := AfterSpace(s);
    NormalizedStripped(v, 0);
    var digits := Stripped(v);
    if |digits| == 2 * |md| {
      forall i | 0 <= i < |digits|
        ensures Normalized(v)[i] == Hex(md)[i] <==> DigitValue(digits[i]) == Some(HalfOctet(md, i))
      {
        NormalizedStripped(v, i);
        HexAt(md, i);
        HalfSmall(md, i);
        DigitMeans(digits[i], HalfOctet(md, i));
      }
      if Normalized(v) != Hex(md) {
        assert exists i :: 0 <= i < |digits| && Normalized(v)[i] != Hex(md)[i];
      }
    }
  }

  lemma HalfSmall(md: seq<byte>, i: nat)
    requires i < 2 * |md|
    ensures HalfOctet(md, i) < 16
  {
  }

  /** The printed form of two octets. */
  lemma PrintedForm()
    ensures Print([0xAB, 0x01]) == "sha-256 AB:01"
  {
    var md: seq<byte> := [0xAB, 0x01];
    assert md[..1] == [0xAB];
    assert HexOctet(0xAB) == "AB" && HexOctet(0x01) == "01";
    assert Colons([0xAB]) == "AB";
    assert Colons(md) == "AB" + ":" + "01";
  }
}
