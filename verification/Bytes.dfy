/** Octets, the C integer widths, and the big-endian fields of the wire formats. */
module Bytes {

  type byte = x: int | 0 <= x < 256
  type u16 = x: int | 0 <= x < 0x1_0000
  type u32 = x: int | 0 <= x < 0x1_0000_0000
  type i32 = x: int | -0x8000_0000 <= x < 0x8000_0000
  type u64 = x: int | 0 <= x < 0x1_0000_0000_0000_0000

  datatype Option<+T> = None | Some(value: T)

  /** uint16_t written most significant octet first. */
  function Be16(v: u16): (s: seq<byte>)
    ensures |s| == 2
    ensures ReadBe16(s, 0) == v
  {
    [v / 256, v % 256]
  }

  /** uint32_t written most significant octet first. */
  function Be32(v: u32): (s: seq<byte>)
    ensures |s| == 4
    ensures ReadBe32(s, 0) == v
  {
    Octets32(v);
    [v / 0x100_0000, v / 0x1_0000 % 256, v / 256 % 256, v % 256]
  }

  lemma Octets32(v: u32)
    ensures v == v / 0x100_0000 * 0x100_0000 + v / 0x1_0000 % 256 * 0x1_0000 + v / 256 % 256 * 256 + v % 256
  {
    var a, b := v / 0x1_0000, v / 256;
    assert v / 0x100_0000 == a / 256;
    assert a == b / 256;
  }

  function ReadBe16(s: seq<byte>, i: nat): (v: u16)
    requires i + 2 <= |s|
  {
    s[i] as int * 256 + s[i + 1] as int
  }

  function ReadBe32(s: seq<byte>, i: nat): (v: u32)
    requires i + 4 <= |s|
  {
    s[i] as int * 0x100_0000 + s[i + 1] as int * 0x1_0000 + s[i + 2] as int * 256 + s[i + 3] as int
  }

  method WriteBe16(out: array<byte>, at: nat, v: u16)
    requires at + 2 <= out.Length
    modifies out
    ensures out[..at + 2] == old(out[..at]) + Be16(v)
    ensures forall k :: at + 2 <= k < out.Length ==> out[k] == old(out[k])
  {
    out[at], out[at + 1] := v as int / 256, v as int % 256;
  }

  method WriteBe32(out: array<byte>, at: nat, v: u32)
    requires at + 4 <= out.Length
    modifies out
    ensures out[..at + 4] == old(out[..at]) + Be32(v)
    ensures forall k :: at + 4 <= k < out.Length ==> out[k] == old(out[k])
  {
    var x := v as int;
    out[at], out[at + 1], out[at + 2], out[at + 3] := x / 0x100_0000, x / 0x1_0000 % 256, x / 256 % 256, x % 256;
  }

  /** memcpy into a buffer. */
  method Memcpy(out: array<byte>, at: nat, src: seq<byte>)
    requires at + |src| <= out.Length
    modifies out
    ensures out[at..at + |src|] == src
    ensures forall k :: 0 <= k < out.Length && !(at <= k < at + |src|) ==> out[k] == old(out[k])
  {
    forall k | at <= k < at + |src| {
      out[k] := src[k - at];
    }
  }

  /** Slot s of n slots in one flat buffer. */
  lemma SlotBounds(s: nat, n: nat, cap: nat)
    requires s < n
    ensures 0 <= s * cap && s * cap + cap <= n * cap
  {
    assert n * cap == s * cap + (n - s) * cap;
    assert (n - s) * cap == cap + (n - s - 1) * cap;
  }

  /** Two slots never overlap. */
  lemma SlotsApart(s: nat, t: nat, cap: nat)
    requires s != t
    ensures s * cap + cap <= t * cap || t * cap + cap <= s * cap
  {
    if s < t {
      SlotBounds(s, t, cap);
    } else {
      SlotBounds(t, s, cap);
    }
  }
}
