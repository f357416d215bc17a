/**
 The CRC-32 of src/webrtc/ice_lite.c: the table-driven loop equals the bit-serial one with
 polynomial 0xEDB88320, the checksum of STUN's FINGERPRINT (section 15.5 of RFC 5389).
 */
module Crc32 {
  import opened Bytes

  const POLYNOMIAL: bv32 := 0xEDB88320

  /** Eight bits at most, as an unsigned octet widens in C. */
  function Widen(b: byte): (w: bv32)
    ensures w <= 0xFF
  {
    (b as int) as bv32
  }

  function Xor(a: bv32, b: bv32): bv32 {
    a ^ b
  }

  function Half(c: bv32): bv32 {
    c >> 1
  }

  predicate Odd(c: bv32) {
    c & 1 == 1
  }

  function LowOctet(c: bv32): (r: bv32) {
    c & 0xFF
  }

  function HighOctets(c: bv32): (r: bv32) {
    c >> 8
  }

  /** One bit through the shift register. */
  function Shift(c: bv32): bv32 {
    if Odd(c) then Xor(Half(c), POLYNOMIAL) else Half(c)
  }

  function Shifts(c: bv32, n: nat): bv32
    decreases n
  {
    if n == 0 then c else Shifts(Shift(c), n - 1)
  }

  // -------------------------------------------------------------------------
  // Bit-serial
  // -------------------------------------------------------------------------

  /** Each octet in turn: xor it into the register and shift its eight bits out. */
  function Serial(crc: bv32, data: seq<byte>): bv32
    decreases |data|
  {
    if data == [] then crc else Serial(Shifts(Xor(crc, Widen(data[0])), 8), data[1..])
  }

  function Crc(data: seq<byte>): (crc: bv32) {
    Xor(Serial(0xFFFFFFFF, data), 0xFFFFFFFF)
  }

  /** The checksum of the digit 1, as every CRC-32 has it. */
  lemma KnownChecksum()
    ensures Crc([49]) == 0x83DCEFB7
  {
    assert Shift(0xFFFFFFCE) == 0x7FFFFFE7;
    assert Shift(0x7FFFFFE7) == 0xD2477CD3;
    assert Shift(0xD2477CD3) == 0x849B3D49;
    assert Shift(0x849B3D49) == 0xAFF51D84;
    assert Shift(0xAFF51D84) == 0x57FA8EC2;
    assert Shift(0x57FA8EC2) == 0x2BFD4761;
    assert Shift(0x2BFD4761) == 0xF8462090;
    assert Shift(0xF8462090) == 0x7C231048;
    assert Shifts(0xF8462090, 1) == 0x7C231048;
    assert Shifts(0x2BFD4761, 2) == 0x7C231048;
    assert Shifts(0x57FA8EC2, 3) == 0x7C231048;
    assert Shifts(0xAFF51D84, 4) == 0x7C231048;
    assert Shifts(0x849B3D49, 5) == 0x7C231048;
    assert Shifts(0xD2477CD3, 6) == 0x7C231048;
    assert Shifts(0x7FFFFFE7, 7) == 0x7C231048;
    assert Shifts(0xFFFFFFCE, 8) == 0x7C231048;
    assert Xor(0xFFFFFFFF, Widen(49)) == 0xFFFFFFCE;
    assert [49][1..] == [];
    assert Serial(0xFFFFFFFF, [49]) == 0x7C231048;
  }

  // -------------------------------------------------------------------------
  // The shift step is linear over xor
  // -------------------------------------------------------------------------

  lemma XorParts(a: bv32, b: bv32)
    ensures Odd(Xor(a, b)) == (Odd(a) != Odd(b))
    ensures Half(Xor(a, b)) == Xor(Half(a), Half(b))
  {
  }

  lemma XorAssociative(x: bv32, y: bv32, z: bv32)
    ensures Xor(Xor(x, y), z) == Xor(x, Xor(y, z))
  {
  }

  lemma XorCommutes(x: bv32, y: bv32)
    ensures Xor(x, y) == Xor(y, x)
  {
  }

  lemma XorCancels(x: bv32, p: bv32)
    ensures Xor(Xor(x, p), p) == x
  {
  }

  /** The polynomial can be moved to either operand, and cancels when it is on both. */
  lemma XorLaws(x: bv32, y: bv32, p: bv32)
    ensures Xor(Xor(x, y), p) == Xor(Xor(x, p), y) && Xor(Xor(x, y), p) == Xor(x, Xor(y, p))
    ensures Xor(x, y) == Xor(Xor(x, p), Xor(y, p))
  {
    hide Xor;
    XorAssociative(x, y, p);
    XorCommutes(y, p);
    XorAssociative(x, p, y);
    XorAssociative(Xor(x, p), y, p);
    XorAssociative(Xor(x, p), p, y);
    XorCancels(x, p);
  }

  lemma ShiftLinear(a: bv32, b: bv32)
    ensures Shift(Xor(a, b)) == Xor(Shift(a), Shift(b))
  {
    XorParts(a, b);
    XorLaws(Half(a), Half(b), POLYNOMIAL);
    hide Xor, Half, Odd;
  }

  lemma {:induction false} ShiftsLinear(a: bv32, b: bv32, n: nat)
    ensures Shifts(Xor(a, b), n) == Xor(Shifts(a, n), Shifts(b, n))
    decreases n
  {
    hide Shift, Xor;
    if n > 0 {
      ShiftLinear(a, b);
      ShiftsLinear(Shift(a), Shift(b), n - 1);
    }
  }

  function HighPartOf(c: bv32): bv32 {
    c & 0xFFFFFF00
  }

  predicate Clear(c: bv32, mask: bv32) {
    c & mask == 0
  }

  lemma ClearStep(c: bv32, mask: bv32)
    requires Clear(c, (mask << 1) | 1)
    ensures !Odd(c) && Clear(Half(c), mask)
  {
    assert c & 1 == 0;
    assert (c >> 1) & mask == 0;
  }

  function Quarter(c: bv32): bv32 {
    c >> 2
  }

  function Sixteenth(c: bv32): bv32 {
    c >> 4
  }

  lemma HalfTwice(c: bv32)
    ensures Half(Half(c)) == Quarter(c)
  {
  }

  lemma QuarterTwice(c: bv32)
    ensures Quarter(Quarter(c)) == Sixteenth(c)
  {
  }

  lemma SixteenthTwice(c: bv32)
    ensures Sixteenth(Sixteenth(c)) == HighOctets(c)
  {
  }

  lemma HalfFour(c: bv32)
    ensures Half(Half(Half(Half(c)))) == Sixteenth(c)
  {
    hide Half, Quarter, Sixteenth;
    HalfTwice(c);
    HalfTwice(Half(Half(c)));
    QuarterTwice(c);
  }

  lemma Masks(c: bv32)
    requires LowOctet(c) == 0
    ensures Clear(c, (0x7F << 1) | 1)
    ensures forall d :: Clear(d, 0x7F) <==> Clear(d, (0x3F << 1) | 1)
    ensures forall d :: Clear(d, 0x3F) <==> Clear(d, (0x1F << 1) | 1)
    ensures forall d :: Clear(d, 0x1F) <==> Clear(d, (0x0F << 1) | 1)
    ensures forall d :: Clear(d, 0x0F) <==> Clear(d, (0x07 << 1) | 1)
    ensures forall d :: Clear(d, 0x07) <==> Clear(d, (0x03 << 1) | 1)
    ensures forall d :: Clear(d, 0x03) <==> Clear(d, (0x01 << 1) | 1)
    ensures forall d :: Clear(d, 0x01) <==> Clear(d, (0x00 << 1) | 1)
  {
  }

  /** In a register whose low octet is clear, no bit shifted out is ever set. */
  lemma ClearOctet(c: bv32)
    requires LowOctet(c) == 0
    ensures !Odd(c) && !Odd(Half(c)) && !Odd(Half(Half(c))) && !Odd(Half(Half(Half(c))))
    ensures var d := Half(Half(Half(Half(c)))); !Odd(d) && !Odd(Half(d)) && !Odd(Half(Half(d))) && !Odd(Half(Half(Half(d))))
    ensures var d := Half(Half(Half(Half(c)))); Half(Half(Half(Half(d)))) == HighOctets(c)
  {
    Masks(c);
    hide Half, Odd, HighOctets, LowOctet, Clear, Sixteenth;
    HalfFour(c);
    HalfFour(Half(Half(Half(Half(c)))));
    SixteenthTwice(c);
    var c1 := Half(c);
    var c2 := Half(c1);
    var c3 := Half(c2);
    var c4 := Half(c3);
    var c5 := Half(c4);
    var c6 := Half(c5);
    ClearStep(c, 0x7F);
    ClearStep(c1, 0x3F);
    ClearStep(c2, 0x1F);
    ClearStep(c3, 0x0F);
    ClearStep(c4, 0x07);
    ClearStep(c5, 0x03);
    ClearStep(c6, 0x01);
    ClearStep(Half(c6), 0x00);
  }

  lemma ShiftClear(c: bv32)
    requires !Odd(c)
    ensures Shift(c) == Half(c)
  {
  }

  /** So the polynomial never enters, and the register just moves down by an octet. */
  lemma ClearPart(c: bv32)
    requires LowOctet(c) == 0
    ensures Shifts(c, 8) == HighOctets(c)
  {
    ClearOctet(c);
    hide Half, Odd, HighOctets, LowOctet, Shift;
    var c4 := Half(Half(Half(Half(c))));
    FourClear(c, 4);
    FourClear(c4, 0);
    assert Shifts(HighOctets(c), 0) == HighOctets(c);
  }

  lemma FourClear(c: bv32, rest: nat)
    requires !Odd(c) && !Odd(Half(c)) && !Odd(Half(Half(c))) && !Odd(Half(Half(Half(c))))
    ensures Shifts(c, rest + 4) == Shifts(Half(Half(Half(Half(c)))), rest)
  {
    hide Half, Odd, Shift;
    ShiftClear(c);
    ShiftClear(Half(c));
    ShiftClear(Half(Half(c)));
    ShiftClear(Half(Half(Half(c))));
    assert Shifts(c, rest + 4) == Shifts(Half(c), rest + 3);
    assert Shifts(Half(c), rest + 3) == Shifts(Half(Half(c)), rest + 2);
    assert Shifts(Half(Half(c)), rest + 2) == Shifts(Half(Half(Half(c))), rest + 1);
  }

  lemma SplitOctet(c: bv32)
    ensures c == Xor(LowOctet(c), HighPartOf(c))
    ensures LowOctet(HighPartOf(c)) == 0
    ensures HighOctets(HighPartOf(c)) == HighOctets(c)
  {
  }

  lemma OctetOnTop(crc: bv32, w: bv32)
    requires w <= 0xFF
    ensures HighOctets(Xor(crc, w)) == HighOctets(crc)
  {
  }

  /** One octet by table equals one octet bit by bit. */
  lemma OneOctet(crc: bv32, w: bv32)
    requires w <= 0xFF
    ensures Shifts(Xor(crc, w), 8) == Xor(Shifts(LowOctet(Xor(crc, w)), 8), HighOctets(crc))
  {
    OctetOnTop(crc, w);
    hide Shifts, Xor, LowOctet, HighOctets, HighPartOf;
    var c := Xor(crc, w);
    SplitOctet(c);
    ShiftsLinear(LowOctet(c), HighPartOf(c), 8);
    ClearPart(HighPartOf(c));
  }

  // -------------------------------------------------------------------------
  // The table
  // -------------------------------------------------------------------------

  lemma Index(c: bv32)
    ensures 0 <= LowOctet(c) as int < 256
    ensures (LowOctet(c) as int) as bv32 == LowOctet(c)
  {
  }

  /** The entry for each octet: what eight shifts make of it. */
  function Entry(i: nat): bv32
    requires i < 256
  {
    Shifts(i as bv32, 8)
  }

  ghost predicate IsTable(table: seq<bv32>) {
    |table| == 256 && forall i :: 0 <= i < 256 ==> table[i] == Entry(i)
  }

  /** init_crc32_table. */
  method BuildTable() returns (table: array<bv32>)
    ensures fresh(table) && IsTable(table[..])
  {
    hide Entry;
    table := new bv32[256];
    for i := 0 to 256
      invariant forall k :: 0 <= k < i ==> table[k] == Entry(k)
    {
      table[i] := BuildEntry(i);
    }
  }

  method BuildEntry(i: nat) returns (crc: bv32)
    requires i < 256
    ensures crc == Entry(i)
  {
    hide Shift;
    crc := i as bv32;
    for bit := 0 to 8
      invariant Shifts(crc, 8 - bit) == Entry(i)
    {
      crc := ShiftOnce(crc);
    }
  }

  method ShiftOnce(crc: bv32) returns (r: bv32)
    ensures r == Shift(crc)
  {
    r := if crc & 1 != 0 then (crc >> 1) ^ 0xEDB88320 else crc >> 1;
    assert crc & 1 == 0 || crc & 1 == 1;
  }

  /** crc32_stun: one table lookup per octet computes the bit-serial checksum of any message. */
  method Crc32Stun(data: seq<byte>, table: seq<bv32>) returns (crc: bv32)
    requires IsTable(table)
    ensures crc == Crc(data)
  {
    hide Shifts, Widen, Xor, LowOctet, HighOctets, IsTable;
    crc := 0xFFFFFFFF;
    assert data[0..] == data;
    for i := 0 to |data|
      invariant Serial(crc, data[i..]) == Serial(0xFFFFFFFF, data)
    {
      assert data[i..][1..] == data[i + 1..];
      crc := Octet(crc, data[i], table);
    }
    crc := Xor(crc, 0xFFFFFFFF);
  }

  method Octet(crc: bv32, b: byte, table: seq<bv32>) returns (r: bv32)
    requires IsTable(table)
    ensures r == Shifts(Xor(crc, Widen(b)), 8)
  {
    hide Shifts, Widen, Xor, LowOctet, HighOctets;
    var w := Widen(b);
    OneOctet(crc, w);
    Index(Xor(crc, w));
    var entry := table[LowOctet(Xor(crc, w)) as int];
    r := Xor(entry, HighOctets(crc));
  }
}
