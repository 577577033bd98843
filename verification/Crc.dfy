/**
 The CRC of the XMODEM sender: a 16-bit shift register fed one octet at a time.
 It is shown to be the remainder of the message times x^16 on division by
 x^16 + x^12 + x^5 + 1 over GF(2), and to tell apart any two blocks that differ
 in one burst of at most 16 bits.
 */
module Crc {

  // ----- the shift register -----

  function Shift(c: bv16): bv16 {
    if c & 0x8000 != 0 then (c << 1) ^ 0x1021 else c << 1
  }

  function Shifts(c: bv16, n: nat): bv16
    decreases n
  {
    if n == 0 then c else Shifts(Shift(c), n - 1)
  }

  /** An octet at the high end of a 16-bit word. */
  function High(b: bv8): bv16 {
    (b as bv16) << 8
  }

  /** The register with an octet added at its high end. */
  function Load(c: bv16, b: bv8): bv16 {
    Plus(c, High(b))
  }

  function AddOctet(c: bv16, b: bv8): bv16 {
    Shifts(Load(c, b), 8)
  }

  /** The register after data when it held c before. */
  function Register(c: bv16, data: seq<bv8>): bv16
    decreases |data|
  {
    if data == [] then c else Register(AddOctet(c, data[0]), data[1..])
  }

  function Crc16(data: seq<bv8>): bv16 {
    Register(0, data)
  }

  /** xmodemCrc16 over len octets of a buffer from off on. */
  method ComputeCrc16(buf: array<bv8>, off: nat, len: nat) returns (crc: bv16)
    requires off + len <= buf.Length
    ensures crc == Crc16(buf[off..off + len])
  {
    hide Register, Shifts, AddOctet;
    crc := 0;
    ghost var data := buf[off..off + len];
    RegisterEmpty(0);
    for i := 0 to len
      invariant crc == Register(0, data[..i])
    {
      RegisterAppend(0, data[..i], data[i]);
      assert data[..i + 1] == data[..i] + [data[i]];
      crc := ShiftIn(crc, buf[off + i]);
    }
    assert data[..len] == data;
  }

  /** The inner loop of xmodemCrc16. */
  method ShiftIn(before: bv16, b: bv8) returns (crc: bv16)
    ensures crc == AddOctet(before, b)
  {
    crc := before ^ ((b as bv16) << 8);
    ghost var start := crc;
    for j := 0 to 8
      invariant Shifts(crc, 8 - j) == Shifts(start, 8)
    {
      hide Shift;
      assert Shifts(crc, 8 - j) == Shifts(Shift(crc), 8 - j - 1);
      crc := ShiftStep(crc);
    }
  }

  method ShiftStep(crc: bv16) returns (r: bv16)
    ensures r == Shift(crc)
  {
    if crc & 0x8000 != 0 {
      r := (crc << 1) ^ 0x1021;
    } else {
      r := crc << 1;
    }
  }

  lemma RegisterEmpty(c: bv16)
    ensures Register(c, []) == c
  {
  }

  lemma {:induction false} RegisterAppend(c: bv16, data: seq<bv8>, b: bv8)
    ensures Register(c, data + [b]) == AddOctet(Register(c, data), b)
    decreases |data|
  {
    hide AddOctet;
    if data == [] {
      assert (data + [b])[1..] == [];
    } else {
      assert (data + [b])[1..] == data[1..] + [b];
      RegisterAppend(AddOctet(c, data[0]), data[1..], b);
    }
  }

  lemma {:induction false} RegisterConcat(c: bv16, a: seq<bv8>, b: seq<bv8>)
    ensures Register(c, a + b) == Register(Register(c, a), b)
    decreases |a|
  {
    hide AddOctet;
    if a == [] {
      assert a + b == b;
    } else {
      assert (a + b)[1..] == a[1..] + b;
      RegisterConcat(AddOctet(c, a[0]), a[1..], b);
    }
  }

  // ----- linearity -----

  /** Addition over GF(2). */
  function Plus(a: bv16, b: bv16): bv16 {
    a ^ b
  }

  function OctetPlus(a: bv8, b: bv8): bv8 {
    a ^ b
  }

  function Sum(a: seq<bv8>, b: seq<bv8>): (r: seq<bv8>)
    requires |a| == |b|
    ensures |r| == |a| && forall i :: 0 <= i < |r| ==> r[i] == OctetPlus(a[i], b[i])
  {
    seq(|a|, i requires 0 <= i < |a| => OctetPlus(a[i], b[i]))
  }

  lemma ShlXor(a: bv16, b: bv16)
    ensures (a ^ b) << 1 == (a << 1) ^ (b << 1)
  {
  }

  lemma TopXor(a: bv16, b: bv16)
    ensures (a ^ b) & 0x8000 == (a & 0x8000) ^ (b & 0x8000)
    ensures a & 0x8000 == 0 || a & 0x8000 == 0x8000
    ensures b & 0x8000 == 0 || b & 0x8000 == 0x8000
  {
  }

  lemma XorBoth(a: bv16, b: bv16, k: bv16)
    ensures (a ^ k) ^ (b ^ k) == a ^ b
  {
  }

  lemma XorOne(a: bv16, b: bv16, k: bv16)
    ensures (a ^ k) ^ b == (a ^ b) ^ k && a ^ (b ^ k) == (a ^ b) ^ k
  {
  }

  lemma ShiftLinear(a: bv16, b: bv16)
    ensures Shift(Plus(a, b)) == Plus(Shift(a), Shift(b))
  {
    hide Shift;
    ShiftXor(a, b);
  }

  lemma ShiftXor(a: bv16, b: bv16)
    ensures Shift(a ^ b) == Shift(a) ^ Shift(b)
  {
    ShlXor(a, b);
    TopXor(a, b);
    XorBoth(a << 1, b << 1, 0x1021);
    XorOne(a << 1, b << 1, 0x1021);
    assert (0x8000 as bv16) ^ 0x8000 == 0;
  }

  lemma {:induction false} ShiftsLinear(a: bv16, b: bv16, n: nat)
    ensures Shifts(Plus(a, b), n) == Plus(Shifts(a, n), Shifts(b, n))
    decreases n
  {
    hide Shift, Plus;
    if n > 0 {
      ShiftLinear(a, b);
      ShiftsLinear(Shift(a), Shift(b), n - 1);
    }
  }

  lemma LoadLinear(c: bv16, d: bv16, a: bv8, b: bv8)
    ensures Load(Plus(c, d), OctetPlus(a, b)) == Plus(Load(c, a), Load(d, b))
  {
  }

  lemma OctetLinear(c: bv16, d: bv16, a: bv8, b: bv8)
    ensures AddOctet(Plus(c, d), OctetPlus(a, b)) == Plus(AddOctet(c, a), AddOctet(d, b))
  {
    hide Shifts, Load, Plus, OctetPlus;
    LoadLinear(c, d, a, b);
    ShiftsLinear(Load(c, a), Load(d, b), 8);
  }

  /** The register of a sum is the sum of the registers. */
  lemma {:induction false} RegisterLinear(c: bv16, d: bv16, a: seq<bv8>, b: seq<bv8>)
    requires |a| == |b|
    ensures Register(Plus(c, d), Sum(a, b)) == Plus(Register(c, a), Register(d, b))
    decreases |a|
  {
    hide AddOctet, Plus, OctetPlus;
    if a != [] {
      OctetLinear(c, d, a[0], b[0]);
      RegisterLinear(AddOctet(c, a[0]), AddOctet(d, b[0]), a[1..], b[1..]);
      assert Sum(a, b)[1..] == Sum(a[1..], b[1..]);
    }
  }

  // ----- the two octets sent after a block -----

  function HighOctet(c: bv16): bv8 {
    ((c >> 8) & 0xFF) as bv8
  }

  function LowOctet(c: bv16): bv8 {
    (c & 0xFF) as bv8
  }

  lemma OctetFacts(c: bv16)
    ensures Load(c, HighOctet(c)) == c & 0xFF
    ensures (c & 0xFF) & 0xFF00 == 0
    ensures Load((c & 0xFF) << 8, LowOctet(c)) == 0
  {
  }

  lemma SmallShift(x: bv16)
    requires x & 0x8000 == 0
    ensures Shift(x) == x << 1
  {
  }

  lemma SmallFacts(x: bv16)
    requires x & 0xFF00 == 0
    ensures x & 0x8000 == 0 && (x << 1) & 0x8000 == 0 && (x << 2) & 0x8000 == 0 && (x << 3) & 0x8000 == 0
    ensures (x << 4) & 0x8000 == 0 && (x << 5) & 0x8000 == 0 && (x << 6) & 0x8000 == 0 && (x << 7) & 0x8000 == 0
    ensures (x << 1) << 1 == x << 2 && (x << 2) << 1 == x << 3 && (x << 3) << 1 == x << 4 && (x << 4) << 1 == x << 5
    ensures (x << 5) << 1 == x << 6 && (x << 6) << 1 == x << 7 && (x << 7) << 1 == x << 8
  {
  }

  /** Eight shifts of a value below 256 meet no carry. */
  lemma ShiftsOfSmall(x: bv16)
    requires x & 0xFF00 == 0
    ensures Shifts(x, 8) == x << 8
  {
    hide Shift, Shifts;
    SmallFacts(x);
    ShiftOut(x, x << 1, 8);
    ShiftOut(x << 1, x << 2, 7);
    ShiftOut(x << 2, x << 3, 6);
    ShiftOut(x << 3, x << 4, 5);
    ShiftOut(x << 4, x << 5, 4);
    ShiftOut(x << 5, x << 6, 3);
    ShiftOut(x << 6, x << 7, 2);
    ShiftOut(x << 7, x << 8, 1);
    ShiftsNone(x << 8);
  }

  lemma ShiftOut(x: bv16, y: bv16, n: nat)
    requires x & 0x8000 == 0 && y == x << 1 && n > 0
    ensures Shifts(x, n) == Shifts(y, n - 1)
  {
    SmallShift(x);
  }

  lemma ShiftsNone(x: bv16)
    ensures Shifts(x, 0) == x
  {
  }

  /** A block followed by its CRC, high octet first, leaves the register at zero. */
  lemma ResidueIsZero(data: seq<bv8>)
    ensures Crc16(data + [HighOctet(Crc16(data)), LowOctet(Crc16(data))]) == 0
  {
    hide HighOctet, LowOctet, Shifts, Register, Load;
    var c := Crc16(data);
    var h, l := HighOctet(c), LowOctet(c);
    var x := (c & 0xFF) << 8;
    OctetFacts(c);
    ShiftsOfSmall(c & 0xFF);
    assert AddOctet(c, h) == x;
    ZeroShifts();
    assert AddOctet(x, l) == 0;
    RegisterAppend(0, data, h);
    RegisterAppend(0, data + [h], l);
    assert data + [h] + [l] == data + [h, l];
  }

  lemma ZeroShifts()
    ensures Shifts(0, 8) == 0
  {
    ShiftsOfSmall(0);
  }
}
