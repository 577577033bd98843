/**
 Polynomials over GF(2) as bit strings, highest power first, and what the CRC
 register has to do with them.
 */
module CrcPolynomial {
  import opened Crc

  type Poly = seq<bool>

  /** x^16 + x^12 + x^5 + 1. */
  const GENERATOR: Poly :=
    [true, false, false, false, true, false, false, false, false, false, false, true, false, false, false, false, true]

  function Zeros(n: nat): (r: Poly)
    ensures |r| == n && forall i :: 0 <= i < n ==> !r[i]
  {
    seq(n, i => false)
  }

  function Add(a: Poly, b: Poly): (r: Poly)
    requires |a| == |b|
    ensures |r| == |a| && forall i :: 0 <= i < |r| ==> r[i] == (a[i] != b[i])
  {
    seq(|a|, i requires 0 <= i < |a| => a[i] != b[i])
  }

  /** The product of q and the generator, added up row by row. */
  function Times(q: Poly): (r: Poly)
    ensures |r| == |q| + 16
  {
    if q == [] then Zeros(16)
    else Add(if q[0] then GENERATOR + Zeros(|q| - 1) else Zeros(|q| + 16), [false] + Times(q[1..]))
  }

  // ----- the register as bits -----

  function Eight(b0: bool, b1: bool, b2: bool, b3: bool, b4: bool, b5: bool, b6: bool, b7: bool): (r: Poly)
    ensures |r| == 8
    ensures r[0] == b0 && r[1] == b1 && r[2] == b2 && r[3] == b3
    ensures r[4] == b4 && r[5] == b5 && r[6] == b6 && r[7] == b7
  {
    [b0, b1, b2, b3, b4, b5, b6, b7]
  }

  function Sixteen(b0: bool, b1: bool, b2: bool, b3: bool, b4: bool, b5: bool, b6: bool, b7: bool,
                   b8: bool, b9: bool, b10: bool, b11: bool, b12: bool, b13: bool, b14: bool, b15: bool): (r: Poly)
    ensures |r| == 16
    ensures r[0] == b0 && r[1] == b1 && r[2] == b2 && r[3] == b3
    ensures r[4] == b4 && r[5] == b5 && r[6] == b6 && r[7] == b7
    ensures r[8] == b8 && r[9] == b9 && r[10] == b10 && r[11] == b11
    ensures r[12] == b12 && r[13] == b13 && r[14] == b14 && r[15] == b15
  {
    Eight(b0, b1, b2, b3, b4, b5, b6, b7) + Eight(b8, b9, b10, b11, b12, b13, b14, b15)
  }

  /** The coefficients of x^15 down to x^0. */
  function Bits16(c: bv16): (r: Poly)
    ensures |r| == 16
  {
    Sixteen(c & 0x8000 != 0, c & 0x4000 != 0, c & 0x2000 != 0, c & 0x1000 != 0,
            c & 0x0800 != 0, c & 0x0400 != 0, c & 0x0200 != 0, c & 0x0100 != 0,
            c & 0x0080 != 0, c & 0x0040 != 0, c & 0x0020 != 0, c & 0x0010 != 0,
            c & 0x0008 != 0, c & 0x0004 != 0, c & 0x0002 != 0, c & 0x0001 != 0)
  }

  /** The n highest bits of an octet. */
  function OctetTop(b: bv8, n: nat): (r: Poly)
    ensures |r| == n
    decreases n
  {
    if n == 0 then [] else [b & 0x80 != 0] + OctetTop(b << 1, n - 1)
  }

  function Bits8(b: bv8): (r: Poly)
    ensures |r| == 8
  {
    OctetTop(b, 8)
  }

  /** The message polynomial of a block: octet after octet, high bit first. */
  function Message(data: seq<bv8>): (r: Poly)
    ensures |r| == 8 * |data|
  {
    if data == [] then [] else Bits8(data[0]) + Message(data[1..])
  }

  function Top(c: bv16): bool {
    c & 0x8000 != 0
  }

  function Up(c: bv16): bv16 {
    c << 1
  }

  function TopMask(m: bool): bv16 {
    if m then 0x8000 else 0
  }

  /** One bit of the message shifted in. */
  function BitStep(c: bv16, m: bool): bv16 {
    Shift(Plus(c, TopMask(m)))
  }

  function BitRun(c: bv16, bits: Poly): bv16
    decreases |bits|
  {
    if bits == [] then c else BitRun(BitStep(c, bits[0]), bits[1..])
  }

  // ----- an octet at a time is a bit at a time -----

  /** The n highest bits of p. */
  function TopBits(p: bv16, n: nat): (r: Poly)
    ensures |r| == n
    decreases n
  {
    if n == 0 then [] else [Top(p)] + TopBits(Up(p), n - 1)
  }

  function ShiftedOut(p: bv16, n: nat): bv16
    decreases n
  {
    if n == 0 then p else ShiftedOut(Up(p), n - 1)
  }

  lemma SplitFacts(c: bv16, p: bv16)
    ensures (c ^ (p & 0x8000)) ^ (p & 0x7FFF) == c ^ p
  {
  }

  lemma LowFacts(p: bv16)
    ensures (p & 0x7FFF) & 0x8000 == 0 && (p & 0x7FFF) << 1 == p << 1
  {
  }

  lemma TopMaskIs(p: bv16)
    ensures TopMask(Top(p)) == p & 0x8000
  {
  }

  lemma SplitTop(c: bv16, p: bv16)
    ensures Plus(c, p) == Plus(Plus(c, TopMask(Top(p))), p & 0x7FFF)
  {
    hide TopMask, Top;
    TopMaskIs(p);
    SplitFacts(c, p);
  }

  lemma PeelTop(c: bv16, p: bv16)
    ensures Shift(Plus(c, p)) == Plus(BitStep(c, Top(p)), Up(p))
  {
    hide Shift, Plus, Top, TopMask;
    var q := p & 0x7FFF;
    SplitTop(c, p);
    LowFacts(p);
    SmallShift(q);
    ShiftLinear(Plus(c, TopMask(Top(p))), q);
  }

  lemma {:induction false} ShiftsTop(c: bv16, p: bv16, n: nat)
    ensures Shifts(Plus(c, p), n) == Plus(BitRun(c, TopBits(p, n)), ShiftedOut(p, n))
    decreases n
  {
    hide Shift, BitStep, Plus, Top, Up;
    if n > 0 {
      PeelTop(c, p);
      ShiftsTop(BitStep(c, Top(p)), Up(p), n - 1);
      assert TopBits(p, n)[1..] == TopBits(Up(p), n - 1);
    }
  }

  lemma HighFacts(b: bv8)
    ensures Top(High(b)) == (b & 0x80 != 0)
    ensures Up(High(b)) == High(b << 1)
  {
  }

  lemma {:induction false} HighBits(b: bv8, n: nat)
    ensures TopBits(High(b), n) == OctetTop(b, n)
    decreases n
  {
    hide High, Top, Up;
    if n > 0 {
      HighFacts(b);
      HighBits(b << 1, n - 1);
    }
  }

  lemma OutStep(p: bv16, n: nat)
    requires n > 0
    ensures ShiftedOut(p, n) == ShiftedOut(Up(p), n - 1)
  {
  }

  lemma AllOut(b: bv8)
    ensures ShiftedOut(High(b), 8) == 0
  {
    hide ShiftedOut;
    var p := High(b);
    OutStep(p, 8);
    OutStep(Up(p), 7);
    OutStep(Up(Up(p)), 6);
    OutStep(Up(Up(Up(p))), 5);
    OutStep(Up(Up(Up(Up(p)))), 4);
    OutStep(Up(Up(Up(Up(Up(p))))), 3);
    OutStep(Up(Up(Up(Up(Up(Up(p)))))), 2);
    OutStep(Up(Up(Up(Up(Up(Up(Up(p))))))), 1);
    OutNone(Up(Up(Up(Up(Up(Up(Up(Up(p)))))))));
  }

  lemma OutNone(p: bv16)
    ensures ShiftedOut(p, 0) == p
  {
  }

  lemma PlusZero(c: bv16)
    ensures Plus(c, 0) == c
  {
  }

  lemma OctetIsBits(c: bv16, b: bv8)
    ensures AddOctet(c, b) == BitRun(c, Bits8(b))
  {
    hide Shifts, BitRun, TopBits, ShiftedOut, OctetTop, Plus;
    ShiftsTop(c, High(b), 8);
    HighBits(b, 8);
    AllOut(b);
    PlusZero(BitRun(c, Bits8(b)));
    hide High;
  }

  lemma {:induction false} BitRunConcat(c: bv16, a: Poly, b: Poly)
    ensures BitRun(c, a + b) == BitRun(BitRun(c, a), b)
    decreases |a|
  {
    hide BitStep;
    if a == [] {
      assert a + b == b;
    } else {
      assert (a + b)[1..] == a[1..] + b;
      BitRunConcat(BitStep(c, a[0]), a[1..], b);
    }
  }

  /** The octet-wise register reads the message polynomial bit by bit. */
  lemma {:induction false} RegisterIsBitRun(c: bv16, data: seq<bv8>)
    ensures Register(c, data) == BitRun(c, Message(data))
    decreases |data|
  {
    hide AddOctet, Bits8, BitStep;
    if data != [] {
      OctetIsBits(c, data[0]);
      BitRunConcat(c, Bits8(data[0]), Message(data[1..]));
      RegisterIsBitRun(AddOctet(c, data[0]), data[1..]);
    }
  }

  // ----- division -----

  /** The register c in front of the message, the message multiplied by x^16. */
  function Dividend(c: bv16, m: Poly): (r: Poly)
    ensures |r| == |m| + 16
  {
    Add(Bits16(c) + Zeros(|m|), m + Zeros(16))
  }

  function Quotient(c: bv16, m: Poly): (q: Poly)
    ensures |q| == |m|
    decreases |m|
  {
    if m == [] then [] else [Top(c) != m[0]] + Quotient(BitStep(c, m[0]), m[1..])
  }

  /** The low sixteen coefficients of the generator added in. */
  function Reduce(c: bv16): bv16 {
    c ^ 0x1021
  }

  lemma ShiftSet(c: bv16)
    requires c & 0x8000 != 0
    ensures Shift(c ^ 0x8000) == c << 1
  {
    assert (c ^ 0x8000) << 1 == c << 1;
    assert (c ^ 0x8000) & 0x8000 == 0;
  }

  lemma ShiftClear(c: bv16)
    requires c & 0x8000 == 0
    ensures Shift(c ^ 0x8000) == (c << 1) ^ 0x1021
  {
    assert (c ^ 0x8000) << 1 == c << 1;
    assert (c ^ 0x8000) & 0x8000 == 0x8000;
  }

  lemma StepOne(c: bv16)
    ensures BitStep(c, true) == if Top(c) then Up(c) else Reduce(Up(c))
  {
    hide Shift;
    if Top(c) { ShiftSet(c); } else { ShiftClear(c); }
  }

  lemma StepZero(c: bv16)
    ensures BitStep(c, false) == if Top(c) then Reduce(Up(c)) else Up(c)
  {
    PlusZero(c);
    hide Plus;
    assert BitStep(c, false) == Shift(c);
  }

  lemma UpFacts(c: bv16)
    ensures ((c << 1) & 0x8000 != 0) == (c & 0x4000 != 0)
    ensures ((c << 1) & 0x4000 != 0) == (c & 0x2000 != 0)
    ensures ((c << 1) & 0x2000 != 0) == (c & 0x1000 != 0)
    ensures ((c << 1) & 0x1000 != 0) == (c & 0x0800 != 0)
    ensures ((c << 1) & 0x0800 != 0) == (c & 0x0400 != 0)
    ensures ((c << 1) & 0x0400 != 0) == (c & 0x0200 != 0)
    ensures ((c << 1) & 0x0200 != 0) == (c & 0x0100 != 0)
    ensures ((c << 1) & 0x0100 != 0) == (c & 0x0080 != 0)
    ensures ((c << 1) & 0x0080 != 0) == (c & 0x0040 != 0)
    ensures ((c << 1) & 0x0040 != 0) == (c & 0x0020 != 0)
    ensures ((c << 1) & 0x0020 != 0) == (c & 0x0010 != 0)
    ensures ((c << 1) & 0x0010 != 0) == (c & 0x0008 != 0)
    ensures ((c << 1) & 0x0008 != 0) == (c & 0x0004 != 0)
    ensures ((c << 1) & 0x0004 != 0) == (c & 0x0002 != 0)
    ensures ((c << 1) & 0x0002 != 0) == (c & 0x0001 != 0)
    ensures (c << 1) & 0x0001 == 0
  {
  }

  lemma ReduceFacts(c: bv16)
    ensures ((c ^ 0x1021) & 0x8000 != 0) == (c & 0x8000 != 0)
    ensures ((c ^ 0x1021) & 0x4000 != 0) == (c & 0x4000 != 0)
    ensures ((c ^ 0x1021) & 0x2000 != 0) == (c & 0x2000 != 0)
    ensures ((c ^ 0x1021) & 0x1000 != 0) != (c & 0x1000 != 0)
    ensures ((c ^ 0x1021) & 0x0800 != 0) == (c & 0x0800 != 0)
    ensures ((c ^ 0x1021) & 0x0400 != 0) == (c & 0x0400 != 0)
    ensures ((c ^ 0x1021) & 0x0200 != 0) == (c & 0x0200 != 0)
    ensures ((c ^ 0x1021) & 0x0100 != 0) == (c & 0x0100 != 0)
    ensures ((c ^ 0x1021) & 0x0080 != 0) == (c & 0x0080 != 0)
    ensures ((c ^ 0x1021) & 0x0040 != 0) == (c & 0x0040 != 0)
    ensures ((c ^ 0x1021) & 0x0020 != 0) != (c & 0x0020 != 0)
    ensures ((c ^ 0x1021) & 0x0010 != 0) == (c & 0x0010 != 0)
    ensures ((c ^ 0x1021) & 0x0008 != 0) == (c & 0x0008 != 0)
    ensures ((c ^ 0x1021) & 0x0004 != 0) == (c & 0x0004 != 0)
    ensures ((c ^ 0x1021) & 0x0002 != 0) == (c & 0x0002 != 0)
    ensures ((c ^ 0x1021) & 0x0001 != 0) != (c & 0x0001 != 0)
  {
  }

  lemma GeneratorTail()
    ensures GENERATOR[1..] ==
            Sixteen(false, false, false, true, false, false, false, false,
                    false, false, true, false, false, false, false, true)
  {
  }

  lemma ShiftedBits(c: bv16)
    ensures Bits16(c << 1) == Bits16(c)[1..] + [false]
  {
    hide Sixteen;
    UpFacts(c);
  }

  lemma ReducedBits(c: bv16)
    ensures Bits16(c ^ 0x1021) == Add(Bits16(c), GENERATOR[1..])
  {
    ReduceFacts(c);
    GeneratorTail();
    hide Sixteen, GENERATOR;
  }

  lemma BitsOfStep(c: bv16, m: bool)
    ensures Bits16(BitStep(c, m)) ==
            Add(Bits16(c)[1..] + [false], if Top(c) != m then GENERATOR[1..] else Zeros(16))
  {
    hide Bits16, BitStep, Top;
    if m { StepOne(c); } else { StepZero(c); }
    ShiftedBits(c);
    ReducedBits(c << 1);
  }

  lemma TopIsFirst(c: bv16)
    ensures Bits16(c)[0] == Top(c)
  {
  }

  /** One row of the division: subtracting the generator or nothing clears the leading bit. */
  lemma DividendStep(c: bv16, m: Poly)
    requires m != []
    ensures Dividend(c, m) ==
            Add(if Top(c) != m[0] then GENERATOR + Zeros(|m| - 1) else Zeros(|m| + 16),
                [false] + Dividend(BitStep(c, m[0]), m[1..]))
  {
    GeneratorHead();
    hide Bits16, BitStep, Top, GENERATOR, Dividend;
    var g := if Top(c) != m[0] then GENERATOR + Zeros(|m| - 1) else Zeros(|m| + 16);
    var l, d := Dividend(c, m), Dividend(BitStep(c, m[0]), m[1..]);
    DividendHead(c, m);
    forall i | 1 <= i < |m| + 16 ensures l[i] == (g[i] != d[i - 1]) {
      DividendTail(c, m, i);
    }
    AddShifted(l, g, d);
  }

  lemma AddShifted(l: Poly, g: Poly, d: Poly)
    requires |l| == |g| == |d| + 1 && l[0] == g[0]
    requires forall i :: 1 <= i < |l| ==> l[i] == (g[i] != d[i - 1])
    ensures l == Add(g, [false] + d)
  {
  }

  lemma DividendHead(c: bv16, m: Poly)
    requires m != []
    ensures |GENERATOR| == 17
    ensures Dividend(c, m)[0] == (if Top(c) != m[0] then GENERATOR + Zeros(|m| - 1) else Zeros(|m| + 16))[0]
  {
    GeneratorHead();
    TopIsFirst(c);
    hide Bits16, BitStep, Top, GENERATOR;
  }

  lemma DividendTail(c: bv16, m: Poly, i: nat)
    requires m != [] && 1 <= i < |m| + 16
    ensures |GENERATOR| == 17
    ensures var g := if Top(c) != m[0] then GENERATOR + Zeros(|m| - 1) else Zeros(|m| + 16);
      Dividend(c, m)[i] == (g[i] != Dividend(BitStep(c, m[0]), m[1..])[i - 1])
  {
    GeneratorHead();
    hide Bits16, BitStep, Top, GENERATOR;
    BitsOfStep(c, m[0]);
    var n := |m|;
    var b, b' := Bits16(c), Bits16(BitStep(c, m[0]));
    var x := if i < n then m[i] else false;
    assert (m + Zeros(16))[i] == x;
    assert (m[1..] + Zeros(16))[i - 1] == x;
    assert (b' + Zeros(n - 1))[i - 1] == if i < 17 then b'[i - 1] else false;
    assert (b + Zeros(n))[i] == if i < 16 then b[i] else false;
    if i < 17 {
      assert b'[i - 1] == ((b[1..] + [false])[i - 1] != (if Top(c) != m[0] then GENERATOR[1..] else Zeros(16))[i - 1]);
    }
  }

  lemma GeneratorHead()
    ensures |GENERATOR| == 17 && GENERATOR[0] && GENERATOR[16]
  {
  }

  /** What is left when the quotient times the generator is taken away is the register. */
  lemma {:induction false} Division(c: bv16, m: Poly)
    ensures Dividend(c, m) == Add(Times(Quotient(c, m)), Zeros(|m|) + Bits16(BitRun(c, m)))
    decreases |m|
  {
    hide Bits16, BitStep, Top, GENERATOR, Dividend, Quotient, Times, BitRun;
    if m == [] {
      DivisionNone(c);
    } else {
      Division(BitStep(c, m[0]), m[1..]);
      DivisionMore(c, m);
    }
  }

  lemma DivisionNone(c: bv16)
    ensures Dividend(c, []) == Add(Times(Quotient(c, [])), Zeros(0) + Bits16(BitRun(c, [])))
  {
    hide Bits16, BitStep, Top, GENERATOR;
    assert BitRun(c, []) == c;
  }

  predicate Divided(c: bv16, m: Poly) {
    Dividend(c, m) == Add(Times(Quotient(c, m)), Zeros(|m|) + Bits16(BitRun(c, m)))
  }

  lemma DivisionMore(c: bv16, m: Poly)
    requires m != []
    requires Divided(BitStep(c, m[0]), m[1..])
    ensures Divided(c, m)
  {
    hide Bits16, BitStep, Top, GENERATOR;
    var c', q := BitStep(c, m[0]), Quotient(c, m);
    DividendStep(c, m);
    assert q[0] == (Top(c) != m[0]) && q[1..] == Quotient(c', m[1..]);
    hide Dividend, Quotient;
    DivisionRow(if q[0] then GENERATOR + Zeros(|m| - 1) else Zeros(|m| + 16), Times(q[1..]), |m|, Bits16(BitRun(c, m)));
  }

  lemma DivisionRow(g: Poly, t: Poly, n: nat, r: Poly)
    requires n > 0 && |g| == n + 16 && |t| == n + 15 && |r| == 16
    ensures Add(g, [false] + Add(t, Zeros(n - 1) + r)) == Add(Add(g, [false] + t), Zeros(n) + r)
  {
  }

  /** Any quotient and remainder that satisfy the division are the ones the register computes. */
  lemma {:induction false} RemainderUnique(c: bv16, m: Poly, q: Poly, r: Poly)
    requires |q| == |m| && |r| == 16
    requires Dividend(c, m) == Add(Times(q), Zeros(|m|) + r)
    ensures r == Bits16(BitRun(c, m))
    decreases |m|
  {
    hide Bits16, BitStep, Top, GENERATOR;
    if m == [] {
      assert BitRun(c, m) == c;
      assert q == [];
      assert forall i :: 0 <= i < 16 ==> Dividend(c, m)[i] == Bits16(c)[i];
    } else {
      var c' := BitStep(c, m[0]);
      DividendStep(c, m);
      GeneratorHead();
      TopIsFirst(c);
      assert Dividend(c, m)[0] == q[0];
      assert q[0] == (Top(c) != m[0]);
      var d, t := Dividend(c', m[1..]), Times(q[1..]);
      assert d == Add(t, Zeros(|m| - 1) + r) by {
        RowCancels(if q[0] then GENERATOR + Zeros(|m| - 1) else Zeros(|m| + 16), d, t, |m|, r);
      }
      RemainderUnique(c', m[1..], q[1..], r);
    }
  }

  lemma RowCancels(g: Poly, d: Poly, t: Poly, n: nat, r: Poly)
    requires n > 0 && |g| == n + 16 && |d| == |t| == n + 15 && |r| == 16
    requires Add(g, [false] + d) == Add(Add(g, [false] + t), Zeros(n) + r)
    ensures d == Add(t, Zeros(n - 1) + r)
  {
    var u, v := Add(g, [false] + d), Add(Add(g, [false] + t), Zeros(n) + r);
    forall i | 0 <= i < n + 15 ensures d[i] == Add(t, Zeros(n - 1) + r)[i] {
      assert u[i + 1] == v[i + 1];
      assert ([false] + d)[i + 1] == d[i] && ([false] + t)[i + 1] == t[i];
      assert (Zeros(n) + r)[i + 1] == (Zeros(n - 1) + r)[i];
    }
  }

  /** m times x^16 is q times the generator plus r, with r of degree below 16. */
  ghost predicate Divides(m: Poly, q: Poly, r: Poly) {
    |q| == |m| && |r| == 16 && m + Zeros(16) == Add(Times(q), Zeros(|m|) + r)
  }

  /**
   The CRC of a block, and nothing else, is the remainder of its polynomial times x^16 on
   division by the generator.
   */
  lemma CrcIsRemainder(data: seq<bv8>, r: Poly)
    ensures (exists q :: Divides(Message(data), q, r)) <==> r == Bits16(Crc16(data))
  {
    hide Bits16, BitRun, Register, Times, Dividend, Quotient, Message;
    var m := Message(data);
    RegisterIsBitRun(0, data);
    ZeroDividend(m);
    Division(0, m);
    assert Divides(m, Quotient(0, m), Bits16(Crc16(data)));
    if q :| Divides(m, q, r) {
      RemainderUnique(0, m, q, r);
    }
  }

  lemma ZeroDividend(m: Poly)
    ensures Dividend(0, m) == m + Zeros(16)
  {
    ZeroBits();
    hide Bits16;
  }

  lemma ZeroBits()
    ensures Bits16(0) == Zeros(16)
  {
  }

  // ----- bursts -----

  lemma {:induction false} TimesZero(q: Poly)
    requires forall i :: 0 <= i < |q| ==> !q[i]
    ensures Times(q) == Zeros(|q| + 16)
  {
    if q != [] { TimesZero(q[1..]); }
  }

  /** A non-zero multiple of the generator spans at least seventeen bits. */
  lemma {:induction false} MultipleSpan(q: Poly, k: nat) returns (f: nat, l: nat)
    requires k < |q| && q[k]
    ensures f + 16 <= l < |q| + 16 && Times(q)[f] && Times(q)[l]
    decreases |q|
  {
    hide GENERATOR, Times;
    GeneratorHead();
    var g := TimesRow(q);
    if exists j :: 1 <= j < |q| && q[j] {
      var j :| 1 <= j < |q| && q[j];
      var f', l' := MultipleSpan(q[1..], j - 1);
      RowBit(g, Times(q[1..]), f');
      RowBit(g, Times(q[1..]), l');
      f, l := if q[0] then 0 else f' + 1, l' + 1;
    } else {
      TimesZero(q[1..]);
      RowBit(g, Times(q[1..]), 15);
      f, l := 0, 16;
    }
  }

  lemma TimesRow(q: Poly) returns (g: Poly)
    requires q != []
    ensures |g| == |q| + 16 && Times(q) == Add(g, [false] + Times(q[1..]))
    ensures !q[0] ==> g == Zeros(|q| + 16)
    ensures q[0] ==> g[0] && g[16] && forall i :: 17 <= i < |g| ==> !g[i]
    ensures Times(q)[0] == q[0]
  {
    g := if q[0] then GENERATOR + Zeros(|q| - 1) else Zeros(|q| + 16);
  }

  lemma RowBit(g: Poly, t: Poly, i: nat)
    requires |g| == |t| + 1 && i < |t|
    ensures Add(g, [false] + t)[i + 1] == (g[i + 1] != t[i])
  {
  }

  lemma ZeroRemainder(m: Poly, t: Poly)
    requires |t| == |m| + 16 && m + Zeros(16) == Add(t, Zeros(|m|) + Zeros(16))
    ensures t == m + Zeros(16)
  {
    var d := m + Zeros(16);
    forall i | 0 <= i < |t| ensures t[i] == d[i] {
      assert d[i] == (t[i] != (Zeros(|m|) + Zeros(16))[i]);
    }
  }

  /** No polynomial whose ones lie within sixteen positions has CRC zero. */
  lemma BurstHasCrc(m: Poly, k: nat)
    requires k < |m| && m[k]
    requires forall i :: 0 <= i < |m| && m[i] ==> k <= i < k + 16
    ensures BitRun(0, m) != 0
  {
    hide BitStep, BitRun, GENERATOR, Times, Quotient, Dividend, Bits16;
    if BitRun(0, m) == 0 {
      var q := Quotient(0, m);
      Division(0, m);
      ZeroDividend(m);
      ZeroBits();
      ZeroRemainder(m, Times(q));
      NotAMultiple(m, k, q);
    }
  }

  lemma NotAMultiple(m: Poly, k: nat, q: Poly)
    requires k < |m| && m[k]
    requires forall i :: 0 <= i < |m| && m[i] ==> k <= i < k + 16
    ensures Times(q) != m + Zeros(16)
  {
    hide Times;
    assert (m + Zeros(16))[k];
    if Times(q) == m + Zeros(16) {
      if j :| 0 <= j < |q| && q[j] {
        var f, l := MultipleSpan(q, j);
        OnesWithin(m, k, f);
        OnesWithin(m, k, l);
      } else {
        TimesZero(q);
      }
    }
  }

  lemma OnesWithin(m: Poly, k: nat, i: nat)
    requires k < |m| && i < |m| + 16 && (m + Zeros(16))[i]
    requires forall i :: 0 <= i < |m| && m[i] ==> k <= i < k + 16
    ensures k <= i < k + 16
  {
  }

  lemma {:induction false} MessageOfSum(a: seq<bv8>, b: seq<bv8>)
    requires |a| == |b|
    ensures Message(Sum(a, b)) == Add(Message(a), Message(b))
    decreases |a|
  {
    hide Bits8, OctetPlus;
    if a != [] {
      OctetSum(a[0], b[0]);
      MessageOfSum(a[1..], b[1..]);
      assert Sum(a, b)[1..] == Sum(a[1..], b[1..]);
    }
  }

  lemma AddFirst(x: bool, a: Poly, y: bool, b: Poly)
    requires |a| == |b|
    ensures Add([x] + a, [y] + b) == [x != y] + Add(a, b)
  {
  }

  lemma {:induction false} OctetTopSum(a: bv8, b: bv8, n: nat)
    ensures OctetTop(OctetPlus(a, b), n) == Add(OctetTop(a, n), OctetTop(b, n))
    decreases n
  {
    hide OctetPlus;
    if n > 0 {
      OctetSumFacts(a, b);
      OctetTopSum(a << 1, b << 1, n - 1);
      AddFirst(a & 0x80 != 0, OctetTop(a << 1, n - 1), b & 0x80 != 0, OctetTop(b << 1, n - 1));
    }
  }

  lemma OctetSumFacts(a: bv8, b: bv8)
    ensures OctetPlus(a, b) << 1 == OctetPlus(a << 1, b << 1)
    ensures (OctetPlus(a, b) & 0x80 != 0) == ((a & 0x80 != 0) != (b & 0x80 != 0))
  {
  }

  lemma OctetSum(a: bv8, b: bv8)
    ensures Bits8(OctetPlus(a, b)) == Add(Bits8(a), Bits8(b))
  {
    OctetTopSum(a, b, 8);
  }

  /** Two blocks that differ, and only within sixteen neighbouring bits, have different CRCs. */
  lemma BurstDetected(a: seq<bv8>, b: seq<bv8>, k: nat)
    requires |a| == |b| && k < |Message(a)| && Message(a)[k] != Message(b)[k]
    requires forall i :: 0 <= i < |Message(a)| && Message(a)[i] != Message(b)[i] ==> k <= i < k + 16
    ensures Crc16(a) != Crc16(b)
  {
    hide Message, Register, BitRun, Plus;
    var s := Sum(a, b);
    MessageOfSum(a, b);
    BurstHasCrc(Message(s), k);
    RegisterIsBitRun(0, s);
    RegisterLinear(0, 0, a, b);
    PlusZero(0);
    if Crc16(a) == Crc16(b) { PlusSelf(Crc16(a)); }
  }

  lemma PlusSelf(c: bv16)
    ensures Plus(c, c) == 0
  {
  }
}
