/** Characters as octets: classes of the C locale, decimal and hexadecimal digits. */
module Chars {
  import opened Bytes

  const QUOTE: byte := 34
  const PLUS: byte := 43
  const COMMA: byte := 44
  const MINUS: byte := 45
  const DOT: byte := 46
  const COLON: byte := 58
  const LBRACKET: byte := 91
  const BACKSLASH: byte := 92
  const RBRACKET: byte := 93

  predicate IsPrint(b: byte) {
    32 <= b <= 126
  }

  predicate IsDigit(b: byte) {
    48 <= b <= 57
  }

  predicate IsSpace(b: byte) {
    b == 32 || 9 <= b <= 13
  }

  predicate AllDigits(s: seq<byte>) {
    forall i :: 0 <= i < |s| ==> IsDigit(s[i])
  }

  predicate AllPrint(s: seq<byte>) {
    forall i :: 0 <= i < |s| ==> IsPrint(s[i])
  }

  // ----- decimal -----

  function DecimalValue(s: seq<byte>): nat
    requires AllDigits(s)
  {
    if s == [] then 0 else 10 * DecimalValue(s[..|s| - 1]) + (s[|s| - 1] as int - 48)
  }

  /** What printf writes for %u. */
  function Decimal(n: nat): (r: seq<byte>)
    ensures r != [] && AllDigits(r)
  {
    if n < 10 then [48 + n] else Decimal(n / 10) + [48 + n % 10]
  }

  /** What printf writes for %d. */
  function SignedDecimal(n: int): (r: seq<byte>)
    ensures r != [] && (IsDigit(r[0]) || r[0] == MINUS)
    ensures forall i :: 0 <= i < |r| ==> IsDigit(r[i]) || r[i] == MINUS
  {
    if n < 0 then [MINUS] + Decimal(-n) else Decimal(n)
  }

  lemma {:induction false} DecimalIsValue(n: nat)
    ensures DecimalValue(Decimal(n)) == n
  {
    if n >= 10 {
      DecimalIsValue(n / 10);
      var d := Decimal(n);
      assert d[..|d| - 1] == Decimal(n / 10);
    }
  }

  /** A number of at most k digits prints in at most k characters. */
  lemma {:induction false} DecimalLength(n: nat, k: nat, bound: nat)
    requires n < bound && k > 0 && bound == Power10(k)
    ensures |Decimal(n)| <= k
    decreases k
  {
    if n >= 10 {
      DecimalLength(n / 10, k - 1, Power10(k - 1));
    }
  }

  function Power10(k: nat): nat {
    if k == 0 then 1 else 10 * Power10(k - 1)
  }

  // ----- hexadecimal -----

  /** nibbleToHex. */
  function NibbleToHex(n: nat): (r: byte)
    requires n < 16
    ensures IsDigit(r) || 65 <= r <= 70
  {
    if n < 10 then 48 + n else 55 + n
  }

  /** hexToNibble; None stands for -1. */
  function HexToNibble(c: byte): (r: Option<nat>)
    ensures r.Some? ==> r.value < 16
  {
    if IsDigit(c) then Some(c as nat - 48)
    else if 97 <= c <= 102 then Some(c as nat - 87)
    else if 65 <= c <= 70 then Some(c as nat - 55)
    else None
  }

  /** uCxAtUtilHexToByte. */
  function HexToByte(high: byte, low: byte): Option<byte> {
    match (HexToNibble(high), HexToNibble(low))
    case (Some(h), Some(l)) => Some(16 * h + l)
    case _ => None
  }

  lemma ByteRoundTrip(b: byte)
    ensures HexToByte(NibbleToHex(b / 16), NibbleToHex(b % 16)) == Some(b)
  {
  }

  function HexOf(data: seq<byte>): (r: seq<byte>)
    ensures |r| == 2 * |data|
    ensures forall i :: 0 <= i < |r| ==> IsDigit(r[i]) || 65 <= r[i] <= 70
  {
    if data == [] then []
    else HexOf(data[..|data| - 1]) + [NibbleToHex(data[|data| - 1] / 16), NibbleToHex(data[|data| - 1] % 16)]
  }
}
