/**
 Numbers, byte strings, integer lists and addresses as AT parameters: printers,
 parsers, and the two decoders that store their result over the text they read.
 */
module AtParams {
  import opened Bytes
  import opened Chars

  const INT32_MIN := -0x8000_0000
  const INT32_MAX := 0x7FFF_FFFF
  const INT16_MIN := -0x8000
  const INT16_MAX := 0x7FFF
  const ADDR_LEN: nat := 6

  // ----- strtol, base ten, for a 32-bit long -----

  function Blanks(t: seq<byte>): (r: nat)
    ensures r <= |t| && (r < |t| ==> !IsSpace(t[r]))
  {
    if t == [] || !IsSpace(t[0]) then 0 else 1 + Blanks(t[1..])
  }

  function DigitRun(t: seq<byte>): (r: nat)
    ensures r <= |t| && AllDigits(t[..r]) && (r < |t| ==> !IsDigit(t[r]))
  {
    if t == [] || !IsDigit(t[0]) then 0
    else
      assert forall i :: 1 <= i < |t| ==> t[i] == t[1..][i - 1];
      1 + DigitRun(t[1..])
  }

  /** The number at the front of a text and how many characters it takes; zero of them if there is none. */
  datatype Number = Number(value: int, len: nat)

  function Strtol(t: seq<byte>): (r: Number)
    ensures r.len <= |t| && INT32_MIN <= r.value <= INT32_MAX
  {
    var blanks := Blanks(t);
    var sign := if blanks < |t| && (t[blanks] == MINUS || t[blanks] == PLUS) then 1 else 0;
    var digits := DigitRun(t[blanks + sign..]);
    if digits == 0 then Number(0, 0)
    else
      var m: int := DecimalValue(t[blanks + sign..][..digits]);
      var v := if t[blanks] == MINUS then -m else m;
      Number(Max(INT32_MIN, Min(INT32_MAX, v)), blanks + sign + digits)
  }

  lemma {:induction false} DigitRunIs(d: seq<byte>, rest: seq<byte>)
    requires AllDigits(d) && (rest == [] || !IsDigit(rest[0]))
    ensures DigitRun(d + rest) == |d|
    decreases |d|
  {
    if d == [] {
      assert d + rest == rest;
    } else {
      assert (d + rest)[1..] == d[1..] + rest;
      DigitRunIs(d[1..], rest);
    }
  }

  /** strtol reads back what printf wrote, whatever follows that is not a digit. */
  lemma StrtolOfDecimal(n: int, rest: seq<byte>)
    requires INT32_MIN <= n <= INT32_MAX && (rest == [] || !IsDigit(rest[0]))
    ensures Strtol(SignedDecimal(n) + rest) == Number(n, |SignedDecimal(n)|)
  {
    hide Decimal, DigitRun, DecimalValue;
    var t := SignedDecimal(n) + rest;
    var d := Decimal(if n < 0 then -n else n);
    assert Blanks(t) == 0;
    var sign := if n < 0 then 1 else 0;
    assert t[sign..] == d + rest;
    DigitRunIs(d, rest);
    assert t[sign..][..|d|] == d;
    DecimalIsValue(if n < 0 then -n else n);
  }

  // ----- hexadecimal text -----

  method ByteToHex(buf: array<byte>, at: nat, octet: byte)
    requires at + 1 < buf.Length
    modifies buf
    ensures buf[..at + 2] == old(buf[..at]) + [NibbleToHex(octet / 16), NibbleToHex(octet % 16)]
    ensures forall i :: at + 2 <= i < buf.Length ==> buf[i] == old(buf[i])
  {
    buf[at] := NibbleToHex(octet / 16);
    buf[at + 1] := NibbleToHex(octet % 16);
  }

  /** "(null)", as strncpy writes it: cut at n characters or filled up with zeros. */
  function NullText(n: nat): (r: seq<byte>)
    ensures |r| == n
  {
    var text: seq<byte> := [40, 110, 117, 108, 108, 41];
    if n <= 6 then text[..n] else text + Fill(n - 6, 0)
  }

  /** binaryToHex; reverse takes the last octet first and None is the null pointer. */
  method BinaryToHex(data: Option<seq<byte>>, dataLen: nat, buf: array<byte>, size: nat, reverse: bool) returns (ok: bool)
    requires 0 < size <= buf.Length && (data.Some? ==> |data.value| == dataLen)
    modifies buf
    ensures ok <==> size >= 2 * dataLen + 1
    ensures ok && data.Some? ==>
      buf[..2 * dataLen] == HexOf(if reverse then Reversed(data.value) else data.value) && buf[2 * dataLen] == 0
    ensures ok && data.None? ==> buf[..size] == NullText(size)
    ensures !ok ==> buf[0] == 0 && buf[1..] == old(buf[1..])
    ensures buf[size..] == old(buf[size..])
  {
    if size < 2 * dataLen + 1 {
      buf[0] := 0;
      ok := false;
    } else {
      buf[2 * dataLen] := 0;
      match data {
        case Some(octets) =>
          PrintHex(octets, buf, size, reverse);
        case None =>
          var text := NullText(size);
          forall i | 0 <= i < size {
            buf[i] := text[i];
          }
      }
      ok := true;
    }
  }

  /** The loop of binaryToHex. */
  method PrintHex(data: seq<byte>, buf: array<byte>, size: nat, reverse: bool)
    requires 2 * |data| < size <= buf.Length
    modifies buf
    ensures buf[..2 * |data|] == HexOf(if reverse then Reversed(data) else data)
    ensures forall i :: 2 * |data| <= i < buf.Length ==> buf[i] == old(buf[i])
  {
    hide NibbleToHex, HexOf, Reversed;
    ghost var source := if reverse then Reversed(data) else data;
    HexOfNone();
    assert source[..0] == [];
    for i := 0 to |data|
      invariant buf[..2 * i] == HexOf(source[..i])
      invariant forall j :: 2 * |data| <= j < buf.Length ==> buf[j] == old(buf[j])
    {
      var octet := data[if reverse then |data| - i - 1 else i];
      HexOfNext(source[..i], octet);
      assert source[..i + 1] == source[..i] + [octet];
      ByteToHex(buf, 2 * i, octet);
    }
    assert source[..|data|] == source;
  }

  function Reversed(s: seq<byte>): (r: seq<byte>)
    ensures |r| == |s| && forall i :: 0 <= i < |s| ==> r[i] == s[|s| - 1 - i]
  {
    if s == [] then [] else Reversed(s[1..]) + [s[0]]
  }

  lemma HexOfNone()
    ensures HexOf([]) == []
  {
  }

  lemma HexOfNext(s: seq<byte>, b: byte)
    ensures HexOf(s + [b]) == HexOf(s) + [NibbleToHex(b / 16), NibbleToHex(b % 16)]
  {
    assert (s + [b])[..|s|] == s;
  }

  /** The octets at the front of a text that are valid hexadecimal, size of them at most. */
  function HexPrefix(t: seq<byte>, size: nat): (r: seq<byte>)
    ensures |r| <= size && 2 * |r| <= |t|
    decreases size
  {
    if size == 0 || |t| < 2 || HexToByte(t[0], t[1]).None? then []
    else [HexToByte(t[0], t[1]).value] + HexPrefix(t[2..], size - 1)
  }

  /** uCxAtUtilHexToBinary. */
  method HexToBinary(t: seq<byte>, out: array<byte>) returns (n: nat)
    modifies out
    ensures n == |HexPrefix(t, out.Length)| && out[..n] == HexPrefix(t, out.Length)
  {
    hide HexToByte;
    n := 0;
    var i := 0;
    var valid := true;
    assert t[0..] == t;
    while n < out.Length && i + 1 < |t| && valid
      invariant n <= out.Length && i == 2 * n <= |t|
      invariant valid ==> HexPrefix(t, out.Length) == out[..n] + HexPrefix(t[i..], out.Length - n)
      invariant !valid ==> HexPrefix(t, out.Length) == out[..n]
      decreases |t| - i, valid
    {
      var r := HexToByte(t[i], t[i + 1]);
      if r.None? {
        valid := false;
      } else {
        assert t[i..][2..] == t[i + 2..];
        out[n] := r.value;
        n := n + 1;
        i := i + 2;
      }
    }
  }

  lemma {:induction false} HexPrefixOf(data: seq<byte>, rest: seq<byte>)
    ensures HexPrefix(HexOf(data) + rest, |data|) == data
    decreases |data|
  {
    if data != [] {
      hide HexOf, HexPrefix;
      HexOfFirst(data);
      ByteRoundTrip(data[0]);
      var t := HexOf(data) + rest;
      assert t[2..] == HexOf(data[1..]) + rest;
      HexPrefixOf(data[1..], rest);
      HexPrefixStep(t, |data|);
    }
  }

  lemma HexPrefixStep(t: seq<byte>, size: nat)
    requires size > 0 && |t| >= 2 && HexToByte(t[0], t[1]).Some?
    ensures HexPrefix(t, size) == [HexToByte(t[0], t[1]).value] + HexPrefix(t[2..], size - 1)
  {
  }

  lemma {:induction false} HexOfFirst(data: seq<byte>)
    requires data != []
    ensures HexOf(data) == [NibbleToHex(data[0] / 16), NibbleToHex(data[0] % 16)] + HexOf(data[1..])
    decreases |data|
  {
    var n := |data| - 1;
    if n > 0 {
      HexOfFirst(data[..n]);
      assert data[..n][1..] == data[1..][..n - 1];
    } else {
      assert HexOf(data[..0]) == [] && HexOf(data[1..]) == [];
    }
  }

  /** The value of an 'h' parameter: None if the length is odd or a character is not a hex digit. */
  function HexBytes(t: seq<byte>): (r: Option<seq<byte>>)
    ensures r.Some? ==> |t| == 2 * |r.value|
  {
    if t == [] then Some([])
    else if |t| == 1 then None
    else
      var n := |t| - 2;
      match (HexBytes(t[..n]), HexToByte(t[n], t[n + 1]))
      case (Some(bs), Some(b)) => Some(bs + [b])
      case _ => None
  }

  lemma HexBytesNext(t: seq<byte>, k: nat)
    requires 2 * k + 2 <= |t|
    ensures HexBytes(t[..2 * k + 2]) ==
      match (HexBytes(t[..2 * k]), HexToByte(t[2 * k], t[2 * k + 1]))
      case (Some(bs), Some(b)) => Some(bs + [b])
      case _ => None
  {
    hide HexToByte;
    assert t[..2 * k + 2][..2 * k] == t[..2 * k];
  }

  lemma HexBytesNone()
    ensures HexBytes([]) == Some([])
  {
  }

  lemma {:induction false} HexBytesOf(data: seq<byte>)
    ensures HexBytes(HexOf(data)) == Some(data)
  {
    if data == [] {
      assert HexOf(data) == [];
    } else {
      hide HexToByte, NibbleToHex, HexBytes;
      var n := |data| - 1;
      var t := HexOf(data);
      assert t == HexOf(data[..n]) + [NibbleToHex(data[n] / 16), NibbleToHex(data[n] % 16)];
      assert t[..|t| - 2] == HexOf(data[..n]);
      HexBytesOf(data[..n]);
      ByteRoundTrip(data[n]);
      assert t[..2 * n + 2] == t;
      HexBytesNext(t, n);
      assert data[..n] + [data[n]] == data;
    }
  }

  lemma {:induction false} HexBytesPrefix(t: seq<byte>, k: nat)
    requires 2 * k <= |t| && |t| % 2 == 0 && HexBytes(t[..2 * k]).None?
    ensures HexBytes(t).None?
    decreases |t|
  {
    var n := |t| - 2;
    if 2 * k == |t| {
      assert t[..2 * k] == t;
    } else {
      assert t[..n][..2 * k] == t[..2 * k];
      HexBytesPrefix(t[..n], k);
    }
  }

  lemma {:induction false} HexBytesOdd(t: seq<byte>)
    requires |t| % 2 == 1
    ensures HexBytes(t).None?
  {
    if |t| > 1 {
      HexBytesOdd(t[..|t| - 2]);
    }
  }

  /** The 'h' decoder: octet i is stored where characters 2i and 2i+1 have already been read. */
  method HexInPlace(a: array<byte>, from: nat, to: nat) returns (n: nat, ok: bool)
    requires from <= to <= a.Length
    modifies a
    ensures ok <==> HexBytes(old(a[from..to])).Some?
    ensures ok ==> from + n <= to && a[from..from + n] == HexBytes(old(a[from..to])).value
    ensures forall i :: 0 <= i < from || to <= i < a.Length ==> a[i] == old(a[i])
  {
    hide HexToByte, HexBytes;
    n := (to - from) / 2;
    ghost var t := a[from..to];
    if (to - from) % 2 != 0 {
      HexBytesOdd(t);
      ok := false;
    } else {
      ok := HexPairs(a, from, n, t);
      assert t[..2 * n] == t;
    }
  }

  method HexPairs(a: array<byte>, from: nat, n: nat, ghost t: seq<byte>) returns (ok: bool)
    requires from + 2 * n <= a.Length && t == a[from..from + 2 * n]
    modifies a
    ensures ok <==> HexBytes(t).Some?
    ensures ok ==> a[from..from + n] == HexBytes(t).value
    ensures forall i :: 0 <= i < from || from + 2 * n <= i < a.Length ==> a[i] == old(a[i])
  {
    hide HexToByte, HexBytes;
    ok := true;
    var i := 0;
    ghost var done: seq<byte> := [];
    HexBytesNone();
    assert t[..0] == [];
    while i < n && ok
      invariant 0 <= i <= n
      invariant ok ==> HexBytes(t[..2 * i]) == Some(done) && a[from..from + i] == done
      invariant !ok ==> HexBytes(t).None?
      invariant forall j :: from + 2 * i <= j < a.Length || 0 <= j < from ==> a[j] == old(a[j])
      decreases n - i, ok
    {
      HexBytesNext(t, i);
      assert a[from + 2 * i] == t[2 * i] && a[from + 2 * i + 1] == t[2 * i + 1];
      var b := HexToByte(a[from + 2 * i], a[from + 2 * i + 1]);
      if b.None? {
        ok := false;
        HexBytesPrefix(t, i + 1);
      } else {
        a[from + i] := b.value;
        done := done + [b.value];
        i := i + 1;
      }
    }
    assert t[..2 * n] == t;
  }

  // ----- integer lists -----

  function CommaList(vs: seq<int>): (r: seq<byte>)
    ensures forall i :: 0 <= i < |r| ==> IsDigit(r[i]) || r[i] == MINUS || r[i] == COMMA
  {
    if vs == [] then []
    else if |vs| == 1 then SignedDecimal(vs[0])
    else SignedDecimal(vs[0]) + [COMMA] + CommaList(vs[1..])
  }

  /** Both printers of integer lists write this. */
  function IntListText(vs: seq<int>): seq<byte> {
    [LBRACKET] + CommaList(vs) + [RBRACKET]
  }

  predicate IsInt16(v: int) {
    INT16_MIN <= v <= INT16_MAX
  }

  function Commas(t: seq<byte>): nat {
    if t == [] then 0 else (if t[0] == COMMA then 1 else 0) + Commas(t[1..])
  }

  datatype IntsRead = IntsRead(values: seq<int>, used: nat)

  /** count numbers with commas between them at the front of a text. */
  function ReadInts(t: seq<byte>, count: nat): (r: Option<IntsRead>)
    requires count > 0
    ensures r.Some? ==> |r.value.values| == count && 2 * count - 1 <= r.value.used <= |t|
    ensures r.Some? ==> forall i :: 0 <= i < count ==> IsInt16(r.value.values[i])
    decreases count
  {
    var n := Strtol(t);
    if n.len == 0 || !IsInt16(n.value) then None
    else if count == 1 then Some(IntsRead([n.value], n.len))
    else if n.len == |t| || t[n.len] != COMMA then None
    else
      match ReadInts(t[n.len + 1..], count - 1)
      case None => None
      case Some(r) => Some(IntsRead([n.value] + r.values, n.len + 1 + r.used))
  }

  /** uCxStringToIntList as a function of the text. */
  function ParseIntList(t: seq<byte>): Option<seq<int>> {
    if |t| >= 2 && t[0] == LBRACKET && t[1] == RBRACKET then Some([])
    else if |t| < 3 || t[0] != LBRACKET then None
    else
      match ReadInts(t[1..], 1 + Commas(t[1..|t| - 1]))
      case None => None
      case Some(r) => if r.used < |t[1..]| && t[1..][r.used] == RBRACKET then Some(r.values) else None
  }

  lemma {:induction false} CommasConcat(t: seq<byte>, u: seq<byte>)
    ensures Commas(t + u) == Commas(t) + Commas(u)
    decreases |t|
  {
    if t == [] {
      assert t + u == u;
    } else {
      assert (t + u)[1..] == t[1..] + u;
      CommasConcat(t[1..], u);
    }
  }

  lemma {:induction false} NoCommas(t: seq<byte>)
    requires forall i :: 0 <= i < |t| ==> t[i] != COMMA
    ensures Commas(t) == 0
    decreases |t|
  {
    if t != [] {
      NoCommas(t[1..]);
    }
  }

  lemma {:induction false} JoinedCommas(vs: seq<int>)
    requires vs != []
    ensures Commas(CommaList(vs)) == |vs| - 1
  {
    hide SignedDecimal;
    NoCommas(SignedDecimal(vs[0]));
    if |vs| > 1 {
      JoinedCommas(vs[1..]);
      CommasConcat(SignedDecimal(vs[0]) + [COMMA], CommaList(vs[1..]));
      CommasConcat(SignedDecimal(vs[0]), [COMMA]);
      assert Commas([COMMA]) == 1;
    }
  }

  lemma ReadIntsStep(v: int, rest: seq<byte>, n: nat)
    requires IsInt16(v) && n > 0 && (rest == [] || !IsDigit(rest[0])) && (n > 1 ==> rest != [] && rest[0] == COMMA)
    ensures n == 1 ==> ReadInts(SignedDecimal(v) + rest, n) == Some(IntsRead([v], |SignedDecimal(v)|))
    ensures n > 1 && ReadInts(rest[1..], n - 1).Some? ==>
      ReadInts(SignedDecimal(v) + rest, n) ==
        Some(IntsRead([v] + ReadInts(rest[1..], n - 1).value.values,
                      |SignedDecimal(v)| + 1 + ReadInts(rest[1..], n - 1).value.used))
  {
    hide Strtol, SignedDecimal;
    var t := SignedDecimal(v) + rest;
    StrtolOfDecimal(v, rest);
    assert rest != [] ==> t[|SignedDecimal(v)| + 1..] == rest[1..];
  }

  lemma {:induction false} ReadJoined(vs: seq<int>, rest: seq<byte>)
    requires vs != [] && (forall i :: 0 <= i < |vs| ==> IsInt16(vs[i]))
    requires rest == [] || !IsDigit(rest[0])
    ensures ReadInts(CommaList(vs) + rest, |vs|) == Some(IntsRead(vs, |CommaList(vs)|))
    decreases |vs|
  {
    hide SignedDecimal, ReadInts;
    var d := SignedDecimal(vs[0]);
    if |vs| == 1 {
      assert vs == [vs[0]];
      ReadIntsStep(vs[0], rest, 1);
    } else {
      var after := [COMMA] + CommaList(vs[1..]) + rest;
      assert CommaList(vs) + rest == d + after;
      assert after[1..] == CommaList(vs[1..]) + rest;
      ReadJoined(vs[1..], rest);
      ReadIntsStep(vs[0], after, |vs|);
      assert [vs[0]] + vs[1..] == vs;
    }
  }

  lemma IntListRoundTrip(vs: seq<int>)
    requires forall i :: 0 <= i < |vs| ==> IsInt16(vs[i])
    ensures ParseIntList(IntListText(vs)) == Some(vs)
  {
    hide ReadInts, Commas, CommaList;
    var t := IntListText(vs);
    JoinedShape(vs);
    if vs != [] {
      assert t[1..] == CommaList(vs) + [RBRACKET];
      assert t[1..|t| - 1] == CommaList(vs);
      JoinedCommas(vs);
      ReadJoined(vs, [RBRACKET]);
    }
  }

  lemma JoinedShape(vs: seq<int>)
    ensures CommaList([]) == []
    ensures vs != [] ==> CommaList(vs) != [] && CommaList(vs)[0] != RBRACKET
  {
  }

  /** A 16-bit value in two's complement, low octet first. */
  function Int16Value(low: byte, high: byte): int {
    var u := low as int + 256 * high as int;
    if u > INT16_MAX then u - 0x1_0000 else u
  }

  function Int16s(bytes: seq<byte>): (r: seq<int>)
    requires |bytes| % 2 == 0
    ensures 2 * |r| == |bytes|
  {
    if bytes == [] then []
    else Int16s(bytes[..|bytes| - 2]) + [Int16Value(bytes[|bytes| - 2], bytes[|bytes| - 1])]
  }

  lemma Int16sNext(bytes: seq<byte>, low: byte, high: byte)
    requires |bytes| % 2 == 0
    ensures Int16s(bytes + [low, high]) == Int16s(bytes) + [Int16Value(low, high)]
  {
    assert (bytes + [low, high])[..|bytes|] == bytes;
  }

  method StoreInt16(a: array<byte>, at: nat, v: int)
    requires at + 1 < a.Length && IsInt16(v)
    modifies a
    ensures Int16Value(a[at], a[at + 1]) == v
    ensures forall i :: 0 <= i < a.Length && i != at && i != at + 1 ==> a[i] == old(a[i])
  {
    var u := if v < 0 then v + 0x1_0000 else v;
    a[at] := u % 256;
    a[at + 1] := u / 256;
  }

  /** The comma count of uCxStringToIntList. */
  method CountCommas(a: array<byte>, from: nat, to: nat) returns (n: nat)
    requires from <= to <= a.Length
    ensures n == Commas(a[from..to])
  {
    n := 0;
    ghost var t := a[from..to];
    assert t[0..] == t;
    for i := from to to
      invariant n + Commas(t[i - from..]) == Commas(t)
    {
      assert t[i - from..][0] == a[i] && t[i - from..][1..] == t[i + 1 - from..];
      if a[i] == COMMA {
        n := n + 1;
      }
    }
  }

  /** Reading count numbers of t comes down to reading `left` more of them behind the first `used` characters. */
  predicate ComesDownTo(t: seq<byte>, count: nat, values: seq<int>, used: nat, left: nat) {
    count > 0 && used <= |t| &&
    if left == 0 then ReadInts(t, count) == Some(IntsRead(values, used))
    else
      match ReadInts(t[used..], left)
      case None => ReadInts(t, count) == None
      case Some(r) => ReadInts(t, count) == Some(IntsRead(values + r.values, used + r.used))
  }

  lemma ReadFirst(t: seq<byte>, count: nat)
    requires count > 0
    ensures ComesDownTo(t, count, [], 0, count)
  {
    hide ReadInts;
    assert t[0..] == t;
    match ReadInts(t, count) {
      case None =>
      case Some(r) => assert [] + r.values == r.values;
    }
  }

  lemma ReadNext(t: seq<byte>, count: nat, values: seq<int>, used: nat, left: nat)
    requires ComesDownTo(t, count, values, used, left) && left > 0
    ensures
      var n := Strtol(t[used..]);
      if n.len == 0 || !IsInt16(n.value) then ReadInts(t, count).None?
      else if left == 1 then ComesDownTo(t, count, values + [n.value], used + n.len, 0)
      else if used + n.len == |t| || t[used + n.len] != COMMA then ReadInts(t, count).None?
      else ComesDownTo(t, count, values + [n.value], used + n.len + 1, left - 1)
  {
    hide Strtol;
    var rest := t[used..];
    var n := Strtol(rest);
    if n.len > 0 && IsInt16(n.value) && left > 1 && n.len < |rest| && rest[n.len] == COMMA {
      assert rest[n.len + 1..] == t[used + n.len + 1..];
      match ReadInts(rest[n.len + 1..], left - 1) {
        case None =>
        case Some(r) => assert values + ([n.value] + r.values) == values + [n.value] + r.values;
      }
    }
  }

  lemma ReadAll(t: seq<byte>, count: nat, values: seq<int>, used: nat)
    requires ComesDownTo(t, count, values, used, 0)
    ensures ReadInts(t, count) == Some(IntsRead(values, used))
  {
  }

  /** Where the number loop stands: the values read so far lie at base, all of them behind the parse position. */
  predicate IntsStored(a: seq<byte>, base: nat, t: seq<byte>, i: nat, last: bool, end: nat, values: seq<int>) {
    && base + 1 <= end <= base + 1 + |t| < |a| && base + 2 * i + (if last then 0 else 1) <= end
    && a[end..base + 1 + |t|] == t[end - base - 1..]
    && Int16s(a[base..base + 2 * i]) == values
  }

  /**
   The number loop of uCxStringToIntList: value i goes to octets 2i and 2i+1 of the text, which
   the parse position has passed by then, so the values are those of the untouched text.
   */
  method ReadIntsInPlace(a: array<byte>, base: nat, ghost t: seq<byte>, count: nat, to: nat) returns (ok: bool, end: nat)
    requires to == base + 1 + |t| < a.Length && a[base + 1..to] == t && a[to] == 0 && count > 0
    modifies a
    ensures ok <==> ReadInts(t, count).Some?
    ensures ok ==>
      && end == base + 1 + ReadInts(t, count).value.used <= to
      && base + 2 * count <= end && (end < to ==> a[end] == t[end - base - 1])
      && Int16s(a[base..base + 2 * count]) == ReadInts(t, count).value.values
    ensures forall j :: 0 <= j < base || to <= j < a.Length ==> a[j] == old(a[j])
  {
    hide IntsStored, ReadInts, ComesDownTo;
    end := base + 1;
    ok := true;
    ghost var values: seq<int> := [];
    var i := 0;
    IntsBegin(a[..], base, t);
    ReadFirst(t, count);
    while i < count && ok
      invariant 0 <= i <= count && base < end
      invariant ok ==>
        IntsStored(a[..], base, t, i, i == count, end, values) && ComesDownTo(t, count, values, end - base - 1, count - i)
      invariant !ok ==> ReadInts(t, count).None?
      invariant forall j :: 0 <= j < base || to <= j < a.Length ==> a[j] == old(a[j])
      decreases count - i, ok
    {
      ok, end, values := ReadNextInPlace(a, base, t, count, to, i, end, values);
      i := i + 1;
    }
    if ok {
      IntsEnd(a[..], base, t, count, end, values);
      ReadAll(t, count, values, end - base - 1);
    }
  }

  lemma IntsBegin(a: seq<byte>, base: nat, t: seq<byte>)
    requires base + 1 + |t| < |a| && a[base + 1..base + 1 + |t|] == t
    ensures IntsStored(a, base, t, 0, false, base + 1, [])
  {
    hide Int16s;
    NoInt16s();
    assert a[base..base] == [] && t[0..] == t;
  }

  lemma IntsEnd(a: seq<byte>, base: nat, t: seq<byte>, i: nat, end: nat, values: seq<int>)
    requires IntsStored(a, base, t, i, true, end, values)
    ensures base + 2 * i <= end <= base + 1 + |t| < |a| && Int16s(a[base..base + 2 * i]) == values
    ensures end < base + 1 + |t| ==> a[end] == t[end - base - 1]
  {
    hide Int16s;
    assert end < base + 1 + |t| ==> a[end..base + 1 + |t|][0] == a[end];
  }

  /** One round of the number loop. */
  method ReadNextInPlace(a: array<byte>, base: nat, ghost t: seq<byte>, count: nat, to: nat, i: nat, end0: nat,
                         ghost values0: seq<int>)
    returns (ok: bool, end: nat, ghost values: seq<int>)
    requires to == base + 1 + |t| < a.Length && a[to] == 0 && i < count && base < end0
    requires IntsStored(a[..], base, t, i, false, end0, values0)
    requires ComesDownTo(t, count, values0, end0 - base - 1, count - i)
    modifies a
    ensures base < end
    ensures ok ==> IntsStored(a[..], base, t, i + 1, i + 1 == count, end, values)
    ensures ok ==> ComesDownTo(t, count, values, end - base - 1, count - i - 1)
    ensures !ok ==> ReadInts(t, count).None?
    ensures forall j :: 0 <= j < base || to <= j < a.Length ==> a[j] == old(a[j])
  {
    hide Strtol, ReadInts, IntsStored, Int16s, ComesDownTo;
    ghost var before := a[..];
    IntsAt(before, base, t, i, end0, values0);
    assert a[end0..to] == t[end0 - base - 1..];
    ReadNext(t, count, values0, end0 - base - 1, count - i);
    var n := Strtol(a[end0..to]);
    ok, end, values := false, end0 + n.len, values0 + [n.value];
    if n.len > 0 && IsInt16(n.value) {
      StoreNext(a, base, i, n.value);
      assert a[..][base..base + 2 * i + 2] == a[base..base + 2 * i + 2];
      IntsNext(before, a[..], base, t, i, end0, values0, n);
      ok := i + 1 == count || a[end] == COMMA;
      if i + 1 < count && ok {
        end := end + 1;
      }
    }
  }

  lemma IntsAt(a: seq<byte>, base: nat, t: seq<byte>, i: nat, end: nat, values: seq<int>)
    requires IntsStored(a, base, t, i, false, end, values)
    ensures base + 2 * i + 1 <= end <= base + 1 + |t| < |a| && base + 1 <= end
    ensures a[end..base + 1 + |t|] == t[end - base - 1..] && Int16s(a[base..base + 2 * i]) == values
  {
    hide Int16s;
  }

  lemma IntsNext(a: seq<byte>, a': seq<byte>, base: nat, t: seq<byte>, i: nat, end: nat, values: seq<int>, n: Number)
    requires IntsStored(a, base, t, i, false, end, values)
    requires |a| == |a'| && a[base + 1 + |t|] == 0 && 0 < n.len <= base + 1 + |t| - end
    requires Int16s(a'[base..base + 2 * i + 2]) == values + [n.value]
    requires forall j :: base + 2 * i + 2 <= j < |a| ==> a'[j] == a[j]
    ensures var next := end + n.len;
      && next < |a| && (a'[next] == COMMA <==> next < base + 1 + |t| && t[next - base - 1] == COMMA)
      && IntsStored(a', base, t, i + 1, true, next, values + [n.value])
      && (a'[next] == COMMA ==> IntsStored(a', base, t, i + 1, false, next + 1, values + [n.value]))
  {
    hide Int16s;
    var to := base + 1 + |t|;
    var next := end + n.len;
    assert forall j :: end <= j < to ==> a[end..to][j - end] == a[j] && t[end - base - 1..][j - end] == t[j - base - 1];
    assert a'[next..to] == t[next - base - 1..];
    assert next < to ==> a'[next + 1..to] == t[next - base..];
  }

  method StoreNext(a: array<byte>, base: nat, i: nat, v: int)
    requires base + 2 * i + 2 <= a.Length && IsInt16(v)
    modifies a
    ensures Int16s(a[base..base + 2 * i + 2]) == Int16s(old(a[base..base + 2 * i])) + [v]
    ensures forall j :: 0 <= j < base || base + 2 * i + 2 <= j < a.Length ==> a[j] == old(a[j])
  {
    hide Int16s, Int16Value;
    ghost var stored := a[base..base + 2 * i];
    StoreInt16(a, base + 2 * i, v);
    Int16sNext(stored, a[base + 2 * i], a[base + 2 * i + 1]);
    assert a[base..base + 2 * i + 2] == stored + [a[base + 2 * i], a[base + 2 * i + 1]];
  }

  lemma NoInt16s()
    ensures Int16s([]) == []
  {
  }

  /** uCxStringToIntList: the list is left in the text's own octets. */
  method StringToIntList(a: array<byte>, from: nat, to: nat) returns (r: int, count: nat)
    requires from <= to < a.Length && a[to] == 0
    modifies a
    ensures r == (if ParseIntList(old(a[from..to])).Some? then 0 else -1)
    ensures r == 0 ==>
      && from + 2 * count <= to
      && Int16s(a[from..from + 2 * count]) == ParseIntList(old(a[from..to])).value
    ensures forall j :: 0 <= j < from || to <= j < a.Length ==> a[j] == old(a[j])
  {
    hide ReadInts, Int16s, Commas;
    count := 0;
    ghost var t := a[from..to];
    if to - from >= 2 && a[from] == LBRACKET && a[from + 1] == RBRACKET {
      r := 0;
      NoInt16s();
      assert a[from..from] == [];
    } else if to - from < 3 || a[from] != LBRACKET {
      r := -1;
    } else {
      var commas := CountCommas(a, from + 1, to - 1);
      assert a[from + 1..to - 1] == t[1..|t| - 1];
      assert a[from + 1..to] == t[1..];
      count := 1 + commas;
      var ok, end := ReadIntsInPlace(a, from, t[1..], count, to);
      r := if ok && end < to && a[end] == RBRACKET then 0 else -1;
    }
  }

  // ----- printing an integer list -----

  /** snprintf of a text: as much of it as leaves room for the zero; the full length is returned. */
  method Snprintf(buf: array<byte>, at: nat, avail: nat, text: seq<byte>) returns (n: nat)
    requires at + avail <= buf.Length
    modifies buf
    ensures n == |text|
    ensures |text| < avail ==> buf[at..at + |text|] == text && buf[at + |text|] == 0
    ensures forall i :: 0 <= i < at || at + avail <= i < buf.Length ==> buf[i] == old(buf[i])
  {
    n := |text|;
    if avail > 0 {
      var k := if |text| < avail then |text| else avail - 1;
      forall i | 0 <= i < k {
        buf[at + i] := text[i];
      }
      buf[at + k] := 0;
    }
  }

  lemma {:induction false} JoinedSnoc(vs: seq<int>, v: int)
    ensures CommaList(vs + [v]) == CommaList(vs) + (if vs == [] then [] else [COMMA]) + SignedDecimal(v)
    decreases |vs|
  {
    hide SignedDecimal;
    var all := vs + [v];
    if |vs| > 1 {
      assert all[1..] == vs[1..] + [v];
      JoinedSnoc(vs[1..], v);
    } else if |vs| == 1 {
      assert all == [vs[0], v] && all[1..] == [v] && vs == [vs[0]];
    }
  }

  lemma {:induction false} JoinedGrows(vs: seq<int>, k: nat)
    requires k <= |vs|
    ensures |CommaList(vs[..k])| <= |CommaList(vs)|
    decreases |vs|
  {
    if k < |vs| {
      var n := |vs| - 1;
      assert vs[..n] + [vs[n]] == vs && vs[..n][..k] == vs[..k];
      JoinedSnoc(vs[..n], vs[n]);
      JoinedGrows(vs[..n], k);
    } else {
      assert vs[..k] == vs;
    }
  }

  /** uCxIntListToString: the list's text and its length if that leaves room for the zero, else -1. */
  method IntListToString(vs: seq<int>, buf: array<byte>, size: nat) returns (r: int)
    requires size <= buf.Length
    modifies buf
    ensures r == (if |IntListText(vs)| < size then |IntListText(vs)| else -1)
    ensures r >= 0 ==> buf[..r] == IntListText(vs) && buf[r] == 0
    ensures buf[size..] == old(buf[size..])
  {
    hide SignedDecimal, CommaList;
    JoinedShape(vs);
    if size < 3 {
      r := -1;
      AtLeastTwo(vs);
    } else if |vs| == 0 {
      assert IntListText(vs) == [LBRACKET, RBRACKET];
      buf[0], buf[1], buf[2] := LBRACKET, RBRACKET, 0;
      r := 2;
    } else {
      buf[0] := LBRACKET;
      var fits, write := PrintInts(vs, buf, size);
      if !fits || write >= size - 1 {
        r := -1;
      } else {
        buf[write] := RBRACKET;
        buf[write + 1] := 0;
        r := write + 1;
      }
    }
  }

  lemma AtLeastTwo(vs: seq<int>)
    ensures |IntListText(vs)| >= 2
  {
  }

  /** One number, with a comma in front of all but the first, if it leaves room for bracket and zero. */
  method PrintNext(buf: array<byte>, at: nat, size: nat, first: bool, v: int) returns (fits: bool, write: nat)
    requires 0 < at < size <= buf.Length && (first ==> at + 1 < size)
    modifies buf
    ensures var piece := (if first then [] else [COMMA]) + SignedDecimal(v);
      && (fits <==> at + |piece| < size - 1)
      && (fits ==> write == at + |piece| && buf[..write] == old(buf[..at]) + piece)
    ensures buf[size..] == old(buf[size..])
  {
    hide SignedDecimal;
    write, fits := at, true;
    if !first && write >= size - 1 {
      fits := false;
    } else {
      if !first {
        buf[write] := COMMA;
        write := write + 1;
      }
      ghost var head := buf[..write];
      var written := Snprintf(buf, write, size - write, SignedDecimal(v));
      if write + written >= size - 1 {
        fits := false;
      } else {
        assert buf[..write] == head;
        assert buf[..write + written] == buf[..write] + buf[write..write + written];
        write := write + written;
      }
    }
  }

  /** The number loop of uCxIntListToString. */
  method PrintInts(vs: seq<int>, buf: array<byte>, size: nat) returns (fits: bool, write: nat)
    requires 3 <= size <= buf.Length && buf[0] == LBRACKET
    modifies buf
    ensures fits ==> write == 1 + |CommaList(vs)| <= size && buf[..write] == [LBRACKET] + CommaList(vs)
    ensures !fits ==> |IntListText(vs)| >= size
    ensures buf[size..] == old(buf[size..])
  {
    hide SignedDecimal, CommaList;
    write, fits := 1, true;
    var i := 0;
    JoinedShape(vs);
    assert vs[..0] == [];
    while i < |vs| && fits
      invariant 0 <= i <= |vs|
      invariant fits ==> write == 1 + |CommaList(vs[..i])| < size && buf[..write] == [LBRACKET] + CommaList(vs[..i])
      invariant !fits ==> |IntListText(vs)| >= size
      invariant buf[size..] == old(buf[size..])
      decreases |vs| - i, fits
    {
      assert vs[..i + 1] == vs[..i] + [vs[i]];
      JoinedSnoc(vs[..i], vs[i]);
      JoinedGrows(vs, i + 1);
      fits, write := PrintNext(buf, write, size, i == 0, vs[i]);
      i := i + 1;
    }
    assert vs[..|vs|] == vs;
  }
}
