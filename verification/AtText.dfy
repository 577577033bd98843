/**
 The wire format, octet for octet: what the printers write and what the parsers take,
 whoever wrote it, told by literal text instead of by the printers' own inverses.
 */
module AtText {
  import opened Bytes
  import opened Chars
  import opened AtEscape
  import opened AtParams
  import opened AtAddress
  import opened AtCodec

  const UPPER: seq<byte> := [48, 49, 50, 51, 52, 53, 54, 55, 56, 57, 65, 66, 67, 68, 69, 70]
  const LOWER: seq<byte> := [48, 49, 50, 51, 52, 53, 54, 55, 56, 57, 97, 98, 99, 100, 101, 102]

  /** The value of a hex digit, which is where it stands among the sixteen of either case. */
  predicate IsHexDigit(c: byte, n: nat) {
    n < 16 && (c == UPPER[n] || c == LOWER[n])
  }

  lemma HexDigits(n: nat, c: byte)
    requires n < 16
    ensures NibbleToHex(n) == UPPER[n] && LowerHex(n) == LOWER[n]
    ensures HexToNibble(c) == Some(n) <==> IsHexDigit(c, n)
  {
  }

  // ----- what is escaped, and how -----

  /** Octets that go out as they are: printable, and neither a quote nor a backslash. */
  predicate IsLiteral(c: byte) {
    32 <= c <= 126 && c != 34 && c != 92
  }

  predicate AllLiteral(s: seq<byte>) {
    forall i :: 0 <= i < |s| ==> IsLiteral(s[i])
  }

  /** CR, LF, tab, backspace, quote, backslash and zero have a letter of their own. */
  predicate HasLetter(c: byte) {
    c in {13, 10, 9, 8, 34, 92, 0}
  }

  /** How many octets it takes to send these between quotes. */
  function EscapedLength(s: seq<byte>): nat {
    if s == [] then 0 else (if IsLiteral(s[0]) then 1 else if HasLetter(s[0]) then 2 else 4) + EscapedLength(s[1..])
  }

  lemma {:induction false} EscapeConcat(s: seq<byte>, t: seq<byte>)
    ensures Escape(s + t) == Escape(s) + Escape(t)
    decreases |t|
  {
    hide EscapeChar;
    if t == [] {
      assert s + t == s;
    } else {
      var n := |t| - 1;
      assert (s + t)[..|s + t| - 1] == s + t[..n];
      EscapeConcat(s, t[..n]);
    }
  }

  lemma EscapeOne(c: byte)
    ensures Escape([c]) == EscapeChar(c)
  {
    assert [c][..0] == [];
  }

  /** The escape of every octet, spelled out. */
  lemma EscapesSpelled(c: byte)
    ensures IsLiteral(c) ==> Escape([c]) == [c]
    ensures Escape([13]) == [92, 114] && Escape([10]) == [92, 110] && Escape([9]) == [92, 116] && Escape([8]) == [92, 98]
    ensures Escape([34]) == [92, 34] && Escape([92]) == [92, 92] && Escape([0]) == [92, 48]
    ensures !IsLiteral(c) && !HasLetter(c) ==> Escape([c]) == [92, 120, UPPER[c / 16], UPPER[c % 16]]
  {
    hide Escape, HexToNibble;
    EscapeOne(c);
    EscapeOne(13);
    EscapeOne(10);
    EscapeOne(9);
    EscapeOne(8);
    EscapeOne(34);
    EscapeOne(92);
    EscapeOne(0);
    HexDigits(c / 16, 0);
    HexDigits(c % 16, 0);
  }

  /** Plain text is sent unchanged. */
  lemma {:induction false} LiteralsStay(s: seq<byte>)
    requires AllLiteral(s)
    ensures Escape(s) == s
  {
    hide EscapeChar;
    if s != [] {
      var n := |s| - 1;
      LiteralsStay(s[..n]);
      EscapesSpelled(s[n]);
      EscapeOne(s[n]);
      assert s[..n] + [s[n]] == s;
    }
  }

  /** The length is exact: one octet for plain characters, two for those with a letter, four for the others. */
  lemma {:induction false} EscapeLength(s: seq<byte>)
    ensures |Escape(s)| == EscapedLength(s) && |Quoted(s)| == EscapedLength(s) + 2
    decreases |s|
  {
    hide Escape, EscapeChar, IsLiteral;
    if s == [] {
      assert Escape([]) == [] by { EscapeNone(); }
    } else {
      EscapeLength(s[1..]);
      EscapeConcat([s[0]], s[1..]);
      EscapesSpelled(s[0]);
      assert [s[0]] + s[1..] == s;
    }
  }

  lemma EscapeNone()
    ensures Escape([]) == []
  {
  }

  /** Which strings are sent escaped: those that take at most thirty-nine octets between the quotes. */
  lemma StringOnWire(s: seq<byte>)
    ensures StringText(s) == if EscapedLength(s) <= 39 then [34] + Escape(s) + [34] else [34] + s + [34]
    ensures AllLiteral(s) ==> StringText(s) == [34] + s + [34]
  {
    hide Escape, EscapedLength;
    EscapeLength(s);
    if AllLiteral(s) { LiteralsStay(s); }
  }

  // ----- the decoder, on text that no printer has written -----

  /** Text in front of the first backslash stays. */
  lemma {:induction false} UnescapePlain(s: seq<byte>, rest: seq<byte>)
    requires 92 !in s
    ensures Unescape(s + rest) == s + Unescape(rest)
    decreases |s|
  {
    hide Unescape;
    if s == [] {
      assert s + rest == rest && s + Unescape(rest) == Unescape(rest);
    } else {
      var t := s + rest;
      assert t[1..] == s[1..] + rest && s[0] in s;
      UnescapeStep(t);
      UnescapePlain(s[1..], rest);
      assert UnescapeOne(t) == Piece([s[0]], 1);
      assert [s[0]] + (s[1..] + Unescape(rest)) == s + Unescape(rest);
    }
  }

  /** A backslash and a letter with a meaning, or two hex digits of either case behind an x. */
  lemma UnescapeKnown(rest: seq<byte>, high: byte, low: byte, h: nat, l: nat)
    requires IsHexDigit(high, h) && IsHexDigit(low, l)
    ensures Unescape([92, 114] + rest) == [13] + Unescape(rest)
    ensures Unescape([92, 110] + rest) == [10] + Unescape(rest)
    ensures Unescape([92, 116] + rest) == [9] + Unescape(rest)
    ensures Unescape([92, 98] + rest) == [8] + Unescape(rest)
    ensures Unescape([92, 34] + rest) == [34] + Unescape(rest)
    ensures Unescape([92, 92] + rest) == [92] + Unescape(rest)
    ensures Unescape([92, 48] + rest) == [0] + Unescape(rest)
    ensures Unescape([92, 120, high, low] + rest) == [16 * h + l] + Unescape(rest)
  {
    hide Unescape;
    LetterPair(114, rest);
    LetterPair(110, rest);
    LetterPair(116, rest);
    LetterPair(98, rest);
    LetterPair(34, rest);
    LetterPair(92, rest);
    LetterPair(48, rest);
    HexDigits(h, high);
    HexDigits(l, low);
    var t := [92, 120, high, low] + rest;
    assert t[4..] == rest;
    UnescapeStep(t);
  }

  lemma LetterPair(c: byte, rest: seq<byte>)
    requires Letter(c).Some?
    ensures Unescape([92, c] + rest) == [Letter(c).value] + Unescape(rest)
  {
    hide Unescape, Letter;
    var t := [92, c] + rest;
    assert t[2..] == rest;
    UnescapeStep(t);
  }

  /** Two hex digits come next. */
  ghost predicate HexAhead(t: seq<byte>) {
    |t| >= 2 && (exists n :: IsHexDigit(t[0], n)) && (exists n :: IsHexDigit(t[1], n))
  }

  /**
   Backslashes without a meaning stay with the character behind them, and at the end of the text;
   but an x without two hex digits behind it loses its backslash.
   */
  lemma UnescapeUnknown(c: byte, rest: seq<byte>)
    ensures Unescape([92]) == [92]
    ensures c !in {114, 110, 116, 98, 34, 92, 48, 120} ==> Unescape([92, c] + rest) == [92, c] + Unescape(rest)
    ensures !HexAhead(rest) ==> Unescape([92, 120] + rest) == [120] + Unescape(rest)
  {
    hide Unescape, HexToByte, IsHexDigit;
    UnescapeStep([92]);
    UnescapeNone();
    assert [92][1..] == [] && [92] + [] == [92];
    var t := [92, c] + rest;
    assert t[2..] == rest;
    UnescapeStep(t);
    if !HexAhead(rest) {
      var u := [92, 120] + rest;
      assert u[2..] == rest;
      UnescapeStep(u);
      if |rest| >= 2 { NoHexByte(rest); }
    }
  }

  lemma NoHexByte(t: seq<byte>)
    requires |t| >= 2 && !HexAhead(t)
    ensures HexToByte(t[0], t[1]).None?
  {
    hide IsHexDigit, HexToNibble;
    if HexToNibble(t[0]).Some? { HexDigits(HexToNibble(t[0]).value, t[0]); }
    if HexToNibble(t[1]).Some? { HexDigits(HexToNibble(t[1]).value, t[1]); }
  }

  // ----- strings without quotes -----

  /** No comma, quote, backslash, bracket or zero. */
  predicate IsBare(t: seq<byte>) {
    forall i :: 0 <= i < |t| ==> t[i] !in {44, 34, 92, 91, 93, 0}
  }

  function Bare(letter: byte, t: seq<byte>): Value {
    if letter == 115 then Str(t) else Bin(t)
  }

  lemma BareIsOne(t: seq<byte>, letter: byte)
    requires IsBare(t) && (letter == 115 || letter == 36)
    ensures Sweep(OUTSIDE, t) == Some(OUTSIDE) && ParseValue(letter, t) == Some(Bare(letter, t))
  {
    hide Sweep, Unescape, CString;
    SweepPlain(t);
    assert 92 !in t;
    UnescapePlain(t, []);
    UnescapeNone();
    assert t + [] == t && CString(t) == t;
  }

  /** A string need not be quoted: bare text is taken as it is, first and last character included. */
  lemma BareString(t: seq<byte>)
    requires IsBare(t)
    ensures Parse([115], t) == Parsed(1, [Str(t)]) && Parse([36], t) == Parsed(1, [Bin(t)])
  {
    hide Sweep, FindEnd, Parse, ParseValue;
    BareIsOne(t, 115);
    BareIsOne(t, 36);
    EndsThere(t, []);
    assert t + [] == t && t[..|t|] == t;
    ParseSingle(115, t);
    ParseSingle(36, t);
  }

  function CommaJoined(texts: seq<seq<byte>>): seq<byte>
    requires texts != []
  {
    if |texts| == 1 then texts[0] else texts[0] + [44] + CommaJoined(texts[1..])
  }

  function Bares(fmt: seq<byte>, texts: seq<seq<byte>>): (r: seq<Value>)
    requires |fmt| <= |texts|
    ensures |r| == |fmt| && forall i :: 0 <= i < |fmt| ==> r[i] == Bare(fmt[i], texts[i])
  {
    seq(|fmt|, i requires 0 <= i < |fmt| => Bare(fmt[i], texts[i]))
  }

  /**
   Bare texts with commas between them: each letter of the format takes the next one, and the count
   is that of the letters or of the texts, whichever there are fewer of.
   */
  lemma {:induction false} BareList(fmt: seq<byte>, texts: seq<seq<byte>>, n: nat)
    requires texts != [] && forall i :: 0 <= i < |texts| ==> IsBare(texts[i])
    requires forall i :: 0 <= i < |fmt| ==> fmt[i] == 115 || fmt[i] == 36
    ensures var k := Min(|fmt|, |texts|);
      ParseFrom(fmt, CommaJoined(texts), n) == Parsed(n + k, Bares(fmt[..k], texts))
    decreases |fmt|
  {
    hide IsBare, ParseFrom, ParseValue, Sweep, Bare;
    var k := Min(|fmt|, |texts|);
    if fmt == [] {
      NoFormat(CommaJoined(texts), n);
      assert Bares([], texts) == [];
    } else {
      var rest := if |texts| == 1 then [] else [44] + CommaJoined(texts[1..]);
      BareIsOne(texts[0], fmt[0]);
      assert CommaJoined(texts) == texts[0] + rest;
      ParseFirst(fmt, texts[0], rest, n, Bare(fmt[0], texts[0]));
      if |texts| > 1 {
        assert rest[1..] == CommaJoined(texts[1..]);
        BareList(fmt[1..], texts[1..], n + 1);
        assert Bares(fmt[..k], texts) == [Bare(fmt[0], texts[0])] + Bares(fmt[1..][..k - 1], texts[1..]);
      } else {
        assert Bares(fmt[..k], texts) == [Bare(fmt[0], texts[0])];
      }
    }
  }

  lemma NoFormat(t: seq<byte>, n: nat)
    ensures ParseFrom([], t, n) == Parsed(n, [])
  {
  }

  // ----- hexadecimal parameters -----

  /** Two digits of either case for each octet, the high one first. */
  predicate Spells(t: seq<byte>, data: seq<byte>) {
    && |t| == 2 * |data|
    && forall i :: 0 <= i < |data| ==> IsHexDigit(t[2 * i], data[i] / 16) && IsHexDigit(t[2 * i + 1], data[i] % 16)
  }

  lemma OctetIff(high: byte, low: byte, b: byte)
    ensures HexToByte(high, low) == Some(b) <==> IsHexDigit(high, b / 16) && IsHexDigit(low, b % 16)
  {
    hide IsHexDigit, HexToNibble;
    HexDigits(b / 16, high);
    HexDigits(b % 16, low);
  }

  lemma SpellsNext(t: seq<byte>, high: byte, low: byte, data: seq<byte>, b: byte)
    ensures |t| == 2 * |data| ==> (Spells(t + [high, low], data + [b]) <==> Spells(t, data) && HexToByte(high, low) == Some(b))
  {
    hide IsHexDigit, HexToByte;
    OctetIff(high, low, b);
    var u, all := t + [high, low], data + [b];
    if |t| == 2 * |data| {
      assert forall i :: 0 <= i < |data| ==> u[2 * i] == t[2 * i] && u[2 * i + 1] == t[2 * i + 1] && all[i] == data[i];
      assert u[2 * |data|] == high && u[2 * |data| + 1] == low && all[|data|] == b;
    }
  }

  /** An 'h' parameter is exactly an even number of hex digits. */
  lemma {:induction false} HexIff(t: seq<byte>, data: seq<byte>)
    ensures HexBytes(t) == Some(data) <==> Spells(t, data)
    decreases |t|
  {
    hide Spells, HexToByte;
    if |t| < 2 || data == [] {
      SpellsNothing(t, data);
    } else {
      var n, m := |t| - 2, |data| - 1;
      HexIff(t[..n], data[..m]);
      SpellsNext(t[..n], t[n], t[n + 1], data[..m], data[m]);
      SpellsSize(t, data);
      assert t == t[..n] + [t[n], t[n + 1]] && data == data[..m] + [data[m]];
    }
  }

  lemma SpellsSize(t: seq<byte>, data: seq<byte>)
    ensures Spells(t, data) ==> |t| == 2 * |data|
  {
  }

  lemma SpellsNothing(t: seq<byte>, data: seq<byte>)
    requires |t| < 2 || data == []
    ensures Spells(t, data) <==> t == [] && data == []
  {
  }

  /** The front of a text that holds so many octets. */
  lemma {:induction false} PrefixIff(t: seq<byte>, data: seq<byte>)
    ensures HexPrefix(t, |data|) == data <==> |t| >= 2 * |data| && Spells(t[..2 * |data|], data)
    decreases |data|
  {
    hide Spells, HexToByte;
    if data == [] {
      SpellsNothing([], []);
      assert t[..0] == [];
    } else if |t| >= 2 {
      PrefixIff(t[2..], data[1..]);
      var n := 2 * |data| - 2;
      if |t[2..]| >= n {
        assert t[..2 * |data|] == [t[0], t[1]] + t[2..][..n];
        SpellsFirst(t[0], t[1], t[2..][..n], data);
      }
      assert data == [data[0]] + data[1..];
    }
  }

  lemma SpellsFirst(high: byte, low: byte, t: seq<byte>, data: seq<byte>)
    requires data != []
    ensures Spells([high, low] + t, data) <==> HexToByte(high, low) == Some(data[0]) && Spells(t, data[1..])
  {
    hide IsHexDigit, HexToByte;
    OctetIff(high, low, data[0]);
    var u, rest := [high, low] + t, data[1..];
    if |u| == 2 * |data| {
      assert forall i :: 0 <= i < |rest| ==> rest[i] == data[i + 1] && t[2 * i] == u[2 * (i + 1)] && t[2 * i + 1] == u[2 * (i + 1) + 1];
      if Spells(t, rest) && HexToByte(high, low) == Some(data[0]) {
        forall i | 0 <= i < |data| ensures IsHexDigit(u[2 * i], data[i] / 16) && IsHexDigit(u[2 * i + 1], data[i] % 16) {
          if i > 0 { assert rest[i - 1] == data[i]; }
        }
      }
    }
  }

  /** A MAC address is exactly twelve hex digits. */
  lemma MacIff(t: seq<byte>, a: seq<byte>)
    ensures ParseMac(t) == Some(a) <==> |a| == 6 && Spells(t, a)
  {
    hide HexPrefix, Spells;
    SpellsSize(t, a);
    if |a| == 6 { PrefixIff(t, a); }
    assert |t| == 12 ==> t[..12] == t;
  }

  /**
   A Bluetooth LE address is twelve hex digits, then r for a random one or p for a public one; without
   a letter it is public.  Whatever stands between the digits and the letter is ignored.
   */
  lemma BdIff(t: seq<byte>, a: seq<byte>, kind: BdKind)
    ensures ParseBd(t) == Some(Bd(a, kind)) <==>
      && |a| == 6 && |t| >= 12 && Spells(t[..12], a)
      && (t[|t| - 1] == 114 || t[|t| - 1] == 112 || |t| == 12)
      && kind == if t[|t| - 1] == 114 then Random else Public
  {
    hide HexPrefix, Spells;
    if |a| == 6 { PrefixIff(t, a); }
  }

  // ----- decimal parameters -----

  /** Decimal digits, leading zeros allowed. */
  predicate IsNatural(t: seq<byte>) {
    t != [] && AllDigits(t)
  }

  /** The number that digits, with a minus in front or not, stand for on a 32-bit target. */
  function Clamped(negative: bool, digits: seq<byte>): int
    requires AllDigits(digits)
  {
    var n: int := DecimalValue(digits);
    if negative then Max(-0x8000_0000, -n) else Min(0x7FFF_FFFF, n)
  }

  lemma StrtolOfDigits(negative: bool, digits: seq<byte>, rest: seq<byte>)
    requires IsNatural(digits) && (rest == [] || !IsDigit(rest[0]))
    ensures var sign := if negative then [45] else [];
      Strtol(sign + digits + rest) == Number(Clamped(negative, digits), |sign + digits|)
  {
    hide DigitRun, DecimalValue;
    var sign := if negative then [45] else [];
    var t := sign + digits + rest;
    assert Blanks(t) == 0 && t[0] == if negative then 45 else digits[0];
    assert t[|sign|..] == digits + rest;
    DigitRunIs(digits, rest);
    assert t[|sign|..][..|digits|] == digits;
  }

  /** A 'd' parameter is exactly digits with a minus in front or not; numbers that do not fit are clamped. */
  lemma DigitIff(t: seq<byte>)
    ensures var negative := t != [] && t[0] == 45;
      var digits := if negative then t[1..] else t;
      ParseValue(100, t) == if IsNatural(digits) then Some(Digit(Clamped(negative, digits))) else None
  {
    hide Strtol, Clamped;
    var negative := t != [] && t[0] == 45;
    var digits := if negative then t[1..] else t;
    var sign := if negative then [45] else [];
    assert t == sign + digits;
    if IsNatural(digits) {
      StrtolOfDigits(negative, digits, []);
      assert sign + digits + [] == t;
    } else if t != [] {
      TakesAll(t);
    }
  }

  /** A number that takes up a whole text without blanks is digits behind its sign. */
  lemma TakesAll(t: seq<byte>)
    requires t != []
    ensures (t[0] == 45 || IsDigit(t[0])) && Strtol(t).len == |t| ==> IsNatural(if t[0] == 45 then t[1..] else t)
  {
    hide DecimalValue;
    if (t[0] == 45 || IsDigit(t[0])) && Strtol(t).len == |t| {
      var u := if t[0] == 45 then t[1..] else t;
      assert Blanks(t) == 0 && t[0..] == t;
      assert DigitRun(u) == |u| && u[..|u|] == u;
    }
  }

  // ----- IPv4 -----

  function DotJoined(parts: seq<seq<byte>>): seq<byte>
    requires parts != []
  {
    if |parts| == 1 then parts[0] else parts[0] + [46] + DotJoined(parts[1..])
  }

  /** Digits for a value below 256. */
  predicate IsOctetText(t: seq<byte>, n: nat) {
    IsNatural(t) && DecimalValue(t) == n && n < 256
  }

  predicate AreOctets(parts: seq<seq<byte>>, ds: seq<nat>) {
    |parts| == |ds| && forall i :: 0 <= i < |ds| ==> IsOctetText(parts[i], ds[i])
  }

  lemma OctetsTail(parts: seq<seq<byte>>, ds: seq<nat>)
    requires AreOctets(parts, ds) && ds != []
    ensures IsOctetText(parts[0], ds[0]) && AreOctets(parts[1..], ds[1..])
  {
    hide IsOctetText;
  }

  lemma OctetsMore(p: seq<byte>, d: nat, parts: seq<seq<byte>>, ds: seq<nat>)
    requires IsOctetText(p, d) && AreOctets(parts, ds)
    ensures AreOctets([p] + parts, [d] + ds)
  {
    hide IsOctetText;
  }

  /** What the octet reader does with digits in front. */
  lemma ReadOctet(p: seq<byte>, rest: seq<byte>, n: nat)
    requires IsNatural(p) && (rest == [] || !IsDigit(rest[0])) && n > 0
    ensures ReadOctets(p + rest, n) ==
      if DecimalValue(p) > 255 then None
      else if n == 1 then (if rest == [] then Some([DecimalValue(p)]) else None)
      else if rest != [] && rest[0] == 46 then Prepend([DecimalValue(p)], ReadOctets(rest[1..], n - 1))
      else None
  {
    hide Strtol, Prepend, DecimalValue;
    var t := p + rest;
    StrtolOfDigits(false, p, rest);
    assert [] + p + rest == t && |[] + p| == |p|;
    assert rest != [] ==> t[|p|] == rest[0] && t[|p| + 1..] == rest[1..];
  }

  /** Four such texts with dots between them are read. */
  lemma {:induction false} OctetsAreRead(parts: seq<seq<byte>>, ds: seq<nat>)
    requires AreOctets(parts, ds) && ds != []
    ensures ReadOctets(DotJoined(parts), |ds|) == Some(ds)
    decreases |ds|
  {
    hide ReadOctets, AreOctets, DecimalValue;
    SameLength(parts, ds);
    var rest := if |ds| == 1 then [] else [46] + DotJoined(parts[1..]);
    OctetsTail(parts, ds);
    assert DotJoined(parts) == parts[0] + rest;
    ReadOctet(parts[0], rest, |ds|);
    if |ds| > 1 {
      assert rest[1..] == DotJoined(parts[1..]);
      OctetsAreRead(parts[1..], ds[1..]);
      assert [ds[0]] + ds[1..] == ds;
    } else {
      assert ds == [ds[0]] && parts[0] + [] == parts[0];
    }
  }

  lemma SameLength(parts: seq<seq<byte>>, ds: seq<nat>)
    requires AreOctets(parts, ds)
    ensures |parts| == |ds|
  {
  }

  /** And nothing else is. */
  lemma {:induction false} ReadOctetsOnly(t: seq<byte>, n: nat) returns (parts: seq<seq<byte>>)
    requires n > 0 && ReadOctets(t, n).Some?
    ensures parts != [] && AreOctets(parts, ReadOctets(t, n).value) && t == DotJoined(parts)
    decreases n
  {
    hide ReadOctets, DecimalValue;
    StartsWithDigit(t, n);
    var run := DigitRun(t);
    var p, rest := t[..run], t[run..];
    assert t == p + rest && IsDigit(t[0]);
    ReadOctet(p, rest, n);
    if n == 1 {
      parts := [p];
    } else {
      var more := ReadOctetsOnly(rest[1..], n - 1);
      parts := [p] + more;
      assert parts[1..] == more && rest == [46] + rest[1..];
      OctetsMore(p, DecimalValue(p), more, ReadOctets(rest[1..], n - 1).value);
    }
  }

  lemma StartsWithDigit(t: seq<byte>, n: nat)
    requires n > 0 && ReadOctets(t, n).Some?
    ensures t != [] && IsDigit(t[0]) && DigitRun(t) > 0
  {
    hide Strtol;
  }

  /** An IPv4 address is exactly four numbers below 256 with dots between them, the first in the high octet. */
  lemma Ipv4Iff(t: seq<byte>, addr: nat)
    ensures ParseIpv4(t) == Some(V4(addr)) <==>
      exists parts: seq<seq<byte>>, ds: seq<nat> ::
        && |parts| == 4 == |ds| && AreOctets(parts, ds) && t == DotJoined(parts)
        && addr == ds[0] * 0x100_0000 + ds[1] * 0x1_0000 + ds[2] * 0x100 + ds[3]
  {
    hide ReadOctets, AreOctets, DotJoined;
    if ParseIpv4(t) == Some(V4(addr)) {
      var parts := ReadOctetsOnly(t, 4);
      SameLength(parts, ReadOctets(t, 4).value);
    }
    forall parts: seq<seq<byte>>, ds: seq<nat> |
      && |parts| == 4 == |ds| && AreOctets(parts, ds) && t == DotJoined(parts)
      && addr == ds[0] * 0x100_0000 + ds[1] * 0x1_0000 + ds[2] * 0x100 + ds[3]
      ensures ParseIpv4(t) == Some(V4(addr))
    {
      OctetsAreRead(parts, ds);
    }
  }

  // ----- IPv6 -----

  /** At most four hex digits; none at all stand for zero. */
  predicate IsGroup(t: seq<byte>) {
    |t| <= 4 && forall i :: 0 <= i < |t| ==> HexToNibble(t[i]).Some?
  }

  function ColonJoined(parts: seq<seq<byte>>): seq<byte>
    requires parts != []
  {
    if |parts| == 1 then parts[0] else parts[0] + [58] + ColonJoined(parts[1..])
  }

  lemma {:induction false} HexBound(t: seq<byte>, k: nat)
    requires (forall i :: 0 <= i < |t| ==> HexToNibble(t[i]).Some?) && |t| <= k
    ensures HexValue(t) < Power16(k)
    decreases k
  {
    hide HexToNibble;
    if t == [] {
      PowerIsPositive(k);
    } else {
      HexBound(t[..|t| - 1], k - 1);
    }
  }

  function Power16(k: nat): nat {
    if k == 0 then 1 else 16 * Power16(k - 1)
  }

  lemma {:induction false} PowerIsPositive(k: nat)
    ensures Power16(k) > 0
  {
    if k > 0 { PowerIsPositive(k - 1); }
  }

  lemma GroupBound(t: seq<byte>)
    requires IsGroup(t)
    ensures HexValue(t) < 0x1_0000
  {
    HexBound(t, 4);
    assert Power16(4) == 16 * Power16(3) == 256 * Power16(2) == 4096 * Power16(1) == 0x1_0000 * Power16(0);
  }

  function GroupValue(t: seq<byte>): (r: nat)
    requires IsGroup(t)
    ensures r < 0x1_0000
  {
    GroupBound(t);
    HexValue(t)
  }

  lemma GroupFront(p: seq<byte>, rest: seq<byte>)
    requires IsGroup(p) && (rest == [] || rest[0] == 58 || rest[0] == 93)
    ensures var t := p + rest;
      && Blanks(t) == 0 && (t != [] ==> t[0] != 45 && t[0] != 43) && (|t| > 1 && t[0] == 48 ==> t[1] != 120 && t[1] != 88)
      && HexRun(t) == |p| <= 4 && t[..|p|] == p && t[|p|..] == rest
  {
    hide HexRun;
    var t := p + rest;
    HexRunIs(p, rest);
    assert p != [] ==> t[0] == p[0] && HexToNibble(p[0]).Some?;
    assert p == [] ==> t == rest;
    if |p| > 1 {
      assert t[1] == p[1] && HexToNibble(p[1]).Some?;
    } else if |t| > 1 {
      assert t[1] == rest[1 - |p|];
    }
  }

  /** What the reader does with a group in front, whichever case its digits have. */
  lemma StrtolOfGroup(p: seq<byte>, rest: seq<byte>)
    requires IsGroup(p) && (rest == [] || rest[0] == 58 || rest[0] == 93)
    ensures StrtolHex(p + rest) == Number(GroupValue(p), |p|) && (p + rest)[|p|..] == rest && |p| <= 4
  {
    hide HexRun, HexValue, Blanks, HexToNibble;
    var t := p + rest;
    GroupFront(p, rest);
    GroupBound(p);
    assert t[0..] == t;
    if p == [] { HexValueNone(); }
  }

  lemma {:induction false} HexRunIs(p: seq<byte>, rest: seq<byte>)
    requires (forall i :: 0 <= i < |p| ==> HexToNibble(p[i]).Some?) && (rest == [] || HexToNibble(rest[0]).None?)
    ensures HexRun(p + rest) == |p|
    decreases |p|
  {
    hide HexToNibble;
    if p == [] {
      assert p + rest == rest;
    } else {
      assert (p + rest)[1..] == p[1..] + rest;
      HexRunIs(p[1..], rest);
    }
  }

  predicate AreGroups(parts: seq<seq<byte>>) {
    forall i :: 0 <= i < |parts| ==> IsGroup(parts[i])
  }

  function GroupValues(parts: seq<seq<byte>>): (r: seq<nat>)
    requires AreGroups(parts)
    ensures |r| == |parts|
  {
    if parts == [] then [] else [GroupValue(parts[0])] + GroupValues(parts[1..])
  }

  lemma {:induction false} GroupsAreRead(parts: seq<seq<byte>>, bracket: bool)
    requires parts != [] && AreGroups(parts) && (bracket || parts[|parts| - 1] != [])
    ensures ReadGroups(ColonJoined(parts) + (if bracket then [93] else []), |parts|, bracket) == Some(GroupValues(parts))
    decreases |parts|
  {
    hide StrtolHex, GroupValue, IsGroup;
    var end := if bracket then [93] else [];
    var t := ColonJoined(parts) + end;
    if |parts| == 1 {
      StrtolOfGroup(parts[0], end);
      assert parts[1..] == [] && GroupValues([]) == [];
      assert GroupValues(parts) == [GroupValue(parts[0])];
    } else {
      var more := ColonJoined(parts[1..]) + end;
      assert t == parts[0] + ([58] + more);
      StrtolOfGroup(parts[0], [58] + more);
      assert t[|parts[0]| + 1..] == more;
      GroupsAreRead(parts[1..], bracket);
    }
  }

  /**
   Eight groups with colons between them are an IPv6 address, with brackets around them or not; groups
   may be short and even empty, but without a bracket not the last one.
   */
  lemma Ipv6Groups(parts: seq<seq<byte>>, bracket: bool)
    requires |parts| == 8 && AreGroups(parts) && (bracket || parts[7] != [])
    ensures var t, g := ColonJoined(parts), GroupValues(parts);
      ParseIpv6(if bracket then [91] + t + [93] else t)
        == Some(V6([g[6] * 0x1_0000 + g[7], g[4] * 0x1_0000 + g[5], g[2] * 0x1_0000 + g[3], g[0] * 0x1_0000 + g[1]]))
  {
    hide ReadGroups, GroupValues, ColonJoined, IsGroup;
    var t := ColonJoined(parts);
    GroupsAreRead(parts, bracket);
    if bracket {
      assert ([91] + t + [93])[1..] == t + [93];
    } else {
      assert t + [] == t;
      NoBracket(parts);
    }
  }

  lemma NoBracket(parts: seq<seq<byte>>)
    requires parts != [] && AreGroups(parts)
    ensures ColonJoined(parts) != [] ==> ColonJoined(parts)[0] != 91
  {
    assert IsGroup(parts[0]);
  }

  // ----- the printed addresses and lists -----

  /** An IPv4 address is printed high octet first. */
  lemma Ipv4Spelled(a: nat, b: nat, c: nat, d: nat)
    requires a < 256 && b < 256 && c < 256 && d < 256
    ensures IpText(V4(a * 0x100_0000 + b * 0x1_0000 + c * 0x100 + d))
         == Decimal(a) + [46] + (Decimal(b) + [46] + (Decimal(c) + [46] + Decimal(d)))
  {
    hide Decimal, Dotted, Octets;
    OctetsOf(a, b, c, d);
    DottedFour(a, b, c, d);
  }

  lemma DottedFour(a: nat, b: nat, c: nat, d: nat)
    ensures Dotted([a, b, c, d]) == Decimal(a) + [46] + (Decimal(b) + [46] + (Decimal(c) + [46] + Decimal(d)))
  {
    hide Decimal, Dotted;
    DottedNext(a, [b, c, d]);
    DottedNext(b, [c, d]);
    DottedNext(c, [d]);
    DottedLast(d);
    assert [a] + [b, c, d] == [a, b, c, d] && [b] + [c, d] == [b, c, d] && [c] + [d] == [c, d];
  }

  lemma OctetsOf(a: nat, b: nat, c: nat, d: nat)
    requires a < 256 && b < 256 && c < 256 && d < 256
    ensures Octets(a * 0x100_0000 + b * 0x1_0000 + c * 0x100 + d) == [a, b, c, d]
  {
    var addr := a * 0x100_0000 + b * 0x1_0000 + c * 0x100 + d;
    assert addr / 0x100_0000 == a && addr / 0x1_0000 == a * 256 + b && addr / 256 == a * 0x1_0000 + b * 256 + c;
  }

  lemma DottedNext(d: nat, ds: seq<nat>)
    requires ds != []
    ensures Dotted([d] + ds) == Decimal(d) + [46] + Dotted(ds)
  {
    hide Decimal;
    assert ([d] + ds)[1..] == ds;
  }

  lemma DottedLast(d: nat)
    ensures Dotted([d]) == Decimal(d)
  {
  }

  /** The groups as they are printed: four digits each, of the lower case. */
  function GroupTexts(gs: seq<nat>): (r: seq<seq<byte>>)
    requires forall i :: 0 <= i < |gs| ==> gs[i] < 0x1_0000
    ensures |r| == |gs|
  {
    if gs == [] then []
    else [[LOWER[gs[0] / 4096], LOWER[gs[0] / 256 % 16], LOWER[gs[0] / 16 % 16], LOWER[gs[0] % 16]]] + GroupTexts(gs[1..])
  }

  lemma Hex4Spelled(n: nat)
    requires n < 0x1_0000
    ensures Hex4(n) == [LOWER[n / 4096], LOWER[n / 256 % 16], LOWER[n / 16 % 16], LOWER[n % 16]]
  {
    hide LowerHex;
    HexDigits(n / 4096, 0);
    HexDigits(n / 256 % 16, 0);
    HexDigits(n / 16 % 16, 0);
    HexDigits(n % 16, 0);
  }

  lemma {:induction false} ColonsSpelled(gs: seq<nat>)
    requires gs != [] && forall i :: 0 <= i < |gs| ==> gs[i] < 0x1_0000
    ensures Colons(gs) == ColonJoined(GroupTexts(gs))
    decreases |gs|
  {
    hide Hex4;
    Hex4Spelled(gs[0]);
    if |gs| > 1 {
      ColonsSpelled(gs[1..]);
      assert GroupTexts(gs)[1..] == GroupTexts(gs[1..]);
    }
  }

  /** An IPv6 address is printed in brackets, the first of its eight groups first. */
  lemma Ipv6Spelled(g: seq<nat>)
    requires |g| == 8 && forall i :: 0 <= i < 8 ==> g[i] < 0x1_0000
    ensures var words := [g[6] * 0x1_0000 + g[7], g[4] * 0x1_0000 + g[5], g[2] * 0x1_0000 + g[3], g[0] * 0x1_0000 + g[1]];
      IsIp(V6(words)) && IpText(V6(words)) == [91] + ColonJoined(GroupTexts(g)) + [93]
  {
    hide Colons, ColonJoined, GroupTexts, Groups;
    GroupsOf(g);
    ColonsSpelled(g);
  }

  lemma GroupsOf(g: seq<nat>)
    requires |g| == 8 && forall i :: 0 <= i < 8 ==> g[i] < 0x1_0000
    ensures var words := [g[6] * 0x1_0000 + g[7], g[4] * 0x1_0000 + g[5], g[2] * 0x1_0000 + g[3], g[0] * 0x1_0000 + g[1]];
      IsIp(V6(words)) && Groups(words) == g
  {
    hide Groups;
    HalvesOf(g[0], g[1]);
    HalvesOf(g[2], g[3]);
    HalvesOf(g[4], g[5]);
    HalvesOf(g[6], g[7]);
    var words := [g[6] * 0x1_0000 + g[7], g[4] * 0x1_0000 + g[5], g[2] * 0x1_0000 + g[3], g[0] * 0x1_0000 + g[1]];
    GroupsAre(words);
    assert Groups(words) == [g[0], g[1], g[2], g[3], g[4], g[5], g[6], g[7]];
  }

  lemma GroupsAre(words: seq<nat>)
    requires IsIp(V6(words))
    ensures Groups(words) == [words[3] / 0x1_0000, words[3] % 0x1_0000, words[2] / 0x1_0000, words[2] % 0x1_0000,
                              words[1] / 0x1_0000, words[1] % 0x1_0000, words[0] / 0x1_0000, words[0] % 0x1_0000]
  {
  }

  lemma HalvesOf(high: nat, low: nat)
    requires high < 0x1_0000 && low < 0x1_0000
    ensures var w := high * 0x1_0000 + low;
      w < 0x1_0000_0000 && w / 0x1_0000 == high && w % 0x1_0000 == low
  {
  }

  // ----- integer lists -----

  /** Digits, with a minus in front or not, for a 16-bit value. */
  predicate IsInt16Text(t: seq<byte>, v: int) {
    var negative := t != [] && t[0] == 45;
    var digits := if negative then t[1..] else t;
    IsNatural(digits) && v == Clamped(negative, digits) && -0x8000 <= v <= 0x7FFF
  }

  predicate AreInt16Texts(parts: seq<seq<byte>>, vs: seq<int>) {
    |parts| == |vs| && forall i :: 0 <= i < |vs| ==> IsInt16Text(parts[i], vs[i])
  }

  lemma Int16TextsFirst(parts: seq<seq<byte>>, vs: seq<int>)
    requires AreInt16Texts(parts, vs) && vs != []
    ensures |parts| == |vs| && IsInt16Text(parts[0], vs[0]) && AreInt16Texts(parts[1..], vs[1..])
  {
    hide IsInt16Text;
  }

  lemma Int16Taken(p: seq<byte>, v: int, rest: seq<byte>)
    requires IsInt16Text(p, v) && (rest == [] || !IsDigit(rest[0]))
    ensures Strtol(p + rest) == Number(v, |p|) && (p + rest)[|p|..] == rest
    ensures p != [] && p[0] != 93 && Commas(p) == 0
  {
    hide Strtol, DecimalValue, Commas;
    var negative := p[0] == 45;
    var digits := if negative then p[1..] else p;
    StrtolOfDigits(negative, digits, rest);
    assert (if negative then [45] else []) + digits == p;
    NoCommas(p);
  }

  lemma {:induction false} JoinedCount(parts: seq<seq<byte>>, vs: seq<int>)
    requires AreInt16Texts(parts, vs) && vs != []
    ensures |parts| == |vs| && Commas(CommaJoined(parts)) == |parts| - 1
    ensures CommaJoined(parts) != [] && CommaJoined(parts)[0] != 93
    decreases |vs|
  {
    hide IsInt16Text, AreInt16Texts;
    Int16TextsFirst(parts, vs);
    Int16Taken(parts[0], vs[0], []);
    if |vs| > 1 {
      JoinedCount(parts[1..], vs[1..]);
      CommasConcat(parts[0] + [44], CommaJoined(parts[1..]));
      CommasConcat(parts[0], [44]);
      assert Commas([44]) == 1;
    }
  }

  lemma IntIsRead(p: seq<byte>, v: int, rest: seq<byte>, n: nat)
    requires IsInt16Text(p, v) && n > 0 && (rest == [] || !IsDigit(rest[0])) && (n > 1 ==> rest != [] && rest[0] == 44)
    ensures n == 1 ==> ReadInts(p + rest, n) == Some(IntsRead([v], |p|))
    ensures n > 1 && ReadInts(rest[1..], n - 1).Some? ==>
      var r := ReadInts(rest[1..], n - 1).value;
      ReadInts(p + rest, n) == Some(IntsRead([v] + r.values, |p| + 1 + r.used))
  {
    hide Strtol, Clamped;
    Int16Taken(p, v, rest);
    assert rest != [] ==> (p + rest)[|p|] == rest[0] && (p + rest)[|p| + 1..] == rest[1..];
  }

  lemma {:induction false} IntsAreRead(parts: seq<seq<byte>>, vs: seq<int>, rest: seq<byte>)
    requires AreInt16Texts(parts, vs) && vs != [] && (rest == [] || !IsDigit(rest[0]))
    ensures |parts| == |vs| && ReadInts(CommaJoined(parts) + rest, |vs|) == Some(IntsRead(vs, |CommaJoined(parts)|))
    decreases |vs|
  {
    hide ReadInts, AreInt16Texts, IsInt16Text;
    Int16TextsFirst(parts, vs);
    if |vs| == 1 {
      IntIsRead(parts[0], vs[0], rest, 1);
      assert vs == [vs[0]] && CommaJoined(parts) == parts[0];
    } else {
      var more := CommaJoined(parts[1..]) + rest;
      assert CommaJoined(parts) + rest == parts[0] + ([44] + more) && ([44] + more)[1..] == more;
      IntsAreRead(parts[1..], vs[1..], rest);
      IntIsRead(parts[0], vs[0], [44] + more, |vs|);
      assert [vs[0]] + vs[1..] == vs;
    }
  }

  /** Numbers of 16 bits with commas between them, in square brackets, are a list of those numbers. */
  lemma IntListIsRead(parts: seq<seq<byte>>, vs: seq<int>)
    requires AreInt16Texts(parts, vs) && parts != []
    ensures ParseIntList([91] + CommaJoined(parts) + [93]) == Some(vs)
  {
    hide ReadInts, Commas, CommaJoined, AreInt16Texts;
    Int16TextsSize(parts, vs);
    var t := [91] + CommaJoined(parts) + [93];
    assert t[1..] == CommaJoined(parts) + [93] && t[1..|t| - 1] == CommaJoined(parts);
    JoinedCount(parts, vs);
    IntsAreRead(parts, vs, [93]);
  }

  lemma Int16TextsSize(parts: seq<seq<byte>>, vs: seq<int>)
    requires AreInt16Texts(parts, vs)
    ensures |parts| == |vs|
  {
  }

  /** A number that does not fit 16 bits makes the list invalid. */
  lemma IntTooBig(negative: bool, digits: seq<byte>, rest: seq<byte>, count: nat)
    requires IsNatural(digits) && (rest == [] || !IsDigit(rest[0])) && count > 0
    requires !(-0x8000 <= Clamped(negative, digits) <= 0x7FFF)
    ensures ReadInts((if negative then [45] else []) + digits + rest, count).None?
  {
    hide Strtol, Clamped;
    StrtolOfDigits(negative, digits, rest);
  }

  function Decimals(vs: seq<int>): (r: seq<seq<byte>>)
    ensures |r| == |vs|
  {
    if vs == [] then [] else [SignedDecimal(vs[0])] + Decimals(vs[1..])
  }

  /** A list is printed with commas between its numbers, in square brackets. */
  lemma IntListSpelled(vs: seq<int>)
    ensures IntListText(vs) == if vs == [] then [91, 93] else [91] + CommaJoined(Decimals(vs)) + [93]
  {
    hide CommaJoined, Decimals, CommaList;
    JoinedShape(vs);
    if vs != [] { CommasSpelled(vs); }
  }

  lemma {:induction false} CommasSpelled(vs: seq<int>)
    requires vs != []
    ensures CommaList(vs) == CommaJoined(Decimals(vs))
  {
    hide SignedDecimal;
    if |vs| > 1 {
      CommasSpelled(vs[1..]);
      assert Decimals(vs)[1..] == Decimals(vs[1..]);
    }
  }

  /** Numbers are printed with a minus if they are negative, and without leading zeros. */
  lemma NumberSpelled(n: int)
    ensures var t := SignedDecimal(n);
      var digits := if n < 0 then t[1..] else t;
      && (n < 0 <==> t[0] == 45)
      && IsNatural(digits) && DecimalValue(digits) == (if n < 0 then -n else n)
      && (digits[0] == 48 ==> n == 0 && t == [48])
  {
    hide Decimal, DecimalValue;
    DecimalIsValue(if n < 0 then -n else n);
    NoLeadingZero(if n < 0 then -n else n);
  }

  lemma {:induction false} NoLeadingZero(n: nat)
    ensures Decimal(n)[0] == 48 ==> n == 0 && Decimal(n) == [48]
  {
    if n >= 10 { NoLeadingZero(n / 10); }
  }

  // ----- text behind a closing quote -----

  /**
   A quoted string with more text behind the closing quote is one parameter.  As 's' it loses its last
   character, whatever that is; as '$' it loses the opening quote alone.
   */
  lemma TextBehindQuote(s: seq<byte>, more: seq<byte>, last: byte)
    requires IsBare(s) && IsBare(more) && IsBare([last])
    ensures var t := [34] + s + [34] + more + [last];
      && Parse([115], t) == Parsed(1, [Str(s + [34] + more)])
      && Parse([36], t) == Parsed(1, [Bin(s + [34] + more + [last])])
  {
    hide Sweep, FindEnd, Parse, ParseValue;
    var t := [34] + s + [34] + more + [last];
    BareMore(more, last);
    BehindQuoteIsOne(s, more + [last]);
    assert t == [34] + s + [34] + (more + [last]);
    EndsThere(t, []);
    assert t + [] == t && t[..|t|] == t;
    ParseSingle(115, t);
    ParseSingle(36, t);
    ValueBehindQuote(s, more, last);
  }

  lemma BareMore(more: seq<byte>, last: byte)
    requires IsBare(more) && IsBare([last])
    ensures IsBare(more + [last])
  {
    assert [last][0] == last;
  }

  lemma ValueBehindQuote(s: seq<byte>, more: seq<byte>, last: byte)
    requires IsBare(s) && IsBare(more) && IsBare([last])
    ensures var kept := s + [34] + more;
      var t := [34] + kept + [last];
      t == [34] + s + [34] + more + [last] && ParseValue(115, t) == Some(Str(kept)) && ParseValue(36, t) == Some(Bin(kept + [last]))
  {
    hide Unescape, CString, IsBare;
    var kept := s + [34] + more;
    var t := [34] + kept + [last];
    assert t[1..|t| - 1] == kept && t[1..] == kept + [last] && t[|t| - 1] == last;
    NoBackslash(s, more, last);
    UnescapePlain(kept, []);
    UnescapePlain(kept + [last], []);
    UnescapeNone();
    assert kept + [] == kept && kept + [last] + [] == kept + [last];
    assert CString(kept) == kept;
  }

  lemma NoBackslash(s: seq<byte>, more: seq<byte>, last: byte)
    requires IsBare(s) && IsBare(more) && IsBare([last])
    ensures var kept := s + [34] + more; 92 !in kept && 92 !in kept + [last] && NoZero(kept) && last != 34
  {
    assert 92 !in s && 92 !in more && 92 !in [last] && [last][0] == last;
  }

  lemma BehindQuoteIsOne(s: seq<byte>, more: seq<byte>)
    requires IsBare(s) && IsBare(more)
    ensures Sweep(OUTSIDE, [34] + s + [34] + more) == Some(OUTSIDE)
  {
    hide Sweep;
    assert 34 !in s && 92 !in s;
    CleanSweeps(s);
    SweepQuotes(s);
    SweepPlain(more);
    SweepConcat(OUTSIDE, [34] + s + [34], more);
  }

  /** Neither a quote nor a backslash nor a bracket: what may stand in quotes or brackets without a meaning. */
  predicate IsInner(s: seq<byte>) {
    forall i :: 0 <= i < |s| ==> s[i] !in {34, 92, 91, 93}
  }

  lemma {:induction false} InnerSweeps(st: Scan, s: seq<byte>)
    requires IsInner(s) && !st.escape && (st.inString || st.inBracket)
    ensures Sweep(st, s) == Some(st)
    decreases |s|
  {
    if s != [] {
      assert IsInner(s[1..]);
      InnerSweeps(st, s[1..]);
    }
  }

  /** Commas between quotes or brackets end nothing; a quote or a bracket that is not closed makes the parameter invalid. */
  lemma Unclosed(letter: byte, s: seq<byte>)
    requires IsInner(s)
    ensures FindEnd(OUTSIDE, [34] + s + [34]) == Some(|s| + 2) && Parse([letter], [34] + s) == Parsed(-1, [])
    ensures FindEnd(OUTSIDE, [91] + s + [93]) == Some(|s| + 2) && Parse([letter], [91] + s) == Parsed(-1, [])
  {
    hide Sweep, FindEnd, Parse, IsInner;
    var bracket := Scan(false, true, false);
    SweepOne(OUTSIDE, 34);
    SweepOne(OUTSIDE, 91);
    InnerSweeps(INSIDE, s);
    InnerSweeps(bracket, s);
    SweepConcat(OUTSIDE, [34], s);
    SweepConcat(OUTSIDE, [91], s);
    EndsInside(letter, [34] + s, INSIDE);
    EndsInside(letter, [91] + s, bracket);
    SweepOne(INSIDE, 34);
    SweepOne(bracket, 93);
    SweepConcat(OUTSIDE, [34] + s, [34]);
    SweepConcat(OUTSIDE, [91] + s, [93]);
    EndsThere([34] + s + [34], []);
    EndsThere([91] + s + [93], []);
    assert [34] + s + [34] + [] == [34] + s + [34] && [91] + s + [93] + [] == [91] + s + [93];
  }

  lemma EndsInside(letter: byte, t: seq<byte>, st: Scan)
    requires Sweep(OUTSIDE, t) == Some(st) && st != OUTSIDE
    ensures Parse([letter], t) == Parsed(-1, [])
  {
    hide Sweep, Parse;
    FindEndAfter(OUTSIDE, t, []);
    assert t + [] == t;
    ParseSingle(letter, t);
  }
}
