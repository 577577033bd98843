/**
 Typed parameter lists: the send loop that prints them and the parser that
 reads them back, decoding strings, byte strings and integer lists in place.
 */
module AtCodec {
  import opened Bytes
  import opened Chars
  import opened AtEscape
  import opened AtParams
  import opened AtAddress
  import AtReceiver

  const BUF_SIZE: nat := 42
  const CR: byte := 13

  const FMT_DIGIT: byte := 100
  const FMT_INTS: byte := 108
  const FMT_STR: byte := 115
  const FMT_BIN: byte := 36
  const FMT_IP: byte := 105
  const FMT_MAC: byte := 109
  const FMT_BD: byte := 98
  const FMT_HEX: byte := 104

  /** A parameter; Skipped stands for '-' and for letters that are not known. */
  datatype Value =
    | Digit(n: int)
    | Ints(vs: seq<int>)
    | Str(s: seq<byte>)
    | Bin(s: seq<byte>)
    | IpAddress(ip: Ip)
    | Mac(address: seq<byte>)
    | BdAddress(bd: Bd)
    | Hex(data: seq<byte>)
    | Skipped

  /** What the C types can hold. */
  predicate IsValue(v: Value) {
    match v
    case Digit(n) => INT32_MIN <= n <= INT32_MAX
    case Ints(vs) => forall i :: 0 <= i < |vs| ==> IsInt16(vs[i])
    case Str(s) => NoZero(s)
    case IpAddress(ip) => IsIp(ip)
    case Mac(a) => IsAddress(a)
    case BdAddress(bd) => IsAddress(bd.address)
    case _ => true
  }

  function FormatLetter(v: Value): byte {
    match v
    case Digit(_) => FMT_DIGIT
    case Ints(_) => FMT_INTS
    case Str(_) => FMT_STR
    case Bin(_) => FMT_BIN
    case IpAddress(_) => FMT_IP
    case Mac(_) => FMT_MAC
    case BdAddress(_) => FMT_BD
    case Hex(_) => FMT_HEX
    case Skipped => MINUS
  }

  function Format(vs: seq<Value>): (r: seq<byte>)
    ensures |r| == |vs|
  {
    if vs == [] then [] else [FormatLetter(vs[0])] + Format(vs[1..])
  }

  // ----- printing -----

  function RawQuoted(s: seq<byte>): seq<byte> {
    [QUOTE] + s + [QUOTE]
  }

  /** Escaped if that fits the buffer, and as it is between quotes if not. */
  function StringText(s: seq<byte>): seq<byte> {
    if |Quoted(s)| < BUF_SIZE then Quoted(s) else RawQuoted(s)
  }

  function ValueText(v: Value): seq<byte>
    requires IsValue(v)
  {
    match v
    case Digit(n) => SignedDecimal(n)
    case Ints(vs) => IntListText(vs)
    case Str(s) => StringText(s)
    case Bin(s) => StringText(s)
    case IpAddress(ip) => IpText(ip)
    case Mac(a) => MacText(a)
    case BdAddress(bd) => BdText(bd)
    case Hex(data) => HexOf(data)
    case Skipped => []
  }

  predicate AllValues(vs: seq<Value>) {
    forall i :: 0 <= i < |vs| ==> IsValue(vs[i])
  }

  /** The parameters with commas between them. */
  function ListText(vs: seq<Value>): seq<byte>
    requires AllValues(vs)
  {
    if vs == [] then []
    else ListText(vs[..|vs| - 1]) + (if |vs| == 1 then [] else [COMMA]) + ValueText(vs[|vs| - 1])
  }

  /** The transmit side of the UART. */
  class Output {
    var sent: seq<byte>

    constructor ()
      ensures sent == []
    {
      sent := [];
    }

    method Write(bytes: seq<byte>)
      modifies this
      ensures sent == old(sent) + bytes
    {
      sent := sent + bytes;
    }
  }

  /** uCxAtClientSendCmdVaList: the command, its parameters, and either a CR or the binary data. */
  method SendCmd(out: Output, cmd: seq<byte>, values: seq<Value>, binary: Option<seq<byte>>)
    requires AllValues(values) && (binary.Some? ==> binary.value != [])
    modifies out
    ensures out.sent == old(out.sent) + cmd + ListText(values) + (if binary.Some? then AtReceiver.BinaryFrame(binary.value) else [CR])
  {
    hide ValueText;
    var buf := new byte[BUF_SIZE];
    out.Write(cmd);
    assert values[..0] == [];
    for i := 0 to |values|
      invariant out.sent == old(out.sent) + cmd + ListText(values[..i])
    {
      assert values[..i + 1][..i] == values[..i];
      if i > 0 {
        out.Write([COMMA]);
      }
      SendValue(out, buf, values[i]);
    }
    assert values[..|values|] == values;
    if binary.Some? {
      SendFrame(out, binary.value);
    } else {
      out.Write([CR]);
    }
  }

  /** The 'B' case: SOH, the length in sixteen bits with the high octet first, and the data. */
  method SendFrame(out: Output, data: seq<byte>)
    modifies out
    ensures out.sent == old(out.sent) + AtReceiver.BinaryFrame(data)
  {
    out.Write([AtReceiver.SOH, |data| / 256 % 256, |data| % 256]);
    out.Write(data);
  }

  /** One case of the send loop's switch. */
  method SendValue(out: Output, buf: array<byte>, v: Value)
    requires IsValue(v) && buf.Length == BUF_SIZE
    modifies out, buf
    ensures out.sent == old(out.sent) + ValueText(v)
  {
    hide SignedDecimal, IntListText, StringText, IpText, MacText, BdText, HexOf;
    match v {
      case Digit(n) =>
        out.Write(SignedDecimal(n));
      case Ints(vs) =>
        SendInts(out, vs);
      case Str(s) =>
        SendString(out, buf, s);
      case Bin(s) =>
        SendString(out, buf, s);
      case IpAddress(ip) =>
        IpTextFits(ip);
        var len := IpToString(ip, buf, BUF_SIZE);
        out.Write(buf[..len]);
      case Mac(a) =>
        MacTextSize(a);
        var len := MacToString(a, buf, BUF_SIZE);
        out.Write(buf[..len]);
      case BdAddress(bd) =>
        BdTextSize(bd);
        var len := BdToString(bd, buf, BUF_SIZE);
        out.Write(buf[..len]);
      case Hex(data) =>
        SendHex(out, buf, data);
      case Skipped =>
    }
  }

  lemma MacTextSize(a: seq<byte>)
    ensures |MacText(a)| == 2 * |a|
  {
  }

  lemma BdTextSize(bd: Bd)
    ensures |BdText(bd)| == 2 * |bd.address| + 1
  {
  }

  method SendString(out: Output, buf: array<byte>, s: seq<byte>)
    requires buf.Length == BUF_SIZE
    modifies out, buf
    ensures out.sent == old(out.sent) + StringText(s)
  {
    hide Escape;
    var len := WriteEscString(s, buf, BUF_SIZE);
    if len > 0 {
      out.Write(buf[..len]);
    } else {
      out.Write([QUOTE]);
      out.Write(s);
      out.Write([QUOTE]);
    }
  }

  /** Each number goes out with the bracket or the comma in front of it. */
  method SendInts(out: Output, vs: seq<int>)
    modifies out
    ensures out.sent == old(out.sent) + IntListText(vs)
  {
    hide SignedDecimal, CommaList;
    JoinedShape(vs);
    if |vs| == 0 {
      out.Write([LBRACKET, RBRACKET]);
    } else {
      assert vs[..0] == [];
      for i := 0 to |vs|
        invariant out.sent == old(out.sent) + if i == 0 then [] else [LBRACKET] + CommaList(vs[..i])
      {
        assert vs[..i + 1] == vs[..i] + [vs[i]];
        JoinedSnoc(vs[..i], vs[i]);
        out.Write([if i == 0 then LBRACKET else COMMA] + SignedDecimal(vs[i]));
      }
      assert vs[..|vs|] == vs;
      out.Write([RBRACKET]);
    }
  }

  /** Octets as hex text, in chunks that fit the buffer. */
  method SendHex(out: Output, buf: array<byte>, data: seq<byte>)
    requires buf.Length == BUF_SIZE
    modifies out, buf
    ensures out.sent == old(out.sent) + HexOf(data)
  {
    hide HexOf;
    var chunkSize := (BUF_SIZE - 1) / 2;
    var at := 0;
    HexOfNone();
    assert data[..0] == [];
    while at < |data|
      invariant 0 <= at <= |data|
      invariant out.sent == old(out.sent) + HexOf(data[..at])
    {
      var n := if |data| - at < chunkSize then |data| - at else chunkSize;
      var ok := BinaryToHex(Some(data[at..at + n]), n, buf, BUF_SIZE, false);
      out.Write(buf[..2 * n]);
      HexOfConcat(data[..at], data[at..at + n]);
      assert data[..at] + data[at..at + n] == data[..at + n];
      at := at + n;
    }
    assert data[..|data|] == data;
  }

  lemma {:induction false} HexOfConcat(a: seq<byte>, b: seq<byte>)
    ensures HexOf(a + b) == HexOf(a) + HexOf(b)
    decreases |b|
  {
    hide NibbleToHex;
    if b == [] {
      assert a + b == a;
    } else {
      var n := |b| - 1;
      assert (a + b)[..|a + b| - 1] == a + b[..n];
      HexOfConcat(a, b[..n]);
    }
  }

  // ----- parsing -----

  /** A C string ends at its first zero. */
  function CString(s: seq<byte>): (r: seq<byte>)
    ensures NoZero(r) && r <= s && (NoZero(s) ==> r == s) && (|r| < |s| ==> s[|r|] == 0)
  {
    if s == [] || s[0] == 0 then []
    else
      assert forall i :: 1 <= i < |s| ==> s[i] == s[1..][i - 1];
      [s[0]] + CString(s[1..])
  }

  function StripStr(t: seq<byte>): seq<byte> {
    if |t| >= 2 && t[0] == QUOTE then t[1..|t| - 1] else t
  }

  function StripBin(t: seq<byte>): seq<byte> {
    if t == [] || t[0] != QUOTE then t
    else if |t| >= 2 && t[|t| - 1] == QUOTE then t[1..|t| - 1]
    else t[1..]
  }

  /** One case of the parser's switch, on the text of the parameter. */
  function ParseValue(letter: byte, t: seq<byte>): Option<Value> {
    if letter == FMT_DIGIT then
      if t != [] && (t[0] == MINUS || IsDigit(t[0])) && Strtol(t).len == |t| then Some(Digit(Strtol(t).value)) else None
    else if letter == FMT_INTS then ParsedInts(t)
    else if letter == FMT_STR then Some(Str(CString(Unescape(StripStr(t)))))
    else if letter == FMT_BIN then Some(Bin(Unescape(StripBin(t))))
    else if letter == FMT_IP then ParsedIp(t)
    else if letter == FMT_MAC then ParsedMac(t)
    else if letter == FMT_BD then ParsedBd(t)
    else if letter == FMT_HEX then ParsedHex(t)
    else Some(Skipped)
  }

  function ParsedInts(t: seq<byte>): Option<Value> {
    match ParseIntList(t) case None => None case Some(vs) => Some(Ints(vs))
  }

  function ParsedIp(t: seq<byte>): Option<Value> {
    match ParseIp(t) case None => None case Some(ip) => Some(IpAddress(ip))
  }

  function ParsedMac(t: seq<byte>): Option<Value> {
    match ParseMac(t) case None => None case Some(a) => Some(Mac(a))
  }

  function ParsedBd(t: seq<byte>): Option<Value> {
    match ParseBd(t) case None => None case Some(bd) => Some(BdAddress(bd))
  }

  function ParsedHex(t: seq<byte>): Option<Value> {
    match HexBytes(t) case None => None case Some(data) => Some(Hex(data))
  }

  /** The number of parameters read, or minus the number of the one that is wrong; and the values so far. */
  datatype Parsed = Parsed(ret: int, values: seq<Value>)

  /** uCxAtUtilParseParamsVaList as a function of the text, with n parameters already read. */
  function ParseFrom(fmt: seq<byte>, t: seq<byte>, n: nat): (r: Parsed)
    decreases |fmt|
  {
    if fmt == [] then Parsed(n, [])
    else
      match FindEnd(OUTSIDE, t)
      case None => Parsed(-(n + 1), [])
      case Some(k) =>
        match ParseValue(fmt[0], t[..k])
        case None => Parsed(-(n + 1), [])
        case Some(v) =>
          if k == |t| then Parsed(n + 1, [v])
          else
            var rest := ParseFrom(fmt[1..], t[k + 1..], n + 1);
            Parsed(rest.ret, [v] + rest.values)
  }

  function Parse(fmt: seq<byte>, t: seq<byte>): Parsed {
    ParseFrom(fmt, t, 0)
  }

  /** The count is that of the values; a negative one is minus the number of the first bad parameter. */
  lemma {:induction false} CountIsExact(fmt: seq<byte>, t: seq<byte>, n: nat)
    ensures var p := ParseFrom(fmt, t, n);
      && |p.values| <= |fmt|
      && (p.ret == n + |p.values| || (p.ret == -(n + |p.values| + 1) && |p.values| < |fmt|))
    decreases |fmt|
  {
    hide ParseValue, FindEnd;
    if fmt != [] {
      match FindEnd(OUTSIDE, t) {
        case None =>
        case Some(k) =>
          if k < |t| { CountIsExact(fmt[1..], t[k + 1..], n + 1); }
      }
    }
  }

  const LETTERS: set<byte> := {FMT_DIGIT, FMT_INTS, FMT_STR, FMT_BIN, FMT_IP, FMT_MAC, FMT_BD, FMT_HEX}

  /** Each value is of the kind its format letter asks for; only unknown letters are passed over. */
  lemma {:induction false} ValuesMatchFormat(fmt: seq<byte>, t: seq<byte>, n: nat)
    ensures var p := ParseFrom(fmt, t, n);
      forall i :: 0 <= i < |p.values| && i < |fmt| ==>
        if fmt[i] in LETTERS then FormatLetter(p.values[i]) == fmt[i] else p.values[i] == Skipped
    decreases |fmt|
  {
    hide FindEnd, Strtol, Unescape, ParseIp, ParseMac, ParseBd, ParseIntList, HexBytes;
    if fmt != [] {
      match FindEnd(OUTSIDE, t) {
        case None =>
        case Some(k) =>
          if k < |t| { ValuesMatchFormat(fmt[1..], t[k + 1..], n + 1); }
      }
    }
  }

  // ----- the round trip -----

  predicate Recognised(c: byte) {
    Letter(c).Some? || c == LOWER_X
  }

  /** No backslash in the string starts an escape that the decoder knows. */
  predicate NoEscapes(s: seq<byte>)
    decreases |s|
  {
    if s == [] then true
    else if s[0] == BACKSLASH && |s| > 1 then !Recognised(s[1]) && NoEscapes(s[2..])
    else NoEscapes(s[1..])
  }

  /** What a string that does not fit escaped must be like: one parameter when quoted, and no escapes. */
  predicate RawSafe(s: seq<byte>) {
    NoZero(s) && Sweep(OUTSIDE, RawQuoted(s)) == Some(OUTSIDE) && NoEscapes(s)
  }

  /** The values that come back as they were sent. */
  predicate Survives(v: Value) {
    && IsValue(v)
    && match v
       case Str(s) => |Quoted(s)| < BUF_SIZE || RawSafe(s)
       case Bin(s) => |Quoted(s)| < BUF_SIZE || RawSafe(s)
       case BdAddress(bd) => bd.kind != Unknown
       case Skipped => false
       case _ => true
  }

  predicate AllSurvive(vs: seq<Value>) {
    forall i :: 0 <= i < |vs| ==> Survives(vs[i])
  }

  predicate StartsEscape(s: seq<byte>) {
    |s| > 1 && s[0] == BACKSLASH && Recognised(s[1])
  }

  lemma KeepsOne(s: seq<byte>)
    requires s != []
    ensures var p := UnescapeOne(s); if StartsEscape(s) then |p.out| < p.used else p.out == s[..p.used]
    ensures NoEscapes(s) <==> !StartsEscape(s) && NoEscapes(s[UnescapeOne(s).used..])
  {
    hide HexToByte, Letter;
    assert s[..1] == [s[0]];
    assert |s| > 1 ==> s[..2] == [s[0], s[1]];
  }

  lemma {:induction false} UnescapeKeeps(s: seq<byte>)
    ensures Unescape(s) == s <==> NoEscapes(s)
    ensures !NoEscapes(s) ==> |Unescape(s)| < |s|
    decreases |s|
  {
    hide UnescapeOne, Unescape, NoEscapes, StartsEscape;
    if s == [] {
      UnescapeNone();
      NothingToEscape();
    } else {
      var p := UnescapeOne(s);
      KeepsOne(s);
      UnescapeStep(s);
      UnescapeKeeps(s[p.used..]);
      assert s == s[..p.used] + s[p.used..];
    }
  }

  lemma NothingToEscape()
    ensures NoEscapes([])
  {
  }

  lemma {:induction false} FindEndSweeps(st: Scan, t: seq<byte>)
    requires FindEnd(st, t) == Some(|t|)
    ensures Sweep(st, t) == Some(OUTSIDE)
    decreases |t|
  {
    if t != [] {
      FindEndSweeps(ScanStep(st, t[0]), t[1..]);
    }
  }

  /** A string without quotes and backslashes can always be sent as it is. */
  lemma {:induction false} CleanSweeps(s: seq<byte>)
    requires QUOTE !in s && BACKSLASH !in s
    ensures Sweep(INSIDE, s) == Some(INSIDE) && NoEscapes(s)
    decreases |s|
  {
    if s != [] {
      assert s[0] in s;
      CleanSweeps(s[1..]);
    }
  }

  lemma CleanIsRawSafe(s: seq<byte>)
    requires QUOTE !in s && BACKSLASH !in s && NoZero(s)
    ensures RawSafe(s)
  {
    hide Sweep;
    CleanSweeps(s);
    SweepQuotes(s);
  }

  lemma StringSwept(s: seq<byte>)
    requires |Quoted(s)| < BUF_SIZE || RawSafe(s)
    ensures Sweep(OUTSIDE, StringText(s)) == Some(OUTSIDE)
  {
    hide Sweep, Escape;
    if |Quoted(s)| < BUF_SIZE {
      SweepEscape(s);
      SweepQuotes(Escape(s));
    }
  }

  /** Each printed value is exactly one parameter for the tokenizer. */
  lemma ValueSwept(v: Value)
    requires Survives(v)
    ensures Sweep(OUTSIDE, ValueText(v)) == Some(OUTSIDE)
  {
    hide Sweep, StringText, SignedDecimal, CommaList, HexOf, RawSafe, Dotted, Colons, Groups, Octets;
    match v {
      case Digit(n) => SweepPlain(SignedDecimal(n));
      case Ints(vs) => SweepBrackets(CommaList(vs));
      case Str(s) => StringSwept(s);
      case Bin(s) => StringSwept(s);
      case IpAddress(ip) =>
        match ip {
          case V4(addr) => SweepPlain(Dotted(Octets(addr)));
          case V6(words) => SweepBrackets(Colons(Groups(words)));
        }
      case Mac(a) => SweepPlain(HexOf(a));
      case BdAddress(bd) => SweepPlain(BdText(bd));
      case Hex(data) => SweepPlain(HexOf(data));
    }
  }

  lemma StringParsed(s: seq<byte>)
    requires |Quoted(s)| < BUF_SIZE || RawSafe(s)
    ensures Unescape(StripStr(StringText(s))) == s && Unescape(StripBin(StringText(s))) == s
  {
    hide Unescape, Escape, Sweep;
    var t := StringText(s);
    if |Quoted(s)| < BUF_SIZE {
      assert t[1..|t| - 1] == Escape(s);
      EscapeRoundTrip(s);
    } else {
      assert t[1..|t| - 1] == s;
      UnescapeKeeps(s);
    }
  }

  /** Each printed value is read back as it was. */
  lemma ValueParsed(v: Value)
    requires Survives(v)
    ensures ParseValue(FormatLetter(v), ValueText(v)) == Some(v)
  {
    hide StringText, SignedDecimal, IntListText, HexOf, RawSafe, IpText, ParseIp, ParseMac, ParseBd, BdText, MacText,
         ParseIntList, HexBytes, Unescape, StripStr, StripBin, Strtol;
    match v {
      case Digit(n) =>
        StrtolOfDecimal(n, []);
        assert SignedDecimal(n) + [] == SignedDecimal(n);
      case Ints(vs) => IntListRoundTrip(vs);
      case Str(s) => StringParsed(s);
      case Bin(s) => StringParsed(s);
      case IpAddress(ip) => IpRoundTrip(ip);
      case Mac(a) => MacRoundTrip(a);
      case BdAddress(bd) => BdRoundTrip(bd);
      case Hex(data) => HexBytesOf(data);
    }
  }

  /** The same list, split off at the front. */
  lemma {:induction false} ListTextFirst(vs: seq<Value>)
    requires AllValues(vs) && vs != []
    ensures ListText(vs) == ValueText(vs[0]) + (if |vs| == 1 then [] else [COMMA] + ListText(vs[1..]))
    decreases |vs|
  {
    hide ValueText;
    var n := |vs| - 1;
    if n == 0 {
      assert vs[..0] == [];
    } else {
      ListTextFirst(vs[..n]);
      assert vs[..n][1..] == vs[1..][..n - 1];
      assert n == 1 ==> vs[1..][..0] == [];
    }
  }

  /** One parameter read, and how the rest of the text goes on from there. */
  lemma ParseFirst(fmt: seq<byte>, first: seq<byte>, rest: seq<byte>, n: nat, v: Value)
    requires fmt != [] && (rest == [] || rest[0] == COMMA)
    requires Sweep(OUTSIDE, first) == Some(OUTSIDE) && ParseValue(fmt[0], first) == Some(v)
    ensures rest == [] ==> ParseFrom(fmt, first + rest, n) == Parsed(n + 1, [v])
    ensures rest != [] ==>
      ParseFrom(fmt, first + rest, n) == Parsed(ParseFrom(fmt[1..], rest[1..], n + 1).ret,
                                                [v] + ParseFrom(fmt[1..], rest[1..], n + 1).values)
  {
    hide ParseValue, Sweep, FindEnd;
    var t := first + rest;
    EndsThere(first, rest);
    assert t[..|first|] == first;
    assert rest != [] ==> t[|first| + 1..] == rest[1..];
  }

  lemma {:induction false} ParseListFrom(vs: seq<Value>, n: nat)
    requires AllSurvive(vs) && AllValues(vs)
    ensures ParseFrom(Format(vs), ListText(vs), n) == Parsed(n + |vs|, vs)
    decreases |vs|
  {
    if vs != [] {
      hide ValueText, ParseValue, Sweep, FindEnd, ListText, FormatLetter, Survives, ParseFrom;
      ListTextFirst(vs);
      ValueSwept(vs[0]);
      ValueParsed(vs[0]);
      var rest := if |vs| == 1 then [] else [COMMA] + ListText(vs[1..]);
      ParseFirst(Format(vs), ValueText(vs[0]), rest, n, vs[0]);
      if |vs| > 1 {
        assert rest[1..] == ListText(vs[1..]);
        ParseListFrom(vs[1..], n + 1);
        assert [vs[0]] + vs[1..] == vs;
      } else {
        assert vs == [vs[0]] && ValueText(vs[0]) + rest == ListText(vs);
      }
    }
  }

  lemma StringTextHasNoZero(s: seq<byte>)
    requires |Quoted(s)| < BUF_SIZE || NoZero(s)
    ensures NoZero(StringText(s))
  {
    EscapeIsPrintable(s);
  }

  lemma ValueTextHasNoZero(v: Value)
    requires Survives(v)
    ensures NoZero(ValueText(v))
  {
    hide StringText, SignedDecimal, CommaList, HexOf, RawSafe, Dotted, Colons, Groups, Octets;
    match v {
      case Str(s) => RawHasNoZero(s); StringTextHasNoZero(s);
      case Bin(s) => RawHasNoZero(s); StringTextHasNoZero(s);
      case _ =>
    }
  }

  lemma RawHasNoZero(s: seq<byte>)
    ensures RawSafe(s) ==> NoZero(s)
  {
  }

  lemma {:induction false} ListTextHasNoZero(vs: seq<Value>)
    requires AllSurvive(vs) && AllValues(vs)
    ensures NoZero(ListText(vs))
  {
    hide ValueText, Survives;
    if vs != [] {
      ListTextHasNoZero(vs[..|vs| - 1]);
      ValueTextHasNoZero(vs[|vs| - 1]);
    }
  }

  /** Any list of surviving values, printed and parsed with the same format, comes back whole and equal. */
  lemma RoundTrip(vs: seq<Value>)
    requires AllSurvive(vs) && AllValues(vs)
    ensures NoZero(ListText(vs)) && Parse(Format(vs), ListText(vs)) == Parsed(|vs|, vs)
  {
    ParseListFrom(vs, 0);
    ListTextHasNoZero(vs);
  }

  /** A string sent as the last parameter comes back exactly when it fits escaped or needs no escaping. */
  lemma StrSurvivesIff(s: seq<byte>)
    requires NoZero(s)
    ensures Parse([FMT_STR], StringText(s)) == Parsed(1, [Str(s)]) <==> |Quoted(s)| < BUF_SIZE || RawSafe(s)
  {
    if |Quoted(s)| < BUF_SIZE || RawSafe(s) {
      hide Sweep, FindEnd, Parse, StringText, RawSafe, Escape, ParseValue;
      var t := StringText(s);
      StringSwept(s);
      EndsThere(t, []);
      assert t + [] == t && t[..|t|] == t;
      ValueParsed(Str(s));
      ParseSingle(FMT_STR, t);
    } else {
      RawStringLost(s);
    }
  }

  /** A format of one letter. */
  lemma ParseSingle(letter: byte, t: seq<byte>)
    ensures FindEnd(OUTSIDE, t).None? ==> Parse([letter], t) == Parsed(-1, [])
    ensures FindEnd(OUTSIDE, t).Some? && ParseValue(letter, t[..FindEnd(OUTSIDE, t).value]).Some? ==>
      Parse([letter], t) == Parsed(1, [ParseValue(letter, t[..FindEnd(OUTSIDE, t).value]).value])
  {
    hide FindEnd, ParseValue;
    assert [letter][1..] == [];
    match FindEnd(OUTSIDE, t) {
      case None =>
      case Some(k) =>
        var v := ParseValue(letter, t[..k]);
        assert v.Some? ==> [v.value] + [] == [v.value];
        assert k < |t| ==> ParseFrom([], t[k + 1..], 1) == Parsed(1, []);
    }
  }

  lemma RawStringLost(s: seq<byte>)
    requires NoZero(s) && !RawSafe(s)
    ensures Parse([FMT_STR], RawQuoted(s)) != Parsed(1, [Str(s)])
  {
    hide Sweep, FindEnd, Unescape, NoEscapes, Parse;
    var t := RawQuoted(s);
    ParseSingle(FMT_STR, t);
    match FindEnd(OUTSIDE, t) {
      case None =>
      case Some(k) =>
        QuotedIsLong(t);
        if k == |t| {
          FindEndSweeps(OUTSIDE, t);
          assert StripStr(t[..k]) == s;
          UnescapeKeeps(s);
          assert |CString(Unescape(s))| < |s|;
        } else {
          assert |CString(Unescape(StripStr(t[..k])))| <= k - 2 < |s|;
        }
    }
  }

  /** The same for '$', whose receiver's text ends at the first zero if one is sent as it is. */
  lemma BinSurvivesIff(s: seq<byte>)
    ensures Parse([FMT_BIN], CString(StringText(s))) == Parsed(1, [Bin(s)]) <==> |Quoted(s)| < BUF_SIZE || RawSafe(s)
  {
    if |Quoted(s)| < BUF_SIZE || RawSafe(s) {
      hide Sweep, FindEnd, Parse, StringText, RawSafe, Escape, ParseValue;
      var t := StringText(s);
      StringSwept(s);
      EndsThere(t, []);
      assert t + [] == t && t[..|t|] == t;
      ValueParsed(Bin(s));
      RawHasNoZero(s);
      StringTextHasNoZero(s);
      ParseSingle(FMT_BIN, t);
    } else {
      RawBinLost(s);
    }
  }

  lemma RawBinLost(s: seq<byte>)
    requires !RawSafe(s)
    ensures Parse([FMT_BIN], CString(RawQuoted(s))) != Parsed(1, [Bin(s)])
  {
    hide Sweep, FindEnd, Unescape, NoEscapes, Parse;
    var whole := RawQuoted(s);
    var t := CString(whole);
    assert whole[0] == QUOTE && t != [];
    ParseSingle(FMT_BIN, t);
    match FindEnd(OUTSIDE, t) {
      case None =>
      case Some(k) =>
        QuotedIsLong(t);
        if k == |whole| {
          assert t == whole && NoZero(s) by {
            assert forall i :: 0 <= i < |s| ==> s[i] == whole[i + 1];
          }
          FindEndSweeps(OUTSIDE, t);
          assert StripBin(t[..k]) == s;
          UnescapeKeeps(s);
          assert |Unescape(s)| < |s|;
        } else {
          assert whole[k] == COMMA || whole[k] == 0;
          assert k <= |s|;
          assert |Unescape(StripBin(t[..k]))| <= k - 1 < |s|;
        }
    }
  }

  /** For instance, a long string with a line break spelled out comes back with a line break. */
  lemma {:induction false} SpelledOutBreakIsLost(n: nat)
    requires n >= BUF_SIZE
    ensures var s := Fill(n, 97) + [BACKSLASH, 110];
      NoZero(s) && Parse([FMT_STR], StringText(s)) != Parsed(1, [Str(s)])
  {
    hide Escape, Parse;
    var s := Fill(n, 97) + [BACKSLASH, 110];
    BreakIsEscape(n);
    EscapeLonger(s);
    StrSurvivesIff(s);
  }

  lemma {:induction false} BreakIsEscape(n: nat)
    ensures !NoEscapes(Fill(n, 97) + [BACKSLASH, 110])
  {
    var s := Fill(n, 97) + [BACKSLASH, 110];
    if n > 0 {
      BreakIsEscape(n - 1);
      assert s[1..] == Fill(n - 1, 97) + [BACKSLASH, 110];
    }
  }

  lemma {:induction false} EscapeLonger(s: seq<byte>)
    ensures |Escape(s)| >= |s|
  {
    if s != [] {
      EscapeLonger(s[..|s| - 1]);
    }
  }
}
