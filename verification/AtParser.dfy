/**
 The parameter parser as it works on its buffer: each parameter is ended by a
 zero and decoded where it stands, and the results point into the buffer.
 */
module AtParser {
  import opened Bytes
  import opened Chars
  import opened AtEscape
  import opened AtParams
  import AtAddress
  import opened AtCodec

  /** What the parser stores for its caller: numbers and addresses by value, the rest by place. */
  datatype Out =
    | OutDigit(n: int)
    | OutInts(at: nat, count: nat)
    | OutStr(at: nat)
    | OutBin(at: nat, len: nat)
    | OutIp(ip: AtAddress.Ip)
    | OutMac(address: seq<byte>)
    | OutBd(bd: AtAddress.Bd)
    | OutHex(at: nat, len: nat)
    | OutSkipped

  /** What the caller reads through a result is the value. */
  predicate Holds(buf: seq<byte>, out: Out, v: Value) {
    match (out, v)
    case (OutDigit(n), Digit(m)) => n == m
    case (OutInts(at, count), Ints(vs)) => at + 2 * count <= |buf| && Int16s(buf[at..at + 2 * count]) == vs
    case (OutStr(at), Str(s)) => at + |s| < |buf| && NoZero(s) && buf[at..at + |s|] == s && buf[at + |s|] == 0
    case (OutBin(at, len), Bin(s)) => at + len <= |buf| && buf[at..at + len] == s
    case (OutIp(ip), IpAddress(jp)) => ip == jp
    case (OutMac(a), Mac(b)) => a == b
    case (OutBd(c), BdAddress(d)) => c == d
    case (OutHex(at, len), Hex(data)) => at + len <= |buf| && buf[at..at + len] == data
    case (OutSkipped, Skipped) => true
    case _ => false
  }

  lemma SliceStill(buf: seq<byte>, buf': seq<byte>, i: nat, j: nat)
    requires |buf| <= |buf'| && buf'[..|buf|] == buf && i <= j <= |buf|
    ensures buf'[i..j] == buf[i..j] && (j < |buf| ==> buf'[j] == buf[j])
  {
    assert forall k :: 0 <= k < |buf| ==> buf'[..|buf|][k] == buf'[k];
  }

  /** A result that lies in a part of the buffer that stays is not disturbed by what happens behind it. */
  lemma HoldsStill(buf: seq<byte>, buf': seq<byte>, out: Out, v: Value)
    requires Holds(buf, out, v) && |buf| <= |buf'| && buf'[..|buf|] == buf
    ensures Holds(buf', out, v)
  {
    hide Int16s;
    match (out, v) {
      case (OutInts(at, count), Ints(vs)) => SliceStill(buf, buf', at, at + 2 * count);
      case (OutStr(at), Str(s)) => SliceStill(buf, buf', at, at + |s|);
      case (OutBin(at, len), Bin(s)) => SliceStill(buf, buf', at, at + len);
      case (OutHex(at, len), Hex(data)) => SliceStill(buf, buf', at, at + len);
      case _ =>
    }
  }

  predicate AllHold(buf: seq<byte>, outs: seq<Out>, vs: seq<Value>) {
    |outs| == |vs| && forall i :: 0 <= i < |vs| ==> Holds(buf, outs[i], vs[i])
  }

  lemma AllHoldStill(buf: seq<byte>, buf': seq<byte>, outs: seq<Out>, vs: seq<Value>)
    requires AllHold(buf, outs, vs) && |buf| <= |buf'| && buf'[..|buf|] == buf
    ensures AllHold(buf', outs, vs)
  {
    hide Holds;
    forall i | 0 <= i < |vs| ensures Holds(buf', outs[i], vs[i]) {
      HoldsStill(buf, buf', outs[i], vs[i]);
    }
  }

  // ----- one parameter -----

  /** A text between at and end in the buffer; one that starts with a quote has another. */
  predicate IsText(a: seq<byte>, at: nat, end: nat) {
    at <= end < |a| && a[end] == 0 && NoZero(a[at..end]) && (a[at] == QUOTE ==> end >= at + 2)
  }

  /** The opening quote is skipped, the closing one overwritten with a zero. */
  method StripQuotes(a: array<byte>, at: nat, end: nat, binary: bool) returns (start: nat, stop: nat)
    requires IsText(a[..], at, end)
    modifies a
    ensures at <= start <= stop <= end && a[stop] == 0
    ensures a[start..stop] == if binary then StripBin(old(a[at..end])) else StripStr(old(a[at..end]))
    ensures NoZero(a[start..stop])
    ensures forall i :: 0 <= i < a.Length && i != stop ==> a[i] == old(a[i])
  {
    ghost var t := a[at..end];
    assert a[..][at..end] == t;
    assert t != [] ==> t[0] == a[at] && t[|t| - 1] == a[end - 1];
    start, stop := at, end;
    if a[at] == QUOTE {
      start := at + 1;
      if !binary || a[end - 1] == QUOTE {
        stop := end - 1;
        a[stop] := 0;
      }
    }
    assert forall i :: start <= i < stop ==> a[i] == t[i - at];
  }

  method DecodeStr(a: array<byte>, at: nat, end: nat) returns (out: Out)
    requires IsText(a[..], at, end)
    modifies a
    ensures Holds(a[..end + 1], out, Str(CString(Unescape(StripStr(old(a[at..end]))))))
    ensures forall i :: 0 <= i < at || end < i < a.Length ==> a[i] == old(a[i])
  {
    hide Unescape, StripStr, StripBin;
    ghost var u := Unescape(StripStr(a[at..end]));
    var start, stop := StripQuotes(a, at, end, false);
    var len := UnescapeString(a, start, stop);
    out := OutStr(start);
    CStringAt(a[..end + 1], start, len);
    assert a[..end + 1][start..start + len] == u;
  }

  /** The first zero at or after a place ends the string there. */
  lemma CStringAt(buf: seq<byte>, start: nat, len: nat)
    requires start + len < |buf| && buf[start + len] == 0
    ensures Holds(buf, OutStr(start), Str(CString(buf[start..start + len])))
  {
    var u := buf[start..start + len];
    var s := CString(u);
    assert buf[start..start + |s|] == u[..|s|];
    assert |s| < |u| ==> buf[start + |s|] == u[|s|];
  }

  method DecodeBin(a: array<byte>, at: nat, end: nat) returns (out: Out)
    requires IsText(a[..], at, end)
    modifies a
    ensures Holds(a[..end + 1], out, Bin(Unescape(StripBin(old(a[at..end])))))
    ensures forall i :: 0 <= i < at || end < i < a.Length ==> a[i] == old(a[i])
  {
    hide Unescape, StripStr, StripBin;
    var start, stop := StripQuotes(a, at, end, true);
    var len := UnescapeString(a, start, stop);
    out := OutBin(start, len);
    assert a[..end + 1][start..start + len] == a[start..start + len];
  }

  method DecodeInts(a: array<byte>, at: nat, end: nat) returns (out: Option<Out>)
    requires IsText(a[..], at, end)
    modifies a
    ensures out.Some? <==> ParsedInts(old(a[at..end])).Some?
    ensures out.Some? ==> Holds(a[..end + 1], out.value, ParsedInts(old(a[at..end])).value)
    ensures forall i :: 0 <= i < at || end < i < a.Length ==> a[i] == old(a[i])
  {
    hide ParseIntList, Int16s;
    var r, count := StringToIntList(a, at, end);
    out := if r < 0 then None else Some(OutInts(at, count));
    assert r == 0 ==> a[..end + 1][at..at + 2 * count] == a[at..at + 2 * count];
  }

  method DecodeHex(a: array<byte>, at: nat, end: nat) returns (out: Option<Out>)
    requires IsText(a[..], at, end)
    modifies a
    ensures out.Some? <==> ParsedHex(old(a[at..end])).Some?
    ensures out.Some? ==> Holds(a[..end + 1], out.value, ParsedHex(old(a[at..end])).value)
    ensures forall i :: 0 <= i < at || end < i < a.Length ==> a[i] == old(a[i])
  {
    hide HexBytes;
    var n, ok := HexInPlace(a, at, end);
    out := if ok then Some(OutHex(at, n)) else None;
    assert ok ==> a[..end + 1][at..at + n] == a[at..at + n];
  }

  /** The addresses are read from the text and leave it as it is. */
  method DecodeAddress(letter: byte, t: seq<byte>) returns (out: Option<Out>)
    requires letter in {FMT_IP, FMT_MAC, FMT_BD}
    ensures out.Some? <==> ParseValue(letter, t).Some?
    ensures out.Some? ==> Holds([], out.value, ParseValue(letter, t).value)
  {
    hide AtAddress.ParseIp, AtAddress.ParseMac, AtAddress.ParseBd;
    out := None;
    if letter == FMT_IP {
      var ip := AtAddress.IpFromString(t);
      if ip.Some? { out := Some(OutIp(ip.value)); }
    } else {
      var bytes := new byte[ADDR_LEN];
      if letter == FMT_MAC {
        var r := AtAddress.MacFromString(t, bytes);
        if r >= 0 { out := Some(OutMac(bytes[..])); }
      } else {
        var r, kind := AtAddress.BdFromString(t, bytes);
        if r >= 0 { out := Some(OutBd(AtAddress.Bd(bytes[..], kind))); }
      }
    }
  }

  /** The parser's switch: nothing outside the parameter is touched. */
  method DecodeValue(a: array<byte>, letter: byte, at: nat, end: nat) returns (out: Option<Out>)
    requires IsText(a[..], at, end)
    modifies a
    ensures out.Some? <==> ParseValue(letter, old(a[at..end])).Some?
    ensures out.Some? ==> Holds(a[..end + 1], out.value, ParseValue(letter, old(a[at..end])).value)
    ensures forall i :: 0 <= i < at || end < i < a.Length ==> a[i] == old(a[i])
  {
    hide Unescape, StripStr, StripBin, Strtol, ParsedIp, ParsedMac, ParsedBd, ParsedInts, ParsedHex, CString;
    if letter == FMT_STR {
      var o := DecodeStr(a, at, end);
      out := Some(o);
    } else if letter == FMT_BIN {
      var o := DecodeBin(a, at, end);
      out := Some(o);
    } else if letter == FMT_INTS {
      out := DecodeInts(a, at, end);
    } else if letter == FMT_HEX {
      out := DecodeHex(a, at, end);
    } else {
      out := DecodePlain(a, letter, at, end);
    }
  }

  /** The cases that leave the text as it is. */
  method DecodePlain(a: array<byte>, letter: byte, at: nat, end: nat) returns (out: Option<Out>)
    requires IsText(a[..], at, end) && letter !in {FMT_STR, FMT_BIN, FMT_INTS, FMT_HEX}
    ensures out.Some? <==> ParseValue(letter, a[at..end]).Some?
    ensures out.Some? ==> Holds(a[..end + 1], out.value, ParseValue(letter, a[at..end]).value)
  {
    hide Strtol, ParsedIp, ParsedMac, ParsedBd;
    if letter == FMT_DIGIT {
      var n := Strtol(a[at..end]);
      assert at < end ==> a[at..end][0] == a[at];
      out := if (a[at] != MINUS && !IsDigit(a[at])) || at + n.len != end then None else Some(OutDigit(n.value));
    } else if letter == FMT_IP || letter == FMT_MAC || letter == FMT_BD {
      out := DecodeAddress(letter, a[at..end]);
      if out.Some? {
        HoldsStill([], a[..end + 1], out.value, ParseValue(letter, a[at..end]).value);
      }
    } else {
      out := Some(OutSkipped);
    }
  }

  // ----- the list -----

  /** The parse of the whole text, of which some values have been read. */
  function After(values: seq<Value>, rest: Parsed): Parsed {
    Parsed(rest.ret, values + rest.values)
  }

  /** One round of ParseFrom. */
  lemma ParseStep(fmt: seq<byte>, t: seq<byte>, n: nat, values: seq<Value>)
    requires fmt != []
    ensures
      var all := After(values, ParseFrom(fmt, t, n));
      match FindEnd(OUTSIDE, t)
      case None => all == Parsed(-(n + 1), values)
      case Some(k) =>
        match ParseValue(fmt[0], t[..k])
        case None => all == Parsed(-(n + 1), values)
        case Some(v) =>
          if k == |t| then all == Parsed(n + 1, values + [v])
          else all == After(values + [v], ParseFrom(fmt[1..], t[k + 1..], n + 1))
  {
    hide FindEnd, ParseValue;
    match FindEnd(OUTSIDE, t) {
      case None =>
      case Some(k) =>
        match ParseValue(fmt[0], t[..k]) {
          case None =>
          case Some(v) =>
            if k < |t| {
              var rest := ParseFrom(fmt[1..], t[k + 1..], n + 1);
              assert values + ([v] + rest.values) == values + [v] + rest.values;
            }
        }
    }
  }

  /**
   uCxAtUtilParseParamsVaList.  The result and everything its outputs point at are what the
   untouched text gives: decoding one parameter disturbs neither the ones before nor the ones after.
   */
  method ParseParams(a: array<byte>, from: nat, to: nat, fmt: seq<byte>) returns (ret: int, outs: seq<Out>)
    requires from <= to < a.Length && a[to] == 0 && NoZero(a[from..to])
    modifies a
    ensures ret == Parse(fmt, old(a[from..to])).ret
    ensures AllHold(a[..to + 1], outs, Parse(fmt, old(a[from..to])).values)
    ensures forall i :: 0 <= i < from || to < i < a.Length ==> a[i] == old(a[i])
  {
    hide ParseFrom, AllHold, After;
    ret, outs := 0, [];
    var at := from;
    var more := true;
    ghost var t := a[from..to];
    ghost var values: seq<Value> := [];
    ghost var all := Parse(fmt, t);
    Begin(a[..], fmt, t, from);
    var i := 0;
    while i < |fmt| && more
      invariant 0 <= i <= |fmt| && from <= at && (more ==> at <= to && ret == i)
      invariant more ==> (forall j :: at <= j <= to ==> a[j] == old(a[j]))
      invariant forall j :: 0 <= j < from || to < j < a.Length ==> a[j] == old(a[j])
      invariant more ==> AllHold(a[..at], outs, values) && all == After(values, ParseFrom(fmt[i..], t[at - from..], i))
      invariant !more ==> ret == all.ret && AllHold(a[..to + 1], outs, all.values)
      decreases |fmt| - i, more
    {
      assert a[at..to] == t[at - from..];
      assert fmt[i..][1..] == fmt[i + 1..];
      ghost var was := at;
      more, ret, outs, at, values := NextParam(a, fmt[i], at, to, i, fmt[i..], outs, values, all);
      assert more ==> t[was - from..][at - was..] == t[at - from..];
      i := i + 1;
    }
    if more {
      Finish(a[..at], a[..to + 1], fmt[i..], t[at - from..], i, outs, values);
    }
  }

  lemma Begin(a: seq<byte>, fmt: seq<byte>, t: seq<byte>, from: nat)
    requires from <= |a|
    ensures AllHold(a[..from], [], []) && Parse(fmt, t) == After([], ParseFrom(fmt[0..], t[0..], 0))
  {
    assert fmt[0..] == fmt && t[0..] == t;
    assert [] + Parse(fmt, t).values == Parse(fmt, t).values;
  }

  lemma Finish(buf: seq<byte>, buf': seq<byte>, fmt: seq<byte>, t: seq<byte>, n: nat, outs: seq<Out>, values: seq<Value>)
    requires fmt == [] && AllHold(buf, outs, values) && |buf| <= |buf'| && buf'[..|buf|] == buf
    ensures After(values, ParseFrom(fmt, t, n)) == Parsed(n, values) && AllHold(buf', outs, values)
  {
    AllHoldStill(buf, buf', outs, values);
    assert values + [] == values;
  }

  /** One round of the parser's loop. */
  method NextParam(a: array<byte>, letter: byte, at: nat, to: nat, n: nat, ghost fmt: seq<byte>,
                   outs0: seq<Out>, ghost values0: seq<Value>, ghost all: Parsed)
    returns (more: bool, ret: int, outs: seq<Out>, next: nat, ghost values: seq<Value>)
    requires at <= to < a.Length && a[to] == 0 && NoZero(a[at..to]) && fmt != [] && letter == fmt[0]
    requires AllHold(a[..at], outs0, values0) && all == After(values0, ParseFrom(fmt, a[at..to], n))
    modifies a
    ensures more ==>
      && at < next <= to && ret == n + 1
      && (forall j :: next <= j <= to ==> a[j] == old(a[j]))
      && AllHold(a[..next], outs, values)
      && all == After(values, ParseFrom(fmt[1..], old(a[at..to])[next - at..], n + 1))
    ensures !more ==> next == at && ret == all.ret && AllHold(a[..to + 1], outs, all.values)
    ensures forall j :: 0 <= j < at || to < j < a.Length ==> a[j] == old(a[j])
  {
    hide ParseFrom, AllHold, After, FindEnd, ParseValue, Holds;
    more, ret, outs, next, values := false, -(n + 1), outs0, at, values0;
    ghost var t := a[at..to];
    ParseStep(fmt, t, n, values0);
    AllHoldStill(a[..at], a[..to + 1], outs0, values0);
    var found := FindParamEnd(a, at, to);
    if found.Some? {
      more, ret, outs, next, values := TakeParam(a, letter, at, found.value, to, n, fmt, outs0, values0, all);
    }
  }

  /** Decodes the parameter that ends there. */
  method TakeParam(a: array<byte>, letter: byte, at: nat, end: nat, to: nat, n: nat, ghost fmt: seq<byte>,
                   outs0: seq<Out>, ghost values0: seq<Value>, ghost all: Parsed)
    returns (more: bool, ret: int, outs: seq<Out>, next: nat, ghost values: seq<Value>)
    requires at <= end <= to < a.Length && a[to] == 0 && NoZero(a[at..to]) && fmt != [] && letter == fmt[0]
    requires FindEnd(OUTSIDE, a[at..to]) == Some(end - at)
    requires AllHold(a[..at], outs0, values0) && all == After(values0, ParseFrom(fmt, a[at..to], n))
    modifies a
    ensures more ==>
      && at < next <= to && ret == n + 1
      && (forall j :: next <= j <= to ==> a[j] == old(a[j]))
      && AllHold(a[..next], outs, values)
      && all == After(values, ParseFrom(fmt[1..], old(a[at..to])[next - at..], n + 1))
    ensures !more ==> next == at && ret == all.ret && AllHold(a[..to + 1], outs, all.values)
    ensures forall j :: 0 <= j < at || to < j < a.Length ==> a[j] == old(a[j])
  {
    hide ParseFrom, AllHold, After, FindEnd, ParseValue, Holds;
    more, ret, outs, next, values := false, -(n + 1), outs0, at, values0;
    ghost var t := a[at..to];
    ParseStep(fmt, t, n, values0);
    ParamIsText(a[..], at, end, to);
    assert t[..end - at] == a[at..end];
    var last := a[end] == 0;
    a[end] := 0;
    assert a[at..end] == t[..end - at];
    ghost var before := a[..];
    var out := DecodeValue(a, letter, at, end);
    assert a[..at] == before[..at];
    if out.Some? {
      ghost var v := ParseValue(letter, t[..end - at]).value;
      AllHoldStill(before[..at], a[..end + 1], outs0, values0);
      outs, values := outs0 + [out.value], values0 + [v];
      AllHoldNext(a[..end + 1], outs0, values0, out.value, v);
      ret := n + 1;
      if !last {
        more, next := true, end + 1;
      }
    } else {
      AllHoldStill(before[..at], a[..to + 1], outs0, values0);
    }
  }

  lemma AllHoldNext(buf: seq<byte>, outs: seq<Out>, values: seq<Value>, out: Out, v: Value)
    requires AllHold(buf, outs, values) && Holds(buf, out, v)
    ensures AllHold(buf, outs + [out], values + [v])
  {
  }

  /** What the tokenizer delimits is a parameter text once its end has been overwritten with a zero. */
  lemma ParamIsText(a: seq<byte>, at: nat, end: nat, to: nat)
    requires at <= end <= to < |a| && NoZero(a[at..to]) && a[to] == 0
    requires FindEnd(OUTSIDE, a[at..to]) == Some(end - at)
    ensures IsText(a[end := 0], at, end) && (a[end] == 0 <==> end == to)
  {
    var t := a[at..to];
    assert end < to ==> a[end] == t[end - at];
    if at < to {
      assert t[0] == a[at];
      if t[0] == QUOTE { QuotedIsLong(t); }
    }
    var text := a[end := 0][at..end];
    assert forall i :: 0 <= i < end - at ==> text[i] == t[i];
  }
}
