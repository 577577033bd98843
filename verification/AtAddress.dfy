/** IPv4, IPv6, MAC and Bluetooth LE addresses: their text forms and the parsers that read them back. */
module AtAddress {
  import opened Bytes
  import opened Chars
  import opened AtParams

  const U32_BOUND := 0x1_0000_0000
  const IPV6_GROUPS: nat := 8
  const IPV6_TEXT_LEN: nat := 41
  const BD_STRING_SIZE: nat := 14

  /** The union of the C type; ipv6[3] holds the first 32 bits of an IPv6 address. */
  datatype Ip = V4(addr: nat) | V6(words: seq<nat>)

  predicate IsIp(ip: Ip) {
    match ip
    case V4(addr) => addr < U32_BOUND
    case V6(words) => |words| == 4 && forall i :: 0 <= i < 4 ==> words[i] < U32_BOUND
  }

  /** What has been read so far, followed by what the rest of the text gives. */
  function Prepend(ds: seq<nat>, rest: Option<seq<nat>>): Option<seq<nat>> {
    match rest
    case None => None
    case Some(more) => Some(ds + more)
  }

  lemma PrependTwice(ds: seq<nat>, d: nat, rest: Option<seq<nat>>)
    ensures Prepend(ds, Prepend([d], rest)) == Prepend(ds + [d], rest)
    ensures Prepend([], rest) == rest && Prepend(ds, Some([d])) == Some(ds + [d])
  {
    if rest.Some? {
      assert ds + ([d] + rest.value) == ds + [d] + rest.value;
      assert [] + rest.value == rest.value;
    }
  }

  lemma PrependNone(ds: seq<nat>)
    ensures Prepend(ds, None) == None
  {
  }

  // ----- IPv4 -----

  function Dotted(ds: seq<nat>): (r: seq<byte>)
    requires ds != []
    ensures r != [] && forall i :: 0 <= i < |r| ==> IsDigit(r[i]) || r[i] == DOT
  {
    if |ds| == 1 then Decimal(ds[0]) else Decimal(ds[0]) + [DOT] + Dotted(ds[1..])
  }

  function Octets(addr: nat): (r: seq<nat>)
    ensures |r| == 4
  {
    [addr / 0x100_0000 % 256, addr / 0x1_0000 % 256, addr / 256 % 256, addr % 256]
  }

  function FromOctets(ds: seq<nat>): nat
    requires |ds| == 4
  {
    ds[0] * 0x100_0000 + ds[1] * 0x1_0000 + ds[2] * 256 + ds[3]
  }

  /** n decimal numbers below 256 with dots between them, and nothing after them. */
  function ReadOctets(t: seq<byte>, n: nat): (r: Option<seq<nat>>)
    requires n > 0
    ensures r.Some? ==> |r.value| == n
    decreases n
  {
    if t == [] || !IsDigit(t[0]) then None
    else
      var d := Strtol(t);
      if d.value < 0 || d.value > 255 then None
      else if n == 1 then (if d.len == |t| then Some([d.value]) else None)
      else if d.len < |t| && t[d.len] == DOT then Prepend([d.value], ReadOctets(t[d.len + 1..], n - 1))
      else None
  }

  function ParseIpv4(t: seq<byte>): Option<Ip> {
    match ReadOctets(t, 4)
    case None => None
    case Some(ds) => Some(V4(FromOctets(ds)))
  }

  lemma StrtolOfOctet(d: nat, rest: seq<byte>)
    requires d < 256 && (rest == [] || !IsDigit(rest[0]))
    ensures Strtol(Decimal(d) + rest) == Number(d, |Decimal(d)|)
  {
    hide Strtol, Decimal;
    StrtolOfDecimal(d, rest);
  }

  lemma ReadOctetsStep(d: nat, rest: seq<byte>, n: nat)
    requires d < 256 && n > 0 && if n == 1 then rest == [] else rest != [] && rest[0] == DOT
    ensures n == 1 ==> ReadOctets(Decimal(d) + rest, n) == Some([d])
    ensures n > 1 ==> ReadOctets(Decimal(d) + rest, n) == Prepend([d], ReadOctets(rest[1..], n - 1))
  {
    hide Strtol, Decimal, Prepend;
    var t := Decimal(d) + rest;
    StrtolOfOctet(d, rest);
    assert rest != [] ==> t[|Decimal(d)| + 1..] == rest[1..];
  }

  lemma {:induction false} ReadDotted(ds: seq<nat>)
    requires ds != [] && forall i :: 0 <= i < |ds| ==> ds[i] < 256
    ensures ReadOctets(Dotted(ds), |ds|) == Some(ds)
    decreases |ds|
  {
    hide Decimal, ReadOctets;
    var rest := if |ds| == 1 then [] else [DOT] + Dotted(ds[1..]);
    assert Dotted(ds) == Decimal(ds[0]) + rest;
    ReadOctetsStep(ds[0], rest, |ds|);
    if |ds| == 1 {
      assert ds == [ds[0]];
    } else {
      assert rest[1..] == Dotted(ds[1..]);
      ReadDotted(ds[1..]);
      assert [ds[0]] + ds[1..] == ds;
    }
  }

  lemma OctetsRoundTrip(addr: nat)
    requires addr < U32_BOUND
    ensures FromOctets(Octets(addr)) == addr
    ensures forall i :: 0 <= i < 4 ==> Octets(addr)[i] < 256
  {
    var h := addr / 256;
    var hh := addr / 0x1_0000;
    assert addr == 256 * h + addr % 256;
    assert h == 256 * hh + h % 256;
    assert hh == 256 * (addr / 0x100_0000) + hh % 256;
    assert addr / 0x100_0000 < 256;
  }

  /** ipv4StringToIpAddress. */
  method Ipv4FromString(t: seq<byte>) returns (ip: Option<Ip>)
    ensures ip == ParseIpv4(t)
  {
    hide ReadOctets, Prepend;
    var digits: seq<nat> := [];
    var at := 0;
    var i := 0;
    var valid := true;
    ghost var all := ReadOctets(t, 4);
    assert t[0..] == t;
    PrependTwice([], 0, all);
    while i < 4 && valid
      invariant 0 <= i <= 4 && |digits| == i && 0 <= at <= |t|
      invariant valid && i < 4 ==> all == Prepend(digits, ReadOctets(t[at..], 4 - i))
      invariant valid && i == 4 ==> all == Some(digits)
      invariant !valid ==> all.None?
      decreases 4 - i, valid
    {
      valid, at, digits := NextOctet(t, at, i, digits, all);
      i := i + 1;
    }
    ip := if valid then Some(V4(FromOctets(digits))) else None;
  }

  /** One round of the octet loop. */
  method NextOctet(t: seq<byte>, at0: nat, i: nat, digits0: seq<nat>, ghost all: Option<seq<nat>>)
    returns (valid: bool, at: nat, digits: seq<nat>)
    requires at0 <= |t| && i < 4 && all == Prepend(digits0, ReadOctets(t[at0..], 4 - i))
    ensures at <= |t| && |digits| == |digits0| + 1
    ensures !valid ==> all.None?
    ensures valid && i + 1 < 4 ==> all == Prepend(digits, ReadOctets(t[at..], 3 - i))
    ensures valid && i + 1 == 4 ==> all == Some(digits)
  {
    hide Strtol, Prepend;
    PrependNone(digits0);
    at, valid, digits := at0, false, digits0 + [0];
    ghost var rest := t[at0..];
    if at < |t| && IsDigit(t[at]) {
      var d := Strtol(t[at..]);
      if 0 <= d.value <= 255 {
        digits := digits0 + [d.value];
        at := at + d.len;
        assert rest[d.len..] == t[at..];
        if i < 3 {
          if at < |t| && t[at] == DOT {
            at := at + 1;
            valid := true;
            assert rest[d.len + 1..] == t[at..];
            PrependTwice(digits0, d.value, ReadOctets(t[at..], 3 - i));
          }
        } else {
          PrependTwice(digits0, d.value, None);
          valid := at == |t|;
        }
        assert at < |t| ==> t[at..][0] == t[at];
      }
    }
  }

  // ----- IPv6 -----

  function LowerHex(n: nat): (r: byte)
    requires n < 16
    ensures HexToNibble(r) == Some(n)
  {
    if n < 10 then 48 + n else 87 + n
  }

  /** What printf writes for %04x of a 16-bit value. */
  function Hex4(n: nat): (r: seq<byte>)
    requires n < 0x1_0000
    ensures |r| == 4
  {
    [LowerHex(n / 4096), LowerHex(n / 256 % 16), LowerHex(n / 16 % 16), LowerHex(n % 16)]
  }

  function HexRun(t: seq<byte>): (r: nat)
    ensures r <= |t| && (forall i :: 0 <= i < r ==> HexToNibble(t[i]).Some?)
    ensures r < |t| ==> HexToNibble(t[r]).None?
  {
    if t == [] || HexToNibble(t[0]).None? then 0
    else
      assert forall i :: 1 <= i < |t| ==> t[i] == t[1..][i - 1];
      1 + HexRun(t[1..])
  }

  function HexValue(t: seq<byte>): nat
    requires forall i :: 0 <= i < |t| ==> HexToNibble(t[i]).Some?
  {
    if t == [] then 0 else 16 * HexValue(t[..|t| - 1]) + HexToNibble(t[|t| - 1]).value
  }

  /**
   strtol in base sixteen, its result cut to 16 bits; a text of so many characters that it would
   saturate is refused by the caller.
   */
  function StrtolHex(t: seq<byte>): (r: Number)
    ensures r.len <= |t| && 0 <= r.value < 0x1_0000
  {
    var blanks := Blanks(t);
    var sign := if blanks < |t| && (t[blanks] == MINUS || t[blanks] == PLUS) then 1 else 0;
    var u := t[blanks + sign..];
    var prefix := if |u| > 2 && u[0] == 48 && (u[1] == 120 || u[1] == 88) && HexToNibble(u[2]).Some? then 2 else 0;
    var run := HexRun(u[prefix..]);
    if run == 0 then Number(0, 0)
    else
      var m: int := HexValue(u[prefix..][..run]);
      Number((if t[blanks] == MINUS then -m else m) % 0x1_0000, blanks + sign + prefix + run)
  }

  function Colons(gs: seq<nat>): (r: seq<byte>)
    requires gs != [] && forall i :: 0 <= i < |gs| ==> gs[i] < 0x1_0000
    ensures |r| == 5 * |gs| - 1
    ensures forall i :: 0 <= i < |r| ==> HexToNibble(r[i]).Some? || r[i] == COLON
  {
    if |gs| == 1 then Hex4(gs[0]) else Hex4(gs[0]) + [COLON] + Colons(gs[1..])
  }

  /** The eight groups, the first of them from the last word. */
  function Groups(words: seq<nat>): (r: seq<nat>)
    requires |words| == 4 && forall i :: 0 <= i < 4 ==> words[i] < U32_BOUND
    ensures |r| == IPV6_GROUPS && forall i :: 0 <= i < |r| ==> r[i] < 0x1_0000
  {
    [words[3] / 0x1_0000, words[3] % 0x1_0000, words[2] / 0x1_0000, words[2] % 0x1_0000,
     words[1] / 0x1_0000, words[1] % 0x1_0000, words[0] / 0x1_0000, words[0] % 0x1_0000]
  }

  function FromGroups(gs: seq<nat>): (r: seq<nat>)
    requires |gs| == IPV6_GROUPS
    ensures |r| == 4
  {
    [gs[6] * 0x1_0000 + gs[7], gs[4] * 0x1_0000 + gs[5], gs[2] * 0x1_0000 + gs[3], gs[0] * 0x1_0000 + gs[1]]
  }

  /** n hex numbers of at most four characters with colons between them; a text that opened a bracket closes it. */
  function ReadGroups(t: seq<byte>, n: nat, bracket: bool): (r: Option<seq<nat>>)
    requires n > 0
    ensures r.Some? ==> |r.value| == n
    decreases n
  {
    var Number(g, run) := StrtolHex(t);
    if t == [] || run > 4 then None
    else
      if n == 1 then (if t[run..] == (if bracket then [RBRACKET] else []) then Some([g]) else None)
      else if run < |t| && t[run] == COLON then Prepend([g], ReadGroups(t[run + 1..], n - 1, bracket))
      else None
  }

  function ParseIpv6(t: seq<byte>): Option<Ip> {
    var bracket := t != [] && t[0] == LBRACKET;
    match ReadGroups(if bracket then t[1..] else t, IPV6_GROUPS, bracket)
    case None => None
    case Some(gs) => Some(V6(FromGroups(gs)))
  }

  lemma HexValueNext(t: seq<byte>, c: byte)
    requires (forall i :: 0 <= i < |t| ==> HexToNibble(t[i]).Some?) && HexToNibble(c).Some?
    ensures HexValue(t + [c]) == 16 * HexValue(t) + HexToNibble(c).value
  {
    hide HexToNibble;
    assert (t + [c])[..|t|] == t;
  }

  lemma Hex4Value(n: nat)
    requires n < 0x1_0000
    ensures forall i :: 0 <= i < 4 ==> HexToNibble(Hex4(n)[i]).Some?
    ensures HexValue(Hex4(n)) == n
  {
    hide HexToNibble, LowerHex, HexValue;
    var h := Hex4(n);
    SixteenBits(n);
    HexValueNone();
    HexValueNext([], h[0]);
    HexValueNext([h[0]], h[1]);
    HexValueNext([h[0], h[1]], h[2]);
    HexValueNext([h[0], h[1], h[2]], h[3]);
    assert [] + [h[0]] == [h[0]] && [h[0]] + [h[1]] == [h[0], h[1]];
    assert [h[0], h[1]] + [h[2]] == [h[0], h[1], h[2]] && [h[0], h[1], h[2]] + [h[3]] == h;
  }

  lemma SixteenBits(n: nat)
    requires n < 0x1_0000
    ensures 16 * (16 * (16 * (n / 4096) + n / 256 % 16) + n / 16 % 16) + n % 16 == n
  {
    assert n / 16 == 16 * (n / 256) + n / 16 % 16;
    assert n / 256 == 16 * (n / 4096) + n / 256 % 16;
  }

  lemma HexValueNone()
    ensures HexValue([]) == 0
  {
  }

  lemma HexRunOfFour(h: seq<byte>, rest: seq<byte>)
    requires |h| == 4 && (forall i :: 0 <= i < 4 ==> HexToNibble(h[i]).Some?)
    requires rest == [] || HexToNibble(rest[0]).None?
    ensures HexRun(h + rest) == 4 && (h + rest)[..4] == h && (h + rest)[4..] == rest
  {
    hide HexToNibble;
    var t := h + rest;
    assert t[4..] == rest;
    assert forall i :: 0 <= i < 4 ==> t[i] == h[i];
    assert rest != [] ==> t[4] == rest[0];
  }

  /** A printed group is read back. */
  lemma StrtolOfHex4(n: nat, rest: seq<byte>)
    requires n < 0x1_0000 && (rest == [] || HexToNibble(rest[0]).None?)
    ensures StrtolHex(Hex4(n) + rest) == Number(n, 4) && (Hex4(n) + rest)[4..] == rest
  {
    hide HexRun, HexValue;
    var h := Hex4(n);
    var t := h + rest;
    Hex4Value(n);
    HexRunOfFour(h, rest);
    assert t[0] == h[0] && t[1] == h[1];
    assert HexToNibble(t[0]).Some? && HexToNibble(t[1]).Some?;
    assert Blanks(t) == 0 && t[0..] == t;
  }

  lemma {:induction false} ReadColons(gs: seq<nat>, bracket: bool)
    requires gs != [] && forall i :: 0 <= i < |gs| ==> gs[i] < 0x1_0000
    ensures ReadGroups(Colons(gs) + (if bracket then [RBRACKET] else []), |gs|, bracket) == Some(gs)
    decreases |gs|
  {
    hide StrtolHex, Hex4;
    var end := if bracket then [RBRACKET] else [];
    var h := Hex4(gs[0]);
    var t := Colons(gs) + end;
    if |gs| == 1 {
      assert gs == [gs[0]] && Colons(gs) == h;
      StrtolOfHex4(gs[0], end);
    } else {
      var after := [COLON] + Colons(gs[1..]) + end;
      assert t == h + after;
      StrtolOfHex4(gs[0], after);
      assert t[5..] == Colons(gs[1..]) + end;
      ReadColons(gs[1..], bracket);
      assert [gs[0]] + gs[1..] == gs;
    }
  }

  lemma GroupsRoundTrip(words: seq<nat>)
    requires |words| == 4 && forall i :: 0 <= i < 4 ==> words[i] < U32_BOUND
    ensures FromGroups(Groups(words)) == words
  {
    var w := FromGroups(Groups(words));
    assert w[0] == words[0] && w[1] == words[1] && w[2] == words[2] && w[3] == words[3];
  }

  /** ipv6StringToIpAddress. */
  method Ipv6FromString(t: seq<byte>) returns (ip: Option<Ip>)
    ensures ip == ParseIpv6(t)
  {
    hide ReadGroups, Prepend;
    var at := 0;
    var i := 0;
    var bracket := false;
    if t != [] && t[0] == LBRACKET {
      bracket := true;
      at := 1;
    }
    var groups: seq<nat> := [];
    var valid := true;
    ghost var all := ReadGroups(t[at..], IPV6_GROUPS, bracket);
    assert t[0..] == t;
    PrependTwice([], 0, all);
    while i < IPV6_GROUPS && valid
      invariant 0 <= i <= IPV6_GROUPS && |groups| == i && 0 <= at <= |t|
      invariant valid && i < IPV6_GROUPS ==> all == Prepend(groups, ReadGroups(t[at..], IPV6_GROUPS - i, bracket))
      invariant valid && i == IPV6_GROUPS ==> all == Some(groups)
      invariant !valid ==> all.None?
      decreases IPV6_GROUPS - i, valid
    {
      valid, at, groups := NextGroup(t, at, i, bracket, groups, all);
      i := i + 1;
    }
    ip := if valid then Some(V6(FromGroups(groups))) else None;
  }

  /** One round of the group loop. */
  method NextGroup(t: seq<byte>, at0: nat, i: nat, bracket: bool, groups0: seq<nat>, ghost all: Option<seq<nat>>)
    returns (valid: bool, at: nat, groups: seq<nat>)
    requires at0 <= |t| && i < IPV6_GROUPS
    requires all == Prepend(groups0, ReadGroups(t[at0..], IPV6_GROUPS - i, bracket))
    ensures at <= |t| && |groups| == |groups0| + 1
    ensures !valid ==> all.None?
    ensures valid && i + 1 < IPV6_GROUPS ==>
      all == Prepend(groups, ReadGroups(t[at..], IPV6_GROUPS - i - 1, bracket))
    ensures valid && i + 1 == IPV6_GROUPS ==> all == Some(groups)
  {
    hide StrtolHex, Prepend;
    PrependNone(groups0);
    at, valid, groups := at0, false, groups0 + [0];
    ghost var rest := t[at0..];
    if at < |t| {
      var Number(g, run) := StrtolHex(t[at..]);
      if run <= 4 {
        groups := groups0 + [g];
        at := at + run;
        assert rest[run..] == t[at..];
        if i < IPV6_GROUPS - 1 {
          if at < |t| && t[at] == COLON {
            at := at + 1;
            valid := true;
            assert rest[run + 1..] == t[at..];
            PrependTwice(groups0, g, ReadGroups(t[at..], IPV6_GROUPS - i - 1, bracket));
          }
        } else {
          PrependTwice(groups0, g, None);
          if bracket && at < |t| && t[at] == RBRACKET {
            valid := at + 1 == |t|;
          } else if !bracket {
            valid := at == |t|;
          }
        }
        assert at < |t| ==> t[at..][0] == t[at];
      }
    }
  }

  // ----- either kind -----

  function IpText(ip: Ip): seq<byte>
    requires IsIp(ip)
  {
    match ip
    case V4(addr) => Dotted(Octets(addr))
    case V6(words) => [LBRACKET] + Colons(Groups(words)) + [RBRACKET]
  }

  /** uCxStringToIpAddress: a dot makes it IPv4. */
  function ParseIp(t: seq<byte>): Option<Ip> {
    if DOT in t then ParseIpv4(t) else ParseIpv6(t)
  }

  method IpFromString(t: seq<byte>) returns (ip: Option<Ip>)
    ensures ip == ParseIp(t)
  {
    if DOT in t {
      ip := Ipv4FromString(t);
    } else {
      ip := Ipv6FromString(t);
    }
  }

  lemma IpRoundTrip(ip: Ip)
    requires IsIp(ip)
    ensures ParseIp(IpText(ip)) == Some(ip)
  {
    hide ReadOctets, ReadGroups, Dotted, Colons, FromGroups, Groups;
    var t := IpText(ip);
    match ip {
      case V4(addr) =>
        OctetsRoundTrip(addr);
        ReadDotted(Octets(addr));
        HasDot(Octets(addr));
      case V6(words) =>
        ReadColons(Groups(words), true);
        GroupsRoundTrip(words);
        assert t[1..] == Colons(Groups(words)) + [RBRACKET];
        assert DOT !in t;
    }
  }

  lemma HasDot(ds: seq<nat>)
    requires |ds| > 1
    ensures DOT in Dotted(ds)
  {
    assert Dotted(ds)[|Decimal(ds[0])|] == DOT;
  }

  lemma OctetText(d: nat)
    requires d < 256
    ensures |Decimal(d)| <= 3
  {
    assert Power10(3) == 10 * Power10(2) == 100 * Power10(1) == 1000 * Power10(0);
    DecimalLength(d, 3, 1000);
  }

  /** The text of an address is never longer than the 41 characters of the longest IPv6 one. */
  lemma IpTextFits(ip: Ip)
    requires IsIp(ip)
    ensures |IpText(ip)| <= IPV6_TEXT_LEN
    ensures ip.V6? ==> |IpText(ip)| == IPV6_TEXT_LEN
  {
    hide Decimal;
    match ip {
      case V4(addr) =>
        var ds := Octets(addr);
        OctetText(ds[0]);
        OctetText(ds[1]);
        OctetText(ds[2]);
        OctetText(ds[3]);
        assert ds[1..][1..] == ds[2..] && ds[2..][1..] == ds[3..];
        assert |Dotted(ds[3..])| <= 3;
        assert |Dotted(ds[2..])| <= 7;
        assert |Dotted(ds[1..])| <= 11;
        assert |Dotted(ds)| <= 15;
      case V6(words) =>
    }
  }

  /** uCxIpAddressToString: the text and its length if that leaves room for the zero, else -1. */
  method IpToString(ip: Ip, buf: array<byte>, size: nat) returns (r: int)
    requires IsIp(ip) && size <= buf.Length
    modifies buf
    ensures r == (if |IpText(ip)| < size then |IpText(ip)| else -1)
    ensures r >= 0 ==> buf[..r] == IpText(ip) && buf[r] == 0
    ensures buf[size..] == old(buf[size..])
  {
    hide Dotted, Octets, Colons, Groups;
    match ip {
      case V4(addr) =>
        r := Snprintf(buf, 0, size, Dotted(Octets(addr)));
        if r >= size {
          r := -1;
        }
      case V6(words) =>
        r := IPV6_TEXT_LEN;
        if r >= size {
          r := -1;
        } else {
          PrintGroups(words, buf, size);
        }
    }
  }

  lemma {:induction false} ColonsSnoc(gs: seq<nat>, g: nat)
    requires gs != [] && (forall i :: 0 <= i < |gs| ==> gs[i] < 0x1_0000) && g < 0x1_0000
    ensures Colons(gs + [g]) == Colons(gs) + [COLON] + Hex4(g)
    decreases |gs|
  {
    hide Hex4;
    var all := gs + [g];
    if |gs| == 1 {
      assert all[1..] == [g];
    } else {
      assert all[1..] == gs[1..] + [g];
      ColonsSnoc(gs[1..], g);
    }
  }

  /** The first groups of an address, two to a word. */
  function PairsText(gs: seq<nat>, k: nat): seq<byte>
    requires |gs| == IPV6_GROUPS && (forall i :: 0 <= i < |gs| ==> gs[i] < 0x1_0000) && k <= 4
  {
    if k == 0 then [] else Colons(gs[..2 * k])
  }

  lemma PairsNext(gs: seq<nat>, k: nat)
    requires |gs| == IPV6_GROUPS && (forall i :: 0 <= i < |gs| ==> gs[i] < 0x1_0000) && k < 4
    ensures PairsText(gs, k + 1)
         == PairsText(gs, k) + (if k == 0 then [] else [COLON]) + (Hex4(gs[2 * k]) + [COLON] + Hex4(gs[2 * k + 1]))
  {
    hide Hex4;
    var one := gs[..2 * k + 1];
    assert gs[..2 * k + 2] == one + [gs[2 * k + 1]];
    ColonsSnoc(one, gs[2 * k + 1]);
    if k == 0 {
      assert one == [gs[0]];
    } else {
      assert one == gs[..2 * k] + [gs[2 * k]];
      ColonsSnoc(gs[..2 * k], gs[2 * k]);
    }
  }

  /** The loop that prints an IPv6 address, two groups at a time, between brackets. */
  method PrintGroups(words: seq<nat>, buf: array<byte>, size: nat)
    requires IsIp(V6(words)) && IPV6_TEXT_LEN < size <= buf.Length
    modifies buf
    ensures buf[..IPV6_TEXT_LEN] == IpText(V6(words)) && buf[IPV6_TEXT_LEN] == 0
    ensures buf[size..] == old(buf[size..])
  {
    hide Hex4, PairsText, Colons, Groups;
    buf[0] := LBRACKET;
    var write := 1;
    ghost var gs := Groups(words);
    PairsEnds(gs);
    for i := 0 to 4
      invariant write == if i == 0 then 1 else 10 * i
      invariant buf[..write] == [LBRACKET] + PairsText(gs, i)
      invariant buf[size..] == old(buf[size..])
    {
      PairsNext(gs, i);
      WordGroups(words, i);
      write := PrintWord(words[3 - i], i == 0, buf, write, size);
    }
    buf[write] := RBRACKET;
    buf[write + 1] := 0;
  }

  lemma WordGroups(words: seq<nat>, i: nat)
    requires IsIp(V6(words)) && i < 4
    ensures Groups(words)[2 * i] == words[3 - i] / 0x1_0000 && Groups(words)[2 * i + 1] == words[3 - i] % 0x1_0000
  {
  }

  lemma PairsEnds(gs: seq<nat>)
    requires |gs| == IPV6_GROUPS && forall i :: 0 <= i < |gs| ==> gs[i] < 0x1_0000
    ensures PairsText(gs, 0) == [] && PairsText(gs, 4) == Colons(gs)
  {
    assert gs[..8] == gs;
  }

  /** The two groups of one word, %04x:%04x, behind a colon unless they are the first. */
  method PrintWord(w: nat, first: bool, buf: array<byte>, at: nat, size: nat) returns (write: nat)
    requires w < U32_BOUND && at + 10 < size <= buf.Length
    modifies buf
    ensures write == at + 9 + (if first then 0 else 1)
    ensures buf[..write] == old(buf[..at]) + (if first then [] else [COLON])
                            + (Hex4(w / 0x1_0000) + [COLON] + Hex4(w % 0x1_0000))
    ensures buf[size..] == old(buf[size..])
  {
    hide Hex4;
    write := at;
    if !first {
      buf[write] := COLON;
      write := write + 1;
    }
    ghost var head := buf[..write];
    var text := Hex4(w / 0x1_0000) + [COLON] + Hex4(w % 0x1_0000);
    var len := Snprintf(buf, write, size - write, text);
    assert buf[..write] == head;
    assert buf[..write + len] == buf[..write] + buf[write..write + len];
    write := write + len;
  }

  // ----- MAC addresses -----

  predicate IsAddress(a: seq<byte>) {
    |a| == ADDR_LEN
  }

  function MacText(a: seq<byte>): seq<byte> {
    HexOf(a)
  }

  function ParseMac(t: seq<byte>): Option<seq<byte>> {
    if |t| != 2 * ADDR_LEN || |HexPrefix(t, ADDR_LEN)| != ADDR_LEN then None else Some(HexPrefix(t, ADDR_LEN))
  }

  /** uCxStringToMacAddress. */
  method MacFromString(t: seq<byte>, out: array<byte>) returns (r: int)
    requires out.Length == ADDR_LEN
    modifies out
    ensures r == if ParseMac(t).Some? then 0 else -1
    ensures r == 0 ==> Some(out[..]) == ParseMac(t)
  {
    r := -1;
    if |t| == 2 * ADDR_LEN {
      var n := HexToBinary(t, out);
      if n == ADDR_LEN {
        r := 0;
        assert out[..] == out[..n];
      }
    }
  }

  /** uCxMacAddressToString. */
  method MacToString(a: seq<byte>, buf: array<byte>, size: nat) returns (r: int)
    requires IsAddress(a) && 0 < size <= buf.Length
    modifies buf
    ensures r == if |MacText(a)| < size then |MacText(a)| else -1
    ensures r >= 0 ==> buf[..r] == MacText(a) && buf[r] == 0
    ensures r < 0 ==> buf[0] == 0
    ensures buf[size..] == old(buf[size..])
  {
    hide HexOf;
    var ok := BinaryToHex(Some(a), |a|, buf, size, false);
    r := if ok then 2 * ADDR_LEN else -1;
  }

  lemma MacRoundTrip(a: seq<byte>)
    requires IsAddress(a)
    ensures ParseMac(MacText(a)) == Some(a)
  {
    hide HexPrefix, HexOf;
    HexPrefixOf(a, []);
    assert HexOf(a) + [] == HexOf(a);
  }

  // ----- Bluetooth LE addresses -----

  datatype BdKind = Random | Public | Unknown

  datatype Bd = Bd(address: seq<byte>, kind: BdKind)

  const LOWER_R: byte := 114
  const LOWER_P: byte := 112

  function BdText(bd: Bd): seq<byte> {
    HexOf(bd.address) + [if bd.kind == Random then LOWER_R else LOWER_P]
  }

  /** findBdAddressType; an empty text fails later whatever is found. */
  function FindBdKind(t: seq<byte>): Option<BdKind> {
    if t == [] then None
    else if t[|t| - 1] == LOWER_R then Some(Random)
    else if t[|t| - 1] == LOWER_P then Some(Public)
    else if |t| == 12 then Some(Public)
    else None
  }

  function ParseBd(t: seq<byte>): Option<Bd> {
    match FindBdKind(t)
    case None => None
    case Some(kind) =>
      if |HexPrefix(t, ADDR_LEN)| == ADDR_LEN then Some(Bd(HexPrefix(t, ADDR_LEN), kind)) else None
  }

  /** uCxStringToBdAddress. */
  method BdFromString(t: seq<byte>, out: array<byte>) returns (r: int, kind: BdKind)
    requires out.Length == ADDR_LEN
    modifies out
    ensures r == if ParseBd(t).Some? then 0 else -1
    ensures r == 0 ==> ParseBd(t) == Some(Bd(out[..], kind))
  {
    r, kind := -1, Unknown;
    var found := FindBdKind(t);
    if found.Some? {
      kind := found.value;
      var n := HexToBinary(t, out);
      if n == ADDR_LEN {
        r := 0;
        assert out[..] == out[..n];
      }
    }
  }

  /** The type survives except that an unknown one comes back as public. */
  lemma BdRoundTrip(bd: Bd)
    requires IsAddress(bd.address)
    ensures ParseBd(BdText(bd)) == Some(bd.(kind := if bd.kind == Random then Random else Public))
    ensures ParseBd(BdText(bd)) == Some(bd) <==> bd.kind != Unknown
  {
    hide HexPrefix, HexOf;
    HexPrefixOf(bd.address, [if bd.kind == Random then LOWER_R else LOWER_P]);
  }

  /** uCxBdAddressToString: needs room for thirteen characters and the zero. */
  method BdToString(bd: Bd, buf: array<byte>, size: nat) returns (r: int)
    requires IsAddress(bd.address) && size <= buf.Length
    modifies buf
    ensures r == if |BdText(bd)| < size then |BdText(bd)| else -1
    ensures r >= 0 ==> buf[..r] == BdText(bd) && buf[r] == 0
    ensures buf[size..] == old(buf[size..])
  {
    hide HexOf;
    r := -1;
    if size >= BD_STRING_SIZE {
      var ok := BinaryToHex(Some(bd.address), |bd.address|, buf, size, false);
      if ok {
        r := 2 * ADDR_LEN;
        buf[r] := if bd.kind == Random then LOWER_R else LOWER_P;
        r := r + 1;
        buf[r] := 0;
      }
    }
  }
}
