/**
 String parameters on the wire: escaping, the decoder that overwrites the text
 it is still reading, and the tokenizer that finds where a parameter ends.
 */
module AtEscape {
  import opened Bytes
  import opened Chars

  const LOWER_X: byte := 120

  predicate NoZero(s: seq<byte>) {
    forall i :: 0 <= i < |s| ==> s[i] != 0
  }

  // ----- escaping -----

  /** escapeCharacter. */
  function EscapeChar(c: byte): (r: seq<byte>)
    ensures 1 <= |r| <= 4
  {
    if c == 13 then [BACKSLASH, 114]
    else if c == 10 then [BACKSLASH, 110]
    else if c == 9 then [BACKSLASH, 116]
    else if c == 8 then [BACKSLASH, 98]
    else if c == QUOTE then [BACKSLASH, QUOTE]
    else if c == BACKSLASH then [BACKSLASH, BACKSLASH]
    else if c == 0 then [BACKSLASH, 48]
    else if IsPrint(c) then [c]
    else [BACKSLASH, LOWER_X, NibbleToHex(c / 16), NibbleToHex(c % 16)]
  }

  function Escape(s: seq<byte>): seq<byte> {
    if s == [] then [] else Escape(s[..|s| - 1]) + EscapeChar(s[|s| - 1])
  }

  function Quoted(s: seq<byte>): seq<byte> {
    [QUOTE] + Escape(s) + [QUOTE]
  }

  /** What a one-letter escape stands for. */
  function Letter(c: byte): Option<byte> {
    if c == 114 then Some(13)
    else if c == 110 then Some(10)
    else if c == 116 then Some(9)
    else if c == 98 then Some(8)
    else if c == QUOTE then Some(QUOTE)
    else if c == BACKSLASH then Some(BACKSLASH)
    else if c == 48 then Some(0)
    else None
  }

  datatype Piece = Piece(out: seq<byte>, used: nat)

  /** One round of unescapeString: what it writes and how much it reads. */
  function UnescapeOne(t: seq<byte>): (p: Piece)
    requires t != []
    ensures |p.out| <= p.used && 1 <= p.used <= |t|
  {
    if t[0] != BACKSLASH || |t| == 1 then Piece([t[0]], 1)
    else if Letter(t[1]).Some? then Piece([Letter(t[1]).value], 2)
    else if t[1] == LOWER_X then
      if |t| > 3 && HexToByte(t[2], t[3]).Some? then Piece([HexToByte(t[2], t[3]).value], 4)
      else Piece([LOWER_X], 2)
    else Piece([BACKSLASH, t[1]], 2)
  }

  function Unescape(t: seq<byte>): (r: seq<byte>)
    ensures |r| <= |t|
    decreases |t|
  {
    if t == [] then [] else UnescapeOne(t).out + Unescape(t[UnescapeOne(t).used..])
  }

  lemma UnescapeEscapedChar(c: byte, rest: seq<byte>)
    ensures Unescape(EscapeChar(c) + rest) == [c] + Unescape(rest)
  {
    hide Unescape;
    ByteRoundTrip(c);
    var t := EscapeChar(c) + rest;
    assert UnescapeOne(t) == Piece([c], |EscapeChar(c)|);
    assert t[|EscapeChar(c)|..] == rest;
    UnescapeStep(t);
  }

  lemma UnescapeStep(t: seq<byte>)
    requires t != []
    ensures Unescape(t) == UnescapeOne(t).out + Unescape(t[UnescapeOne(t).used..])
  {
  }

  lemma {:induction false} UnescapeEscapeThen(s: seq<byte>, rest: seq<byte>)
    ensures Unescape(Escape(s) + rest) == s + Unescape(rest)
  {
    hide Unescape, EscapeChar;
    if s == [] {
      assert Escape(s) + rest == rest;
    } else {
      var n := |s| - 1;
      assert Escape(s) + rest == Escape(s[..n]) + (EscapeChar(s[n]) + rest);
      UnescapeEscapeThen(s[..n], EscapeChar(s[n]) + rest);
      UnescapeEscapedChar(s[n], rest);
      assert s[..n] + ([s[n]] + Unescape(rest)) == s + Unescape(rest);
    }
  }

  /** The round trip, for every octet string: zeros and unprintable octets included. */
  lemma EscapeRoundTrip(s: seq<byte>)
    ensures Unescape(Escape(s)) == s
  {
    hide Unescape, Escape;
    UnescapeEscapeThen(s, []);
    assert Escape(s) + [] == Escape(s);
    UnescapeNone();
  }

  lemma UnescapeNone()
    ensures Unescape([]) == []
  {
  }

  /** Escaped text is printable throughout: it holds no zero, no CR and no LF. */
  lemma {:induction false} EscapeIsPrintable(s: seq<byte>)
    ensures AllPrint(Escape(s))
  {
    if s != [] {
      EscapeIsPrintable(s[..|s| - 1]);
    }
  }

  lemma {:induction false} EscapeGrows(s: seq<byte>, k: nat)
    requires k <= |s|
    ensures |Escape(s[..k])| <= |Escape(s)|
    decreases |s|
  {
    var n := |s| - 1;
    if k < |s| {
      EscapeGrows(s[..n], k);
      assert s[..n][..k] == s[..k];
    } else {
      assert s[..k] == s;
    }
  }

  /**
   uCxAtUtilWriteEscString: zero exactly when the quoted text does not leave one octet of the
   buffer free, and that text otherwise.
   */
  method WriteEscString(s: seq<byte>, buf: array<byte>, size: nat) returns (r: nat)
    requires size <= buf.Length
    modifies buf
    ensures size < 3 ==> r == 0 && buf[..] == old(buf[..])
    ensures size >= 3 ==> (r == 0 <==> |Quoted(s)| >= size)
    ensures r > 0 ==> r == |Quoted(s)| && buf[..r] == Quoted(s)
    ensures buf[size..] == old(buf[size..])
  {
    hide EscapeChar;
    r := 0;
    if size >= 3 {
      buf[0] := QUOTE;
      var write := 1;
      var i := 0;
      var fits := true;
      while i < |s| && fits
        invariant 0 <= i <= |s|
        invariant fits ==> write == 1 + |Escape(s[..i])| && write + 1 < size && buf[..write] == [QUOTE] + Escape(s[..i])
        invariant !fits ==> |Quoted(s)| >= size
        invariant buf[size..] == old(buf[size..])
        decreases |s| - i, fits
      {
        var escaped := EscapeChar(s[i]);
        assert s[..i + 1][..i] == s[..i];
        assert Escape(s[..i + 1]) == Escape(s[..i]) + escaped;
        if write + |escaped| + 1 >= size {
          fits := false;
          EscapeGrows(s, i + 1);
        } else {
          forall j | 0 <= j < |escaped| {
            buf[write + j] := escaped[j];
          }
          assert buf[..write + |escaped|] == [QUOTE] + Escape(s[..i]) + escaped;
          write := write + |escaped|;
          i := i + 1;
        }
      }
      if fits {
        assert s[..|s|] == s;
        buf[write] := QUOTE;
        r := write + 1;
      }
    }
  }

  /** One round of unescapeString: nothing it writes lies where it has yet to read. */
  method UnescapeNext(a: array<byte>, read: nat, write: nat, ghost t: seq<byte>) returns (read': nat, write': nat)
    requires write <= read && read + |t| < a.Length && a[read..read + |t|] == t != []
    requires a[read + |t|] == 0 && NoZero(t)
    modifies a
    ensures write <= write' <= read' == read + UnescapeOne(t).used
    ensures forall i :: read' <= i < a.Length || 0 <= i < write ==> a[i] == old(a[i])
    ensures write' < a.Length && a[write..write'] == UnescapeOne(t).out
  {
    hide Letter, HexToByte;
    assert forall i :: 0 <= i < |t| ==> a[read + i] == t[i];
    read' := read;
    if a[read] == BACKSLASH && a[read + 1] != 0 {
      read' := read + 1;
      var c := a[read'];
      if Letter(c).Some? {
        a[write] := Letter(c).value;
        write' := write + 1;
      } else if c == LOWER_X {
        var hex := if a[read' + 1] != 0 && a[read' + 2] != 0 then HexToByte(a[read' + 1], a[read' + 2]) else None;
        write' := write + 1;
        if hex.Some? {
          a[write] := hex.value;
          read' := read' + 2;
        } else {
          a[write] := c;
        }
      } else {
        a[write] := BACKSLASH;
        a[write + 1] := c;
        write' := write + 2;
      }
      read' := read' + 1;
    } else {
      a[write] := a[read];
      write', read' := write + 1, read + 1;
    }
  }

  lemma UnescapeAfter(t: seq<byte>, done: seq<byte>, k: nat)
    requires k < |t| && Unescape(t) == done + Unescape(t[k..])
    ensures var p := UnescapeOne(t[k..]);
      k + p.used <= |t| && Unescape(t) == done + p.out + Unescape(t[k + p.used..])
  {
    hide Unescape, UnescapeOne;
    var p := UnescapeOne(t[k..]);
    UnescapeStep(t[k..]);
    SliceOfSlice(t, k, p.used);
    Regroup(done, p.out, Unescape(t[k + p.used..]));
  }

  /** unescapeString: the text at from, up to its zero at to, is decoded where it stands. */
  method UnescapeString(a: array<byte>, from: nat, ghost to: nat) returns (len: nat)
    requires from <= to < a.Length && a[to] == 0 && NoZero(a[from..to])
    modifies a
    ensures from + len <= to && a[from + len] == 0
    ensures a[from..from + len] == Unescape(old(a[from..to]))
    ensures forall i :: 0 <= i < from || to < i < a.Length ==> a[i] == old(a[i])
  {
    hide Unescape, UnescapeOne;
    var read, write := from, from;
    ghost var t := a[from..to];
    ghost var done: seq<byte> := [];
    assert t[0..] == t;
    while a[read] != 0
      invariant from <= write <= read <= to
      invariant forall i :: read <= i < a.Length || 0 <= i < from ==> a[i] == old(a[i])
      invariant a[from..write] == done && Unescape(t) == done + Unescape(t[read - from..])
      decreases a.Length - read
    {
      ghost var rest := t[read - from..];
      assert rest == a[read..to];
      UnescapeAfter(t, done, read - from);
      read, write := UnescapeNext(a, read, write, rest);
      done := done + UnescapeOne(rest).out;
    }
    UnescapeNone();
    len := write - from;
    Terminate(a, write, from);
  }

  /** Ends the decoded text. */
  method Terminate(a: array<byte>, at: nat, from: nat)
    requires from <= at < a.Length
    modifies a
    ensures a[at] == 0 && a[from..at] == old(a[from..at])
    ensures forall i :: 0 <= i < a.Length && i != at ==> a[i] == old(a[i])
  {
    a[at] := 0;
  }

  lemma SliceOfSlice(t: seq<byte>, k: nat, used: nat)
    requires k <= |t| && used <= |t| - k
    ensures t[k..][used..] == t[k + used..]
  {
  }

  lemma Regroup(a: seq<byte>, b: seq<byte>, c: seq<byte>)
    ensures a + (b + c) == a + b + c
  {
  }

  // ----- where a parameter ends -----

  datatype Scan = Scan(inString: bool, inBracket: bool, escape: bool)

  const OUTSIDE := Scan(false, false, false)
  const INSIDE := Scan(true, false, false)

  function ScanStep(st: Scan, c: byte): Scan {
    if st.escape then st.(escape := false)
    else if c == BACKSLASH then st.(escape := true)
    else if st.inString then (if c == QUOTE then st.(inString := false) else st)
    else if c == QUOTE then st.(inString := true)
    else if c == LBRACKET then st.(inBracket := true)
    else if c == RBRACKET then st.(inBracket := false)
    else st
  }

  predicate Splits(st: Scan, c: byte) {
    c == COMMA && st == OUTSIDE
  }

  /** uCxAtUtilFindParamEnd as a function of the text: where the first parameter of it ends. */
  function FindEnd(st: Scan, t: seq<byte>): (r: Option<nat>)
    ensures r.Some? ==> r.value <= |t| && (r.value == |t| || t[r.value] == COMMA)
    decreases |t|
  {
    if t == [] then (if st == OUTSIDE then Some(0) else None)
    else if Splits(st, t[0]) then Some(0)
    else
      match FindEnd(ScanStep(st, t[0]), t[1..])
      case None => None
      case Some(k) => Some(k + 1)
  }

  method FindParamEnd(a: array<byte>, from: nat, ghost to: nat) returns (end: Option<nat>)
    requires from <= to < a.Length && a[to] == 0 && NoZero(a[from..to])
    ensures end.Some? <==> FindEnd(OUTSIDE, a[from..to]).Some?
    ensures end.Some? ==> from <= end.value <= to && end.value - from == FindEnd(OUTSIDE, a[from..to]).value
  {
    hide ScanStep;
    var st := OUTSIDE;
    var at := from;
    ghost var t := a[from..to];
    assert t[0..] == t;
    while a[at] != 0 && !Splits(st, a[at])
      invariant from <= at <= to
      invariant FindEnd(OUTSIDE, t).Some? <==> FindEnd(st, t[at - from..]).Some?
      invariant FindEnd(OUTSIDE, t).Some? ==>
        FindEnd(OUTSIDE, t).value == at - from + FindEnd(st, t[at - from..]).value
      decreases a.Length - at
    {
      assert t[at - from..][0] == a[at];
      assert t[at - from..][1..] == t[at + 1 - from..];
      st := ScanStep(st, a[at]);
      at := at + 1;
    }
    assert a[at] != 0 ==> t[at - from..][0] == a[at];
    end := if st == OUTSIDE then Some(at) else None;
  }

  /** The scan of a whole piece of text, if no parameter ends inside it. */
  function Sweep(st: Scan, t: seq<byte>): Option<Scan>
    decreases |t|
  {
    if t == [] then Some(st)
    else if Splits(st, t[0]) then None
    else Sweep(ScanStep(st, t[0]), t[1..])
  }

  lemma {:induction false} SweepConcat(st: Scan, t: seq<byte>, u: seq<byte>)
    requires Sweep(st, t).Some?
    ensures Sweep(st, t + u) == Sweep(Sweep(st, t).value, u)
    decreases |t|
  {
    hide Splits, ScanStep;
    if t == [] {
      assert t + u == u;
    } else {
      assert (t + u)[1..] == t[1..] + u;
      SweepConcat(ScanStep(st, t[0]), t[1..], u);
    }
  }

  lemma {:induction false} FindEndAfter(st: Scan, t: seq<byte>, u: seq<byte>)
    requires Sweep(st, t).Some?
    ensures FindEnd(st, t + u).Some? <==> FindEnd(Sweep(st, t).value, u).Some?
    ensures FindEnd(st, t + u).Some? ==> FindEnd(st, t + u).value == |t| + FindEnd(Sweep(st, t).value, u).value
    decreases |t|
  {
    hide Splits, ScanStep;
    if t == [] {
      assert t + u == u;
    } else {
      assert (t + u)[1..] == t[1..] + u;
      FindEndAfter(ScanStep(st, t[0]), t[1..], u);
    }
  }

  /** Text that is swept from outside to outside is exactly one parameter. */
  lemma EndsThere(t: seq<byte>, u: seq<byte>)
    requires Sweep(OUTSIDE, t) == Some(OUTSIDE)
    requires u == [] || u[0] == COMMA
    ensures FindEnd(OUTSIDE, t + u) == Some(|t|)
  {
    FindEndAfter(OUTSIDE, t, u);
  }

  lemma {:induction false} SweepEscape(s: seq<byte>)
    ensures Sweep(INSIDE, Escape(s)) == Some(INSIDE)
  {
    if s != [] {
      hide EscapeChar, Sweep;
      var n := |s| - 1;
      SweepEscape(s[..n]);
      SweepConcat(INSIDE, Escape(s[..n]), EscapeChar(s[n]));
      SweepEscapedChar(s[n]);
    } else {
      assert Escape(s) == [];
    }
  }

  lemma SweepEscapedChar(c: byte)
    ensures Sweep(INSIDE, EscapeChar(c)) == Some(INSIDE)
  {
    var e := EscapeChar(c);
    if |e| == 1 {
      SweepOne(INSIDE, c);
    } else if |e| == 2 {
      SweepTwo(INSIDE, BACKSLASH, e[1]);
    } else {
      assert e == [BACKSLASH, LOWER_X] + [e[2], e[3]];
      SweepTwo(INSIDE, BACKSLASH, LOWER_X);
      SweepTwo(INSIDE, e[2], e[3]);
      SweepConcat(INSIDE, [BACKSLASH, LOWER_X], [e[2], e[3]]);
    }
  }

  lemma SweepOne(st: Scan, c: byte)
    requires !Splits(st, c)
    ensures Sweep(st, [c]) == Some(ScanStep(st, c))
  {
  }

  lemma SweepTwo(st: Scan, c: byte, d: byte)
    requires !Splits(st, c) && !Splits(ScanStep(st, c), d)
    ensures Sweep(st, [c, d]) == Some(ScanStep(ScanStep(st, c), d))
  {
    SweepOne(st, c);
    SweepOne(ScanStep(st, c), d);
    SweepConcat(st, [c], [d]);
    assert [c] + [d] == [c, d];
  }

  /** Quotes around text that is swept from inside to inside make one parameter. */
  lemma SweepQuotes(t: seq<byte>)
    requires Sweep(INSIDE, t) == Some(INSIDE)
    ensures Sweep(OUTSIDE, [QUOTE] + t + [QUOTE]) == Some(OUTSIDE)
  {
    hide Sweep;
    SweepOne(OUTSIDE, QUOTE);
    SweepOne(INSIDE, QUOTE);
    SweepConcat(OUTSIDE, [QUOTE], t);
    SweepConcat(OUTSIDE, [QUOTE] + t, [QUOTE]);
  }

  /** Quoted text followed by a comma or the end is found to end exactly there, whatever it holds. */
  lemma QuotedEndsThere(s: seq<byte>, u: seq<byte>)
    requires u == [] || u[0] == COMMA
    ensures FindEnd(OUTSIDE, Quoted(s) + u) == Some(|Quoted(s)|)
  {
    hide Sweep, FindEnd, Escape;
    SweepEscape(s);
    SweepQuotes(Escape(s));
    EndsThere(Quoted(s), u);
  }

  predicate Plain(c: byte) {
    c != COMMA && c != QUOTE && c != BACKSLASH && c != LBRACKET && c != RBRACKET
  }

  lemma {:induction false} SweepPlain(t: seq<byte>)
    requires forall i :: 0 <= i < |t| ==> Plain(t[i])
    ensures Sweep(OUTSIDE, t) == Some(OUTSIDE)
    decreases |t|
  {
    if t != [] {
      SweepPlain(t[1..]);
    }
  }

  /** Brackets keep the commas between them from ending the parameter. */
  lemma {:induction false} SweepBracketed(t: seq<byte>)
    requires forall i :: 0 <= i < |t| ==> Plain(t[i]) || t[i] == COMMA
    ensures Sweep(Scan(false, true, false), t + [RBRACKET]) == Some(OUTSIDE)
    decreases |t|
  {
    if t == [] {
      assert t + [RBRACKET] == [RBRACKET];
      SweepOne(Scan(false, true, false), RBRACKET);
    } else {
      assert (t + [RBRACKET])[1..] == t[1..] + [RBRACKET];
      SweepBracketed(t[1..]);
    }
  }

  lemma SweepBrackets(t: seq<byte>)
    requires forall i :: 0 <= i < |t| ==> Plain(t[i]) || t[i] == COMMA
    ensures Sweep(OUTSIDE, [LBRACKET] + t + [RBRACKET]) == Some(OUTSIDE)
  {
    hide Sweep;
    SweepOne(OUTSIDE, LBRACKET);
    SweepBracketed(t);
    SweepConcat(OUTSIDE, [LBRACKET], t + [RBRACKET]);
    assert [LBRACKET] + (t + [RBRACKET]) == [LBRACKET] + t + [RBRACKET];
  }

  /** A parameter that starts with a quote is at least two long: stripping both quotes is safe. */
  lemma QuotedIsLong(t: seq<byte>)
    requires t != [] && t[0] == QUOTE && FindEnd(OUTSIDE, t).Some?
    ensures FindEnd(OUTSIDE, t).value >= 2
  {
    assert FindEnd(INSIDE, t[1..]).Some?;
    assert t[1..] != [];
  }
}
