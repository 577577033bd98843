/**
 From one end to the other: parameters that the send loop's printers write into a
 line reach the parser of the client that receives the line as the same values.
 */
module AtExchange {
  import opened Bytes
  import opened Chars
  import AtEscape
  import AtParams
  import AtAddress
  import opened AtCodec
  import Rx = AtReceiver
  import L = AtLines

  /** Values whose text holds no control characters: a raw string must be printable itself. */
  predicate PrintsClean(v: Value) {
    match v
    case Str(s) => |AtEscape.Quoted(s)| < BUF_SIZE || AllPrint(s)
    case Bin(s) => |AtEscape.Quoted(s)| < BUF_SIZE || AllPrint(s)
    case _ => true
  }

  lemma StringPrintable(s: seq<byte>)
    requires |AtEscape.Quoted(s)| < BUF_SIZE || AllPrint(s)
    ensures AllPrint(StringText(s))
  {
    AtEscape.EscapeIsPrintable(s);
  }

  lemma ValuePrintable(v: Value)
    requires IsValue(v) && PrintsClean(v)
    ensures AllPrint(ValueText(v))
  {
    hide StringText, SignedDecimal, AtParams.CommaList, HexOf, AtAddress.Dotted, AtAddress.Colons, AtAddress.Groups, AtAddress.Octets;
    match v {
      case Str(s) => StringPrintable(s);
      case Bin(s) => StringPrintable(s);
      case _ =>
    }
  }

  lemma {:induction false} ListPrintable(vs: seq<Value>)
    requires AllValues(vs) && forall i :: 0 <= i < |vs| ==> PrintsClean(vs[i])
    ensures AllPrint(ListText(vs))
  {
    hide ValueText, PrintsClean;
    if vs != [] {
      ListPrintable(vs[..|vs| - 1]);
      ValuePrintable(vs[|vs| - 1]);
    }
  }

  /** A response line with printed parameters is reported with a text that parses to the values that were sent. */
  lemma ResponseCarriesValues(ctx: Rx.Context, rx: Rx.Rx, prefix: seq<byte>, vs: seq<Value>)
    requires Rx.Inv(ctx, rx) && rx.mode.Text? && rx.line == []
    requires ctx.executing && ctx.expected == Some(prefix) && prefix != [] && AllPrint(prefix)
    requires AllSurvive(vs) && AllValues(vs) && forall i :: 0 <= i < |vs| ==> PrintsClean(vs[i])
    requires |prefix| + |ListText(vs)| < ctx.rxBufferLen
    ensures var r := Rx.Feed(ctx, rx, prefix + ListText(vs) + [CR]);
      && r.mode.Text? && r.line == []
      && r.events == rx.events + [Rx.GotResponse(Some(ListText(vs)), None)]
      && r.params == Some(ListText(vs))
      && Parse(Format(vs), r.params.value) == Parsed(|vs|, vs)
  {
    hide Rx.Feed, Rx.Inv, ListText, Parse, AllSurvive, AllValues, PrintsClean;
    var text := prefix + ListText(vs);
    ListPrintable(vs);
    Rx.FeedLine(ctx, rx, text);
    assert rx.line + text == text && text[|prefix|..] == ListText(vs) && prefix <= text;
    RoundTrip(vs);
  }

  /** A response line with printed parameters and a binary frame: text and data arrive, up to the room for them. */
  lemma FramedResponseCarriesValues(ctx: Rx.Context, rx: Rx.Rx, prefix: seq<byte>, vs: seq<Value>, data: seq<byte>)
    requires Rx.Inv(ctx, rx) && rx.mode.Text? && rx.line == []
    requires ctx.executing && ctx.expected == Some(prefix) && prefix != [] && AllPrint(prefix)
    requires AllSurvive(vs) && AllValues(vs) && forall i :: 0 <= i < |vs| ==> PrintsClean(vs[i])
    requires |prefix| + |ListText(vs)| < ctx.rxBufferLen && |data| <= U16_MAX
    ensures var r := Rx.Feed(ctx, rx, prefix + ListText(vs) + Rx.BinaryFrame(data));
      var room := if rx.rspLength.Some? then rx.rspLength.value else 0;
      && r.mode.Text? && r.line == []
      && r.events == rx.events + [Rx.GotResponse(Some(ListText(vs)), Some(data[..Min(|data|, room)]))]
      && r.params == Some(ListText(vs))
      && Parse(Format(vs), r.params.value) == Parsed(|vs|, vs)
  {
    hide Rx.Feed, Rx.Inv, ListText, Parse, AllSurvive, AllValues, PrintsClean, Rx.FrameResult, Rx.BinaryFrame;
    var text := prefix + ListText(vs);
    ListPrintable(vs);
    Rx.FeedLine(ctx, rx, text);
    assert rx.line + text == text && text[|prefix|..] == ListText(vs) && prefix <= text;
    var s := rx.(line := text);
    Rx.FeedAppend(ctx, rx, text, Rx.BinaryFrame(data));
    Rx.FrameWhole(ctx, s, data);
    Rx.FrameMeaning(ctx, s, data);
    RoundTrip(vs);
  }

  /** A line with printed parameters that counts as a URC is queued so that it parses the same way. */
  lemma UrcCarriesValues(ctx: Rx.Context, rx: Rx.Rx, prefix: seq<byte>, vs: seq<Value>)
    requires Rx.Inv(ctx, rx) && rx.mode.Text? && rx.line == []
    requires AllSurvive(vs) && AllValues(vs) && forall i :: 0 <= i < |vs| ==> PrintsClean(vs[i])
    requires L.IsUnsolicited(ctx, prefix + ListText(vs)) && AllPrint(prefix)
    requires |prefix| + |ListText(vs)| < ctx.rxBufferLen
    ensures var r := Rx.Feed(ctx, rx, prefix + ListText(vs) + [CR]);
      var line := prefix + ListText(vs);
      && r.ring.Contents() == rx.ring.Contents() +
           (if rx.ring.EnqueueBegin(line).1 then [Rx.UrcRing.Entry(line, [])] else [])
      && r.events == rx.events
      && Parse(Format(vs), line[|prefix|..]) == Parsed(|vs|, vs)
  {
    hide Rx.Feed, Rx.Inv, ListText, Parse, AllSurvive, AllValues, PrintsClean, Rx.UrcRing.Ring.Inv, Rx.UrcRing.Ring.EnqueueBegin, Rx.Classify, L.IsUnsolicited;
    var text := prefix + ListText(vs);
    ListPrintable(vs);
    L.UrcVerdict(ctx, text);
    Rx.FeedLine(ctx, rx, text);
    assert rx.line + text == text && text[|prefix|..] == ListText(vs);
    RoundTrip(vs);
  }
}
