/**
 What a received line means, told by its octets: which lines answer a command and with
 what status, which are responses, and which are URCs.  Also what becomes of octets that
 are not printable and of lines that never end.
 */
module AtLines {
  import opened Bytes
  import opened Chars
  import R = UrcRing
  import opened AtReceiver

  /** The command that is executing waits for lines that begin like this one. */
  predicate IsAwaited(ctx: Context, line: seq<byte>) {
    ctx.executing && ctx.expected.Some? && ctx.expected.value != [] && ctx.expected.value <= line
  }

  /** ERROR: and nothing but digits behind it. */
  predicate IsErrorCode(line: seq<byte>) {
    |line| > 6 && line[..6] == [69, 82, 82, 79, 82, 58] && AllDigits(line[6..])
  }

  /** The status that a line stands for: OK, ERROR, or ERROR: with a number, which an int must hold. */
  function Said(line: seq<byte>): Option<int> {
    if line == [79, 75] then Some(0)
    else if line == [69, 82, 82, 79, 82] then Some(-1)
    else if IsErrorCode(line) then Some(-Min(DecimalValue(line[6..]), 0x7FFF_FFFF))
    else None
  }

  /** The state at the start of a line of text. */
  predicate AtLineStart(s: Rx) {
    s.mode.Text? && s.line == []
  }

  /** A printable line that fits the buffer arrives whole. */
  predicate Arrives(ctx: Context, s: Rx, line: seq<byte>, end: byte) {
    AtLineStart(s) && AllPrint(line) && |line| < ctx.rxBufferLen && (end == CR || end == LF)
  }

  lemma LineTaken(ctx: Context, s: Rx, line: seq<byte>, end: byte)
    requires Inv(ctx, s) && Arrives(ctx, s, line, end)
    ensures Inv(ctx, s.(line := line)) && Feed(ctx, s, line + [end]) == TakeLine(ctx, s.(line := line))
  {
    hide Inv, Feed, TakeLine, AllPrint;
    FeedLine(ctx, s, line);
    assert s.line + line == line;
  }

  // ----- the status -----

  /** What an answer does, and nothing else: it sets the status and is reported. */
  lemma StatusLine(ctx: Context, s: Rx, line: seq<byte>, end: byte)
    requires Inv(ctx, s) && Arrives(ctx, s, line, end)
    requires ctx.executing && !IsAwaited(ctx, line) && Said(line).Some?
    ensures Feed(ctx, s, line + [end]) == s.(status := Said(line).value, events := s.events + [GotStatus(Said(line).value)])
  {
    hide Inv, Feed, AllPrint, DecimalValue;
    LineTaken(ctx, s, line, end);
  }

  /** OK is 0. */
  lemma OkLine(ctx: Context, s: Rx, end: byte)
    requires Inv(ctx, s) && Arrives(ctx, s, [79, 75], end) && ctx.executing && !IsAwaited(ctx, [79, 75])
    ensures var r := Feed(ctx, s, [79, 75, end]);
      r.status == 0 && r.events == s.events + [GotStatus(0)] && r.line == [] && r.mode == Text && r.ring == s.ring
  {
    hide Inv, Feed;
    StatusLine(ctx, s, [79, 75], end);
    assert [79, 75] + [end] == [79, 75, end];
  }

  /** ERROR is -1. */
  lemma ErrorLine(ctx: Context, s: Rx, end: byte)
    requires Inv(ctx, s) && Arrives(ctx, s, [69, 82, 82, 79, 82], end)
    requires ctx.executing && !IsAwaited(ctx, [69, 82, 82, 79, 82])
    ensures var r := Feed(ctx, s, [69, 82, 82, 79, 82, end]);
      r.status == -1 && r.events == s.events + [GotStatus(-1)] && r.line == [] && r.mode == Text && r.ring == s.ring
  {
    hide Inv, Feed;
    StatusLine(ctx, s, [69, 82, 82, 79, 82], end);
    assert [69, 82, 82, 79, 82] + [end] == [69, 82, 82, 79, 82, end];
  }

  /** ERROR: with the number n is -n, and the least that an int can negate for any greater number. */
  lemma ErrorCodeLine(ctx: Context, s: Rx, n: nat, end: byte)
    requires var line := [69, 82, 82, 79, 82, 58] + Decimal(n);
      Inv(ctx, s) && Arrives(ctx, s, line, end) && ctx.executing && !IsAwaited(ctx, line)
    ensures var r := Feed(ctx, s, [69, 82, 82, 79, 82, 58] + Decimal(n) + [end]);
      var status := -Min(n, 0x7FFF_FFFF);
      r.status == status && r.events == s.events + [GotStatus(status)] && r.line == [] && r.mode == Text && r.ring == s.ring
  {
    hide Inv, Feed, Decimal, DecimalValue, AllPrint;
    var line := [69, 82, 82, 79, 82, 58] + Decimal(n);
    assert line[6..] == Decimal(n) && line[..6] == [69, 82, 82, 79, 82, 58];
    DecimalIsValue(n);
    StatusLine(ctx, s, line, end);
  }

  /** A status is reported for these lines alone. */
  lemma StatusIff(ctx: Context, s: Rx, line: seq<byte>, end: byte)
    requires Inv(ctx, s) && Arrives(ctx, s, line, end)
    ensures var r := Feed(ctx, s, line + [end]);
      && (r.events != s.events && r.events != [] && r.events[|r.events| - 1].GotStatus?
          <==> ctx.executing && !IsAwaited(ctx, line) && Said(line).Some?)
      && (r.status != s.status ==> ctx.executing && !IsAwaited(ctx, line) && Said(line) == Some(r.status))
  {
    hide Inv, Feed, AllPrint, DecimalValue, QueueLine;
    LineTaken(ctx, s, line, end);
    LineVerdict(ctx, line);
  }

  lemma LineVerdict(ctx: Context, line: seq<byte>)
    ensures Classify(ctx, line).Status? <==> ctx.executing && !IsAwaited(ctx, line) && Said(line).Some?
    ensures Classify(ctx, line).Status? ==> Said(line) == Some(Classify(ctx, line).code)
  {
    hide AllDigits, DecimalValue;
    if |line| > 6 {
      assert line[..6] == [line[0], line[1], line[2], line[3], line[4], line[5]];
    }
  }

  /** The lines that stand for success: OK, and ERROR: with zeros only. */
  lemma ZeroIff(line: seq<byte>)
    ensures Said(line) == Some(0) <==>
      || line == [79, 75]
      || (|line| > 6 && line[..6] == [69, 82, 82, 79, 82, 58] && forall i :: 6 <= i < |line| ==> line[i] == 48)
  {
    hide DecimalValue;
    if |line| > 6 && AllDigits(line[6..]) {
      ZeroValue(line[6..]);
      assert forall i :: 6 <= i < |line| ==> line[i] == line[6..][i - 6];
    } else if |line| > 6 {
      assert forall i :: 6 <= i < |line| ==> line[6..][i - 6] == line[i];
    }
  }

  lemma {:induction false} ZeroValue(ds: seq<byte>)
    requires AllDigits(ds)
    ensures DecimalValue(ds) == 0 <==> forall i :: 0 <= i < |ds| ==> ds[i] == 48
  {
    if ds != [] {
      ZeroValue(ds[..|ds| - 1]);
    }
  }

  /** The receiver is at the end of a line, or at the last octet of a header behind one. */
  predicate LineEnds(s: Rx, b: byte) {
    (s.mode.Text? && (b == CR || b == LF)) || (s.mode.Header? && |s.mode.got| == 1)
  }

  /** The line that ends with octet k says this status. */
  predicate SaidAt(ctx: Context, s: Rx, bytes: seq<byte>, k: nat, status: int)
    requires Inv(ctx, s)
  {
    && ctx.executing && k < |bytes|
    && var r := Feed(ctx, s, bytes[..k]);
       LineEnds(r, bytes[k]) && !IsAwaited(ctx, r.line) && Said(r.line) == Some(status)
  }

  lemma StepStatus(ctx: Context, s: Rx, b: byte)
    requires Inv(ctx, s) && Step(ctx, s, b).status != s.status
    ensures ctx.executing && LineEnds(s, b) && !IsAwaited(ctx, s.line) && Said(s.line) == Some(Step(ctx, s, b).status)
  {
    hide R.Ring.Inv, QueueLine, SetupTransfer, Classify, AllPrint, Said;
    LineVerdict(ctx, s.line);
  }

  /** Whatever arrives: a status that has changed is the one that a line among the octets says. */
  lemma {:induction false} StatusWasSaid(ctx: Context, s: Rx, bytes: seq<byte>)
    requires Inv(ctx, s)
    ensures var status := Feed(ctx, s, bytes).status;
      status != s.status ==> exists k: nat :: SaidAt(ctx, s, bytes, k, status)
    decreases |bytes|
  {
    hide Inv, Step, Said;
    var status := Feed(ctx, s, bytes).status;
    if status != s.status {
      var n := |bytes| - 1;
      var before := Feed(ctx, s, bytes[..n]);
      assert bytes[..n] + [bytes[n]] == bytes;
      FeedAppend(ctx, s, bytes[..n], [bytes[n]]);
      FeedOne(ctx, before, bytes[n]);
      if before.status != status {
        StepStatus(ctx, before, bytes[n]);
        assert SaidAt(ctx, s, bytes, n, status);
      } else {
        StatusWasSaid(ctx, s, bytes[..n]);
        var k: nat :| SaidAt(ctx, s, bytes[..n], k, status);
        assert bytes[..n][..k] == bytes[..k];
        assert SaidAt(ctx, s, bytes, k, status);
      }
    }
  }

  /** These octets end with this line, which starts where a line starts. */
  predicate LastLine(ctx: Context, s: Rx, bytes: seq<byte>, line: seq<byte>)
    requires Inv(ctx, s)
  {
    && |bytes| > |line|
    && var n := |bytes| - |line| - 1;
       bytes[n..|bytes| - 1] == line && Arrives(ctx, Feed(ctx, s, bytes[..n]), line, bytes[|bytes| - 1])
  }

  /** One line after whatever came before. */
  lemma LastLineTaken(ctx: Context, s: Rx, bytes: seq<byte>, line: seq<byte>)
    requires Inv(ctx, s) && LastLine(ctx, s, bytes, line)
    ensures var before := Feed(ctx, s, bytes[..|bytes| - |line| - 1]);
      Inv(ctx, before) && AtLineStart(before) && Feed(ctx, s, bytes) == Feed(ctx, before, line + [bytes[|bytes| - 1]])
  {
    hide Inv, Feed;
    var n := |bytes| - |line| - 1;
    FeedAppend(ctx, s, bytes[..n], line + [bytes[|bytes| - 1]]);
    assert bytes[..n] + (line + [bytes[|bytes| - 1]]) == bytes;
  }

  /** What the last line says is the status in the end. */
  lemma LastLineDecides(ctx: Context, s: Rx, bytes: seq<byte>, line: seq<byte>)
    requires Inv(ctx, s) && LastLine(ctx, s, bytes, line)
    requires ctx.executing && !IsAwaited(ctx, line) && Said(line).Some?
    ensures Feed(ctx, s, bytes).status == Said(line).value
  {
    hide Inv, Feed, Said, Arrives;
    var before := Feed(ctx, s, bytes[..|bytes| - |line| - 1]);
    LastLineTaken(ctx, s, bytes, line);
    ArrivesAfter(ctx, s, bytes, line);
    StatusLine(ctx, before, line, bytes[|bytes| - 1]);
  }

  lemma ArrivesAfter(ctx: Context, s: Rx, bytes: seq<byte>, line: seq<byte>)
    requires Inv(ctx, s) && LastLine(ctx, s, bytes, line)
    ensures Arrives(ctx, Feed(ctx, s, bytes[..|bytes| - |line| - 1]), line, bytes[|bytes| - 1])
  {
  }

  // ----- responses -----

  /** The lines that are no response unless a command waits for them. */
  predicate IsReserved(line: seq<byte>) {
    || line == [] || line[0] == 43 || line[0] == 42
    || (|line| >= 3 && line[..3] == [65, 84, 43])
    || line == [79, 75]
    || (|line| >= 5 && line[..5] == [69, 82, 82, 79, 82])
  }

  /** What a line hands out: all of it, or what follows the prefix that the command waits for. */
  function Answer(ctx: Context, line: seq<byte>): Option<seq<byte>> {
    if IsAwaited(ctx, line) then Some(line[|ctx.expected.value|..])
    else if ctx.executing && !IsReserved(line) then Some(line)
    else None
  }

  /** What a response does, and nothing else. */
  lemma ResponseLine(ctx: Context, s: Rx, line: seq<byte>, end: byte)
    requires Inv(ctx, s) && Arrives(ctx, s, line, end) && Answer(ctx, line).Some?
    ensures Feed(ctx, s, line + [end])
         == s.(params := Answer(ctx, line), events := s.events + [GotResponse(Answer(ctx, line), None)])
  {
    hide Inv, Feed, AllPrint, DecimalValue;
    LineTaken(ctx, s, line, end);
    ResponseVerdict(ctx, line);
  }

  /** A response is reported for these lines alone. */
  lemma ResponseIff(ctx: Context, s: Rx, line: seq<byte>, end: byte)
    requires Inv(ctx, s) && Arrives(ctx, s, line, end)
    ensures var r := Feed(ctx, s, line + [end]);
      && (r.events != s.events && r.events != [] && r.events[|r.events| - 1].GotResponse? <==> Answer(ctx, line).Some?)
      && (r.params != s.params ==> Answer(ctx, line) == r.params)
  {
    hide Inv, Feed, AllPrint, QueueLine, Classify, Answer;
    LineTaken(ctx, s, line, end);
    ResponseVerdict(ctx, line);
  }

  lemma ResponseVerdict(ctx: Context, line: seq<byte>)
    ensures Classify(ctx, line).Response? <==> Answer(ctx, line).Some?
    ensures Classify(ctx, line).Response? ==> Answer(ctx, line) == Some(line[Classify(ctx, line).skip..])
  {
    hide AllDigits, DecimalValue;
    StartsWith(line);
  }

  lemma StartsWith(line: seq<byte>)
    ensures [65, 84, 43] <= line <==> |line| >= 3 && line[..3] == [65, 84, 43]
    ensures [69, 82, 82, 79, 82] <= line <==> |line| >= 5 && line[..5] == [69, 82, 82, 79, 82]
    ensures line[0..] == line
  {
  }

  /** The line that ends with octet k hands out this text. */
  predicate AnswerAt(ctx: Context, s: Rx, bytes: seq<byte>, k: nat, text: Option<seq<byte>>)
    requires Inv(ctx, s)
  {
    && k < |bytes|
    && var r := Feed(ctx, s, bytes[..k]);
       LineEnds(r, bytes[k]) && text.Some? && Answer(ctx, r.line) == text
  }

  lemma StepParams(ctx: Context, s: Rx, b: byte)
    requires Inv(ctx, s) && Step(ctx, s, b).params != s.params
    ensures LineEnds(s, b) && Step(ctx, s, b).params.Some? && Answer(ctx, s.line) == Step(ctx, s, b).params
  {
    hide R.Ring.Inv, QueueLine, SetupTransfer, Classify, AllPrint, Answer;
    ResponseVerdict(ctx, s.line);
  }

  /** Whatever arrives: a response text that has changed is that of a line among the octets. */
  lemma {:induction false} AnswerWasSent(ctx: Context, s: Rx, bytes: seq<byte>)
    requires Inv(ctx, s)
    ensures var text := Feed(ctx, s, bytes).params;
      text != s.params ==> exists k: nat :: AnswerAt(ctx, s, bytes, k, text)
    decreases |bytes|
  {
    hide Inv, Step, Answer;
    var text := Feed(ctx, s, bytes).params;
    if text != s.params {
      var n := |bytes| - 1;
      var before := Feed(ctx, s, bytes[..n]);
      assert bytes[..n] + [bytes[n]] == bytes;
      FeedAppend(ctx, s, bytes[..n], [bytes[n]]);
      FeedOne(ctx, before, bytes[n]);
      if before.params != text {
        StepParams(ctx, before, bytes[n]);
        assert AnswerAt(ctx, s, bytes, n, text);
      } else {
        AnswerWasSent(ctx, s, bytes[..n]);
        var k: nat :| AnswerAt(ctx, s, bytes[..n], k, text);
        assert bytes[..n][..k] == bytes[..k];
        assert AnswerAt(ctx, s, bytes, k, text);
      }
    }
  }

  /** What the last line hands out is the response text in the end, and it has been reported. */
  lemma LastLineAnswers(ctx: Context, s: Rx, bytes: seq<byte>, line: seq<byte>)
    requires Inv(ctx, s) && LastLine(ctx, s, bytes, line) && Answer(ctx, line).Some?
    ensures var r := Feed(ctx, s, bytes);
      && r.params == Answer(ctx, line)
      && |r.events| > |s.events| && r.events[|r.events| - 1] == GotResponse(Answer(ctx, line), None)
  {
    hide Inv, Feed, Arrives, Answer;
    var n := |bytes| - |line| - 1;
    LastLineTaken(ctx, s, bytes, line);
    ArrivesAfter(ctx, s, bytes, line);
    ResponseLine(ctx, Feed(ctx, s, bytes[..n]), line, bytes[|bytes| - 1]);
    FeedGrows(ctx, s, bytes[..n]);
  }

  // ----- URCs -----

  /** A line that begins with a plus or a star, and that no command waits for. */
  predicate IsUnsolicited(ctx: Context, line: seq<byte>) {
    line != [] && (line[0] == 43 || line[0] == 42) && !IsAwaited(ctx, line)
  }

  /** Exactly such a line is queued, if there is room; and it does nothing else. */
  lemma UrcIff(ctx: Context, s: Rx, line: seq<byte>, end: byte)
    requires Inv(ctx, s) && Arrives(ctx, s, line, end)
    ensures var r := Feed(ctx, s, line + [end]);
      && r.ring.Contents() == s.ring.Contents() +
         (if IsUnsolicited(ctx, line) && R.PrefixSize(line) <= s.ring.LargestRun() && |line| <= U16_MAX
          then [R.Entry(line, [])] else [])
      && (IsUnsolicited(ctx, line) ==> r == s.(ring := r.ring))
  {
    hide Inv, Feed, AllPrint, DecimalValue, R.Ring.Contents, R.Ring.LargestRun, R.Ring.EnqueueBegin, R.Ring.Inv, R.PrefixSize, QueueLine;
    LineTaken(ctx, s, line, end);
    RingOf(ctx, s);
    R.EnqueueBeginKeeps(s.ring, line);
  }

  lemma RingOf(ctx: Context, s: Rx)
    requires Inv(ctx, s) && s.mode.Text?
    ensures s.ring.Inv() && s.ring.enqueueEntry.None?
  {
  }

  /** Everything else leaves no trace: empty lines, the echo of a command, other lines while no command is executing. */
  lemma OtherLine(ctx: Context, s: Rx, line: seq<byte>, end: byte)
    requires Inv(ctx, s) && Arrives(ctx, s, line, end)
    requires !IsAwaited(ctx, line) && !IsUnsolicited(ctx, line)
    requires ctx.executing ==> IsReserved(line) && Said(line).None?
    ensures Feed(ctx, s, line + [end]) == s
  {
    hide Inv, Feed, AllPrint, DecimalValue, QueueLine;
    LineTaken(ctx, s, line, end);
    StartsWith(line);
    LineVerdict(ctx, line);
  }

  // ----- frames -----

  lemma UrcVerdict(ctx: Context, line: seq<byte>)
    ensures Classify(ctx, line) == Urc <==> IsUnsolicited(ctx, line)
  {
    hide AllDigits, DecimalValue;
  }

  /** The frame that follows a line: SOH, the length with the high octet first, and the data. */
  function Framed(line: seq<byte>, data: seq<byte>): seq<byte>
    requires |data| <= U16_MAX
  {
    line + ([1, |data| / 256, |data| % 256] + data)
  }

  /**
   What a line with a frame behind it does, whatever octets the data are: a response is handed out with
   as much of the data as its buffer holds, a URC is queued with all of them or not at all, an answer sets
   the status without being reported, and anything else is passed over.  The next octet starts a line.
   */
  lemma FrameOfLine(ctx: Context, s: Rx, line: seq<byte>, data: seq<byte>)
    requires Inv(ctx, s) && Arrives(ctx, s, line, CR) && |data| <= U16_MAX
    ensures var r := Feed(ctx, s, Framed(line, data));
      var kept := data[..Min(|data|, if s.rspLength.Some? then s.rspLength.value else 0)];
      && AtLineStart(r)
      && (Answer(ctx, line).Some? ==>
            r == s.(params := Answer(ctx, line), events := s.events + [GotResponse(Answer(ctx, line), Some(kept))],
                    rspLength := if s.rspLength.Some? then Some(|kept|) else None))
      && r.ring.Contents() == s.ring.Contents() +
         (if IsUnsolicited(ctx, line) && R.PrefixSize(line) + |data| <= s.ring.LargestRun() && |line| <= U16_MAX
          then [R.Entry(line, data)] else [])
      && (Answer(ctx, line).None? ==>
            && r.events == s.events && r.rspLength == s.rspLength
            && r.status == if ctx.executing && !IsAwaited(ctx, line) && Said(line).Some? then Said(line).value else s.status)
  {
    hide Inv, Feed, AllPrint, DecimalValue, R.Ring.Contents, R.Ring.LargestRun, R.Ring.Inv, R.PrefixSize, Classify,
         FrameResult, Answer, IsUnsolicited, IsAwaited, Said, BinaryFrame;
    var t := s.(line := line);
    FeedLine(ctx, s, line);
    assert s.line + line == line;
    FeedAppend(ctx, s, line, BinaryFrame(data));
    FrameWhole(ctx, t, data);
    FrameMeaning(ctx, t, data);
    FrameSpelled(data);
    LineVerdict(ctx, line);
    ResponseVerdict(ctx, line);
    UrcVerdict(ctx, line);
  }

  lemma FrameSpelled(data: seq<byte>)
    requires |data| <= U16_MAX
    ensures BinaryFrame(data) == [1, |data| / 256, |data| % 256] + data
  {
  }

  // ----- octets that are not part of a line -----

  /** The printable octets of a text. */
  function Printed(bytes: seq<byte>): seq<byte> {
    if bytes == [] then [] else Printed(bytes[..|bytes| - 1]) + if 32 <= bytes[|bytes| - 1] <= 126 then [bytes[|bytes| - 1]] else []
  }

  predicate Unended(bytes: seq<byte>) {
    1 !in bytes && 13 !in bytes && 10 !in bytes
  }

  /** The line after so many octets of it: it begins anew whenever it has filled the buffer. */
  function Kept(all: seq<byte>, size: nat): seq<byte> {
    if size == 0 then all else all[|all| - |all| % size..]
  }

  lemma PrintedNext(bytes: seq<byte>)
    requires bytes != []
    ensures Printed(bytes) == Printed(bytes[..|bytes| - 1]) + Printed([bytes[|bytes| - 1]])
  {
    var last := [bytes[|bytes| - 1]];
    assert last[..0] == [] && Printed([]) == [];
    assert Printed(last) == if 32 <= last[0] <= 126 then [last[0]] else [];
  }

  lemma UnendedPart(bytes: seq<byte>)
    requires bytes != [] && Unended(bytes)
    ensures Unended(bytes[..|bytes| - 1]) && bytes[|bytes| - 1] !in {1, 13, 10}
  {
    assert bytes[|bytes| - 1] in bytes;
    assert forall b :: b in bytes[..|bytes| - 1] ==> b in bytes;
  }

  /** Octets without an end of line, whatever they are: the printable ones are added to the line. */
  lemma {:induction false} FeedUnended(ctx: Context, s: Rx, bytes: seq<byte>)
    requires Inv(ctx, s) && s.mode.Text? && Unended(bytes)
    ensures Feed(ctx, s, bytes) == s.(line := Kept(s.line + Printed(bytes), ctx.rxBufferLen))
    decreases |bytes|
  {
    hide Inv, Feed, Kept, Step, Unended, Printed;
    if bytes == [] {
      FeedNothing(ctx, s);
      assert s.line + [] == s.line;
    } else {
      var n := |bytes| - 1;
      var before := Feed(ctx, s, bytes[..n]);
      PrintedNext(bytes);
      UnendedPart(bytes);
      FeedUnended(ctx, s, bytes[..n]);
      FeedAppend(ctx, s, bytes[..n], [bytes[n]]);
      assert bytes[..n] + [bytes[n]] == bytes;
      FeedOne(ctx, before, bytes[n]);
      StepUnended(ctx, before, bytes[n], s.line + Printed(bytes[..n]));
      assert s.line + Printed(bytes) == s.line + Printed(bytes[..n]) + Printed([bytes[n]]);
    }
  }

  lemma FeedNothing(ctx: Context, s: Rx)
    requires Inv(ctx, s)
    ensures Feed(ctx, s, []) == s && Printed([]) == [] && Kept(s.line, ctx.rxBufferLen) == s.line
  {
    hide R.Ring.Inv, AllPrint;
    SmallRest(|s.line|, ctx.rxBufferLen);
  }

  lemma StepUnended(ctx: Context, s: Rx, b: byte, all: seq<byte>)
    requires Inv(ctx, s) && s.mode.Text? && b !in {1, 13, 10} && s.line == Kept(all, ctx.rxBufferLen)
    ensures Step(ctx, s, b) == s.(line := Kept(all + Printed([b]), ctx.rxBufferLen))
    ensures Printed([b]) == if 32 <= b <= 126 then [b] else []
  {
    hide R.Ring.Inv, AllPrint, Kept, TakeLine;
    assert Printed([]) == [] && [b][..0] == [];
    if IsPrint(b) {
      assert all + Printed([b]) == all + [b];
      OneMoreOctet(all, b, ctx.rxBufferLen);
    } else {
      assert all + Printed([b]) == all;
    }
  }

  lemma OneMoreOctet(all: seq<byte>, b: byte, size: nat)
    requires size > 0
    ensures var line := Kept(all, size);
      Kept(all + [b], size) == if |line| + 1 == size then [] else line + [b]
  {
    NextRest(|all|, size);
  }

  lemma SmallRest(n: nat, size: nat)
    requires n < size
    ensures n % size == n
  {
  }

  lemma NextRest(n: nat, size: nat)
    requires size > 0
    ensures (n + 1) % size == if n % size + 1 == size then 0 else n % size + 1
  {
    var q, r := n / size, n % size;
    assert n == size * q + r;
    if r + 1 == size {
      assert n + 1 == size * (q + 1);
      RestIs(n + 1, q + 1, 0, size);
    } else {
      RestIs(n + 1, q, r + 1, size);
    }
  }

  lemma RestIs(n: nat, q: nat, r: nat, size: nat)
    requires n == size * q + r && r < size
    ensures n % size == r
  {
    var e := n / size - q;
    assert n == size * (n / size) + n % size;
    assert size * e == r - n % size;
    if e > 0 {
      AtLeast(e, size);
    } else if e < 0 {
      AtLeast(-e, size);
    }
  }

  lemma AtLeast(e: nat, size: nat)
    requires e > 0
    ensures size * e >= size
  {
    assert size * e == size * (e - 1) + size;
  }
}
