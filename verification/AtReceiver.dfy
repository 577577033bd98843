/**
 The AT receiver as a transducer that takes one octet at a time.  It is the
 reference for the client's read loops: however the stream is cut into reads,
 they must leave the state that feeding the same octets one by one leaves.
 */
module AtReceiver {
  import opened Bytes
  import opened Chars
  import opened UrcRing

  const SOH: byte := 0x01
  const LF: byte := 10
  const CR: byte := 13
  const STAR: byte := 42

  const TEXT_OK: seq<byte> := [79, 75]
  const TEXT_ERROR: seq<byte> := [69, 82, 82, 79, 82]
  const TEXT_ECHO: seq<byte> := [65, 84, 43]

  const NO_STATUS := 0x7FFF_FFFF
  const INT_MAX := 0x7FFF_FFFF
  const EXTENDED_ERROR_OFFSET := 0
  const ERROR_STATUS_ERROR := -1
  const ERROR_IO := -0x10001

  /** What the client waits for: fixed while one call of the receiver runs. */
  datatype Context = Context(executing: bool, expected: Option<seq<byte>>, rxBufferLen: nat)

  datatype Verdict = Ignored | Status(code: int) | Response(skip: nat) | Urc

  predicate IsUrcLine(line: seq<byte>) {
    |line| > 0 && (line[0] == PLUS || line[0] == STAR)
  }

  /** parseLine without its effects. */
  function Classify(ctx: Context, line: seq<byte>): (v: Verdict)
    ensures v.Response? ==> v.skip <= |line|
    ensures v.Status? ==> v.code != NO_STATUS
    ensures line == [] ==> v == Ignored
  {
    if line == [] then Ignored
    else if ctx.executing then
      if ctx.expected.Some? && ctx.expected.value != [] && ctx.expected.value <= line
      then Response(|ctx.expected.value|)
      else if line == TEXT_OK then Status(0)
      else if TEXT_ERROR <= line then
        if |line| == 5 then Status(ERROR_STATUS_ERROR)
        else if line[5] == COLON && |line| > 6 && AllDigits(line[6..])
        then Status(EXTENDED_ERROR_OFFSET - Min(DecimalValue(line[6..]), INT_MAX))
        else Ignored
      else if line[0] != PLUS && line[0] != STAR && !(TEXT_ECHO <= line) then Response(0)
      else if IsUrcLine(line) then Urc
      else Ignored
    else if IsUrcLine(line) then Urc
    else Ignored
  }

  datatype Dest = Flush | Rsp | UrcQueue

  /** Payload holds the octets still to come, the space there is and what was kept so far. */
  datatype Mode =
    | Text
    | Header(got: seq<byte>)
    | Payload(dest: Dest, remaining: nat, size: nat, kept: seq<byte>)

  /** A response is a text line, or a frame with the data that was kept of it. */
  datatype Event = GotStatus(code: int) | GotResponse(params: Option<seq<byte>>, data: Option<seq<byte>>)

  datatype Rx = Rx(
    line: seq<byte>,
    mode: Mode,
    status: int,
    params: Option<seq<byte>>,   // the response text, if a response has been seen since the last command began
    rspLength: Option<nat>,
    ring: Ring,
    events: seq<Event>)

  ghost predicate Inv(ctx: Context, s: Rx) {
    && s.ring.Inv()
    && |s.line| < ctx.rxBufferLen
    && AllPrint(s.line)
    && (s.rspLength.Some? ==> s.rspLength.value <= U16_MAX)
    && (s.ring.enqueueEntry.Some? <==> s.mode.Payload? && s.mode.dest == UrcQueue)
    && match s.mode
       case Text => true
       case Header(got) => |got| < 2
       case Payload(dest, remaining, size, kept) =>
         && 0 < remaining <= U16_MAX
         && |kept| <= size <= U16_MAX
         && (dest == Flush ==> size == 0)
         && (dest == UrcQueue ==> |kept| + remaining <= size && size <= s.ring.enqueueCapacity)
  }

  /** The command context, the status and the response words play no part in Inv. */
  lemma InvAcross(ctx: Context, s: Rx, ctx': Context, s': Rx)
    requires Inv(ctx, s) && ctx'.rxBufferLen == ctx.rxBufferLen
    requires s' == s.(params := s'.params, status := s'.status, rspLength := s'.rspLength)
    requires s'.rspLength == s.rspLength || s'.rspLength.None? || s'.rspLength.value <= U16_MAX
    ensures Inv(ctx', s')
  {
    hide Ring.Inv, AllPrint;
  }

  /** Nor does the consumer's side of the queue. */
  lemma InvRing(ctx: Context, s: Rx, ring: Ring)
    requires Inv(ctx, s) && ring.Inv()
    requires ring.enqueueEntry == s.ring.enqueueEntry && ring.enqueueCapacity == s.ring.enqueueCapacity
    ensures Inv(ctx, s.(ring := ring))
    ensures s.mode.Payload? && s.mode.dest == UrcQueue ==> ring.writePos == s.ring.writePos
  {
    hide Ring.Linear, Ring.Wrapped, SlotsOk, AllPrint, Ring.OnGrid;
  }

  // ----- one octet -----

  /** A complete text line: a status or response is reported, a URC is queued without payload. */
  function TakeLine(ctx: Context, s: Rx): (r: Rx)
    requires Inv(ctx, s) && s.mode.Text?
    ensures Inv(ctx, r)
  {
    var r := s.(line := []);
    match Classify(ctx, s.line)
    case Ignored => r
    case Status(c) => r.(status := c, events := s.events + [GotStatus(c)])
    case Response(k) => r.(params := Some(s.line[k..]), events := s.events + [GotResponse(Some(s.line[k..]), None)])
    case Urc => r.(ring := QueueLine(s.ring, s.line))
  }

  /** Begin and, if that succeeds, End without payload. */
  function QueueLine(ring: Ring, line: seq<byte>): (r: Ring)
    requires ring.Inv() && ring.enqueueEntry.None?
    ensures r.Inv() && r.enqueueEntry.None? && r.dequeueEntry == ring.dequeueEntry
    ensures r.Contents() == ring.Contents() + if ring.EnqueueBegin(line).1 then [Entry(line, [])] else []
  {
    EnqueueBeginKeeps(ring, line);
    var (q, ok) := ring.EnqueueBegin(line);
    if ok then EnqueueEndKeeps(q, []); q.EnqueueEnd([]) else q
  }

  /** What parseLine finds in front of a frame, and whether it opened a queue entry. */
  datatype Parsed = Parsed(verdict: Verdict, ring: Ring, begun: bool)

  function ParseAhead(ctx: Context, line: seq<byte>, ring: Ring): (p: Parsed)
    requires ring.Inv() && ring.enqueueEntry.None?
    ensures p.ring.Inv() && p.ring.Contents() == ring.Contents() && p.ring.dequeueEntry == ring.dequeueEntry
    ensures p.ring.enqueueEntry.Some? <==> p.begun
    ensures p.begun ==> p.verdict == Urc && p.ring.enqueueEntry.value.line == line
  {
    var v := Classify(ctx, line);
    EnqueueBeginKeeps(ring, line);
    if v == Urc then var (q, ok) := ring.EnqueueBegin(line); Parsed(v, q, ok) else Parsed(v, ring, false)
  }

  /** Destination, space and length word of a transfer, and the queue once it is set up. */
  datatype Transfer = Transfer(dest: Dest, size: nat, rspLength: Option<nat>, ring: Ring)

  /** setupBinaryTransfer without its effects: a URC whose payload does not fit is given up. */
  function SetupTransfer(p: Parsed, rspLength: Option<nat>, length: nat): (t: Transfer)
    requires p.ring.Inv() && (p.ring.enqueueEntry.Some? <==> p.begun)
    ensures t.ring.Inv() && t.ring.Contents() == p.ring.Contents() && t.ring.dequeueEntry == p.ring.dequeueEntry
    ensures t.ring.enqueueEntry.Some? <==> t.dest == UrcQueue
    ensures t.rspLength.Some? ==> rspLength.Some? && t.rspLength.value <= rspLength.value
    ensures t.dest == Rsp ==> p.verdict.Response?
    ensures t.dest == Rsp && rspLength.Some? ==> t.size == rspLength.value
    ensures t.dest == Rsp && rspLength.None? ==> t.size == 0
    ensures t.dest == Flush ==> t.size == 0
    ensures t.dest == UrcQueue ==>
      length <= t.size <= U16_MAX && t.size <= t.ring.enqueueCapacity && t.ring == p.ring
  {
    if p.begun then
      var space := Min(p.ring.enqueueCapacity, U16_MAX);
      if space >= length then Transfer(UrcQueue, space, rspLength, p.ring)
      else EnqueueAbortKeeps(p.ring); Transfer(Flush, 0, rspLength, p.ring.EnqueueAbort())
    else if p.verdict.Response? then
      if rspLength.Some? then Transfer(Rsp, rspLength.value, Some(0), p.ring) else Transfer(Rsp, 0, None, p.ring)
    else Transfer(Flush, 0, rspLength, p.ring)
  }

  /** Where the payload of a frame goes once its length is known. */
  function StartPayload(ctx: Context, s: Rx, length: nat): (r: Rx)
    requires Inv(ctx, s) && s.mode.Header? && length <= U16_MAX
    ensures r.mode.Payload? && r.mode.remaining == length && r.mode.kept == []
    ensures length > 0 ==> Inv(ctx, r)
    ensures length == 0 ==> Ending(ctx, r)
  {
    var p := ParseAhead(ctx, s.line, s.ring);
    var t := SetupTransfer(p, s.rspLength, length);
    var r := Rx([], Payload(t.dest, length, t.size, []),
                if p.verdict.Status? then p.verdict.code else s.status,
                if p.verdict.Response? then Some(s.line[p.verdict.skip..]) else s.params,
                t.rspLength, t.ring, s.events);
    TransferKeeps(ctx, s, t, length, r);
    r
  }

  lemma TransferKeeps(ctx: Context, s: Rx, t: Transfer, length: nat, r: Rx)
    requires Inv(ctx, s) && s.mode.Header? && length <= U16_MAX
    requires t.ring.Inv() && t.size <= U16_MAX && (t.rspLength.Some? ==> t.rspLength.value <= U16_MAX)
    requires t.ring.enqueueEntry.Some? <==> t.dest == UrcQueue
    requires t.dest == Flush ==> t.size == 0
    requires t.dest == UrcQueue ==> length <= t.size <= t.ring.enqueueCapacity
    requires r.line == [] && r.mode == Payload(t.dest, length, t.size, []) && r.ring == t.ring && r.rspLength == t.rspLength
    ensures if length > 0 then Inv(ctx, r) else Ending(ctx, r)
  {
    hide Ring.Inv;
  }

  /** Inv of a frame whose last octet has arrived. */
  ghost predicate Ending(ctx: Context, s: Rx) {
    && s.mode.Payload? && s.mode.remaining == 0
    && s.ring.Inv()
    && |s.line| < ctx.rxBufferLen
    && AllPrint(s.line)
    && (s.rspLength.Some? ==> s.rspLength.value <= U16_MAX)
    && (s.ring.enqueueEntry.Some? <==> s.mode.dest == UrcQueue)
    && |s.mode.kept| <= s.mode.size <= U16_MAX
    && (s.mode.dest == UrcQueue ==> s.mode.size <= s.ring.enqueueCapacity)
  }

  /** The end of a binary frame. */
  function Finish(ctx: Context, s: Rx): (r: Rx)
    requires Ending(ctx, s)
    ensures Inv(ctx, r) && r.mode == Text
  {
    var r := s.(mode := Text);
    match s.mode.dest
    case Flush => r
    case Rsp =>
      r.(rspLength := if s.rspLength.Some? then Some(|s.mode.kept|) else None,
         events := s.events + [GotResponse(s.params, Some(s.mode.kept))])
    case UrcQueue =>
      EnqueueEndKeeps(s.ring, s.mode.kept);
      r.(ring := s.ring.EnqueueEnd(s.mode.kept))
  }

  function FinishIfDone(ctx: Context, s: Rx): (r: Rx)
    requires s.mode.Payload? && (if s.mode.remaining == 0 then Ending(ctx, s) else Inv(ctx, s))
    ensures Inv(ctx, r)
  {
    if s.mode.remaining == 0 then Finish(ctx, s) else s
  }

  /** An octet of text: SOH starts a frame, CR and LF end a line, other control octets are dropped. */
  function TextStep(ctx: Context, s: Rx, b: byte): (r: Rx)
    requires Inv(ctx, s) && s.mode.Text?
    ensures Inv(ctx, r)
  {
    if b == SOH then s.(mode := Header([]))
    else if b == CR || b == LF then TakeLine(ctx, s)
    else if !IsPrint(b) then s
    else s.(line := if |s.line| + 1 == ctx.rxBufferLen then [] else s.line + [b])
  }

  function PayloadStep(ctx: Context, s: Rx, b: byte): (r: Rx)
    requires Inv(ctx, s) && s.mode.Payload?
    ensures Inv(ctx, r)
  {
    var m := s.mode;
    FinishIfDone(ctx, s.(mode := m.(remaining := m.remaining - 1,
                                    kept := if |m.kept| < m.size then m.kept + [b] else m.kept)))
  }

  function HeaderStep(ctx: Context, s: Rx, b: byte): (r: Rx)
    requires Inv(ctx, s) && s.mode.Header?
    ensures Inv(ctx, r)
  {
    if |s.mode.got| == 0 then s.(mode := Header([b]))
    else FinishIfDone(ctx, StartPayload(ctx, s, 256 * s.mode.got[0] as int + b as int))
  }

  function Step(ctx: Context, s: Rx, b: byte): (r: Rx)
    requires Inv(ctx, s)
    ensures Inv(ctx, r)
  {
    match s.mode
    case Text => TextStep(ctx, s, b)
    case Header(_) => HeaderStep(ctx, s, b)
    case Payload(_, _, _, _) => PayloadStep(ctx, s, b)
  }

  function Feed(ctx: Context, s: Rx, bytes: seq<byte>): (r: Rx)
    requires Inv(ctx, s)
    ensures Inv(ctx, r)
    decreases |bytes|
  {
    if bytes == [] then s else Feed(ctx, Step(ctx, s, bytes[0]), bytes[1..])
  }

  /** Feeding in two parts is feeding at once: the place where a stream is cut does not matter. */
  lemma {:induction false} FeedAppend(ctx: Context, s: Rx, a: seq<byte>, b: seq<byte>)
    requires Inv(ctx, s)
    ensures Feed(ctx, s, a + b) == Feed(ctx, Feed(ctx, s, a), b)
    decreases |a|
  {
    if a == [] {
      assert a + b == b;
    } else {
      assert (a + b)[0] == a[0] && (a + b)[1..] == a[1..] + b;
      FeedAppend(ctx, Step(ctx, s, a[0]), a[1..], b);
    }
    hide Step, Inv;
  }

  function Concat(pieces: seq<seq<byte>>): seq<byte> {
    if pieces == [] then [] else pieces[0] + Concat(pieces[1..])
  }

  /** The state after the octets of one read after the other. */
  function FeedAll(ctx: Context, s: Rx, pieces: seq<seq<byte>>): (r: Rx)
    requires Inv(ctx, s)
    ensures Inv(ctx, r)
    decreases |pieces|
  {
    if pieces == [] then s else FeedAll(ctx, Feed(ctx, s, pieces[0]), pieces[1..])
  }

  lemma {:induction false} FeedAllIsFeed(ctx: Context, s: Rx, pieces: seq<seq<byte>>)
    requires Inv(ctx, s)
    ensures FeedAll(ctx, s, pieces) == Feed(ctx, s, Concat(pieces))
    decreases |pieces|
  {
    hide Step, Inv;
    if pieces != [] {
      FeedAppend(ctx, s, pieces[0], Concat(pieces[1..]));
      FeedAllIsFeed(ctx, Feed(ctx, s, pieces[0]), pieces[1..]);
    }
  }

  /** The same octets in any two sequences of short and empty reads leave the same state, queue and events. */
  lemma SplitDoesNotMatter(ctx: Context, s: Rx, pieces: seq<seq<byte>>, others: seq<seq<byte>>)
    requires Inv(ctx, s) && Concat(pieces) == Concat(others)
    ensures FeedAll(ctx, s, pieces) == FeedAll(ctx, s, others)
  {
    hide FeedAll, Feed, Inv;
    FeedAllIsFeed(ctx, s, pieces);
    FeedAllIsFeed(ctx, s, others);
  }

  /** What a payload state holds after k more octets that do not end the frame. */
  function Advance(s: Rx, bytes: seq<byte>): Rx
    requires s.mode.Payload? && |bytes| <= s.mode.remaining && |s.mode.kept| <= s.mode.size
  {
    var m := s.mode;
    s.(mode := m.(remaining := m.remaining - |bytes|,
                  kept := m.kept + bytes[..Min(|bytes|, m.size - |m.kept|)]))
  }

  lemma AdvanceKeeps(ctx: Context, s: Rx, bytes: seq<byte>)
    requires Inv(ctx, s) && s.mode.Payload? && |bytes| <= s.mode.remaining
    ensures var r := Advance(s, bytes); if r.mode.remaining == 0 then Ending(ctx, r) else Inv(ctx, r)
  {
    hide Ring.Inv, AllPrint;
  }

  lemma StepIsAdvance(ctx: Context, s: Rx, b: byte)
    requires Inv(ctx, s) && s.mode.Payload?
    ensures var r := Advance(s, [b]);
      && (if r.mode.remaining == 0 then Ending(ctx, r) else Inv(ctx, r))
      && Step(ctx, s, b) == FinishIfDone(ctx, r)
  {
    AdvanceKeeps(ctx, s, [b]);
    var m := s.mode;
    assert (if |m.kept| < m.size then m.kept + [b] else m.kept) == m.kept + [b][..Min(1, m.size - |m.kept|)];
    hide Ring.Inv, AllPrint, Finish;
  }

  lemma AdvanceAppend(s: Rx, a: seq<byte>, b: seq<byte>)
    requires s.mode.Payload? && |a + b| <= s.mode.remaining && |s.mode.kept| <= s.mode.size
    ensures Advance(Advance(s, a), b) == Advance(s, a + b)
  {
    var room := s.mode.size - |s.mode.kept|;
    var l := a[..Min(|a|, room)];
    var r := b[..Min(|b|, room - |l|)];
    assert (a + b)[..Min(|a + b|, room)] == l + r;
    assert s.mode.kept + (l + r) == s.mode.kept + l + r;
  }

  /** Payload octets in bulk: the first ones that fit are kept, the rest only counted. */
  lemma {:induction false} FeedPayload(ctx: Context, s: Rx, bytes: seq<byte>)
    requires Inv(ctx, s) && s.mode.Payload? && 0 < |bytes| <= s.mode.remaining
    ensures var r := Advance(s, bytes);
      && (if r.mode.remaining == 0 then Ending(ctx, r) else Inv(ctx, r))
      && Feed(ctx, s, bytes) == FinishIfDone(ctx, r)
    decreases |bytes|
  {
    StepIsAdvance(ctx, s, bytes[0]);
    AdvanceKeeps(ctx, s, bytes);
    if |bytes| == 1 {
      assert bytes == [bytes[0]] && bytes[1..] == [];
    } else {
      FeedPayload(ctx, Advance(s, [bytes[0]]), bytes[1..]);
      AdvanceAppend(s, [bytes[0]], bytes[1..]);
      assert [bytes[0]] + bytes[1..] == bytes;
    }
    hide Step, Inv, Ending, Finish;
  }

  // ----- whole frames -----

  /**
   The octets that the command printer sends for a binary parameter: SOH, the length high
   octet first, each truncated to 8 bits, and the data.
   */
  function BinaryFrame(data: seq<byte>): seq<byte> {
    [SOH, |data| / 256 % 256, |data| % 256] + data
  }

  /** The state in which the payload of a frame begins. */
  function FrameStart(ctx: Context, s: Rx, length: nat): (r: Rx)
    requires Inv(ctx, s) && s.mode.Text? && length <= U16_MAX
    ensures r.mode.Payload? && r.mode.remaining == length && r.mode.kept == []
    ensures if length > 0 then Inv(ctx, r) else Ending(ctx, r)
  {
    StartPayload(ctx, s.(mode := Header([length / 256])), length)
  }

  lemma FeedHeader(ctx: Context, s: Rx, length: nat)
    requires Inv(ctx, s) && s.mode.Text? && length <= U16_MAX
    ensures Feed(ctx, s, [SOH]).mode == Header([])
    ensures Feed(ctx, s, [SOH, length / 256]).mode == Header([length / 256])
    ensures Feed(ctx, s, [SOH, length / 256, length % 256]) == FinishIfDone(ctx, FrameStart(ctx, s, length))
  {
    hide Feed, TakeLine, Ending, FinishIfDone, StartPayload, Ring.Inv, AllPrint;
    var h := length / 256;
    var l := length % 256;
    var s1 := s.(mode := Header([]));
    var s2 := s.(mode := Header([h]));
    FeedOne(ctx, s, SOH);
    FeedOne(ctx, s1, h);
    FeedOne(ctx, s2, l);
    assert 256 * s2.mode.got[0] as int + l as int == length;
    assert [SOH] + [h] == [SOH, h] && [SOH, h] + [l] == [SOH, h, l];
    FeedAppend(ctx, s, [SOH], [h]);
    FeedAppend(ctx, s, [SOH, h], [l]);
    assert Step(ctx, s, SOH) == s1 && Step(ctx, s1, h) == s2;
    assert Step(ctx, s2, l) == FinishIfDone(ctx, FrameStart(ctx, s, length));
  }

  lemma FeedOne(ctx: Context, s: Rx, b: byte)
    requires Inv(ctx, s)
    ensures Feed(ctx, s, [b]) == Step(ctx, s, b)
  {
    assert [b][1..] == [];
  }

  /**
   A frame that declares n octets takes exactly n: the receiver is in binary mode after every
   proper prefix and back in text mode, at the start of a line, after the last octet.  What the
   frame does is decided by its line and its first octets alone.
   */
  lemma FrameSync(ctx: Context, s: Rx, data: seq<byte>, cut: nat)
    requires Inv(ctx, s) && s.mode.Text? && |data| <= U16_MAX
    requires 0 < cut < |BinaryFrame(data)|
    ensures Feed(ctx, s, BinaryFrame(data)[..cut]).mode != Text
    ensures var r := Feed(ctx, s, BinaryFrame(data));
      r.mode == Text && r == FrameResult(ctx, s, data)
  {
    FrameWhole(ctx, s, data);
    FrameCut(ctx, s, data, cut);
  }

  lemma FrameWhole(ctx: Context, s: Rx, data: seq<byte>)
    requires Inv(ctx, s) && s.mode.Text? && |data| <= U16_MAX
    ensures Feed(ctx, s, BinaryFrame(data)) == FrameResult(ctx, s, data)
  {
    hide Step, Inv, Ending, StartPayload, Finish, Feed;
    var n := |data|;
    var head := [SOH, n / 256, n % 256];
    FeedHeader(ctx, s, n);
    assert BinaryFrame(data) == head + data;
    FeedAppend(ctx, s, head, data);
    if n > 0 {
      FeedPayload(ctx, FrameStart(ctx, s, n), data);
    } else {
      assert data == [] && head + data == head;
    }
  }

  lemma FrameCut(ctx: Context, s: Rx, data: seq<byte>, cut: nat)
    requires Inv(ctx, s) && s.mode.Text? && |data| <= U16_MAX
    requires 0 < cut < |BinaryFrame(data)|
    ensures Feed(ctx, s, BinaryFrame(data)[..cut]).mode != Text
  {
    hide Step, Inv, Ending, StartPayload, Finish, Feed;
    var n := |data|;
    var head := [SOH, n / 256, n % 256];
    FeedHeader(ctx, s, n);
    if cut == 1 {
      assert BinaryFrame(data)[..cut] == [SOH];
    } else if cut == 2 {
      assert BinaryFrame(data)[..cut] == [SOH, n / 256];
    } else if cut == 3 {
      assert BinaryFrame(data)[..cut] == head;
    } else {
      assert BinaryFrame(data)[..cut] == head + data[..cut - 3];
      FeedAppend(ctx, s, head, data[..cut - 3]);
      FeedPayload(ctx, FrameStart(ctx, s, n), data[..cut - 3]);
    }
  }

  lemma AdvanceAll(p: Rx, data: seq<byte>)
    requires p.mode.Payload? && p.mode.kept == [] && p.mode.remaining == |data|
    ensures Advance(p, data) == p.(mode := p.mode.(remaining := 0, kept := data[..Min(|data|, p.mode.size)]))
  {
    assert [] + data[..Min(|data|, p.mode.size)] == data[..Min(|data|, p.mode.size)];
  }

  /** The state after a whole frame. */
  function FrameResult(ctx: Context, s: Rx, data: seq<byte>): Rx
    requires Inv(ctx, s) && s.mode.Text? && |data| <= U16_MAX
  {
    var p := FrameStart(ctx, s, |data|);
    if |data| > 0 then AdvanceKeeps(ctx, p, data); Finish(ctx, Advance(p, data)) else Finish(ctx, p)
  }

  /**
   What a frame does.  A response buffer of capacity c gets the first min(n, c) octets and is
   told that count; a URC is queued whole or, when it does not fit, not at all; a status line
   in front of a frame sets the status but is not reported; anything else is discarded.
   */
  lemma FrameMeaning(ctx: Context, s: Rx, data: seq<byte>)
    requires Inv(ctx, s) && s.mode.Text? && |data| <= U16_MAX
    ensures var r := FrameResult(ctx, s, data);
      var capacity := if s.rspLength.Some? then s.rspLength.value else 0;
      var kept := data[..Min(|data|, capacity)];
      && r.line == [] && r.mode == Text
      && match Classify(ctx, s.line)
         case Response(k) =>
           && r.events == s.events + [GotResponse(Some(s.line[k..]), Some(kept))]
           && r.params == Some(s.line[k..])
           && r.rspLength == (if s.rspLength.Some? then Some(|kept|) else None)
           && r.ring == s.ring && r.status == s.status
         case Urc =>
           && r.ring.Contents() == s.ring.Contents() +
              (if PrefixSize(s.line) + |data| <= s.ring.LargestRun() && |s.line| <= U16_MAX
               then [Entry(s.line, data)] else [])
           && r.events == s.events && r.status == s.status && r.rspLength == s.rspLength
         case Status(c) =>
           r == s.(line := [], status := c)
         case Ignored =>
           r == s.(line := [])
  {
    var p := FrameStart(ctx, s, |data|);
    AdvanceAll(p, data);
    if |data| > 0 { AdvanceKeeps(ctx, p, data); }
    match Classify(ctx, s.line)
    case Response(k) =>
    case Status(c) =>
    case Ignored =>
    case Urc =>
      UrcFrame(ctx, s, data);
      hide Ring.Inv, Ring.Contents, ParseAhead, SetupTransfer;
  }

  lemma UrcFrame(ctx: Context, s: Rx, data: seq<byte>)
    requires Inv(ctx, s) && s.mode.Text? && |data| <= U16_MAX
    requires Classify(ctx, s.line) == Urc
    ensures var r := FrameResult(ctx, s, data);
      && r.ring.Contents() == s.ring.Contents() +
         (if PrefixSize(s.line) + |data| <= s.ring.LargestRun() && |s.line| <= U16_MAX
          then [Entry(s.line, data)] else [])
      && r.events == s.events && r.status == s.status && r.rspLength == s.rspLength
  {
    var p := FrameStart(ctx, s, |data|);
    AdvanceAll(p, data);
    if |data| > 0 { AdvanceKeeps(ctx, p, data); }
    EnqueueBeginKeeps(s.ring, s.line);
    var a := ParseAhead(ctx, s.line, s.ring);
    var t := SetupTransfer(a, s.rspLength, |data|);
    if t.dest == UrcQueue {
      assert data[..|data|] == data;
      EnqueueEndKeeps(t.ring, data);
    }
    hide Ring.Inv, Ring.Contents, Ring.LargestRun, Ring.EnqueueBegin, Ring.EnqueueEnd, Ring.EnqueueAbort;
  }

  // ----- what receiving never does -----

  /** Receiving adds URCs at the end of the queue and events at the end of the log, nothing else. */
  ghost predicate Grows(s: Rx, r: Rx) {
    && s.ring.Contents() <= r.ring.Contents()
    && s.ring.dequeueEntry == r.ring.dequeueEntry
    && s.events <= r.events
  }

  lemma StepGrows(ctx: Context, s: Rx, b: byte)
    requires Inv(ctx, s)
    ensures Grows(s, Step(ctx, s, b))
  {
    hide Ring.Inv, Ring.Contents, QueueLine, ParseAhead, SetupTransfer, Classify, Ring.EnqueueEnd, AllPrint;
    match s.mode
    case Text =>
    case Header(got) =>
      if |got| == 1 {
        var p := StartPayload(ctx, s, 256 * got[0] as int + b as int);
        assert Grows(s, p);
        if p.mode.remaining == 0 { FinishGrows(ctx, p); }
      }
    case Payload(_, _, _, _) =>
      StepIsAdvance(ctx, s, b);
      var r := Advance(s, [b]);
      assert Grows(s, r);
      if r.mode.remaining == 0 { FinishGrows(ctx, r); }
  }

  lemma FinishGrows(ctx: Context, s: Rx)
    requires Ending(ctx, s)
    ensures Grows(s, Finish(ctx, s))
  {
    if s.mode.dest == UrcQueue {
      EnqueueEndKeeps(s.ring, s.mode.kept);
    }
    hide Ring.Inv, Ring.Contents, Ring.EnqueueEnd;
  }

  lemma {:induction false} FeedGrows(ctx: Context, s: Rx, bytes: seq<byte>)
    requires Inv(ctx, s)
    ensures Grows(s, Feed(ctx, s, bytes))
    decreases |bytes|
  {
    if bytes != [] {
      StepGrows(ctx, s, bytes[0]);
      FeedGrows(ctx, Step(ctx, s, bytes[0]), bytes[1..]);
    }
    hide Inv, Step, Ring.Contents;
  }

  /** A line of printable octets shorter than the buffer is taken as sent when CR or LF ends it. */
  lemma FeedLine(ctx: Context, s: Rx, text: seq<byte>)
    requires Inv(ctx, s) && s.mode.Text? && AllPrint(text) && |s.line| + |text| < ctx.rxBufferLen
    ensures Feed(ctx, s, text) == s.(line := s.line + text)
    ensures Inv(ctx, s.(line := s.line + text))
    ensures Feed(ctx, s, text + [CR]) == TakeLine(ctx, s.(line := s.line + text))
    ensures Feed(ctx, s, text + [LF]) == TakeLine(ctx, s.(line := s.line + text))
  {
    hide Inv, Feed, TakeLine;
    FeedText(ctx, s, text);
    LineEnd(ctx, s, text, CR);
    LineEnd(ctx, s, text, LF);
  }

  lemma {:induction false} FeedText(ctx: Context, s: Rx, text: seq<byte>)
    requires Inv(ctx, s) && s.mode.Text? && AllPrint(text) && |s.line| + |text| < ctx.rxBufferLen
    ensures Feed(ctx, s, text) == s.(line := s.line + text)
    ensures Inv(ctx, s.(line := s.line + text))
    decreases |text|
  {
    var r := s.(line := s.line + text);
    assert Inv(ctx, r);
    if text == [] {
      assert s.line + text == s.line;
      assert Feed(ctx, s, []) == s;
    } else {
      assert IsPrint(text[0]);
      var s1 := s.(line := s.line + text[..1]);
      assert Step(ctx, s, text[0]) == s1;
      FeedText(ctx, s1, text[1..]);
      assert s1.line + text[1..] == r.line;
      assert Feed(ctx, s, text) == Feed(ctx, s1, text[1..]);
    }
  }

  lemma LineEnd(ctx: Context, s: Rx, text: seq<byte>, end: byte)
    requires Inv(ctx, s) && s.mode.Text? && (end == CR || end == LF)
    requires Feed(ctx, s, text) == s.(line := s.line + text)
    ensures Feed(ctx, s, text + [end]) == TakeLine(ctx, s.(line := s.line + text))
  {
    hide Inv, Feed, TakeLine;
    FeedAppend(ctx, s, text, [end]);
    FeedOne(ctx, s.(line := s.line + text), end);
  }
}
