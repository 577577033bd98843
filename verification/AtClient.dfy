/** The AT client's receive side as the program runs it: fields, buffers and read loops. */
module AtClient {
  import opened Bytes
  import opened Chars
  import opened UrcRing
  import Q = UrcQueue
  import opened AtReceiver

  /** A UART.  The grants are an adversary's choice of what each read call returns. */
  class Uart {
    var input: seq<byte>
    var grants: seq<int>
    ghost var calls: nat    // how many reads there were
    ghost var dry: bool     // whether the last one gave less than was asked for

    constructor (input: seq<byte>, grants: seq<int>)
      ensures this.input == input && this.grants == grants && calls == 0
    {
      this.input, this.grants := input, grants;
      calls, dry := 0, false;
    }

    /** Returns an error code, or some of the next octets: at most n of them and possibly none. */
    method Read(n: nat) returns (status: int, bytes: seq<byte>)
      modifies this
      ensures status < 0 ==> bytes == []
      ensures status >= 0 ==> |bytes| == status <= n
      ensures old(input) == bytes + input
      ensures calls == old(calls) + 1 && (dry <==> status < n)
    {
      var grant := if grants == [] then 0 else grants[0];
      grants := if grants == [] then [] else grants[1..];
      status := if grant < 0 then grant else Min(grant, Min(n, |input|));
      bytes := if status < 0 then [] else input[..status];
      input := input[|bytes|..];
      calls, dry := calls + 1, status < n;
    }
  }

  datatype Code = ParserNop | ParserStatus | ParserRsp | ParserUrc | ParserStartBinary | ParserError

  /** The parser code for what a line turned out to be; a URC that found no room is dropped. */
  function CodeOf(p: Parsed): Code {
    match p.verdict
    case Ignored => ParserNop
    case Status(_) => ParserStatus
    case Response(_) => ParserRsp
    case Urc => if p.begun then ParserUrc else ParserNop
  }

  lemma SliceTail(s: seq<byte>, k: nat)
    requires k <= |s|
    ensures s[k..] == s[k..k + |s[k..]|]
  {
  }

  /** What concerns a response frame in flight. */
  datatype Flight = Flight(inFlight: bool, params: Option<seq<byte>>, rspParams: Option<nat>, rsp: array<byte>,
                           contents: seq<byte>, reported: bool, overran: bool, bin: array<byte>, size: nat, pos: nat)

  /**
   A response frame that was in flight either still is, or was reported with the text there was; it
   has overrun its buffer exactly if more was stored than that holds.
   */
  predicate Went(a: Flight, b: Flight, ret: Code) {
    a.inFlight ==>
      && b.params == a.params && b.rspParams == a.rspParams && b.rsp == a.rsp && a.pos <= b.pos
      && (ret == ParserRsp ==> b.reported)
      && (b.overran <==> a.overran || b.pos > a.bin.Length)
      && (ret == ParserRsp || (b.inFlight && b.bin == a.bin && b.size == a.size))
      && (a.bin != b.rsp ==> b.contents == a.contents)
  }

  lemma WentNowhere(a: Flight, b: Flight, first: Code, ret: Code)
    requires Went(a, b, first) && first != ParserRsp && ret != ParserRsp
    ensures Went(a, b, ret)
  {
  }

  lemma WentTwice(a: Flight, b: Flight, c: Flight, first: Code, ret: Code)
    requires Went(a, b, first) && first != ParserRsp && Went(b, c, ret)
    ensures Went(a, c, ret)
  {
  }

  /** What is to be known of a client at one time, its UART included. */
  datatype Moment = Moment(abs: Rx, input: seq<byte>, calls: nat, dry: bool, error: int, sound: bool, landed: bool,
                           held: bool, counted: bool, flight: Flight)

  /** What the caller of the receiver learns, and that the text it points to is in place. */
  predicate Reports(b: Moment, ret: Code, before: seq<Event>) {
    match ret
    case ParserNop => b.abs.events == before
    case ParserStartBinary => b.abs.events == before && !b.abs.mode.Text?
    case ParserStatus => b.abs.events == before + [GotStatus(b.abs.status)]
    case ParserRsp => b.held && |b.abs.events| == |before| + 1 && before <= b.abs.events
                      && b.abs.events[|before|].GotResponse? && b.abs.events[|before|].params == b.abs.params && b.counted
    case _ => false
  }

  /**
   One call of the receiver.  The octets it took lead to the state it leaves, with what they report;
   a failed read only sets the status.  It came back for a report, for a read that failed or gave less
   than asked, or for the end of a frame.  A reported response is in the buffer, and no buffer is
   overrun, if word, buffer and frame fit together at the start.
   */
  ghost predicate Handled(ctx: Context, a: Moment, b: Moment, taken: seq<byte>, ret: Code)
    requires Inv(ctx, a.abs)
  {
    var r := Feed(ctx, a.abs, taken);
    && a.input == taken + b.input && b.calls >= a.calls
    && (if ret == ParserError then b.abs == r.(status := ERROR_IO) && r.events == a.abs.events && b.error < 0
        else b.abs == r && Reports(b, ret, a.abs.events))
    && (ret == ParserNop ==> (b.calls > a.calls && b.dry) || Ended(ctx, a.abs, taken))
    && b.flight.rsp == a.flight.rsp && (b.flight.bin == a.flight.bin || b.flight.bin == b.flight.rsp)
    && (a.sound ==> b.sound && b.flight.overran == a.flight.overran && (ret == ParserRsp ==> b.landed))
    && Went(a.flight, b.flight, ret)
  }

  /** The header of a frame has been received, or part of it. */
  ghost predicate Reached(ctx: Context, a: Moment, b: Moment, taken: seq<byte>, ret: Code, done: bool)
    requires Inv(ctx, a.abs)
  {
    var r := Feed(ctx, a.abs, taken);
    && a.input == taken + b.input && b.calls >= a.calls && ret in {ParserNop, ParserError}
    && b.flight.rsp == a.flight.rsp && (b.flight.bin == a.flight.bin || b.flight.bin == b.flight.rsp)
    && (ret == ParserError ==> !done && b.error < 0)
    && b.abs.events == a.abs.events
    && (!done ==> r.events == a.abs.events && b.abs == if ret == ParserError then r.(status := ERROR_IO) else r)
    && (!done && ret == ParserNop ==> b.calls > a.calls && b.dry)
    && (a.sound ==> b.sound) && b.flight.overran == a.flight.overran
    && Went(a.flight, b.flight, ParserNop)
    && (done ==>
          && b.abs.mode.Payload? && |b.abs.mode.kept| <= b.abs.mode.size
          && (if b.abs.mode.remaining == 0 then Ending(ctx, b.abs) else Inv(ctx, b.abs))
          && r == FinishIfDone(ctx, b.abs) && (taken == [] ==> b.abs.mode.remaining > 0)
          && (taken != [] ==> Feed(ctx, a.abs, taken[..|taken| - 1]).mode.Header?))
  }

  /** Some of the payload has been received, and the end of the frame if that was all. */
  ghost predicate TookPayload(ctx: Context, a: Moment, b: Moment, more: seq<byte>, ret: Code) {
    var p := a.abs;
    && p.mode.Payload? && |p.mode.kept| <= p.mode.size && |more| <= p.mode.remaining
    && a.input == more + b.input && b.calls >= a.calls && ret in {ParserNop, ParserRsp, ParserError}
    && b.flight.rsp == a.flight.rsp && b.flight.bin == a.flight.bin
    && Advance(p, more).mode.Payload? && Advance(p, more).mode.remaining == p.mode.remaining - |more|
    && (if |more| == p.mode.remaining then Ending(ctx, Advance(p, more)) else Inv(ctx, Advance(p, more)))
    && (if ret == ParserError
        then |more| < p.mode.remaining && b.abs == Advance(p, more).(status := ERROR_IO) && b.error < 0
        else b.abs == FinishIfDone(ctx, Advance(p, more)) && Reports(b, ret, p.events))
    && (ret == ParserNop && |more| < p.mode.remaining ==> b.calls > a.calls && b.dry)
    && (a.sound ==> b.sound && b.flight.overran == a.flight.overran && (ret == ParserRsp ==> b.landed))
    && Went(a.flight, b.flight, ret)
  }

  /** Payload has been read, but the end of the frame not yet been dealt with. */
  ghost predicate ReadOnly(ctx: Context, a: Moment, b: Moment, more: seq<byte>, ret: Code) {
    var p := a.abs;
    && p.mode.Payload? && |p.mode.kept| <= p.mode.size && |more| <= p.mode.remaining
    && (if p.mode.remaining == 0 then Ending(ctx, p) else Inv(ctx, p))
    && a.input == more + b.input && b.calls >= a.calls && ret in {ParserNop, ParserError}
    && b.flight.rsp == a.flight.rsp && b.flight.bin == a.flight.bin
    && b.abs == (if ret == ParserError then Advance(p, more).(status := ERROR_IO) else Advance(p, more))
    && (ret == ParserError ==> |more| < p.mode.remaining && b.error < 0)
    && (ret == ParserNop && |more| < p.mode.remaining ==> b.calls > a.calls && b.dry)
    && (a.sound ==> b.sound && b.flight.overran == a.flight.overran)
    && Went(a.flight, b.flight, ret)
  }

  /** The end of the frame. */
  ghost predicate EndedFrame(ctx: Context, a: Moment, b: Moment, ret: Code) {
    && a.abs.mode.Payload? && a.abs.mode.remaining == 0 && Ending(ctx, a.abs)
    && b.abs == Finish(ctx, a.abs) && Reports(b, ret, a.abs.events) && ret in {ParserNop, ParserRsp}
    && b.input == a.input && b.calls == a.calls && b.flight.rsp == a.flight.rsp && b.flight.bin == a.flight.bin
    && b.flight.overran == a.flight.overran
    && (a.sound ==> b.sound && (ret == ParserRsp ==> b.landed)) && Went(a.flight, b.flight, ret)
  }

  lemma AllTaken(ctx: Context, a: Moment, b: Moment, c: Moment, more: seq<byte>, ret: Code)
    requires ReadOnly(ctx, a, b, more, ParserNop) && |more| == a.abs.mode.remaining && EndedFrame(ctx, b, c, ret)
    ensures TookPayload(ctx, a, c, more, ret)
  {
    hide Inv, Ending, Finish, Reports, Went;
    WentTwice(a.flight, b.flight, c.flight, ParserNop, ret);
  }

  lemma PartTaken(ctx: Context, a: Moment, b: Moment, more: seq<byte>, ret: Code)
    requires ReadOnly(ctx, a, b, more, ret) && |more| < a.abs.mode.remaining
    ensures TookPayload(ctx, a, b, more, ret)
  {
    hide Inv, Ending, Finish, Went;
    AdvanceKeeps(ctx, a.abs, more);
  }

  lemma FrameHandled(ctx: Context, a: Moment, p: Moment, b: Moment, taken: seq<byte>, more: seq<byte>, ret: Code)
    requires Inv(ctx, a.abs) && Reached(ctx, a, p, taken, ParserNop, true) && TookPayload(ctx, p, b, more, ret)
    ensures Handled(ctx, a, b, taken + more, ret)
  {
    hide Inv, Ending, Advance, Feed, Finish, Ended, Reports, Went;
    FeedFrame(ctx, a.abs, taken, p.abs, more);
    if |more| == p.abs.mode.remaining { FrameEnds(ctx, a.abs, taken, p.abs, more); }
    WentTwice(a.flight, p.flight, b.flight, ParserNop, ret);
    AdvanceEvents(p.abs, more);
  }

  lemma AdvanceEvents(p: Rx, more: seq<byte>)
    requires p.mode.Payload? && |more| <= p.mode.remaining && |p.mode.kept| <= p.mode.size
    ensures var r := Advance(p, more);
      r.events == p.events && r.mode.Payload? && r.mode.remaining == p.mode.remaining - |more|
  {
  }

  lemma HeaderHandled(ctx: Context, a: Moment, b: Moment, taken: seq<byte>, ret: Code)
    requires Inv(ctx, a.abs) && Reached(ctx, a, b, taken, ret, false)
    ensures Handled(ctx, a, b, taken, ret)
  {
    hide Inv, Feed, Ended, Went;
    WentNowhere(a.flight, b.flight, ParserNop, ret);
  }

  /** Two calls, the first of which came back for the beginning of a frame. */
  lemma HandledTwice(ctx: Context, a: Moment, b: Moment, c: Moment, taken: seq<byte>, more: seq<byte>, ret: Code)
    requires Inv(ctx, a.abs) && Handled(ctx, a, b, taken, ParserStartBinary)
    requires Inv(ctx, b.abs) && Handled(ctx, b, c, more, ret)
    ensures Handled(ctx, a, c, taken + more, ret)
  {
    hide Inv, Feed, Ended, Went, Reports;
    StartReports(b, a.abs.events);
    FeedAppend(ctx, a.abs, taken, more);
    EndedLater(ctx, a.abs, taken, b.abs, more);
    WentTwice(a.flight, b.flight, c.flight, ParserStartBinary, ret);
  }

  lemma StartReports(b: Moment, before: seq<Event>)
    requires Reports(b, ParserStartBinary, before)
    ensures b.abs.events == before
  {
  }

  class Client {
    const uart: Uart
    const rxBuffer: array<byte>
    const queue: Q.UrcQueue
    var executingCmd: bool
    var expectedRsp: Option<seq<byte>>
    var status: int
    var lastIoError: int
    var rxBufferPos: nat
    var rspParams: Option<nat>       // offset of the response text in rxBuffer
    var rspBuffer: array<byte>
    var rspLength: Option<nat>       // what the caller's length pointer refers to
    var isBinaryRx: bool
    var binState: Dest
    var binBuffer: array<byte>       // where a response payload goes
    var rxHeaderCount: nat
    var lengthBuf: seq<byte>
    var remaining: nat
    var bufferSize: nat
    var bufferPos: nat
    ghost var stored: seq<byte>      // the octets kept of a response frame, wherever its buffer ends
    ghost var overran: bool          // whether one was stored behind the end of its buffer
    ghost var params: Option<seq<byte>>
    ghost var events: seq<Event>

    ghost function Ctx(): Context
      reads this
    {
      Context(executingCmd, expectedRsp, rxBuffer.Length)
    }

    /** The part of the current payload that has been kept. */
    ghost function Kept(): seq<byte>
      reads this`binState, this`bufferPos, this`stored, queue`writePos, queue.buffer
    {
      match binState
      case Flush => []
      case Rsp => stored
      case UrcQueue =>
        if queue.writePos + bufferPos <= queue.buffer.Length
        then queue.buffer[queue.writePos..queue.writePos + bufferPos] else []
    }

    ghost function BinMode(): Mode
      reads this, binBuffer, queue, queue.buffer
    {
      if !isBinaryRx then Text
      else if rxHeaderCount < 2 then Header(if rxHeaderCount <= |lengthBuf| then lengthBuf[..rxHeaderCount] else [])
      else Payload(binState, remaining, bufferSize, Kept())
    }

    ghost function Abs(): Rx
      reads this, rxBuffer, binBuffer, queue, queue.buffer
    {
      Rx(if rxBufferPos <= rxBuffer.Length then rxBuffer[..rxBufferPos] else [],
         BinMode(), status, params, rspLength, queue.Model(), events)
    }

    ghost predicate Separate()
      reads this
    {
      && rxBuffer != rspBuffer && rxBuffer != queue.buffer && rspBuffer != queue.buffer
      && rxBuffer != binBuffer && binBuffer != queue.buffer
    }

    /** The response text that the caller of a command is given a pointer to, ended by a zero. */
    ghost predicate ParamsHeld()
      reads this`rspParams, this`params, rxBuffer
    {
      && (rspParams.Some? <==> params.Some?)
      && (rspParams.Some? ==>
            && rspParams.value + |params.value| < rxBuffer.Length
            && rxBuffer[rspParams.value..rspParams.value + |params.value|] == params.value
            && rxBuffer[rspParams.value + |params.value|] == 0)
    }

    ghost predicate Shape()
      reads this, binBuffer, queue, queue.buffer
    {
      && Separate()
      && queue.Valid()
      && rxBufferPos < rxBuffer.Length
      && |lengthBuf| == 2
      && (isBinaryRx || rxHeaderCount == 0)
      && rxHeaderCount <= 2
      && (isBinaryRx && rxHeaderCount == 2 ==>
            && (binState == Flush ==> bufferPos == 0)
            && (binState == Rsp ==> |stored| == bufferPos <= bufferSize)
            && (binState == Rsp && bufferSize <= binBuffer.Length ==> binBuffer[..bufferPos] == stored)
            && (Past() ==> overran)
            && (binState == UrcQueue ==> bufferPos <= bufferSize && queue.writePos + bufferSize <= queue.buffer.Length))
    }

    /** The payload of a response is arriving. */
    ghost predicate InFlight()
      reads this`isBinaryRx, this`rxHeaderCount, this`binState
    {
      isBinaryRx && rxHeaderCount == 2 && binState == Rsp
    }

    /** More has been stored of a response than its buffer can hold. */
    ghost predicate Past()
      reads this`binState, this`bufferPos, this`binBuffer
    {
      binState == Rsp && bufferPos > binBuffer.Length
    }

    /** A response frame in flight fits the buffer that it was set up with. */
    ghost predicate FlightFits()
      reads this`isBinaryRx, this`rxHeaderCount, this`binState, this`binBuffer, this`bufferSize
    {
      InFlight() ==> bufferSize <= binBuffer.Length
    }

    ghost predicate WordFits()
      reads this`rspBuffer, this`rspLength
    {
      rspLength.Some? ==> rspLength.value <= rspBuffer.Length
    }

    /** A transfer that has just been set up for a response has its space in the caller's buffer. */
    ghost predicate Room()
      reads this`binState, this`binBuffer, this`bufferSize, this`rspBuffer, this`rspLength
    {
      WordFits() && (binState == Rsp ==> bufferSize <= binBuffer.Length && binBuffer == rspBuffer)
    }

    /** The caller's length word does not exceed its buffer, and no frame goes to another buffer. */
    ghost predicate Sound()
      reads this`isBinaryRx, this`rxHeaderCount, this`binState, this`binBuffer, this`bufferSize, this`rspBuffer, this`rspLength
    {
      WordFits() && FlightFits() && (InFlight() ==> binBuffer == rspBuffer)
    }

    /** What the last response reported is what the caller finds in its length word and its buffer. */
    ghost predicate Landed()
      reads this`events, this`rspBuffer, this`rspLength, rspBuffer
    {
      Counted() && (FrameReported() ==>
        var data := events[|events| - 1].data.value;
        |data| <= rspBuffer.Length && rspBuffer[..|data|] == data)
    }

    ghost predicate FrameReported()
      reads this`events
    {
      events != [] && events[|events| - 1].GotResponse? && events[|events| - 1].data.Some?
    }

    /** The last event is a response line without data. */
    ghost predicate LineReported()
      reads this`events
    {
      events != [] && events[|events| - 1].GotResponse? && events[|events| - 1].data.None?
    }

    ghost predicate Counted()
      reads this`events, this`rspLength
    {
      FrameReported() && rspLength.Some? ==> rspLength.value == |events[|events| - 1].data.value|
    }

    ghost predicate Valid()
      reads this, rxBuffer, binBuffer, queue, queue.buffer
    {
      && Shape()
      && Inv(Ctx(), Abs())
      && (isBinaryRx && rxHeaderCount == 2 && binState == Rsp ==> ParamsHeld())
      && (isBinaryRx && rxHeaderCount < 2 ==> rxBuffer[rxBufferPos] == 0)
    }

    /** A client that is idle and has received nothing. */
    constructor (uart: Uart, rxBuffer: array<byte>, urcBuffer: array<byte>, addressLsb: nat, rspBuffer: array<byte>)
      requires rxBuffer.Length > 0 && addressLsb <= 1
      requires rxBuffer != urcBuffer && rxBuffer != rspBuffer && urcBuffer != rspBuffer
      ensures Valid() && Sound() && fresh(queue) && this.uart == uart && queue.buffer == urcBuffer && rxBufferPos == 0
      ensures this.rxBuffer == rxBuffer && this.rspBuffer == rspBuffer && !isBinaryRx && !overran
      ensures Abs().line == [] && Abs().mode == Text && queue.Contents() == []
    {
      this.uart := uart;
      this.rxBuffer := rxBuffer;
      this.rspBuffer := rspBuffer;
      binBuffer := rspBuffer;
      executingCmd, expectedRsp, status, lastIoError := false, None, 0, 0;
      rxBufferPos, rspParams, rspLength := 0, None, None;
      isBinaryRx, binState, rxHeaderCount, lengthBuf := false, Flush, 0, [0, 0];
      remaining, bufferSize, bufferPos := 0, 0, 0;
      params, events, stored, overran := None, [], [], false;
      queue := new Q.UrcQueue(urcBuffer, addressLsb);
    }

    /** The branch of parseLine for a line that arrives while a command is executing. */
    method ParseCommandLine(line: seq<byte>) returns (ret: Code)
      requires line != [] && executingCmd
      modifies this`status, this`rspParams, this`params
      ensures var v := Classify(Ctx(), line);
        && ret == (if v.Status? then ParserStatus else if v.Response? then ParserRsp else ParserNop)
        && status == (if v.Status? then v.code else old(status))
        && params == (if v.Response? then Some(line[v.skip..]) else old(params))
        && rspParams == (if v.Response? then Some(v.skip) else old(rspParams))
        && (ret == ParserNop ==> (v == Urc <==> IsUrcLine(line)))
    {
      ret := ParserNop;
      if expectedRsp.Some? && expectedRsp.value != [] && expectedRsp.value <= line {
        rspParams, params := Some(|expectedRsp.value|), Some(line[|expectedRsp.value|..]);
        ret := ParserRsp;
      } else if line == TEXT_OK {
        status := 0;
        ret := ParserStatus;
      } else if TEXT_ERROR <= line {
        if |line| == 5 {
          status := ERROR_STATUS_ERROR;
          ret := ParserStatus;
        } else if line[5] == COLON {
          if |line| > 6 && AllDigits(line[6..]) {
            status := EXTENDED_ERROR_OFFSET - Min(DecimalValue(line[6..]), INT_MAX);
            ret := ParserStatus;
          }
        }
      } else if line[0] != PLUS && line[0] != STAR && !(TEXT_ECHO <= line) {
        rspParams, params := Some(0), Some(line);
        assert line[0..] == line;
        ret := ParserRsp;
      }
    }

    /** parseLine: what a complete line means, with the URC queue entry opened if it is a URC. */
    method ParseLine(lineLength: nat) returns (ret: Code)
      requires Separate() && queue.Valid() && queue.enqueueEntry.None?
      requires lineLength < rxBuffer.Length && rxBuffer[lineLength] == 0 && AllPrint(rxBuffer[..lineLength])
      modifies this`status, this`rspParams, this`params, queue, queue.buffer
      ensures queue.Valid()
      ensures var line := rxBuffer[..lineLength];
        var p := ParseAhead(Ctx(), line, old(queue.Model()));
        var v := p.verdict;
        && ret == CodeOf(p)
        && status == (if v.Status? then v.code else old(status))
        && params == (if v.Response? then Some(line[v.skip..]) else old(params))
        && rspParams == (if v.Response? then Some(v.skip) else old(rspParams))
        && queue.Model() == p.ring
        && (queue.enqueueEntry.Some? <==> p.begun)
      ensures ret == ParserRsp ==> ParamsHeld()
    {
      hide Q.UrcQueue.Valid, Q.UrcQueue.Model, Ring.EnqueueBegin, Ring.Inv, Classify, Ring.Contents;
      ret := ParserNop;
      var line := rxBuffer[..lineLength];
      ghost var v := Classify(Ctx(), line);
      var emptyLine := true;
      var i := 0;
      while i < lineLength && emptyLine
        invariant 0 <= i <= lineLength
        invariant i > 0 <==> !emptyLine
      {
        assert IsPrint(line[i]);
        if rxBuffer[i] != LF && rxBuffer[i] != CR { emptyLine := false; }
        i := i + 1;
      }
      if !emptyLine {
        if executingCmd {
          ret := ParseCommandLine(line);
        } else {
          IdleLine(Ctx(), line);
        }
        if ret == ParserNop && (line[0] == PLUS || line[0] == STAR) {
          var ok := queue.EnqueueBegin(line);
          if ok { ret := ParserUrc; }
        }
        if ret == ParserRsp { SliceTail(line, v.skip); }
      }
    }

    lemma IdleLine(ctx: Context, line: seq<byte>)
      requires !ctx.executing && line != []
      ensures Classify(ctx, line) == if IsUrcLine(line) then Urc else Ignored
    {
    }

    /** In text mode no queue entry is open. */
    lemma TextFacts()
      requires Valid() && !isBinaryRx
      ensures queue.enqueueEntry.None? && queue.Model().enqueueEntry.None? && queue.Model().Inv()
      ensures AllPrint(rxBuffer[..rxBufferPos])
    {
    }

    /** Ends the line in the buffer, parses it and completes the queue entry of a URC. */
    method ParseTextLine() returns (ret: Code)
      requires Separate() && queue.Valid() && queue.enqueueEntry.None?
      requires rxBufferPos < rxBuffer.Length && AllPrint(rxBuffer[..rxBufferPos])
      modifies this`status, this`rspParams, this`params, rxBuffer, queue, queue.buffer
      ensures queue.Valid()
      ensures var line := old(rxBuffer[..rxBufferPos]);
        var v := Classify(Ctx(), line);
        && ret == (if v.Status? then ParserStatus else if v.Response? then ParserRsp else ParserNop)
        && status == (if v.Status? then v.code else old(status))
        && params == (if v.Response? then Some(line[v.skip..]) else old(params))
        && old(queue.Model()).Inv() && old(queue.Model()).enqueueEntry.None?
        && queue.Model() == (if v == Urc then QueueLine(old(queue.Model()), line) else old(queue.Model()))
      ensures ret == ParserRsp ==> ParamsHeld()
    {
      hide Q.UrcQueue.Valid, Ring.EnqueueBegin, Ring.EnqueueEnd, Ring.Inv, Ring.Contents, Classify, AllPrint;
      queue.ValidFacts();
      ghost var line, ring := rxBuffer[..rxBufferPos], queue.Model();
      rxBuffer[rxBufferPos] := 0;
      assert rxBuffer[..rxBufferPos] == line;
      ret := ParseLine(rxBufferPos);
      if ret == ParserUrc {
        label Parsed:
        queue.EnqueueEnd(0);
        assert old@Parsed(queue.Window(0)) == [];
        ret := ParserNop;
      }
    }

    /** The CR or LF branch of parseIncomingChar. */
    method TakeTextLine() returns (ret: Code)
      requires Valid() && !isBinaryRx
      modifies this`status, this`rspParams, this`params, this`rxBufferPos, this`events, rxBuffer, queue, queue.buffer
      ensures Valid() && !isBinaryRx
      ensures Abs() == TakeLine(Ctx(), old(Abs()))
      ensures Reported(ret, old(events)) && ret != ParserStartBinary
      ensures ret == ParserRsp ==> LineReported()
    {
      hide Q.UrcQueue.Valid, Q.UrcQueue.Model, QueueLine, Ring.Inv, Classify, Inv, AllPrint, ParamsHeld;
      TextFacts();
      ghost var s := Abs();
      ret := ParseTextLine();
      rxBufferPos := 0;
      if ret == ParserRsp { events := events + [GotResponse(params, None)]; }
      if ret == ParserStatus { events := events + [GotStatus(status)]; }
      assert rxBuffer[..0] == [];
      assert Abs() == TakeLine(Ctx(), s);
    }

    /** What the caller of the parser learns, and that the text it points to is in place. */
    ghost predicate Reported(ret: Code, before: seq<Event>)
      reads this, rxBuffer
    {
      match ret
      case ParserNop => events == before
      case ParserStartBinary => events == before
      case ParserStatus => events == before + [GotStatus(status)]
      case ParserRsp => ParamsHeld() && |events| == |before| + 1 && before <= events
                        && events[|before|].GotResponse? && events[|before|].params == params && Counted()
      case _ => false
    }

    /** parseIncomingChar. */
    method ParseIncomingChar(ch: byte) returns (ret: Code)
      requires Valid() && !isBinaryRx
      modifies this`status, this`rspParams, this`params, this`rxBufferPos, this`events, rxBuffer, queue, queue.buffer
      ensures Valid() && !isBinaryRx
      ensures ret == ParserStartBinary <==> ch == SOH
      ensures ch == SOH ==> Abs() == old(Abs()) && rxBuffer[rxBufferPos] == 0
      ensures ch != SOH ==> Abs() == TextStep(Ctx(), old(Abs()), ch)
      ensures Reported(ret, old(events))
      ensures ret == ParserRsp ==> LineReported()
    {
      hide Q.UrcQueue.Valid, Q.UrcQueue.Model, TakeLine, Inv, AllPrint, ParamsHeld;
      TextFacts();
      ghost var s := Abs();
      ret := ParserNop;
      if ch == SOH {
        ghost var line := rxBuffer[..rxBufferPos];
        rxBuffer[rxBufferPos] := 0;
        assert rxBuffer[..rxBufferPos] == line;
        ret := ParserStartBinary;
      } else if ch == CR || ch == LF {
        ret := TakeTextLine();
      } else if IsPrint(ch) {
        ghost var line := rxBuffer[..rxBufferPos];
        rxBuffer[rxBufferPos] := ch;
        rxBufferPos := rxBufferPos + 1;
        assert rxBuffer[..rxBufferPos] == line + [ch];
        if rxBufferPos == rxBuffer.Length {
          rxBufferPos := 0;
        }
      }
      assert ch != SOH ==> Inv(Ctx(), TextStep(Ctx(), s, ch));
    }

    /** A frame whose length is known and whose payload may be complete. */
    ghost predicate InPayload()
      reads this, rxBuffer, binBuffer, queue, queue.buffer
    {
      && Shape()
      && isBinaryRx && rxHeaderCount == 2
      && (if remaining == 0 then Ending(Ctx(), Abs()) else Inv(Ctx(), Abs()))
      && (binState == Rsp ==> ParamsHeld())
    }

    /** The space recorded for a transfer is really there. */
    ghost predicate SpaceOk()
      reads this`binState, this`binBuffer, this`rspBuffer, this`bufferSize, this`stored, queue.buffer, queue`writePos
    {
      && (binState == Rsp ==> stored == [] && binBuffer == rspBuffer)
      && (binState == UrcQueue ==> queue.writePos + bufferSize <= queue.buffer.Length)
    }

    /** setupBinaryTransfer, after parseLine has looked at the line in front of the frame. */
    method SetupBinaryTransfer(parserRet: Code, binLength: nat, ghost p: Parsed)
      requires queue.Valid() && binLength <= U16_MAX
      requires p.ring == queue.Model() && parserRet == CodeOf(p)
      requires (p.begun <==> queue.enqueueEntry.Some?) && (p.begun ==> p.verdict == Urc)
      modifies this`binState, this`binBuffer, this`bufferPos, this`bufferSize, this`remaining, this`rspLength,
               this`stored, queue
      ensures queue.Valid()
      ensures remaining == binLength && bufferPos == 0
      ensures p.ring.Inv() && (p.ring.enqueueEntry.Some? <==> p.begun)
      ensures Transfer(binState, bufferSize, rspLength, queue.Model()) == SetupTransfer(p, old(rspLength), binLength)
      ensures SpaceOk() && (binState == Rsp ==> parserRet == ParserRsp)
      ensures binState == Rsp ==> binBuffer == rspBuffer && (bufferSize <= binBuffer.Length <==> old(WordFits()))
      ensures old(WordFits()) ==> Room()
      ensures binBuffer == old(binBuffer) || binBuffer == rspBuffer
    {
      hide Ring.EnqueueAbort, Ring.Contents, Ring.Inv;
      bufferPos, remaining, stored := 0, binLength, [];
      if parserRet == ParserRsp {
        var length := 0;
        if rspLength.Some? {
          length := rspLength.value;
          rspLength := Some(0);
        }
        binState, bufferSize, binBuffer := Rsp, length, rspBuffer;
      } else if parserRet == ParserUrc {
        var pos, len := queue.EnqueueGetPayloadPtr();
        if len >= binLength {
          binState, bufferSize := UrcQueue, len;
        } else {
          queue.EnqueueAbort();
          binState, bufferSize := Flush, 0;
        }
      } else {
        binState, bufferSize := Flush, 0;
      }
    }

    /** Status, response text, transfer and queue are what the line and the length call for. */
    ghost predicate WasSetUp(ctx: Context, s: Rx, length: nat)
      requires s.ring.Inv() && s.ring.enqueueEntry.None?
      reads this`status, this`params, this`binState, this`bufferSize, this`rspLength, this`events, queue
    {
      var p := ParseAhead(ctx, s.line, s.ring);
      var t := SetupTransfer(p, s.rspLength, length);
      && status == (if p.verdict.Status? then p.verdict.code else s.status)
      && params == (if p.verdict.Response? then Some(s.line[p.verdict.skip..]) else s.params)
      && Transfer(binState, bufferSize, rspLength, queue.Model()) == t
      && events == s.events
    }

    /** parseLine and setupBinaryTransfer, one after the other. */
    method ParseAndSetup(length: nat, ghost s: Rx)
      requires Separate() && queue.Valid() && queue.enqueueEntry.None? && length <= U16_MAX
      requires rxBufferPos < rxBuffer.Length && rxBuffer[rxBufferPos] == 0 && AllPrint(rxBuffer[..rxBufferPos])
      requires s.line == rxBuffer[..rxBufferPos] && s.ring == queue.Model() && s.rspLength == rspLength
      requires s.status == status && s.params == params && s.events == events
      modifies this`status, this`rspParams, this`params, this`rspLength,
               this`binState, this`binBuffer, this`bufferPos, this`stored, this`bufferSize, this`remaining, queue, queue.buffer
      ensures queue.Valid() && remaining == length && bufferPos == 0
      ensures s.ring.Inv() && s.ring.enqueueEntry.None? && WasSetUp(Ctx(), s, length)
      ensures SpaceOk() && (binState == Rsp ==> ParamsHeld())
      ensures binState == Rsp ==> binBuffer == rspBuffer && (bufferSize <= binBuffer.Length <==> old(WordFits()))
      ensures old(WordFits()) ==> Room()
      ensures binBuffer == old(binBuffer) || binBuffer == rspBuffer
    {
      hide Q.UrcQueue.Valid, Q.UrcQueue.Model, AllPrint, ParseAhead, SetupTransfer, SpaceOk, ParamsHeld, Room, WasSetUp, WordFits,
           SetupTransfer, CodeOf, Ring.Inv, Ring.Contents;
      queue.ValidFacts();
      ghost var p := ParseAhead(Ctx(), s.line, s.ring);
      var parseCode := ParseLine(rxBufferPos);
      SetupBinaryTransfer(parseCode, length, p);
      SetUpNow(s, length);
    }

    lemma SetUpNow(s: Rx, length: nat)
      requires s.ring.Inv() && s.ring.enqueueEntry.None? && events == s.events
      requires var p := ParseAhead(Ctx(), s.line, s.ring);
        && status == (if p.verdict.Status? then p.verdict.code else s.status)
        && params == (if p.verdict.Response? then Some(s.line[p.verdict.skip..]) else s.params)
        && Transfer(binState, bufferSize, rspLength, queue.Model()) == SetupTransfer(p, s.rspLength, length)
      ensures WasSetUp(Ctx(), s, length)
    {
    }

    /** The length is known: looks at the line in front of the frame and sets up the transfer. */
    method BeginPayload(length: nat)
      requires Valid() && isBinaryRx && rxHeaderCount == 1 && length <= U16_MAX
      modifies this`status, this`rspParams, this`params, this`rxBufferPos, this`rxHeaderCount, this`rspLength,
               this`binState, this`binBuffer, this`bufferPos, this`stored, this`bufferSize, this`remaining, queue, queue.buffer
      ensures Begun() && remaining == length && rxBufferPos == 0
      ensures binState == Rsp ==> binBuffer == rspBuffer && (bufferSize <= binBuffer.Length <==> old(WordFits()))
      ensures old(WordFits()) ==> WordFits()
      ensures binBuffer == old(binBuffer) || binBuffer == rspBuffer
      ensures binState == Rsp ==> ParamsHeld()
      ensures Abs() == StartPayload(Ctx(), old(Abs()), length)
    {
      hide Q.UrcQueue.Valid, Q.UrcQueue.Model, Inv, Ending, AllPrint, ParamsHeld, Sound;
      hide StartPayload, BinMode, Kept, WasSetUp, SpaceOk;
      HeaderFacts();
      ghost var s := Abs();
      ParseAndSetup(length, s);
      rxHeaderCount := 2;
      rxBufferPos := 0;
      BegunAbs(s, length);
    }

    /** The bounds that hold when a transfer has just been set up. */
    ghost predicate Begun()
      reads this, queue, queue.buffer
    {
      && Separate() && queue.Valid() && |lengthBuf| == 2
      && isBinaryRx && rxHeaderCount == 2 && rxBufferPos == 0 < rxBuffer.Length && bufferPos == 0
      && SpaceOk()
    }

    lemma BegunAbs(s: Rx, length: nat)
      requires Inv(Ctx(), s) && s.mode.Header? && length <= U16_MAX
      requires isBinaryRx && rxHeaderCount == 2 && rxBufferPos == 0 && remaining == length && bufferPos == 0
      requires s.ring.enqueueEntry.None? && WasSetUp(Ctx(), s, length) && SpaceOk()
      ensures Abs() == StartPayload(Ctx(), s, length)
    {
      hide Q.UrcQueue.Model, Inv, Ending, AllPrint, ParseAhead, SetupTransfer;
      assert Kept() == [] && rxBuffer[..0] == [];
    }

    lemma IntoPayload(s: Rx, length: nat)
      requires Inv(Ctx(), s) && s.mode.Header? && length == remaining <= U16_MAX
      requires Abs() == StartPayload(Ctx(), s, length)
      requires Begun() && (binState == Rsp ==> ParamsHeld())
      ensures InPayload()
    {
      hide Inv, Ending, Abs, ParamsHeld, Q.UrcQueue.Valid;
    }

    lemma HeaderFacts()
      requires Valid() && isBinaryRx && rxHeaderCount < 2
      ensures queue.enqueueEntry.None? && queue.Model().enqueueEntry.None? && queue.Model().Inv()
      ensures AllPrint(rxBuffer[..rxBufferPos]) && rxBuffer[rxBufferPos] == 0
      ensures Abs().mode == Header(lengthBuf[..rxHeaderCount])
    {
    }

    lemma PayloadFacts()
      requires InPayload() && remaining > 0
      ensures Abs().mode == Payload(binState, remaining, bufferSize, Kept()) && |Kept()| == bufferPos <= bufferSize
      ensures binState == Flush ==> bufferSize == 0
      ensures binState == UrcQueue ==> queue.enqueueEntry.Some? && bufferSize <= queue.enqueueCapacity
      ensures Inv(Ctx(), Abs())
    {
    }

    /** Appends octets to the response buffer or to the window of the open queue entry. */
    method KeepBytes(bytes: seq<byte>)
      requires Shape() && isBinaryRx && rxHeaderCount == 2 && binState != Flush
      requires bufferPos + |bytes| <= bufferSize
      requires binState == UrcQueue ==> queue.enqueueEntry.Some? && bufferSize <= queue.enqueueCapacity
      modifies this`bufferPos, this`stored, this`overran, binBuffer, queue.buffer
      ensures Shape()
      ensures Kept() == old(Kept()) + bytes && bufferPos == old(bufferPos) + |bytes|
      ensures overran <==> old(overran) || Past()
    {
      hide Shape, Kept;
      if binState == Rsp {
        KeepResponse(bytes);
      } else {
        KeepQueued(bytes);
      }
    }

    method KeepQueued(bytes: seq<byte>)
      requires Shape() && isBinaryRx && rxHeaderCount == 2 && binState == UrcQueue
      requires bufferPos + |bytes| <= bufferSize && queue.enqueueEntry.Some? && bufferSize <= queue.enqueueCapacity
      modifies this`bufferPos, queue.buffer
      ensures Shape()
      ensures Kept() == old(Kept()) + bytes && bufferPos == old(bufferPos) + |bytes|
    {
      hide Q.UrcQueue.Valid;
      queue.StorePayload(bufferPos, bytes);
      bufferPos := bufferPos + |bytes|;
    }

    /** Octets behind the end of the buffer are only counted, and the overrun is noted. */
    method KeepResponse(bytes: seq<byte>)
      requires Shape() && isBinaryRx && rxHeaderCount == 2 && binState == Rsp
      requires bufferPos + |bytes| <= bufferSize
      modifies this`bufferPos, this`stored, this`overran, binBuffer
      ensures Shape()
      ensures Kept() == old(Kept()) + bytes && bufferPos == old(bufferPos) + |bytes|
      ensures overran <==> old(overran) || Past()
    {
      hide Q.UrcQueue.Valid;
      forall i | 0 <= i < |bytes| && bufferPos + i < binBuffer.Length {
        binBuffer[bufferPos + i] := bytes[i];
      }
      stored := stored + bytes;
      bufferPos := bufferPos + |bytes|;
      overran := overran || Past();
    }

    /** One read's worth of payload: into the buffer while there is space, else thrown away. */
    method StoreChunk(bytes: seq<byte>)
      requires InPayload() && 0 < |bytes| <= remaining
      requires bufferPos < bufferSize ==> |bytes| <= bufferSize - bufferPos
      modifies this`bufferPos, this`stored, this`overran, this`remaining, binBuffer, queue.buffer
      ensures InPayload() && remaining == old(remaining) - |bytes| && (overran <==> old(overran) || Past())
      ensures bufferPos >= old(bufferPos)
      ensures Abs() == Advance(old(Abs()), bytes)
    {
      hide Inv, Ending, AllPrint, ParamsHeld, Ring.Inv, Q.UrcQueue.Valid, Q.UrcQueue.Model, Kept;
      ghost var s := Abs();
      PayloadFacts();
      AdvanceKeeps(Ctx(), s, bytes);
      if bufferPos < bufferSize {
        KeepBytes(bytes);
        assert bytes[..|bytes|] == bytes;
      } else {
        assert s.mode.kept + bytes[..0] == s.mode.kept;
      }
      remaining := remaining - |bytes|;
      assert Abs() == Advance(s, bytes);
    }

    /** A failed read leaves everything but the status and the error code as it was. */
    method ReadFailed(readStatus: int)
      modifies this`lastIoError, this`status
      ensures lastIoError == readStatus
      ensures Abs() == old(Abs()).(status := ERROR_IO)
      ensures old(Valid()) ==> Valid()
      ensures old(InPayload()) ==> InPayload()
    {
      hide Ring.Inv, Q.UrcQueue.Valid, AllPrint;
      lastIoError := readStatus;
      status := ERROR_IO;
    }

    /** Stores some of the length octets and counts them. */
    method StoreLength(bytes: seq<byte>)
      requires Valid() && isBinaryRx && rxHeaderCount + |bytes| < 2
      modifies this`lengthBuf, this`rxHeaderCount
      ensures Valid() && isBinaryRx && rxHeaderCount < 2
      ensures Abs() == old(Abs()).(mode := Header(old(Abs().mode.got) + bytes))
    {
      hide Ring.Inv, Q.UrcQueue.Valid, AllPrint;
      lengthBuf := lengthBuf[..rxHeaderCount] + bytes + lengthBuf[rxHeaderCount + |bytes|..];
      rxHeaderCount := rxHeaderCount + |bytes|;
    }

    method StoreLastLength(b: byte)
      requires Valid() && isBinaryRx && rxHeaderCount == 1
      modifies this`lengthBuf
      ensures Valid() && Abs() == old(Abs())
      ensures Abs().mode == Header([lengthBuf[0]]) && lengthBuf == [old(lengthBuf[0]), b]
    {
      hide Ring.Inv, Q.UrcQueue.Valid, AllPrint;
      assert lengthBuf[..1] == [lengthBuf[0]];
      lengthBuf := [lengthBuf[0], b];
      assert lengthBuf[..1] == [lengthBuf[0]];
    }

    /** The two length octets have been received. */
    method CompleteHeader(bytes: seq<byte>)
      requires Valid() && isBinaryRx && rxHeaderCount < 2 && rxHeaderCount + |bytes| == 2
      modifies this`status, this`rspParams, this`params, this`rxBufferPos, this`rxHeaderCount, this`rspLength,
               this`binState, this`binBuffer, this`bufferPos, this`stored, this`bufferSize, this`remaining, this`lengthBuf,
               queue, queue.buffer
      ensures InPayload() && rxBufferPos == 0
      ensures InFlight() ==> binBuffer == rspBuffer && (FlightFits() <==> old(WordFits()))
      ensures old(Sound()) ==> Sound()
      ensures binBuffer == old(binBuffer) || binBuffer == rspBuffer
      ensures old(Abs()).mode.Header? && Inv(Ctx(), old(Abs()))
      ensures Feed(Ctx(), old(Abs()), bytes) == FinishIfDone(Ctx(), Abs())
    {
      hide Inv, Ending, AllPrint, ParamsHeld, Ring.Inv, Q.UrcQueue.Valid, Q.UrcQueue.Model, Feed, FinishIfDone,
           StartPayload, Kept, Begun;
      ghost var s := Abs();
      ghost var s1 := FillHeader(bytes);
      var length := lengthBuf[0] as int * 256 + lengthBuf[1] as int;
      BeginPayload(length);
      IntoPayload(s1, length);
    }

    /** The length octets are complete; the header counter still is not. */
    method FillHeader(bytes: seq<byte>) returns (ghost s1: Rx)
      requires Valid() && isBinaryRx && rxHeaderCount < 2 && rxHeaderCount + |bytes| == 2
      modifies this`rxHeaderCount, this`lengthBuf
      ensures Valid() && rxHeaderCount == 1 && s1 == Abs() && s1.mode.Header?
      ensures old(Abs()).mode.Header? && Inv(Ctx(), old(Abs())) && Inv(Ctx(), s1)
      ensures var n := lengthBuf[0] as int * 256 + lengthBuf[1] as int;
        && n <= U16_MAX && Feed(Ctx(), old(Abs()), bytes) == FinishIfDone(Ctx(), StartPayload(Ctx(), s1, n))
    {
      hide Inv, Ending, AllPrint, ParamsHeld, Ring.Inv, Q.UrcQueue.Valid, Q.UrcQueue.Model, Feed, FinishIfDone,
           StartPayload, Kept;
      HeaderFacts();
      ghost var s := Abs();
      FeedHeaderBytes(Ctx(), s, bytes);
      if rxHeaderCount == 0 { StoreLength(bytes[..1]); }
      StoreLastLength(bytes[|bytes| - 1]);
      HeaderFacts();
      s1 := Abs();
      ghost var got := s.mode.got + bytes;
      assert s1 == s.(mode := Header(got[..1]));
      assert lengthBuf == got;
    }

    /** The header part of handleBinaryRx; done says that the length is known. */
    method ReadHeader() returns (ret: Code, done: bool, ghost taken: seq<byte>)
      requires Valid() && isBinaryRx && rxHeaderCount < 2
      modifies this`status, this`rspParams, this`params, this`rxBufferPos, this`rxHeaderCount, this`rspLength,
               this`binState, this`binBuffer, this`bufferPos, this`stored, this`bufferSize, this`remaining, this`lengthBuf,
               this`lastIoError,
               uart, queue, queue.buffer
      ensures old(uart.input) == taken + uart.input
      ensures binBuffer == old(binBuffer) || binBuffer == rspBuffer
      ensures ret in {ParserNop, ParserError} && (ret == ParserError ==> !done && lastIoError < 0)
      ensures !done ==> Valid() && isBinaryRx
      ensures old(Sound()) ==> Sound()
      ensures uart.calls > old(uart.calls) && (ret == ParserNop && !done ==> uart.dry)
      ensures ret == ParserError ==> Abs() == Feed(Ctx(), old(Abs()), taken).(status := ERROR_IO)
      ensures ret == ParserNop && !done ==> Abs() == Feed(Ctx(), old(Abs()), taken)
      ensures done ==> InPayload() && taken != []
                       && Feed(Ctx(), old(Abs()), taken) == FinishIfDone(Ctx(), Abs())
                       && Feed(Ctx(), old(Abs()), taken[..|taken| - 1]).mode.Header?
    {
      hide Inv, Ending, AllPrint, ParamsHeld, Ring.Inv, Q.UrcQueue.Valid, Q.UrcQueue.Model;
      hide Feed, FinishIfDone, StartPayload, Kept;
      HeaderFacts();
      ghost var s := Abs();
      ret, done := ParserNop, false;
      var readLen := 2 - rxHeaderCount;
      var readStatus, bytes := uart.Read(readLen);
      taken := bytes;
      FeedHeaderBytes(Ctx(), s, bytes);
      if bytes != [] { FeedHeaderBytes(Ctx(), s, bytes[..|bytes| - 1]); }
      if readStatus < 0 {
        ReadFailed(readStatus);
        ret := ParserError;
      } else if readStatus < readLen {
        StoreLength(bytes);
      } else {
        CompleteHeader(bytes);
        done := true;
      }
    }

    /** One read of payload: never more than fits, or a scratch buffer's worth to throw away. */
    method ReadSome() returns (ret: Code, got: seq<byte>)
      requires InPayload() && remaining > 0
      modifies this`bufferPos, this`stored, this`overran, this`remaining, this`status, this`lastIoError,
               uart, binBuffer, queue.buffer
      ensures InPayload() && remaining == old(remaining) - |got| && (overran <==> old(overran) || Past())
      ensures bufferPos >= old(bufferPos)
      ensures old(uart.input) == got + uart.input
      ensures ret in {ParserNop, ParserError} && (ret == ParserError ==> got == [] && lastIoError < 0)
      ensures uart.calls > old(uart.calls) && (got == [] ==> uart.dry)
      ensures old(Abs()).mode.Payload? && |old(Abs()).mode.kept| <= old(Abs()).mode.size
              && |got| <= old(Abs()).mode.remaining
      ensures ret == ParserNop ==> Abs() == Advance(old(Abs()), got)
      ensures ret == ParserError ==> Abs() == old(Abs()).(status := ERROR_IO)
    {
      hide Inv, Ending, AllPrint, ParamsHeld, Ring.Inv, Q.UrcQueue.Valid, Q.UrcQueue.Model, Kept, Shape, Advance;
      PayloadFacts();
      StartFacts(Abs());
      var remainingBuf := bufferSize - bufferPos;
      var readLen := Min(if remainingBuf > 0 then remainingBuf else 64, remaining);
      var readStatus, bytes := uart.Read(readLen);
      ret, got := ParserNop, bytes;
      if readStatus < 0 {
        ReadFailed(readStatus);
        ret := ParserError;
      } else if readStatus > 0 {
        StoreChunk(bytes);
      }
    }

    /** The payload loop of handleBinaryRx. */
    method ReadPayload() returns (ret: Code, ghost taken: seq<byte>)
      requires InPayload()
      modifies this`bufferPos, this`stored, this`overran, this`remaining, this`status, this`lastIoError,
               uart, binBuffer, queue.buffer
      ensures InPayload() && (overran <==> old(overran) || Past()) && bufferPos >= old(bufferPos)
      ensures old(uart.input) == taken + uart.input
      ensures ret in {ParserNop, ParserError} && (ret == ParserError ==> remaining > 0 && lastIoError < 0)
      ensures remaining == old(remaining) - |taken| && uart.calls >= old(uart.calls)
      ensures ret == ParserNop && remaining > 0 ==> uart.calls > old(uart.calls) && uart.dry
      ensures old(Abs()).mode.Payload? && |old(Abs()).mode.kept| <= old(Abs()).mode.size
              && |taken| <= old(Abs()).mode.remaining
      ensures Abs() == if ret == ParserError then Advance(old(Abs()), taken).(status := ERROR_IO)
                       else Advance(old(Abs()), taken)
    {
      hide Inv, Ending, Abs, InPayload, Advance;
      ghost var s := Abs();
      ghost var input := uart.input;
      ret, taken := ParserNop, [];
      StartFacts(s);
      var more := true;
      while remaining > 0 && more
        invariant InPayload() && input == taken + uart.input && ret == ParserNop
        invariant (overran <==> old(overran) || Past()) && bufferPos >= old(bufferPos)
        invariant |taken| + remaining == s.mode.remaining && uart.calls >= old(uart.calls)
        invariant !more ==> uart.calls > old(uart.calls) && uart.dry
        invariant Abs() == Advance(s, taken)
        decreases remaining, more
      {
        var got;
        ret, got := ReadSome();
        if ret == ParserError {
          return;
        }
        AdvanceAppend(s, taken, got);
        taken := taken + got;
        more := got != [];
      }
    }

    lemma StartFacts(s: Rx)
      requires InPayload() && s == Abs()
      ensures s.mode.Payload? && |s.mode.kept| <= s.mode.size && s.mode.remaining == remaining
      ensures (Past() ==> overran) && (FlightFits() ==> !Past())
      ensures Advance(s, []) == s && s.events == events
      ensures if remaining == 0 then Ending(Ctx(), s) else Inv(Ctx(), s)
    {
      assert s.mode.kept + [] == s.mode.kept;
    }

    /** The end of handleBinaryRx: the response or the URC is complete. */
    method FinishTransfer() returns (ret: Code)
      requires InPayload() && remaining == 0
      modifies this`binState, this`rxHeaderCount, this`isBinaryRx, this`rspLength, this`events, queue, queue.buffer
      ensures Valid() && !isBinaryRx
      ensures Abs() == Finish(Ctx(), old(Abs()))
      ensures Reported(ret, old(events)) && ret != ParserStartBinary && ret != ParserStatus
      ensures old(Sound()) ==> Sound() && (ret == ParserRsp ==> Landed())
      ensures ret == ParserRsp <==> old(binState) == Rsp
      ensures ret == ParserRsp ==> FrameReported() && |events[|events| - 1].data.value| == old(bufferPos)
      ensures ret == ParserRsp && old(rspLength).Some? ==> rspLength == Some(old(bufferPos))
    {
      hide Valid, InPayload, Abs, Finish, Reported, Landed, Sound;
      var state := binState;
      if state == Rsp {
        FinishResponse();
        ret := ParserRsp;
      } else {
        FinishQueued();
        ret := ParserNop;
      }
    }

    /** A response is complete: its length goes to the caller's word. */
    method FinishResponse()
      requires InPayload() && remaining == 0 && binState == Rsp
      modifies this`binState, this`rxHeaderCount, this`isBinaryRx, this`rspLength, this`events
      ensures Valid() && !isBinaryRx
      ensures Abs() == Finish(Ctx(), old(Abs()))
      ensures Reported(ParserRsp, old(events))
      ensures old(Sound()) ==> Sound() && Landed()
      ensures FrameReported() && |events[|events| - 1].data.value| == bufferPos
      ensures old(rspLength).Some? ==> rspLength == Some(bufferPos)
    {
      hide Inv, AllPrint, ParamsHeld, Ring.Inv, Q.UrcQueue.Valid, Q.UrcQueue.Model;
      ghost var s := Abs();
      EndFacts(s);
      binState, rxHeaderCount, isBinaryRx := Flush, 0, false;
      if rspLength.Some? { rspLength := Some(bufferPos); }
      events := events + [GotResponse(params, Some(s.mode.kept))];
      assert Shape();
      assert Abs() == Finish(Ctx(), s);
      assert Inv(Ctx(), Abs());
    }

    /** A URC is complete, or what was thrown away. */
    method FinishQueued()
      requires InPayload() && remaining == 0 && binState != Rsp
      modifies this`binState, this`rxHeaderCount, this`isBinaryRx, queue, queue.buffer
      ensures Valid() && !isBinaryRx
      ensures Abs() == Finish(Ctx(), old(Abs())) && Reported(ParserNop, old(events))
      ensures old(Sound()) ==> Sound()
    {
      hide Inv, AllPrint, ParamsHeld, Ring.Inv, Q.UrcQueue.Valid, Q.UrcQueue.Model;
      ghost var s := Abs();
      EndFacts(s);
      var state := binState;
      binState, rxHeaderCount, isBinaryRx := Flush, 0, false;
      if state == UrcQueue {
        queue.EnqueueEnd(bufferPos);
      }
      assert queue.Valid();
      assert Shape();
      assert Abs() == Finish(Ctx(), s);
      assert Inv(Ctx(), Abs());
    }

    lemma EndFacts(s: Rx)
      requires InPayload() && remaining == 0 && s == Abs()
      ensures Ending(Ctx(), s) && |s.mode.kept| == bufferPos <= U16_MAX && s.mode.dest == binState
      ensures binState == UrcQueue ==> queue.enqueueEntry.Some? && bufferPos <= queue.enqueueCapacity
                                       && queue.Window(bufferPos) == s.mode.kept
      ensures binState == Rsp ==> s.mode.kept == stored && bufferPos <= bufferSize
      ensures binState == Rsp && bufferSize <= binBuffer.Length ==> binBuffer[..bufferPos] == s.mode.kept
      ensures queue.Valid()
    {
    }

    /** What one call of the receiver reports: a read error, or what the octets it took mean. */
    ghost predicate Received(ctx: Context, s: Rx, taken: seq<byte>, ret: Code)
      requires Inv(ctx, s)
      reads this, rxBuffer, binBuffer, queue, queue.buffer
    {
      var r := Feed(ctx, s, taken);
      if ret == ParserError then Abs() == r.(status := ERROR_IO) && r.events == s.events
      else Abs() == r && Reported(ret, s.events)
    }

    /** Why a call of the receiver came back: a report, a read that failed or gave too little, or the end of a frame. */
    ghost predicate Stopped(ctx: Context, s: Rx, taken: seq<byte>, ret: Code, callsBefore: nat)
      requires Inv(ctx, s)
      reads this`lastIoError, uart
    {
      match ret
      case ParserNop => (uart.calls > callsBefore && uart.dry) || Ended(ctx, s, taken)
      case ParserError => lastIoError < 0
      case _ => true
    }

    ghost function FlightNow(): Flight
      reads this, rspBuffer
    {
      Flight(InFlight(), params, rspParams, rspBuffer, rspBuffer[..], FrameReported(), overran, binBuffer, bufferSize,
                    bufferPos)
    }

    ghost function Here(): Moment
      reads this, uart, rxBuffer, binBuffer, rspBuffer, queue, queue.buffer
    {
      Moment(Abs(), uart.input, uart.calls, uart.dry, lastIoError, Sound(), Landed(), ParamsHeld(), Counted(), FlightNow())
    }

    lemma HereFacts()
      ensures var h := Here();
        && h.abs == Abs() && h.input == uart.input && h.calls == uart.calls && h.dry == uart.dry && h.error == lastIoError
        && h.sound == Sound() && h.landed == Landed() && h.held == ParamsHeld() && h.counted == Counted()
        && h.flight == FlightNow() && h.flight.bin == binBuffer && h.flight.rsp == rspBuffer
        && h.flight.overran == overran && h.flight.inFlight == InFlight()
      ensures Abs().events == events && (Abs().mode.Text? <==> !isBinaryRx)
    {
      hide Sound, Landed, ParamsHeld, Counted, InFlight;
    }

    /** handleBinaryRx: continues a frame with whatever octets there are. */
    method HandleBinaryRx() returns (ret: Code, ghost taken: seq<byte>)
      requires Valid() && isBinaryRx
      modifies this`status, this`rspParams, this`params, this`rxBufferPos, this`rxHeaderCount, this`rspLength,
               this`binState, this`binBuffer, this`bufferPos, this`stored, this`overran, this`bufferSize, this`remaining,
               this`lengthBuf, this`lastIoError,
               this`isBinaryRx, this`events, uart, binBuffer, rspBuffer, queue, queue.buffer
      ensures Valid() && ret in {ParserNop, ParserRsp, ParserError}
      ensures Inv(Ctx(), old(Abs())) && Handled(Ctx(), old(Here()), Here(), taken, ret)
    {
      hide Valid, Inv, Abs, InPayload, Here, Reached, TookPayload, Handled;
      ghost var ctx, a := Ctx(), Here();
      HereFacts();
      Apart();
      var done;
      ret, done, taken := ReachPayload();
      if done {
        ghost var p, more := Here(), [];
        ret, more := TakePayload();
        FrameHandled(ctx, a, p, Here(), taken, more, ret);
        taken := taken + more;
        TookCodes(ctx, p, Here(), more, ret);
      } else {
        HeaderHandled(ctx, a, Here(), taken, ret);
        ReachedCodes(ctx, a, Here(), taken, ret);
      }
    }

    lemma TookCodes(ctx: Context, a: Moment, b: Moment, more: seq<byte>, ret: Code)
      requires TookPayload(ctx, a, b, more, ret)
      ensures ret in {ParserNop, ParserRsp, ParserError}
    {
      hide Advance, Ending, Inv, Finish, Went, Reports;
    }

    lemma ReachedCodes(ctx: Context, a: Moment, b: Moment, taken: seq<byte>, ret: Code)
      requires Inv(ctx, a.abs) && Reached(ctx, a, b, taken, ret, false)
      ensures ret in {ParserNop, ParserError}
    {
      hide Feed, Inv, Went;
    }

    /** The payload of a frame, and its end if it has come. */
    method TakePayload() returns (ret: Code, ghost more: seq<byte>)
      requires InPayload() && rspBuffer != queue.buffer
      modifies this`bufferPos, this`stored, this`overran, this`remaining, this`status, this`lastIoError, this`binState, this`rxHeaderCount,
               this`isBinaryRx, this`rspLength, this`events, uart, binBuffer, queue, queue.buffer
      ensures Valid() && TookPayload(Ctx(), old(Here()), Here(), more, ret)
    {
      hide Valid, InPayload, Inv, Abs, Here, ReadOnly, EndedFrame, TookPayload;
      ghost var ctx, a := Ctx(), Here();
      HereFacts();
      StartFacts(Abs());
      ret, more := ReadOn();
      ghost var b := Here();
      ReadOnlyFacts(ctx, a, b, more, ret);
      StillInPayload(ret);
      if ret != ParserError && remaining == 0 {
        ret := EndFrame();
        AllTaken(ctx, a, b, Here(), more, ret);
      } else {
        PartTaken(ctx, a, b, more, ret);
      }
    }

    lemma ReadOnlyFacts(ctx: Context, a: Moment, b: Moment, more: seq<byte>, ret: Code)
      requires ReadOnly(ctx, a, b, more, ret)
      ensures ret in {ParserNop, ParserError} && |more| <= a.abs.mode.remaining
      ensures ret == ParserError ==> |more| < a.abs.mode.remaining
    {
      hide Advance, Ending, Inv, Went;
    }

    /** What reading payload does to a response frame in flight. */
    method ReadOn() returns (ret: Code, ghost more: seq<byte>)
      requires InPayload() && rspBuffer != queue.buffer
      modifies this`bufferPos, this`stored, this`overran, this`remaining, this`status, this`lastIoError,
               uart, binBuffer, queue.buffer
      ensures InPayload() && remaining == old(remaining) - |more| && old(remaining) == old(Abs()).mode.remaining
      ensures ReadOnly(Ctx(), old(Here()), Here(), more, ret)
    {
      hide Inv, Ending, Abs, InPayload, Advance, Landed, ParamsHeld, Counted, Went, FlightNow;
      HereFacts();
      StartFacts(Abs());
      if Sound() { SoundParts(); }
      ret, more := ReadFlying();
      StartFacts(Abs());
      HereFacts();
    }

    method ReadFlying() returns (ret: Code, ghost taken: seq<byte>)
      requires InPayload() && rspBuffer != queue.buffer
      modifies this`bufferPos, this`stored, this`overran, this`remaining, this`status, this`lastIoError,
               uart, binBuffer, queue.buffer
      ensures InPayload() && (overran <==> old(overran) || Past())
      ensures old(uart.input) == taken + uart.input
      ensures ret in {ParserNop, ParserError} && (ret == ParserError ==> remaining > 0 && lastIoError < 0)
      ensures remaining == old(remaining) - |taken| && uart.calls >= old(uart.calls)
      ensures ret == ParserNop && remaining > 0 ==> uart.calls > old(uart.calls) && uart.dry
      ensures old(Abs()).mode.Payload? && |old(Abs()).mode.kept| <= old(Abs()).mode.size
              && |taken| <= old(Abs()).mode.remaining
      ensures Abs() == if ret == ParserError then Advance(old(Abs()), taken).(status := ERROR_IO)
                       else Advance(old(Abs()), taken)
      ensures Went(old(FlightNow()), FlightNow(), ret)
    {
      hide Inv, Ending, Abs, InPayload, Advance;
      ret, taken := ReadPayload();
    }

    /** And what the end of the frame does. */
    method EndFrame() returns (ret: Code)
      requires InPayload() && remaining == 0 && rspBuffer != queue.buffer
      modifies this`binState, this`rxHeaderCount, this`isBinaryRx, this`rspLength, this`events, queue, queue.buffer
      ensures Valid() && EndedFrame(Ctx(), old(Here()), Here(), ret)
    {
      hide Inv, Ending, Abs, Finish, Landed, Sound, ParamsHeld, Counted, Reported, Reports;
      StartFacts(Abs());
      HereFacts();
      ret := FinishTransfer();
      HereFacts();
      ReportsOf(ret, old(events));
    }

    lemma ReportsOf(ret: Code, before: seq<Event>)
      requires Reported(ret, before) && (ret == ParserStartBinary ==> isBinaryRx)
      ensures Reports(Here(), ret, before) && ret !in {ParserError, ParserUrc}
    {
      hide Landed, Sound, ParamsHeld, Counted;
      HereFacts();
    }

    lemma StillInPayload(ret: Code)
      requires InPayload() && (ret == ParserError ==> remaining > 0)
      ensures remaining > 0 ==> Valid() && isBinaryRx && Inv(Ctx(), Abs())
      ensures remaining == 0 ==> Ending(Ctx(), Abs())
    {
    }

    lemma Apart()
      requires Valid()
      ensures rspBuffer != queue.buffer && rspBuffer != rxBuffer && binBuffer != queue.buffer
      ensures Inv(Ctx(), Abs()) && Abs().events == events
    {
    }

    /** The header of a frame, or nothing when it has been received already. */
    method ReachPayload() returns (ret: Code, done: bool, ghost taken: seq<byte>)
      requires Valid() && isBinaryRx
      modifies this`status, this`rspParams, this`params, this`rxBufferPos, this`rxHeaderCount, this`rspLength,
               this`binState, this`binBuffer, this`bufferPos, this`stored, this`bufferSize, this`remaining, this`lengthBuf,
               this`lastIoError, uart, queue, queue.buffer
      ensures if done then InPayload() && ret == ParserNop else Valid()
      ensures (binBuffer == old(binBuffer) || binBuffer == rspBuffer) && rspBuffer != queue.buffer
      ensures Inv(Ctx(), old(Abs())) && Reached(Ctx(), old(Here()), Here(), taken, ret, done)
    {
      hide Valid, InPayload, Abs, Inv, Here, Reached;
      if rxHeaderCount < 2 {
        ret, done, taken := ReachByHeader();
      } else {
        AlreadyReached();
        ret, done, taken := ParserNop, true, [];
      }
    }

    lemma AlreadyReached()
      requires Valid() && isBinaryRx && rxHeaderCount >= 2
      ensures InPayload() && rspBuffer != queue.buffer
      ensures Inv(Ctx(), Abs()) && Reached(Ctx(), Here(), Here(), [], ParserNop, true)
    {
      hide Inv, Ending, AllPrint, ParamsHeld, Ring.Inv, Q.UrcQueue.Valid, Q.UrcQueue.Model, Kept, Shape, Feed,
           FinishIfDone, Sound, Landed, Counted;
      Apart();
      ResumePayload(Abs());
      StartFacts(Abs());
      FeedNone(Ctx(), Abs());
    }

    method ReachByHeader() returns (ret: Code, done: bool, ghost taken: seq<byte>)
      requires Valid() && isBinaryRx && rxHeaderCount < 2
      modifies this`status, this`rspParams, this`params, this`rxBufferPos, this`rxHeaderCount, this`rspLength,
               this`binState, this`binBuffer, this`bufferPos, this`stored, this`bufferSize, this`remaining, this`lengthBuf,
               this`lastIoError, uart, queue, queue.buffer
      ensures if done then InPayload() && ret == ParserNop else Valid()
      ensures (binBuffer == old(binBuffer) || binBuffer == rspBuffer) && rspBuffer != queue.buffer
      ensures Inv(Ctx(), old(Abs())) && Reached(Ctx(), old(Here()), Here(), taken, ret, done)
    {
      hide Inv, Ending, AllPrint, ParamsHeld, Ring.Inv, Q.UrcQueue.Valid, Q.UrcQueue.Model, Kept, Shape, Feed,
           FinishIfDone, Sound, Landed, Counted, Valid, InPayload;
      Apart();
      HereFacts();
      ret, done, taken := ReadHeader();
      if done { StartFacts(Abs()); }
      HereFacts();
    }

    /** Two stretches of octets, the first of which reported nothing, received as one. */
    lemma ReceivedAppend(ctx: Context, s: Rx, taken: seq<byte>, mid: Rx, more: seq<byte>, ret: Code)
      requires Inv(ctx, s) && mid == Feed(ctx, s, taken) && mid.events == s.events
      requires Received(ctx, mid, more, ret)
      ensures Received(ctx, s, taken + more, ret)
    {
      hide Inv, Feed, Abs, ParamsHeld;
      FeedAppend(ctx, s, taken, more);
    }

    lemma ReceivedNothing(ctx: Context)
      requires Inv(ctx, Abs())
      ensures Feed(ctx, Abs(), []) == Abs() && Received(ctx, Abs(), [], ParserNop)
    {
      FeedNone(ctx, Abs());
    }

    /** Received without a report: the state is the fed state and no event was added. */
    lemma ReceivedQuietly(ctx: Context, s: Rx, taken: seq<byte>, ret: Code)
      requires Inv(ctx, s) && Received(ctx, s, taken, ret) && ret in {ParserNop, ParserStartBinary}
      ensures Abs() == Feed(ctx, s, taken) && Abs().events == s.events
    {
      hide Inv, Feed, ParamsHeld;
    }

    /** handleRxData: takes octets until there is something to report or no more to take. */
    method HandleRxData() returns (ret: Code, ghost taken: seq<byte>)
      requires Valid()
      modifies this`status, this`rspParams, this`params, this`rxBufferPos, this`rxHeaderCount, this`rspLength,
               this`binState, this`binBuffer, this`bufferPos, this`stored, this`overran, this`bufferSize, this`remaining, this`lengthBuf,
               this`lastIoError, this`isBinaryRx, this`events,
               uart, rxBuffer, binBuffer, rspBuffer, queue, queue.buffer
      ensures Valid() && ret != ParserStartBinary
      ensures binBuffer == old(binBuffer) || binBuffer == rspBuffer
      ensures Inv(Ctx(), old(Abs())) && Handled(Ctx(), old(Here()), Here(), taken, ret)
    {
      hide Valid, Inv, Abs, Here, Handled;
      ghost var ctx, a := Ctx(), Here();
      Beginning();
      ret, taken := Receive();
      while ret == ParserStartBinary
        invariant Valid() && Ctx() == ctx && Handled(ctx, a, Here(), taken, ret)
        invariant ret == ParserStartBinary ==> isBinaryRx
        invariant binBuffer == old(binBuffer) || binBuffer == rspBuffer
        decreases ret == ParserStartBinary
      {
        ghost var b, more := Here(), [];
        Beginning();
        ret, more := Receive();
        HandledTwice(ctx, a, b, Here(), taken, more, ret);
        taken := taken + more;
      }
    }

    /** What the text loop did, in the same terms. */
    lemma TextHandled(ctx: Context, a: Moment, taken: seq<byte>, ret: Code)
      requires Inv(ctx, a.abs) && ctx == Ctx() && Received(ctx, a.abs, taken, ret) && Stopped(ctx, a.abs, taken, ret, a.calls)
      requires a.input == taken + uart.input && uart.calls >= a.calls && !a.flight.inFlight
      requires rspBuffer == a.flight.rsp && binBuffer == a.flight.bin && overran == a.flight.overran
      requires (a.sound ==> Sound()) && (ret == ParserRsp ==> LineReported()) && (ret == ParserStartBinary ==> isBinaryRx)
      ensures Handled(ctx, a, Here(), taken, ret)
    {
      hide Inv, Abs, Feed, Sound, ParamsHeld, Ended, Reported, Reports;
      HereFacts();
      if ret != ParserError { ReportsOf(ret, a.abs.events); }
    }

    lemma Beginning()
      requires Valid()
      ensures Here().abs == Abs() && Inv(Ctx(), Abs())
    {
    }

    lemma HandledFacts(ctx: Context, a: Moment, b: Moment, taken: seq<byte>, ret: Code)
      requires Inv(ctx, a.abs) && Handled(ctx, a, b, taken, ret)
      ensures a.input == taken + b.input && b.flight.rsp == a.flight.rsp
      ensures b.flight.bin == a.flight.bin || b.flight.bin == b.flight.rsp
    {
      hide Feed, Inv, Went, Ended, Reports;
    }

    /** One round of handleRxData: text or binary, as the state says. */
    method Receive() returns (ret: Code, ghost taken: seq<byte>)
      requires Valid()
      modifies this`status, this`rspParams, this`params, this`rxBufferPos, this`rxHeaderCount, this`rspLength,
               this`binState, this`binBuffer, this`bufferPos, this`stored, this`overran, this`bufferSize, this`remaining, this`lengthBuf,
               this`lastIoError, this`isBinaryRx, this`events,
               uart, rxBuffer, binBuffer, rspBuffer, queue, queue.buffer
      ensures Valid() && (ret == ParserStartBinary ==> isBinaryRx && !old(isBinaryRx))
      ensures binBuffer == old(binBuffer) || binBuffer == rspBuffer
      ensures Inv(Ctx(), old(Abs())) && Handled(Ctx(), old(Here()), Here(), taken, ret)
    {
      hide Valid, Inv, Abs, Here, Handled;
      ghost var ctx, a := Ctx(), Here();
      HereFacts();
      Apart();
      if !isBinaryRx {
        NoFrame();
        SoundOutside();
        ret, taken := ReadText();
        TextHandled(ctx, a, taken, ret);
      } else {
        ret, taken := HandleBinaryRx();
        HandledFacts(ctx, a, Here(), taken, ret);
        HereFacts();
      }
    }

    /** The text loop of handleRxData; a SOH octet makes the next octets a frame. */
    method ReadText() returns (ret: Code, ghost taken: seq<byte>)
      requires Valid() && !isBinaryRx
      modifies this`status, this`rspParams, this`params, this`rxBufferPos, this`lastIoError,
               this`isBinaryRx, this`events, uart, rxBuffer, queue, queue.buffer
      ensures Valid()
      ensures old(uart.input) == taken + uart.input
      ensures ret == ParserStartBinary ==> isBinaryRx
      ensures Received(Ctx(), old(Abs()), taken, ret)
      ensures Stopped(Ctx(), old(Abs()), taken, ret, old(uart.calls)) && uart.calls >= old(uart.calls)
      ensures old(Sound()) ==> Sound()
      ensures ret == ParserRsp ==> LineReported()
    {
      hide Inv, Abs, Received, Shape, ParamsHeld, Feed, Sound, Ended, LineReported;
      ghost var s, input := Abs(), uart.input;
      ReceivedNothing(Ctx());
      ret, taken := ParserNop, [];
      var more := true;
      while ret == ParserNop && more
        invariant Valid() && input == taken + uart.input
        invariant uart.calls >= old(uart.calls) && (old(Sound()) ==> Sound())
        invariant ret == ParserNop && !more ==> uart.calls > old(uart.calls) && uart.dry
        invariant ret == ParserError ==> lastIoError < 0
        invariant ret == ParserRsp ==>
          LineReported()
        invariant ret == ParserStartBinary <==> isBinaryRx
        invariant Received(Ctx(), s, taken, ret)
        decreases |uart.input|, ret == ParserNop, more
      {
        ghost var mid, got := Abs(), [];
        ReceivedQuietly(Ctx(), s, taken, ret);
        ret, more, got := ReadChar();
        ReceivedAppend(Ctx(), s, taken, mid, got, ret);
        taken := taken + got;
      }
    }

    /** Reads at most one octet of text and parses it. */
    method ReadChar() returns (ret: Code, more: bool, ghost got: seq<byte>)
      requires Valid() && !isBinaryRx
      modifies this`status, this`rspParams, this`params, this`rxBufferPos, this`lastIoError,
               this`isBinaryRx, this`events, uart, rxBuffer, queue, queue.buffer
      ensures Valid()
      ensures old(uart.input) == got + uart.input
      ensures ret == ParserStartBinary <==> isBinaryRx
      ensures ret == ParserNop && more ==> got != []
      ensures Received(Ctx(), old(Abs()), got, ret)
      ensures uart.calls > old(uart.calls) && (!more ==> uart.dry) && (ret == ParserError ==> lastIoError < 0)
      ensures old(Sound()) ==> Sound()
      ensures ret == ParserRsp ==> LineReported()
    {
      hide Inv, AllPrint, ParamsHeld, Shape, Feed, TextStep, Sound, Landed, WordFits;
      ghost var s := Abs();
      NoFrame();
      SoundOutside();
      ReceivedNothing(Ctx());
      ret, more := ParserNop, true;
      var readStatus, bytes := uart.Read(1);
      got := bytes;
      if readStatus < 0 {
        ReadFailed(readStatus);
        ret := ParserError;
      } else if readStatus != 1 {
        more := false;
      } else {
        FeedOne(Ctx(), s, bytes[0]);
        assert bytes == [bytes[0]];
        ret := ParseIncomingChar(bytes[0]);
        if ret == ParserStartBinary {
          EnterBinary();
        }
      }
      SoundOutside();
    }

    lemma NoLine()
      requires rxBufferPos == 0
      ensures Abs().line == []
    {
    }

    lemma NoFrame()
      requires Valid() && !isBinaryRx
      ensures rxHeaderCount == 0
    {
    }

    lemma SoundOutside()
      requires rxHeaderCount == 0
      ensures !InFlight() && (Sound() <==> WordFits())
    {
    }

    /** After SOH the two length octets come next. */
    method EnterBinary()
      requires Valid() && !isBinaryRx && rxBuffer[rxBufferPos] == 0
      modifies this`isBinaryRx
      ensures Valid() && isBinaryRx
      ensures Abs() == TextStep(Ctx(), old(Abs()), SOH)
      ensures Abs() == old(Abs()).(mode := Header([]))
    {
      hide Ring.Inv, Q.UrcQueue.Valid, AllPrint;
      assert lengthBuf[..0] == [];
      isBinaryRx := true;
    }

    /** cmdBeginF without the lock and the transmission. */
    method BeginCommand()
      requires Valid()
      modifies this`rspParams, this`params, this`executingCmd, this`status
      ensures Valid() && executingCmd && status == NO_STATUS && Ctx() == old(Ctx()).(executing := true)
      ensures Abs() == old(Abs()).(params := None, status := NO_STATUS)
    {
      hide Inv, Q.UrcQueue.Valid, Q.UrcQueue.Model, Kept;
      ghost var ctx, s := Ctx(), Abs();
      rspParams, params := None, None;
      executingCmd := true;
      status := NO_STATUS;
      InvAcross(ctx, s, Ctx(), Abs());
    }

    /** Takes the oldest queued URC for the callback, if one may be taken now. */
    method UrcBegin() returns (entry: Option<nat>)
      requires Valid()
      modifies queue
      ensures Valid()
      ensures entry.Some? <==> !old(queue.dequeueLocked) && queue.enqueueEntry.None? && queue.Contents() != []
      ensures entry.Some? ==> queue.dequeueLocked && queue.dequeueEntry == entry
                              && Q.Stored(queue.buffer[..], entry.value, queue.Contents()[0])
      ensures queue.enqueueEntry == old(queue.enqueueEntry)
      ensures entry.None? ==> queue.dequeueEntry == old(queue.dequeueEntry)
                              && queue.dequeueLocked == old(queue.dequeueLocked)
      ensures queue.Contents() == old(queue.Contents())
    {
      hide Inv, Q.UrcQueue.Valid, Ring.Inv, Ring.Contents, ParamsHeld, Q.Stored;
      ghost var ctx, s := Ctx(), Abs();
      queue.ValidFacts();
      entry := queue.DequeueBegin();
      queue.ValidFacts();
      InvRing(ctx, s, queue.Model());
    }

    /** The callback writes into its URC; a payload that is still arriving is not touched. */
    method UrcEdit(at: nat, bytes: seq<byte>)
      requires Valid() && queue.dequeueEntry.Some?
      modifies queue.buffer
      ensures Valid() && Abs() == old(Abs())
    {
      hide Inv, Q.UrcQueue.Valid, Q.UrcQueue.Model, ParamsHeld;
      ghost var s := Abs();
      var size := queue.EntryBytes(queue.dequeueEntry.value);
      if HEADER_SIZE <= at && at + |bytes| <= size {
        WindowFacts(s);
        queue.EditEntry(at, bytes);
        if isBinaryRx && rxHeaderCount == 2 && binState == UrcQueue {
          assert Kept() == queue.Window(queue.enqueueCapacity)[..bufferPos];
        }
        assert Abs().mode == s.mode;
      }
    }

    lemma WindowFacts(s: Rx)
      requires Valid() && s == Abs()
      ensures isBinaryRx && rxHeaderCount == 2 && binState == UrcQueue ==>
        queue.enqueueEntry.Some? && bufferPos <= queue.enqueueCapacity
        && s.mode.Payload? && s.mode.kept == queue.Window(queue.enqueueCapacity)[..bufferPos]
    {
    }

    /** Drops the URC that the callback has finished with. */
    method UrcEnd(entry: nat)
      requires Valid() && queue.dequeueEntry == Some(entry)
      modifies queue
      ensures Valid()
      ensures queue.Contents() == old(queue.Contents())[1..]
      ensures queue.dequeueEntry.None? && !queue.dequeueLocked
    {
      hide Inv, Q.UrcQueue.Valid, Q.UrcQueue.Model, Ring.Inv, Ring.Contents, Ring.DequeueEnd, ParamsHeld;
      ghost var ctx, s := Ctx(), Abs();
      ghost var ring := queue.Model();
      queue.ValidFacts();
      DequeueEndKeeps(ring);
      queue.DequeueEnd(entry);
      queue.ValidFacts();
      InvRing(ctx, s, queue.Model());
      assert Abs() == s.(ring := queue.Model());
    }

    /** Between calls a queue entry is open exactly while the payload of a URC is arriving. */
    lemma OpenExactlyInUrcPayload()
      requires Valid()
      ensures queue.enqueueEntry.Some? <==> isBinaryRx && rxHeaderCount == 2 && binState == UrcQueue
      ensures queue.enqueueEntry.Some? ==> bufferPos + remaining <= bufferSize <= queue.enqueueCapacity
    {
    }

    /** The status of the command is decided by its time-out. */
    method SetStatus(code: int)
      requires Valid()
      modifies this`status
      ensures Valid() && Abs() == old(Abs()).(status := code) && status == code
    {
      hide Inv, Q.UrcQueue.Valid, Q.UrcQueue.Model, Kept;
      ghost var ctx, s := Ctx(), Abs();
      status := code;
      InvAcross(ctx, s, Ctx(), Abs());
    }

    method EndCommand()
      requires Valid()
      modifies this`executingCmd
      ensures Valid() && Ctx() == old(Ctx()).(executing := false) && Abs() == old(Abs())
    {
      hide Inv, Q.UrcQueue.Valid, Q.UrcQueue.Model, Kept;
      ghost var ctx, s := Ctx(), Abs();
      executingCmd := false;
      InvAcross(ctx, s, Ctx(), Abs());
    }

    /**
     The caller says which response it waits for and where binary data goes.  A response frame of
     an earlier wait that is still arriving keeps its buffer, but its length will be written to the
     new length word: the two fit together exactly if no frame is in flight or it goes to the same
     buffer.
     */
    method ExpectResponse(expected: Option<seq<byte>>, buf: array<byte>, bufLength: Option<nat>)
      requires Valid()
      requires buf != rxBuffer && buf != queue.buffer
      requires bufLength.Some? ==> bufLength.value <= buf.Length && bufLength.value <= U16_MAX
      modifies this`rspBuffer, this`rspLength, this`rspParams, this`params, this`expectedRsp
      ensures Valid() && rspBuffer == buf && rspLength == bufLength && rspParams.None? && expectedRsp == expected
      ensures Abs() == old(Abs()).(params := None, rspLength := bufLength)
      ensures Sound() <==> old(FlightFits()) && (old(InFlight()) ==> buf == binBuffer)
    {
      hide Valid, Abs, Sound, FlightFits, InFlight;
      RegisterWait(expected, buf, bufLength);
      SoundNow();
    }

    method RegisterWait(expected: Option<seq<byte>>, buf: array<byte>, bufLength: Option<nat>)
      requires Valid()
      requires buf != rxBuffer && buf != queue.buffer
      requires bufLength.Some? ==> bufLength.value <= U16_MAX
      modifies this`rspBuffer, this`rspLength, this`rspParams, this`params, this`expectedRsp
      ensures Valid() && rspBuffer == buf && rspLength == bufLength && rspParams.None? && expectedRsp == expected
      ensures Abs() == old(Abs()).(params := None, rspLength := bufLength)
    {
      hide Valid, Abs, InFlight;
      ClearParams();
      SetExpected(expected, buf, bufLength);
    }

    method ClearParams()
      requires Valid()
      modifies this`rspParams, this`params
      ensures Valid() && rspParams.None? && Abs() == old(Abs()).(params := None)
    {
      hide Inv, Q.UrcQueue.Valid, Q.UrcQueue.Model, Kept, ParamsHeld;
      ghost var ctx, s := Ctx(), Abs();
      rspParams, params := None, None;
      NoParamsHeld();
      InvAcross(ctx, s, Ctx(), Abs());
    }

    method SetExpected(expected: Option<seq<byte>>, buf: array<byte>, bufLength: Option<nat>)
      requires Valid()
      requires buf != rxBuffer && buf != queue.buffer
      requires bufLength.Some? ==> bufLength.value <= U16_MAX
      modifies this`rspBuffer, this`rspLength, this`expectedRsp
      ensures Valid() && rspBuffer == buf && rspLength == bufLength && expectedRsp == expected
      ensures Abs() == old(Abs()).(rspLength := bufLength)
    {
      hide Inv, Q.UrcQueue.Valid, Q.UrcQueue.Model, Kept;
      ghost var ctx, s := Ctx(), Abs();
      rspBuffer, rspLength := buf, bufLength;
      expectedRsp := expected;
      InvAcross(ctx, s, Ctx(), Abs());
    }

    lemma NoParamsHeld()
      requires rspParams.None? && params.None?
      ensures ParamsHeld()
    {
    }

    lemma PayloadIs()
      requires InPayload()
      ensures Abs().mode == Payload(binState, remaining, bufferSize, Kept()) && |Kept()| == bufferPos
    {
    }

    lemma SoundParts()
      requires Sound()
      ensures FlightFits() && (InFlight() ==> binBuffer == rspBuffer)
    {
    }

    lemma SoundNow()
      requires WordFits()
      ensures Sound() <==> FlightFits() && (InFlight() ==> rspBuffer == binBuffer)
    {
    }

    /** No part of a line, a frame or a response is left. */
    ghost predicate Cleared()
      reads this, queue
    {
      && rxBufferPos == 0 && !isBinaryRx && rxHeaderCount == 0
      && expectedRsp.None? && rspParams.None? && params.None? && rspLength.None?
      && queue.enqueueEntry.None?
    }

    /** resetReceiveState: forgets a partial line or frame and gives up an open queue entry. */
    method ResetReceiveState()
      requires Valid()
      modifies this`rxBufferPos, this`expectedRsp, this`rspParams, this`params, this`rspLength, this`isBinaryRx,
               this`binState, this`rxHeaderCount, this`lengthBuf, this`remaining, this`bufferSize, this`bufferPos, queue
      ensures Valid() && Cleared()
      ensures Abs() == old(Abs()).(line := [], mode := Text, params := None, rspLength := None, ring := queue.Model())
      ensures queue.Contents() == old(queue.Contents())
      ensures queue.dequeueEntry == old(queue.dequeueEntry) && queue.dequeueLocked == old(queue.dequeueLocked)
    {
      hide Q.UrcQueue.Valid, Q.UrcQueue.Model, Ring.Contents, Inv, Ring.EnqueueAbort;
      if queue.enqueueEntry.Some? {
        queue.EnqueueAbort();
      }
      ClearReceiveState();
    }

    method ClearReceiveState()
      requires Separate() && queue.Valid() && queue.enqueueEntry.None? && rxBuffer.Length > 0
      modifies this`rxBufferPos, this`expectedRsp, this`rspParams, this`params, this`rspLength, this`isBinaryRx,
               this`binState, this`rxHeaderCount, this`lengthBuf, this`remaining, this`bufferSize, this`bufferPos
      ensures Valid() && Cleared()
      ensures Abs().line == [] && Abs().mode == Text
    {
      hide Q.UrcQueue.Valid, Inv, ParamsHeld, Abs, Kept;
      rxBufferPos := 0;
      expectedRsp, rspParams, params, rspLength := None, None, None, None;
      isBinaryRx := false;
      ClearBinaryRx();
      IdleInv();
    }

    method ClearBinaryRx()
      modifies this`binState, this`rxHeaderCount, this`lengthBuf, this`remaining, this`bufferSize, this`bufferPos
      ensures binState == Flush && rxHeaderCount == 0 && |lengthBuf| == 2
    {
      binState, rxHeaderCount, lengthBuf := Flush, 0, [0, 0];
      remaining, bufferSize, bufferPos := 0, 0, 0;
    }

    lemma IdleInv()
      requires queue.Valid() && queue.enqueueEntry.None? && !isBinaryRx && rxBufferPos == 0 < rxBuffer.Length
      requires rspLength.None?
      ensures Inv(Ctx(), Abs()) && Abs().line == [] && Abs().mode == Text
    {
      queue.ValidFacts();
      assert rxBuffer[..0] == [];
    }

    lemma ResumePayload(s: Rx)
      requires Valid() && isBinaryRx && rxHeaderCount >= 2 && s == Abs()
      ensures InPayload() && remaining > 0 && s.mode.Payload? && FinishIfDone(Ctx(), s) == s
    {
    }
  }

  /** A line 'X' and then a frame of two octets, for a command that waits for anything, with room for both. */
  lemma TwoOctetFrame(ctx: Context, s: Rx)
    requires Inv(ctx, s) && ctx.executing && ctx.expected.None?
    requires s.line == [88] && s.mode == Header([]) && s.rspLength == Some(2)
    ensures Feed(ctx, s, [0, 2]).mode == Payload(Rsp, 2, 2, [])
  {
    FeedHeaderBytes(ctx, s, [0, 2]);
    assert Classify(ctx, [88]) == Response(0);
    hide Feed, Inv;
  }

  /** A client whose command waits for any response, with room for two octets. */
  method WaitingClient() returns (rx: Client)
    ensures rx.Valid() && !rx.isBinaryRx && rx.executingCmd && rx.expectedRsp.None? && !rx.overran
    ensures rx.rxBufferPos == 0 && rx.rxBuffer.Length == 8 && rx.rspLength == Some(2) && rx.rspBuffer.Length == 2
    ensures fresh(rx) && fresh(rx.rxBuffer) && fresh(rx.rspBuffer) && fresh(rx.queue) && fresh(rx.queue.buffer)
  {
    hide Client.Valid, Client.Sound, Inv, Client.FlightFits;
    var rxBuffer, urcBuffer, first := new byte[8], new byte[8], new byte[2];
    var uart := new Uart([], []);
    rx := new Client(uart, rxBuffer, urcBuffer, 0, first);
    rx.BeginCommand();
    rx.ExpectResponse(None, first, Some(2));
  }

  /** Receives 'X' and SOH. */
  method ReceiveLineStart(rx: Client)
    requires rx.Valid() && !rx.isBinaryRx && rx.rxBufferPos == 0 && rx.rxBuffer.Length == 8
    modifies rx`status, rx`rspParams, rx`params, rx`rxBufferPos, rx`events, rx`isBinaryRx, rx.rxBuffer, rx.queue, rx.queue.buffer
    ensures rx.Valid() && rx.isBinaryRx && rx.rxHeaderCount == 0
    ensures rx.Abs().line == [88] && rx.Abs().mode == Header([])
  {
    hide Client.Valid, Inv, Client.Abs, Client.WordFits;
    rx.NoFrame();
    rx.NoLine();
    var c := rx.ParseIncomingChar(88);
    c := rx.ParseIncomingChar(SOH);
    rx.EnterBinary();
  }

  /** Receives a length of two. */
  method ReceiveHeader(rx: Client)
    requires rx.Valid() && rx.isBinaryRx && rx.rxHeaderCount == 0
    requires rx.executingCmd && rx.expectedRsp.None? && rx.rspLength == Some(2)
    requires rx.Abs().line == [88] && rx.Abs().mode == Header([])
    modifies rx`status, rx`rspParams, rx`params, rx`rxBufferPos, rx`rxHeaderCount, rx`rspLength,
             rx`binState, rx`binBuffer, rx`bufferPos, rx`stored, rx`bufferSize, rx`remaining, rx`lengthBuf,
             rx.queue, rx.queue.buffer
    ensures rx.InPayload() && rx.isBinaryRx && rx.rxHeaderCount == 2 && rx.rxBufferPos == 0
    ensures rx.binBuffer == rx.rspBuffer && rx.binState == Rsp && rx.remaining == 2 && rx.bufferSize == 2 && rx.bufferPos == 0
  {
    hide Client.Valid, Inv, Ending, Feed, Client.Kept, FinishIfDone;
    ghost var s := rx.Abs();
    rx.CompleteHeader([0, 2]);
    TwoOctetFrame(rx.Ctx(), s);
    HeaderOnly(rx.Ctx(), rx.Abs());
    rx.PayloadIs();
  }

  lemma HeaderOnly(ctx: Context, p: Rx)
    requires p.mode.Payload? && (if p.mode.remaining == 0 then Ending(ctx, p) else Inv(ctx, p))
    requires FinishIfDone(ctx, p).mode == Payload(Rsp, 2, 2, [])
    ensures p.mode == Payload(Rsp, 2, 2, [])
  {
  }

  /** Receives an octet of the payload. */
  method ReceiveOctet(rx: Client, b: byte)
    requires rx.InPayload() && rx.InFlight() && rx.remaining > 0 && rx.bufferPos < rx.bufferSize
    modifies rx`bufferPos, rx`stored, rx`overran, rx`remaining, rx.binBuffer, rx.queue.buffer
    ensures rx.InPayload() && rx.bufferPos == old(rx.bufferPos) + 1 && rx.remaining == old(rx.remaining) - 1
    ensures rx.remaining > 0 ==> rx.Valid()
    ensures rx.overran <==> old(rx.overran) || rx.Past()
  {
    hide Client.Valid, Client.InPayload, Inv, Ending, Client.Abs, Client.Kept;
    rx.PayloadIs();
    ghost var s := rx.Abs();
    rx.StoreChunk([b]);
    assert s.mode.kept + [b] == Advance(s, [b]).mode.kept;
    rx.PayloadIs();
    rx.StillInPayload(ParserNop);
  }

  /**
   A first wait, with a buffer of two octets, times out after the first octet of a frame of two; a
   second wait has a buffer of one octet.  When the frame ends, the second wait is told two octets,
   and its buffer holds neither.
   */
  method OldCountForNewBuffer() returns (rx: Client, second: array<byte>, ret: Code)
    ensures rx.Valid() && rx.rspBuffer == second && second.Length == 1 && rx.rxBuffer.Length == 8
    ensures ret == ParserRsp && rx.rspLength == Some(2) && second[0] == 0 && !rx.Landed() && !rx.overran
    ensures rx.rxBufferPos == 0 && !rx.isBinaryRx && rx.executingCmd && rx.expectedRsp.None?
    ensures fresh(rx) && fresh(rx.rxBuffer) && fresh(rx.rspBuffer) && fresh(rx.queue) && fresh(rx.queue.buffer)
  {
    hide Client.Valid, Client.InPayload, Inv, Ending, Client.Sound, Client.Abs, Client.Kept, Client.Reported;
    rx := WaitingClient();
    second := new byte[1](_ => 0);
    ReceiveLineStart(rx);
    ReceiveHeader(rx);
    ret := WaitAgain(rx, second);
  }

  method WaitAgain(rx: Client, second: array<byte>) returns (ret: Code)
    requires rx.InPayload() && rx.isBinaryRx && rx.rxHeaderCount == 2 && rx.binState == Rsp
    requires rx.remaining == rx.bufferSize == 2 && rx.bufferPos == 0 && rx.binBuffer.Length == 2
    requires second.Length == 1 && second != rx.binBuffer && second != rx.rxBuffer && second != rx.queue.buffer
    modifies rx`bufferPos, rx`stored, rx`overran, rx`remaining, rx`rspBuffer, rx`rspLength, rx`rspParams, rx`params,
             rx`expectedRsp, rx`binState, rx`rxHeaderCount, rx`isBinaryRx, rx`events,
             rx.binBuffer, rx.queue, rx.queue.buffer
    ensures rx.Valid() && rx.rspBuffer == second && second[0] == old(second[0])
    ensures ret == ParserRsp && rx.rspLength == Some(2) && !rx.Landed() && rx.overran == old(rx.overran)
    ensures !rx.isBinaryRx && rx.expectedRsp.None?
  {
    hide Client.Valid, Client.InPayload, Inv, Ending, Client.Sound, Client.Abs, Client.Kept, Client.Landed;
    ReceiveOctet(rx, 7);
    rx.ExpectResponse(None, second, Some(1));
    ret := EndOfWait(rx, second);
  }

  /** The last octet of the frame, which goes to the old buffer. */
  method EndOfWait(rx: Client, second: array<byte>) returns (ret: Code)
    requires rx.Valid() && rx.isBinaryRx && rx.rxHeaderCount == 2 && rx.binState == Rsp && rx.rspLength == Some(1)
    requires rx.remaining == 1 && rx.bufferSize == 2 && rx.bufferPos == 1 && rx.binBuffer.Length == 2
    requires rx.rspBuffer == second && second.Length == 1 && second != rx.binBuffer
    modifies rx`bufferPos, rx`stored, rx`overran, rx`remaining, rx`rspLength,
             rx`binState, rx`rxHeaderCount, rx`isBinaryRx, rx`events, rx.binBuffer, rx.queue, rx.queue.buffer
    ensures rx.Valid() && !rx.isBinaryRx && rx.overran == old(rx.overran)
    ensures ret == ParserRsp && rx.rspLength == Some(2) && !rx.Landed()
  {
    hide Client.Valid, Client.InPayload, Inv, Ending, Client.Sound, Client.Abs, Client.Kept, Client.Reported;
    rx.ResumePayload(rx.Abs());
    ReceiveOctet(rx, 9);
    rx.PayloadIs();
    ret := rx.FinishTransfer();
  }

  /** The next response frame of the same command is given the old count for its room, and overruns the buffer. */
  method OldCountOverruns() returns (rx: Client)
    ensures rx.InPayload() && rx.rspBuffer.Length == 1 && rx.bufferSize == 2 && !rx.FlightFits()
    ensures rx.overran
  {
    hide Client.Valid, Client.InPayload, Inv, Ending, Client.Abs, Client.Kept, Client.Landed, Client.Sound;
    var second, ret;
    rx, second, ret := OldCountForNewBuffer();
    ReceiveLineStart(rx);
    ReceiveHeader(rx);
    ReceiveOctet(rx, 7);
    rx.ResumePayload(rx.Abs());
    ReceiveOctet(rx, 9);
  }

  /** Feeding the length octets: one leaves the header open, the second starts the payload. */
  lemma FeedHeaderBytes(ctx: Context, s: Rx, bytes: seq<byte>)
    requires Inv(ctx, s) && s.mode.Header? && |s.mode.got + bytes| <= 2
    ensures var got := s.mode.got + bytes;
      && (|got| < 2 ==> Feed(ctx, s, bytes) == s.(mode := Header(got)))
      && (|got| == 2 ==>
            Feed(ctx, s, bytes) ==
            FinishIfDone(ctx, StartPayload(ctx, s.(mode := Header(got[..1])), 256 * got[0] as int + got[1] as int)))
  {
    hide TakeLine, Ending, FinishIfDone, StartPayload, Ring.Inv, AllPrint, Feed;
    if |bytes| == 0 {
      assert bytes == [] && s.mode.got + bytes == s.mode.got;
      FeedNone(ctx, s);
    } else if |bytes| == 1 {
      assert bytes == [bytes[0]];
      FeedOne(ctx, s, bytes[0]);
      if |s.mode.got| == 1 { assert (s.mode.got + bytes)[..1] == s.mode.got; }
    } else {
      var s1 := s.(mode := Header([bytes[0]]));
      assert bytes == [bytes[0]] + [bytes[1]] && s.mode.got == [];
      FeedAppend(ctx, s, [bytes[0]], [bytes[1]]);
      FeedOne(ctx, s, bytes[0]);
      FeedOne(ctx, s1, bytes[1]);
      assert (s.mode.got + bytes)[..1] == [bytes[0]];
    }
  }

  /** The last of the octets ended a frame. */
  ghost predicate Ended(ctx: Context, s: Rx, taken: seq<byte>)
    requires Inv(ctx, s)
  {
    taken != [] && !Feed(ctx, s, taken[..|taken| - 1]).mode.Text? && Feed(ctx, s, taken).mode.Text?
  }

  lemma EndedLater(ctx: Context, s: Rx, taken: seq<byte>, mid: Rx, more: seq<byte>)
    requires Inv(ctx, s) && mid == Feed(ctx, s, taken)
    ensures Ended(ctx, mid, more) ==> Ended(ctx, s, taken + more)
  {
    hide Inv, Feed;
    if more != [] {
      var n := |more| - 1;
      FeedAppend(ctx, s, taken, more);
      FeedAppend(ctx, s, taken, more[..n]);
      assert (taken + more)[..|taken| + n] == taken + more[..n];
    }
  }

  /** The octets of a frame up to its last one, which is a length octet or one of the payload. */
  lemma FrameEnds(ctx: Context, s: Rx, head: seq<byte>, p: Rx, more: seq<byte>)
    requires Inv(ctx, s) && p.mode.Payload? && |more| == p.mode.remaining && |p.mode.kept| <= p.mode.size
    requires if p.mode.remaining == 0 then Ending(ctx, p) else Inv(ctx, p)
    requires Feed(ctx, s, head) == FinishIfDone(ctx, p)
    requires more == [] ==> head != [] && Feed(ctx, s, head[..|head| - 1]).mode.Header?
    ensures Ended(ctx, s, head + more)
  {
    hide Inv, Ending, Feed, Finish, Advance;
    if more == [] {
      AppendNothing(head, more);
    } else {
      AdvanceEvents(p, more);
      FeedFrame(ctx, s, head, p, more);
      var n := |more| - 1;
      FeedFrame(ctx, s, head, p, more[..n]);
      AdvanceEvents(p, more[..n]);
      ButLast(head, more);
    }
  }

  lemma AppendNothing(head: seq<byte>, more: seq<byte>)
    requires more == []
    ensures head + more == head
  {
  }

  lemma ButLast(head: seq<byte>, more: seq<byte>)
    requires more != []
    ensures (head + more)[..|head + more| - 1] == head + more[..|more| - 1]
  {
  }

  lemma FeedNone(ctx: Context, s: Rx)
    requires Inv(ctx, s)
    ensures Feed(ctx, s, []) == s
  {
  }

  /** A header or earlier payload octets followed by more payload. */
  lemma FeedFrame(ctx: Context, s: Rx, head: seq<byte>, p: Rx, more: seq<byte>)
    requires Inv(ctx, s) && p.mode.Payload? && |more| <= p.mode.remaining && |p.mode.kept| <= p.mode.size
    requires if p.mode.remaining == 0 then Ending(ctx, p) else Inv(ctx, p)
    requires Feed(ctx, s, head) == FinishIfDone(ctx, p)
    ensures var r := Advance(p, more);
      && (if r.mode.remaining == 0 then Ending(ctx, r) else Inv(ctx, r))
      && Feed(ctx, s, head + more) == FinishIfDone(ctx, r)
  {
    hide Inv, Ending, Finish, AtReceiver.Step, Feed;
    if more == [] {
      assert p.mode.kept + [] == p.mode.kept && head + more == head;
    } else {
      FeedAppend(ctx, s, head, more);
      FeedPayload(ctx, p, more);
    }
  }
}
