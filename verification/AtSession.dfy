/**
 The life of a client: opening and closing, commands, idle reception and the
 dispatch of queued URCs to a callback that may itself run commands.
 */
module AtSession {
  import opened Bytes
  import Timing
  import R = UrcRing
  import opened AtReceiver
  import opened AtClient
  import L = AtLines

  const ERROR_CMD_TIMEOUT := -0x10000
  const ERROR_ALREADY_EXISTS := -0x10002
  const ERROR_INVALID_PARAMETER := -0x10003

  /** What a URC callback does with one call: rewrite its entry in place, or run a command. */
  datatype Action = Edit(at: nat, bytes: seq<byte>) | RunCommand

  /** No callback invocation of the script runs a command. */
  predicate QuietScript(script: seq<seq<Action>>) {
    forall i :: 0 <= i < |script| ==> RunCommand !in script[i]
  }

  function Commands(actions: seq<Action>): nat {
    if actions == [] then 0 else (if actions[0] == RunCommand then 1 else 0) + Commands(actions[1..])
  }

  lemma NoCommands(actions: seq<Action>)
    requires RunCommand !in actions
    ensures Commands(actions) == 0
    decreases |actions|
  {
  }

  /** What ends the wait for the status of a command. */
  datatype Cause = ByLine | ByError(code: int) | ByTimeout

  /** The receive state that octets lead to, with the status that an error or the time-out sets instead. */
  function Caused(r: Rx, cause: Cause): Rx {
    match cause
    case ByLine => r
    case ByError(_) => r.(status := ERROR_IO)
    case ByTimeout => r.(status := ERROR_CMD_TIMEOUT)
  }

  /** The clock has been looked at n times; only the last look may have found that the time is up. */
  predicate Looked(before: seq<bool>, after: seq<bool>, n: nat) {
    && after == (if n <= |before| then before[n..] else [])
    && forall i :: 0 <= i < n - 1 ==> i < |before| && !before[i]
  }

  predicate TimeUp(before: seq<bool>, n: nat) {
    n > 0 && (n > |before| || before[n - 1])
  }

  predicate NoResponse(events: seq<Event>, from: nat) {
    forall i :: from <= i < |events| ==> events[i].GotStatus?
  }

  /** The last event since, and the only one of its kind, is a response. */
  predicate AResponse(events: seq<Event>, from: nat) {
    from < |events| && events[|events| - 1].GotResponse? && NoResponse(events[..|events| - 1], from)
  }

  lemma LaterEvents(before: seq<Event>, after: seq<Event>, from: nat)
    requires NoResponse(before, from) && from <= |before| && before <= after
    ensures NoResponse(after, |before|) ==> NoResponse(after, from)
    ensures AResponse(after, |before|) ==> AResponse(after, from)
  {
  }

  /** What the bookkeeping of a session shows at one time. */
  datatype Snap = Snap(accepted: seq<R.Entry>, dispatched: seq<R.Entry>, script: seq<seq<Action>>, ended: seq<int>,
                       contents: seq<R.Entry>, input: nat, arrays: set<array<byte>>, entry: Option<nat>, locked: bool)

  /** Only receiving has happened in between: no dispatch, no other command, nothing taken off the queue. */
  predicate OnlyReceived(a: Snap, b: Snap) {
    && a.accepted <= b.accepted && b.dispatched == a.dispatched && b.script == a.script && b.ended == a.ended
    && a.contents <= b.contents && b.input <= a.input && (b.input == a.input ==> b.contents == a.contents)
    && b.arrays <= a.arrays && b.entry == a.entry && b.locked == a.locked
  }

  /** What is to be known of a session that waits. */
  datatype Wait = Wait(snap: Snap, rx: Moment, polls: nat, answers: seq<bool>)

  /** One call of the receiver, which has led from one receive state to the other. */
  predicate Polled(ctx: Context, s: Rx, taken: seq<byte>, a: Wait, b: Wait, ret: Code, more: seq<byte>)
    requires Inv(ctx, s)
  {
    && OnlyReceived(a.snap, b.snap) && b.polls == a.polls + 1 && b.answers == a.answers && b.rx.flight.rsp == a.rx.flight.rsp
    && a.rx.input == more + b.rx.input
    && b.rx.abs == (if ret == ParserError then Feed(ctx, s, taken + more).(status := ERROR_IO) else Feed(ctx, s, taken + more))
    && a.rx.abs.events <= b.rx.abs.events && ret != ParserStartBinary
    && (if ret == ParserRsp then AResponse(b.rx.abs.events, |a.rx.abs.events|) && b.rx.held && b.rx.counted
        else NoResponse(b.rx.abs.events, |a.rx.abs.events|))
    && (ret in {ParserNop, ParserError} <==> b.rx.abs.events == a.rx.abs.events)
    && (ret == ParserError ==> b.rx.error < 0)
    && (a.rx.sound ==> b.rx.sound && b.rx.flight.overran == a.rx.flight.overran && (ret == ParserRsp ==> b.rx.landed))
    && (a.rx.flight.inFlight ==>
          && b.rx.flight.rspParams == a.rx.flight.rspParams && (ret == ParserRsp ==> b.rx.flight.reported)
          && (ret == ParserRsp || (b.rx.flight.inFlight && b.rx.flight.bin == a.rx.flight.bin))
          && (a.rx.flight.bin != b.rx.flight.rsp ==> b.rx.flight.contents == a.rx.flight.contents))
  }

  /** The wait for a status so far. */
  predicate Awaited(ctx: Context, a: Wait, b: Wait, taken: seq<byte>, cause: Cause, looks: nat)
    requires Inv(ctx, a.rx.abs)
  {
    && OnlyReceived(a.snap, b.snap) && a.rx.input == taken + b.rx.input
    && b.rx.abs == Caused(Feed(ctx, a.rx.abs, taken), cause) && (b.rx.abs.status == NO_STATUS ==> cause == ByLine)
    && (cause.ByError? ==> cause.code == b.rx.error < 0)
    && Looked(a.answers, b.answers, looks) && b.polls == a.polls + looks
    && (cause == ByTimeout <==> TimeUp(a.answers, looks))
    && (a.rx.sound ==> b.rx.sound && b.rx.flight.overran == a.rx.flight.overran)
  }

  /** The wait for a response so far. */
  predicate Expected(ctx: Context, a: Wait, b: Wait, taken: seq<byte>, got: bool, params: Option<nat>, looks: nat)
    requires Inv(ctx, a.rx.abs)
  {
    && OnlyReceived(a.snap, b.snap) && a.rx.input == taken + b.rx.input && b.rx.flight.rsp == a.rx.flight.rsp
    && b.rx.abs == (var r := Feed(ctx, a.rx.abs, taken); if b.rx.abs.status == ERROR_IO then r.(status := ERROR_IO) else r)
    && |a.rx.abs.events| <= |b.rx.abs.events|
    && (if got then AResponse(b.rx.abs.events, |a.rx.abs.events|) && params == b.rx.flight.rspParams && b.rx.counted
        else NoResponse(b.rx.abs.events, |a.rx.abs.events|) && params == None)
    && (got ==> b.rx.held) && (params.Some? ==> !a.rx.flight.inFlight)
    && Looked(a.answers, b.answers, looks) && b.polls == a.polls + looks + (if got then 1 else 0)
    && (a.rx.sound ==> b.rx.sound && b.rx.flight.overran == a.rx.flight.overran && (got ==> b.rx.landed))
    && (a.rx.flight.inFlight ==>
          && (got ==> b.rx.flight.reported) && (got || (b.rx.flight.inFlight && b.rx.flight.bin == a.rx.flight.bin)) && b.rx.flight.rspParams == a.rx.flight.rspParams
          && (a.rx.flight.bin != b.rx.flight.rsp ==> b.rx.flight.contents == a.rx.flight.contents))
  }

  lemma PolledFrom(ctx: Context, s: Rx, before: seq<byte>, a: Wait, b: Wait, ret: Code, more: seq<byte>)
    requires Inv(ctx, s) && a.rx.abs == Feed(ctx, s, before) && Inv(ctx, a.rx.abs)
    requires OnlyReceived(a.snap, b.snap) && b.polls == a.polls + 1 && b.answers == a.answers
    requires Handled(ctx, a.rx, b.rx, more, ret) && ret != ParserStartBinary
    ensures Polled(ctx, s, before, a, b, ret, more)
  {
    hide Inv, Feed, OnlyReceived, Ended;
    FeedAppend(ctx, s, before, more);
  }

  lemma PollKept(ctx: Context, s: Rx, taken: seq<byte>, a: Wait, b: Wait, ret: Code, more: seq<byte>)
    requires Inv(ctx, s) && Polled(ctx, s, taken, a, b, ret, more)
    ensures b.answers == a.answers
  {
  }

  lemma NotYet(answers: seq<bool>)
    ensures !TimeUp(answers, 0)
  {
  }

  lemma AwaitedMore(ctx: Context, a: Wait, b: Wait, c: Wait, d: Wait, taken: seq<byte>, more: seq<byte>, ret: Code, looks: nat)
    requires Inv(ctx, a.rx.abs) && Awaited(ctx, a, b, taken, ByLine, looks) && Polled(ctx, a.rx.abs, taken, b, c, ret, more)
    requires Looked(a.answers, d.answers, looks + 1)
    ensures d == c.(answers := d.answers) && !TimeUp(a.answers, looks + 1) ==>
      Awaited(ctx, a, d, taken + more, if ret == ParserError then ByError(c.rx.error) else ByLine, looks + 1)
    ensures d == c.(answers := d.answers, rx := c.rx.(abs := c.rx.abs.(status := ERROR_CMD_TIMEOUT))) && TimeUp(a.answers, looks + 1) ==>
      Awaited(ctx, a, d, taken + more, ByTimeout, looks + 1)
  {
    hide Inv, Feed, Looked, TimeUp, AResponse, NoResponse;
  }

  lemma ExpectedMore(ctx: Context, a: Wait, b: Wait, c: Wait, d: Wait, taken: seq<byte>, more: seq<byte>, ret: Code, looks: nat)
    requires Inv(ctx, a.rx.abs) && Expected(ctx, a, b, taken, false, None, looks)
    requires a.rx.flight.rspParams.None? && Polled(ctx, a.rx.abs, taken, b, c, ret, more)
    ensures ret == ParserRsp ==> Expected(ctx, a, c, taken + more, true, c.rx.flight.rspParams, looks)
    ensures ret != ParserRsp && d == c.(answers := d.answers) && Looked(a.answers, d.answers, looks + 1) ==>
      Expected(ctx, a, d, taken + more, false, None, looks + 1)
  {
    hide Inv, Feed, Looked, TimeUp, AResponse, NoResponse;
    LaterEvents(b.rx.abs.events, c.rx.abs.events, |a.rx.abs.events|);
    assert ret == ParserRsp && a.rx.flight.inFlight ==> c.rx.flight.rspParams == None;
  }

  /** What the lines among the octets taken say of the status that they leave. */
  lemma LinesDecide(ctx: Context, s: Rx, taken: seq<byte>)
    requires Inv(ctx, s) && ctx.executing
    ensures var status := Feed(ctx, s, taken).status;
      && (status != s.status ==> exists k: nat :: L.SaidAt(ctx, s, taken, k, status))
      && forall line :: L.LastLine(ctx, s, taken, line) && !L.IsAwaited(ctx, line) && L.Said(line).Some? ==>
           status == L.Said(line).value
  {
    hide Inv, Feed, L.SaidAt, L.LastLine, L.IsAwaited, L.Said;
    L.StatusWasSaid(ctx, s, taken);
    forall line | L.LastLine(ctx, s, taken, line) && !L.IsAwaited(ctx, line) && L.Said(line).Some?
      ensures Feed(ctx, s, taken).status == L.Said(line).value
    {
      L.LastLineDecides(ctx, s, taken, line);
    }
  }

  /** What they say of the response text. */
  lemma LinesAnswer(ctx: Context, s: Rx, taken: seq<byte>)
    requires Inv(ctx, s)
    ensures var r := Feed(ctx, s, taken);
      && (r.params != s.params ==> exists k: nat :: L.AnswerAt(ctx, s, taken, k, r.params))
      && forall line :: L.LastLine(ctx, s, taken, line) && L.Answer(ctx, line).Some? ==>
           r.params == L.Answer(ctx, line) && !NoResponse(r.events, |s.events|)
  {
    hide Inv, Feed, L.AnswerAt, L.LastLine, L.Answer;
    L.AnswerWasSent(ctx, s, taken);
    forall line | L.LastLine(ctx, s, taken, line) && L.Answer(ctx, line).Some?
      ensures Feed(ctx, s, taken).params == L.Answer(ctx, line) && !NoResponse(Feed(ctx, s, taken).events, |s.events|)
    {
      L.LastLineAnswers(ctx, s, taken, line);
    }
  }

  /** The queued URCs that are not out. */
  function Waiting(contents: seq<R.Entry>, out: bool): seq<R.Entry> {
    if out && contents != [] then contents[1..] else contents
  }

  lemma WaitingGrows(before: seq<R.Entry>, after: seq<R.Entry>, out: bool)
    requires before <= after && (out ==> before != [])
    ensures Waiting(after, out) == Waiting(before, out) + after[|before|..]
  {
  }

  class Session {
    const rx: Client
    const clock: Timing.Clock
    var isOpen: bool
    var cmdLocked: bool
    var script: seq<seq<Action>>       // what the next callback invocations will do
    ghost var accepted: seq<R.Entry>     // every URC that the queue has taken
    ghost var dispatched: seq<R.Entry>   // every URC handed to the callback
    ghost var ended: seq<int>          // the own status of every command that has ended
    ghost var polls: nat               // how often received data was asked for

    /** The queued URCs that no callback has been called for. */
    ghost function Pending(): seq<R.Entry>
      reads rx, rx.queue
    {
      Waiting(rx.queue.Contents(), rx.queue.dequeueLocked)
    }

    ghost predicate Valid()
      reads this, rx, rx.rxBuffer, rx.binBuffer, rx.queue, rx.queue.buffer
    {
      && rx.Valid()
      && (rx.executingCmd ==> cmdLocked)
      && accepted == dispatched + Pending()
    }

    constructor (rx: Client, clock: Timing.Clock, script: seq<seq<Action>>)
      requires rx.Valid() && !rx.executingCmd && rx.queue.Contents() == []
      ensures Valid() && this.rx == rx && this.clock == clock && !isOpen && dispatched == []
    {
      this.rx, this.clock, this.script := rx, clock, script;
      isOpen, cmdLocked := false, false;
      accepted, dispatched, ended, polls := [], [], [], 0;
    }

    ghost function Arrays(): set<array<byte>>
      reads rx
    {
      {rx.rxBuffer, rx.binBuffer, rx.rspBuffer, rx.queue.buffer}
    }

    /** One call of handleRxData, with the URCs it queues recorded as accepted. */
    method Receive() returns (ret: Code, ghost taken: seq<byte>)
      requires Valid()
      modifies this`accepted, this`polls, rx, rx.uart, rx.queue, Arrays()
      ensures Valid() && Arrays() <= old(Arrays()) && polls == old(polls) + 1 && rx.Ctx() == old(rx.Ctx())
      ensures OnlyReceived(old(Now()), Now()) && accepted == old(accepted) + rx.queue.Contents()[|old(rx.queue.Contents())|..]
      ensures Inv(rx.Ctx(), old(rx.Abs())) && Handled(rx.Ctx(), old(rx.Here()), rx.Here(), taken, ret)
      ensures ret != ParserStartBinary
    {
      hide Client.Valid, Client.Abs, R.Ring.Contents, Inv, Handled, Client.Here, Waiting;
      ghost var contents := rx.queue.Contents();
      ret, taken := ReceiveInto();
      WaitingGrows(contents, rx.queue.Contents(), rx.queue.dequeueLocked);
      accepted := accepted + rx.queue.Contents()[|contents|..];
      polls := polls + 1;
    }

    /** The same before anything is recorded. */
    method ReceiveInto() returns (ret: Code, ghost taken: seq<byte>)
      requires rx.Valid()
      modifies rx, rx.uart, rx.queue, Arrays()
      ensures rx.Valid() && Arrays() <= old(Arrays()) && rx.Ctx() == old(rx.Ctx()) && ret != ParserStartBinary
      ensures old(rx.queue.Contents()) <= rx.queue.Contents()
      ensures rx.queue.dequeueEntry == old(rx.queue.dequeueEntry) && rx.queue.dequeueLocked == old(rx.queue.dequeueLocked)
      ensures rx.queue.dequeueLocked ==> old(rx.queue.Contents()) != []
      ensures old(rx.uart.input) == taken + rx.uart.input
      ensures taken == [] ==> rx.queue.Contents() == old(rx.queue.Contents())
      ensures Inv(rx.Ctx(), old(rx.Abs())) && Handled(rx.Ctx(), old(rx.Here()), rx.Here(), taken, ret)
    {
      hide Client.Valid, Client.Abs, R.Ring.Contents, Inv, Handled, Client.Here;
      ghost var a := rx.Here();
      RxFacts(rx);
      rx.HereFacts();
      ret, taken := rx.HandleRxData();
      ReceivedGrows(rx, rx.Ctx(), a, taken, ret);
    }

    ghost function Now(): Snap
      reads this, rx, rx.uart, rx.queue
    {
      Snap(accepted, dispatched, script, ended, rx.queue.Contents(), |rx.uart.input|, Arrays(),
           rx.queue.dequeueEntry, rx.queue.dequeueLocked)
    }

    /** Nothing was dispatched or taken off the queue; without new octets nothing was added either. */
    twostate predicate Quietly()
      reads this, rx, rx.uart, rx.queue
    {
      && dispatched == old(dispatched)
      && script == old(script)
      && old(rx.queue.Contents()) <= rx.queue.Contents()
      && (|rx.uart.input| == |old(rx.uart.input)| ==> rx.queue.Contents() == old(rx.queue.Contents()))
    }

    /** What no step of a session undoes: the logs only grow and the entry that is out stays out. */
    twostate predicate Onward()
      reads this, rx, rx.uart, rx.queue
    {
      && old(accepted) <= accepted
      && old(dispatched) <= dispatched
      && old(polls) <= polls
      && Arrays() <= old(Arrays())
      && rx.queue.dequeueEntry == old(rx.queue.dequeueEntry)
      && rx.queue.dequeueLocked == old(rx.queue.dequeueLocked)
      && |rx.uart.input| <= |old(rx.uart.input)|
    }

    /** Moreover no command has ended. */
    twostate predicate Undisturbed()
      reads this, rx, rx.uart, rx.queue
    {
      Quietly() && ended == old(ended)
    }

    ghost function Here(): Wait
      reads this, rx, rx.uart, rx.queue, rx.rxBuffer, rx.binBuffer, rx.queue.buffer, rx.rspBuffer, clock
    {
      Wait(Now(), rx.Here(), polls, clock.answers)
    }

    lemma HereFacts()
      ensures var h := Here();
        && h.snap == Now() && h.polls == polls && h.answers == clock.answers && h.rx == rx.Here()
        && h.rx.abs == rx.Abs() && h.rx.input == rx.uart.input && h.rx.error == rx.lastIoError
        && h.rx.sound == rx.Sound() && h.rx.landed == rx.Landed() && h.rx.held == rx.ParamsHeld() && h.rx.counted == rx.Counted()
        && h.rx.flight == rx.FlightNow() && h.rx.flight.overran == rx.overran && h.rx.flight.inFlight == rx.InFlight()
        && h.rx.flight.bin == rx.binBuffer && h.rx.flight.rsp == rx.rspBuffer && h.rx.flight.contents == rx.rspBuffer[..]
        && h.rx.flight.rspParams == rx.rspParams && h.rx.flight.reported == rx.FrameReported()
      ensures rx.Abs().events == rx.events && rx.Abs().status == rx.status
    {
      hide Client.Sound, Client.ParamsHeld, Client.Counted, Client.Landed, Client.FrameReported, Client.InFlight;
      rx.HereFacts();
    }

    /** Receives once more after octets that left no error. */
    method Poll(ghost s: Rx, ghost before: seq<byte>) returns (ret: Code, ghost more: seq<byte>)
      requires Valid() && Inv(rx.Ctx(), s) && rx.Abs() == Feed(rx.Ctx(), s, before)
      modifies this`accepted, this`polls, rx, rx.uart, rx.queue, Arrays()
      ensures Valid() && rx.Ctx() == old(rx.Ctx()) && Arrays() <= old(Arrays())
      ensures Polled(rx.Ctx(), s, before, old(Here()), Here(), ret, more)
      ensures accepted == old(accepted) + rx.queue.Contents()[|old(rx.queue.Contents())|..]
    {
      hide Client.Valid, Client.Abs, R.Ring.Contents, Inv, Feed, Client.Here, Handled, Polled, OnlyReceived;
      ghost var a := Here();
      RxFacts(rx);
      HereFacts();
      ret, more := Receive();
      PolledFrom(rx.Ctx(), s, before, a, Here(), ret, more);
    }

    method LookAtClock(ghost before: seq<bool>, ghost n: nat) returns (expired: bool)
      requires Looked(before, clock.answers, n) && !TimeUp(before, n)
      modifies clock
      ensures Looked(before, clock.answers, n + 1) && (expired <==> TimeUp(before, n + 1))
      ensures |clock.answers| <= |old(clock.answers)| && (!expired ==> |clock.answers| < |old(clock.answers)|)
    {
      expired := clock.Expired();
    }

    /** Locks the command mutex and begins a command. */
    method CmdBegin()
      requires Valid() && !cmdLocked
      modifies this`cmdLocked, rx
      ensures Valid() && cmdLocked && rx.status == NO_STATUS && rx.Ctx() == old(rx.Ctx()).(executing := true)
      ensures Onward() && Undisturbed() && rx.rspBuffer == old(rx.rspBuffer)
    {
      hide Client.Valid, Client.Abs, R.Ring.Contents;
      cmdLocked := true;
      rx.BeginCommand();
    }

    /**
     The receive loop of cmdEnd.  The status it ends with is the one that the octets taken off the UART
     leave, or that of a failed read, or, whatever was received, that of the time-out if the time was
     up at the last look at the clock, which is looked at once for every call of the receiver.
     */
    method AwaitStatus() returns (ghost taken: seq<byte>, ghost cause: Cause, ghost looks: nat)
      requires Valid() && rx.executingCmd
      modifies this`accepted, this`polls, rx, rx.uart, rx.queue, Arrays(), clock
      ensures Valid() && rx.executingCmd && rx.Abs().status != NO_STATUS && Arrays() <= old(Arrays())
      ensures Inv(old(rx.Ctx()), old(rx.Abs())) && Awaited(old(rx.Ctx()), old(Here()), Here(), taken, cause, looks)
    {
      hide Client.Valid, Awaited, Here, Inv, Client.Abs, R.Ring.Contents;
      taken, cause, looks := [], ByLine, 0;
      ghost var ctx, a := rx.Ctx(), Here();
      NothingAwaited(ctx);
      while rx.status == NO_STATUS
        invariant Valid() && rx.Ctx() == ctx && Arrays() <= old(Arrays())
        invariant Awaited(ctx, a, Here(), taken, cause, looks) && (rx.status == NO_STATUS ==> cause == ByLine)
        decreases |clock.answers|, rx.status == NO_STATUS
      {
        taken, cause, looks := PollStatus(a, taken, looks);
      }
      EventsIs(rx);
    }

    lemma NothingAwaited(ctx: Context)
      requires Valid() && ctx == rx.Ctx()
      ensures Here().rx.abs == rx.Abs() && Inv(ctx, rx.Abs()) && Awaited(ctx, Here(), Here(), [], ByLine, 0)
      ensures Here().rx.flight.rspParams == rx.rspParams
      ensures rx.rspParams.None? ==> Expected(ctx, Here(), Here(), [], false, None, 0)
    {
      hide Client.Abs, Feed, Inv, Client.Valid, Client.Sound, Client.Landed, Client.ParamsHeld, Client.Counted;
      RxFacts(rx);
      EventsIs(rx);
      FeedNone(ctx, rx.Abs());
    }

    /** One round of the receive loop. */
    method PollStatus(ghost a: Wait, ghost taken0: seq<byte>, ghost looks0: nat)
      returns (ghost taken: seq<byte>, ghost cause: Cause, ghost looks: nat)
      requires Valid() && Inv(rx.Ctx(), a.rx.abs) && rx.status == NO_STATUS
      requires Awaited(rx.Ctx(), a, Here(), taken0, ByLine, looks0)
      modifies this`accepted, this`polls, rx, rx.uart, rx.queue, Arrays(), clock
      ensures Valid() && rx.Ctx() == old(rx.Ctx()) && Arrays() <= old(Arrays())
      ensures Awaited(rx.Ctx(), a, Here(), taken, cause, looks)
      ensures |clock.answers| <= |old(clock.answers)|
      ensures rx.status == NO_STATUS ==> cause == ByLine && |clock.answers| < |old(clock.answers)|
    {
      hide Client.Valid, Inv, Client.Abs, R.Ring.Contents, Looked, TimeUp, Polled, OnlyReceived, Feed, Awaited, Here;
      ghost var b, more := Here(), [];
      var ret;
      AwaitedFacts(rx.Ctx(), a, taken0, ByLine, looks0);
      ret, more := Poll(a.rx.abs, taken0);
      ghost var c := Here();
      HereFacts();
      PollKept(rx.Ctx(), a.rx.abs, taken0, b, c, ret, more);
      var expired := EndRound(a.answers, looks0);
      taken, looks := taken0 + more, looks0 + 1;
      cause := if expired then ByTimeout else if ret == ParserError then ByError(c.rx.error) else ByLine;
      AwaitedMore(rx.Ctx(), a, b, c, Here(), taken0, more, ret, looks0);
      AwaitedFacts(rx.Ctx(), a, taken, cause, looks);
    }

    /** Looks at the clock, whose verdict overrides any status. */
    method EndRound(ghost before: seq<bool>, ghost looks: nat) returns (expired: bool)
      requires Valid() && Looked(before, clock.answers, looks) && !TimeUp(before, looks)
      modifies clock, rx`status
      ensures Valid() && rx.Ctx() == old(rx.Ctx()) && Looked(before, clock.answers, looks + 1)
      ensures expired <==> TimeUp(before, looks + 1)
      ensures |clock.answers| <= |old(clock.answers)| && (!expired ==> |clock.answers| < |old(clock.answers)|)
      ensures var c := old(Here());
        Here() == (if expired then c.(answers := clock.answers, rx := c.rx.(abs := c.rx.abs.(status := ERROR_CMD_TIMEOUT)))
                   else c.(answers := clock.answers))
    {
      hide Client.Valid, Inv, Client.Abs, R.Ring.Contents, Looked, TimeUp, Here;
      expired := JustLook(before, looks);
      if expired {
        TimeOut();
      }
    }

    method TimeOut()
      requires Valid()
      modifies rx`status
      ensures Valid() && rx.Ctx() == old(rx.Ctx())
      ensures var c := old(Here()); Here() == c.(rx := c.rx.(abs := c.rx.abs.(status := ERROR_CMD_TIMEOUT)))
    {
      hide Client.Valid, Inv, Client.Abs, R.Ring.Contents,
           Client.Sound, Client.ParamsHeld, Client.Counted, Client.Landed, Client.FrameReported, Client.InFlight;
      rx.SetStatus(ERROR_CMD_TIMEOUT);
    }

    method JustLook(ghost before: seq<bool>, ghost looks: nat) returns (expired: bool)
      requires Valid() && Looked(before, clock.answers, looks) && !TimeUp(before, looks)
      modifies clock
      ensures Valid() && Looked(before, clock.answers, looks + 1) && (expired <==> TimeUp(before, looks + 1))
      ensures |clock.answers| <= |old(clock.answers)| && (!expired ==> |clock.answers| < |old(clock.answers)|)
      ensures Here() == old(Here()).(answers := clock.answers)
    {
      hide Client.Valid, Inv, Client.Abs, R.Ring.Contents, Looked, TimeUp,
           Client.Sound, Client.ParamsHeld, Client.Counted, Client.Landed, Client.FrameReported, Client.InFlight;
      expired := LookAtClock(before, looks);
    }

    lemma PolledFacts(ctx: Context, s: Rx, a: Wait, ret: Code, taken: seq<byte>)
      requires Inv(ctx, s) && Polled(ctx, s, [], a, Here(), ret, taken)
      ensures OnlyReceived(a.snap, Now()) && a.rx.input == taken + rx.uart.input && a.rx.abs.events <= rx.events
      ensures rx.Abs() == if ret == ParserError then Feed(ctx, s, taken).(status := ERROR_IO) else Feed(ctx, s, taken)
      ensures polls == a.polls + 1
      ensures ret in {ParserNop, ParserError} <==> rx.events == a.rx.abs.events
      ensures ret == ParserError ==> rx.lastIoError < 0
    {
      hide Inv, Feed, OnlyReceived, AResponse, NoResponse;
      HereFacts();
      assert [] + taken == taken;
    }

    lemma AwaitedFacts(ctx: Context, a: Wait, taken: seq<byte>, cause: Cause, looks: nat)
      requires Inv(ctx, a.rx.abs) && Awaited(ctx, a, Here(), taken, cause, looks)
      ensures OnlyReceived(a.snap, Now()) && a.rx.input == taken + rx.uart.input
      ensures rx.Abs() == Caused(Feed(ctx, a.rx.abs, taken), cause) && rx.Abs().status == rx.status
      ensures rx.status == NO_STATUS ==> cause == ByLine
      ensures (cause.ByError? ==> cause.code < 0) && polls == a.polls + looks
      ensures Looked(a.answers, clock.answers, looks) && (cause == ByTimeout <==> TimeUp(a.answers, looks))
      ensures a.rx.sound ==> rx.Sound() && rx.overran == a.rx.flight.overran
    {
      hide Inv, Feed, Looked, TimeUp, OnlyReceived;
      HereFacts();
    }

    /**
     cmdEnd: waits for the status, ends the command, lets queued URCs be handled and only then
     reads the status that it returns: that of the last command a callback has run meanwhile, and
     the command's own if none has, as when the call is nested in a callback.
     */
    method CmdEnd()
      returns (r: int, ghost own: int, ghost ran: seq<int>, ghost taken: seq<byte>, ghost cause: Cause, ghost looks: nat)
      requires Valid() && rx.executingCmd
      modifies this, rx, rx.uart, rx.queue, Arrays(), clock
      ensures Valid() && !cmdLocked && Logged()
      ensures Inv(old(rx.Ctx()), old(rx.Abs())) && taken <= old(rx.uart.input)
      ensures own == Caused(Feed(old(rx.Ctx()), old(rx.Abs()), taken), cause).status != NO_STATUS
      // Unless an error or the time-out decides, the status is one that a line says, and that of the last line.
      ensures cause == ByLine && old(rx.status) != own ==>
        exists k: nat :: L.SaidAt(old(rx.Ctx()), old(rx.Abs()), taken, k, own)
      ensures cause == ByLine ==> forall line ::
        L.LastLine(old(rx.Ctx()), old(rx.Abs()), taken, line) && !L.IsAwaited(old(rx.Ctx()), line) && L.Said(line).Some? ==>
          own == L.Said(line).value
      ensures cause.ByError? ==> cause.code < 0
      ensures cause == ByTimeout <==> TimeUp(old(clock.answers), looks)
      ensures ended == old(ended) + [own] + ran
      ensures r == rx.status == if ran == [] then own else ran[|ran| - 1]
      ensures old(rx.queue.dequeueLocked) || QuietScript(old(script)) ==> ran == []
      ensures isOpen == old(isOpen)
      decreases if rx.queue.dequeueLocked then 0 else 1, 2, 0
    {
      hide Client.Valid, R.Ring.Contents, Client.Abs, Feed, Inv, Here, Awaited, Looked, TimeUp,
           L.SaidAt, L.LastLine, L.IsAwaited, L.Said;
      ghost var ctx, a := rx.Ctx(), Here();
      HereFacts();
      taken, cause, looks := AwaitStatus();
      AwaitedFacts(ctx, a, taken, cause, looks);
      own := rx.status;
      LinesDecide(ctx, a.rx.abs, taken);
      rx.EndCommand();
      cmdLocked := false;
      ended := ended + [own];
      ran := ProcessUrcs();
      r := rx.status;
    }

    /** The effect of a call that may dispatch URCs, by whether a callback was already running. */
    twostate predicate Logged()
      reads this, rx, rx.uart, rx.queue
    {
      && Onward()
      && (old(rx.queue.dequeueLocked) ==> Quietly())
      && (!old(rx.queue.dequeueLocked) ==> rx.queue.Contents() == [] || rx.queue.enqueueEntry.Some?)
    }

    /** The commands that have run since, by their own statuses, and the status they leave. */
    twostate predicate Ran(ran: seq<int>)
      reads this, rx
    {
      && ended == old(ended) + ran
      && rx.status == if ran == [] then old(rx.status) else ran[|ran| - 1]
    }

    /**
     processUrcs: hands out one entry after the other.  Called from a callback it dispatches
     nothing; otherwise it returns only when nothing is queued or an entry is being received.
     */
    method ProcessUrcs() returns (ghost ran: seq<int>)
      requires Valid() && !cmdLocked
      modifies this, rx, rx.uart, rx.queue, Arrays(), clock
      ensures Valid() && !cmdLocked && Logged() && Ran(ran)
      ensures old(rx.queue.dequeueLocked) || QuietScript(old(script)) ==> ran == []
      ensures isOpen == old(isOpen)
      decreases if rx.queue.dequeueLocked then 0 else 1, 1, 0
    {
      hide Client.Valid, R.Ring.Contents;
      RxFacts(rx);
      ran := [];
      var more := true;
      while more
        invariant Valid() && !cmdLocked && Onward() && Ran(ran)
        invariant old(rx.queue.dequeueLocked) ==> Quietly()
        invariant old(rx.queue.dequeueLocked) || QuietScript(old(script)) ==> ran == []
        invariant QuietScript(old(script)) ==> QuietScript(script)
        invariant isOpen == old(isOpen)
        invariant !more && !rx.queue.dequeueLocked ==> rx.queue.Contents() == [] || rx.queue.enqueueEntry.Some?
        decreases |rx.uart.input|, |rx.queue.Contents()|, more
      {
        ghost var now;
        more, now := Dispatch();
        ran := ran + now;
      }
    }

    /** One round of processUrcs: takes the oldest URC, calls the callback, drops the URC. */
    method Dispatch() returns (more: bool, ghost ran: seq<int>)
      requires Valid() && !cmdLocked
      modifies this, rx, rx.uart, rx.queue, Arrays(), clock
      ensures Valid() && !cmdLocked && Onward() && isOpen == old(isOpen) && Ran(ran)
      ensures more <==> !old(rx.queue.dequeueLocked) && old(rx.queue.enqueueEntry).None? && old(rx.queue.Contents()) != []
      ensures !more ==> Quietly() && ran == [] && rx.queue.Contents() == old(rx.queue.Contents())
                        && rx.queue.enqueueEntry == old(rx.queue.enqueueEntry)
      ensures more ==> dispatched == old(dispatched) + [old(rx.queue.Contents())[0]]
      ensures |rx.uart.input| == |old(rx.uart.input)| && more ==> rx.queue.Contents() == old(rx.queue.Contents())[1..]
      ensures QuietScript(old(script)) ==> QuietScript(script) && ran == []
      decreases if rx.queue.dequeueLocked then 0 else 1, 0, 0
    {
      hide Client.Valid, R.Ring.Contents;
      RxFacts(rx);
      ran := [];
      var entry := TakeUrc();
      more := entry.Some?;
      if more {
        var actions := if script == [] then [] else script[0];
        script := if script == [] then [] else script[1..];
        ran := Callback(actions);
        DropUrc(entry.value);
      }
    }

    /** Takes the next URC off the queue for its callback and logs it. */
    method TakeUrc() returns (entry: Option<nat>)
      requires Valid()
      modifies this`dispatched, rx.queue
      ensures Valid()
      ensures rx.queue.Contents() == old(rx.queue.Contents())
      ensures rx.queue.enqueueEntry == old(rx.queue.enqueueEntry)
      ensures entry.Some? <==> !old(rx.queue.dequeueLocked) && rx.queue.enqueueEntry.None? && rx.queue.Contents() != []
      ensures entry.Some? ==> rx.queue.dequeueEntry == entry && rx.queue.dequeueLocked
                              && dispatched == old(dispatched) + [rx.queue.Contents()[0]]
      ensures entry.None? ==> dispatched == old(dispatched)
                              && rx.queue.dequeueEntry == old(rx.queue.dequeueEntry)
                              && rx.queue.dequeueLocked == old(rx.queue.dequeueLocked)
    {
      hide Client.Valid, R.Ring.Contents, Q.Stored;
      entry := rx.UrcBegin();
      if entry.Some? {
        dispatched := dispatched + [rx.queue.Contents()[0]];
      }
    }

    /** The callback has returned: its URC leaves the queue. */
    method DropUrc(entry: nat)
      requires Valid() && rx.queue.dequeueEntry == Some(entry) && rx.queue.dequeueLocked
      requires rx.queue.Contents() != []
      modifies rx.queue
      ensures Valid()
      ensures rx.queue.Contents() == old(rx.queue.Contents())[1..]
      ensures rx.queue.dequeueEntry.None? && !rx.queue.dequeueLocked
    {
      hide Client.Valid, R.Ring.Contents;
      rx.UrcEnd(entry);
    }

    /** The callback writes into the line or the payload it was handed. */
    method EditHandedOut(at: nat, bytes: seq<byte>)
      requires Valid() && !cmdLocked && rx.queue.dequeueLocked
      modifies rx.queue.buffer
      ensures Valid() && Onward() && Undisturbed()
    {
      hide Client.Valid, Client.Abs, R.Ring.Contents;
      RxFacts(rx);
      rx.UrcEdit(at, bytes);
    }

    /** The user's callback: edits the entry it was given and runs commands of its own. */
    method Callback(actions: seq<Action>) returns (ghost ran: seq<int>)
      requires Valid() && !cmdLocked && rx.queue.dequeueLocked
      modifies this, rx, rx.uart, rx.queue, Arrays(), clock
      ensures Valid() && !cmdLocked && Onward() && Quietly() && isOpen == old(isOpen) && Ran(ran)
      ensures |ran| == Commands(actions) && (RunCommand !in actions ==> ran == [])
      decreases 0, 3, |actions|
    {
      hide Client.Valid, R.Ring.Contents;
      ran := [];
      if RunCommand !in actions { NoCommands(actions); }
      if actions != [] {
        ghost var rest;
        ran := Act(actions[0]);
        rest := Callback(actions[1..]);
        ran := ran + rest;
      }
    }

    method Act(action: Action) returns (ghost ran: seq<int>)
      requires Valid() && !cmdLocked && rx.queue.dequeueLocked
      modifies this, rx, rx.uart, rx.queue, Arrays(), clock
      ensures Valid() && !cmdLocked && Onward() && Quietly() && isOpen == old(isOpen) && Ran(ran)
      ensures |ran| == Commands([action])
      decreases 0, 3, 0
    {
      hide Client.Valid, R.Ring.Contents;
      match action
      case Edit(at, bytes) =>
        EditHandedOut(at, bytes);
        ran := [];
      case RunCommand =>
        CmdBegin();
        var _, own, more, taken, cause, looks := CmdEnd();
        ran := [own];
    }

    /** The data of the last response was in the buffer already. */
    ghost predicate AlreadyIn(buf: seq<byte>)
      reads rx
    {
      rx.FrameReported() && rx.events[|rx.events| - 1].data.value <= buf
    }

    /**
     Waits for a response.  The text handed out lies in the receive buffer, ended by a zero; nothing
     is handed out when the command ends first or the time is up.  A reported count and the data it
     counts are in the caller's word and buffer exactly if no response frame of an earlier wait was
     arriving into another buffer, whose end is reported here without a text.
     */
    method CmdGetRspParamLine(expected: Option<seq<byte>>, buf: array<byte>, bufLength: Option<nat>)
      returns (params: Option<nat>, ghost got: bool, ghost taken: seq<byte>, ghost looks: nat)
      requires Valid() && rx.executingCmd
      requires buf != rx.rxBuffer && buf != rx.queue.buffer
      requires bufLength.Some? ==> bufLength.value <= buf.Length && bufLength.value <= U16_MAX
      modifies this`accepted, this`polls, rx, rx.uart, rx.queue, Arrays(), clock, buf
      ensures Valid() && rx.Ctx() == Context(true, expected, rx.rxBuffer.Length) && rx.rspBuffer == buf
      ensures old(accepted) <= accepted && Undisturbed() && old(rx.uart.input) == taken + rx.uart.input
      // What is handed out is the first response that the octets taken report; without one, the
      // command has ended or the time was up at the last look at the clock.
      ensures if got then AResponse(rx.events, |old(rx.events)|) else NoResponse(rx.events, |old(rx.events)|)
      ensures got ==> params == rx.rspParams && rx.Counted()
      ensures !got ==> params.None? && (rx.status != NO_STATUS || TimeUp(old(clock.answers), looks))
      ensures Looked(old(clock.answers), clock.answers, looks) && polls == old(polls) + looks + if got then 1 else 0
      ensures params.Some? ==> rx.ParamsHeld() && rx.Landed() && !old(rx.InFlight())
      ensures got && old(rx.FlightFits()) ==>
        (rx.Landed() <==> !old(rx.InFlight()) || old(rx.binBuffer) == buf || AlreadyIn(old(buf[..])))
      ensures old(rx.InFlight()) && old(rx.binBuffer) != buf ==> buf[..] == old(buf[..])
      ensures old(rx.FlightFits()) && (old(rx.InFlight()) ==> old(rx.binBuffer) == buf) ==> rx.overran == old(rx.overran)
      ensures Inv(rx.Ctx(), old(rx.Abs()).(params := None, rspLength := bufLength))
      ensures var r := Feed(rx.Ctx(), old(rx.Abs()).(params := None, rspLength := bufLength), taken);
        rx.Abs() == if rx.status == ERROR_IO then r.(status := ERROR_IO) else r
      // The text handed out is what a line behind the expected prefix holds, or a line that is no other answer;
      // and when the octets taken end with such a line, it is the text of that one.
      ensures params.Some? ==> exists k: nat ::
        L.AnswerAt(rx.Ctx(), old(rx.Abs()).(params := None, rspLength := bufLength), taken, k, rx.params)
      ensures var s, ctx := old(rx.Abs()).(params := None, rspLength := bufLength), Context(true, expected, rx.rxBuffer.Length);
        forall line :: L.LastLine(ctx, s, taken, line) && L.Answer(ctx, line).Some? ==>
          got && params.Some? && rx.params == L.Answer(ctx, line)
    {
      hide Client.Valid, Client.Abs, R.Ring.Contents, Client.ParamsHeld, Feed, Inv, Here, Expected, Looked, TimeUp,
           AResponse, NoResponse, Client.Sound, L.AnswerAt, L.LastLine, L.Answer;
      rx.ExpectResponse(expected, buf, bufLength);
      ghost var ctx, a := rx.Ctx(), Here();
      HereFacts();
      params, got, taken, looks := WaitForResponse();
      ExpectedFacts(ctx, a, taken, got, params, looks);
      LinesAnswer(ctx, a.rx.abs, taken);
      ParamsFacts(got);
    }

    /** The pointer handed out is null exactly if there is no text. */
    lemma ParamsFacts(got: bool)
      requires got ==> rx.ParamsHeld()
      ensures got ==> (rx.rspParams.Some? <==> rx.params.Some?)
      ensures rx.Abs().params == rx.params && rx.Abs().events == rx.events
    {
    }

    /** The loop of the wait. */
    method WaitForResponse() returns (params: Option<nat>, ghost got: bool, ghost taken: seq<byte>, ghost looks: nat)
      requires Valid() && rx.executingCmd && rx.rspParams.None?
      modifies this`accepted, this`polls, rx, rx.uart, rx.queue, Arrays(), clock
      ensures Valid() && rx.Ctx() == old(rx.Ctx()) && Arrays() <= old(Arrays())
      ensures Inv(rx.Ctx(), old(rx.Abs())) && Expected(rx.Ctx(), old(Here()), Here(), taken, got, params, looks)
      ensures !got ==> rx.status != NO_STATUS || TimeUp(old(clock.answers), looks)
    {
      hide Client.Valid, Expected, Here, Inv, Client.Abs, R.Ring.Contents, TimeUp;
      params, got, taken, looks := None, false, [], 0;
      ghost var ctx, a := rx.Ctx(), Here();
      NothingAwaited(ctx);
      NotYet(a.answers);
      HereFacts();
      var waiting := true;
      while rx.status == NO_STATUS && waiting
        invariant Valid() && rx.Ctx() == ctx && Arrays() <= old(Arrays())
        invariant Expected(ctx, a, Here(), taken, got, params, looks)
        invariant !got ==> params == None
        invariant waiting ==> !got && (rx.status == NO_STATUS ==> !TimeUp(a.answers, looks))
        invariant !waiting && !got ==> TimeUp(a.answers, looks)
        decreases |clock.answers|, waiting
      {
        waiting, params, got, taken, looks := PollResponse(a, taken, looks);
      }
    }

    lemma ExpectedFacts(ctx: Context, a: Wait, taken: seq<byte>, got: bool, params: Option<nat>, looks: nat)
      requires Inv(ctx, a.rx.abs) && Expected(ctx, a, Here(), taken, got, params, looks)
      ensures OnlyReceived(a.snap, Now()) && a.rx.input == taken + rx.uart.input && rx.rspBuffer == a.rx.flight.rsp
      ensures var r := Feed(ctx, a.rx.abs, taken); rx.Abs() == if rx.status == ERROR_IO then r.(status := ERROR_IO) else r
      ensures if got then AResponse(rx.events, |a.rx.abs.events|) && params == rx.rspParams && rx.Counted()
              else NoResponse(rx.events, |a.rx.abs.events|) && params == None
      ensures (got ==> rx.ParamsHeld()) && (params.Some? ==> !a.rx.flight.inFlight)
      ensures Looked(a.answers, clock.answers, looks) && polls == a.polls + looks + (if got then 1 else 0)
      ensures a.rx.sound ==> rx.Sound() && rx.overran == a.rx.flight.overran && (got ==> rx.Landed())
      ensures a.rx.flight.inFlight ==>
        && (got ==> rx.FrameReported()) && rx.rspParams == a.rx.flight.rspParams
        && (a.rx.flight.bin != rx.rspBuffer ==> rx.rspBuffer[..] == a.rx.flight.contents)
    {
      hide Inv, Feed, Looked, OnlyReceived, AResponse, NoResponse, Client.Sound, Client.Landed, Client.ParamsHeld, Client.Counted;
      HereFacts();
    }

    /** One round of the wait. */
    method PollResponse(ghost a: Wait, ghost taken0: seq<byte>, ghost looks0: nat)
      returns (waiting: bool, params: Option<nat>, ghost got: bool, ghost taken: seq<byte>, ghost looks: nat)
      requires Valid() && Inv(rx.Ctx(), a.rx.abs) && rx.status == NO_STATUS && a.rx.flight.rspParams.None?
      requires Expected(rx.Ctx(), a, Here(), taken0, false, None, looks0) && !TimeUp(a.answers, looks0)
      modifies this`accepted, this`polls, rx, rx.uart, rx.queue, Arrays(), clock
      ensures Valid() && rx.Ctx() == old(rx.Ctx()) && Arrays() <= old(Arrays())
      ensures Expected(rx.Ctx(), a, Here(), taken, got, params, looks)
      ensures (waiting <==> !got && !TimeUp(a.answers, looks)) && (!got ==> params == None)
      ensures |clock.answers| <= |old(clock.answers)| && (waiting ==> |clock.answers| < |old(clock.answers)|)
    {
      hide Client.Valid, Inv, Client.Abs, R.Ring.Contents, Looked, TimeUp, Polled, OnlyReceived, Feed, AResponse, NoResponse,
           Here, Expected;
      ghost var b, more := Here(), [];
      var ret;
      ExpectedFacts(rx.Ctx(), a, taken0, false, None, looks0);
      EventsIs(rx);
      ret, more := Poll(a.rx.abs, taken0);
      ghost var c := Here();
      HereFacts();
      PollKept(rx.Ctx(), a.rx.abs, taken0, b, c, ret, more);
      taken, looks, params, got, waiting := taken0 + more, looks0, None, false, true;
      if ret == ParserRsp {
        params, got := rx.rspParams, true;
        waiting := false;
      } else {
        var expired := JustLook(a.answers, looks0);
        looks := looks0 + 1;
        if expired { waiting := false; }
      }
      ExpectedMore(rx.Ctx(), a, b, c, Here(), taken0, more, ret, looks0);
    }

    /**
     Handles received data while no command is running, then the URCs unless a frame is open.  The
     octets taken lead to the given receive state, and the URCs they complete are accepted, before any
     callback is called.
     */
    method HandleRx() returns (r: int, ghost ret: Code, ghost taken: seq<byte>, ghost mid: Rx)
      requires Valid() && !cmdLocked
      modifies this, rx, rx.uart, rx.queue, Arrays(), clock
      ensures Valid() && !cmdLocked && Onward()
      ensures r < 0 <==> ret == ParserError
      ensures r >= 0 ==> r == 0
      ensures !old(isOpen) ==> ret == ParserNop && taken == []
      ensures old(isOpen) ==> polls > old(polls) && taken <= old(rx.uart.input) && Inv(old(rx.Ctx()), old(rx.Abs()))
      ensures old(isOpen) ==>
        var fed := Feed(old(rx.Ctx()), old(rx.Abs()), taken);
        && mid == (if ret == ParserError then fed.(status := ERROR_IO) else fed)
        && (ret in {ParserNop, ParserError} <==> mid.events == old(rx.events))
        && old(rx.queue.Contents()) <= mid.ring.Contents()
        && old(accepted) + mid.ring.Contents()[|old(rx.queue.Contents())|..] <= accepted
      ensures !old(rx.queue.dequeueLocked) ==>
        rx.queue.Contents() == [] || rx.queue.enqueueEntry.Some? || rx.isBinaryRx
      ensures isOpen == old(isOpen)
    {
      hide Client.Valid, Client.Abs, R.Ring.Contents, Inv, Feed, Client.Here;
      r, ret, taken, mid := 0, ParserNop, [], rx.Abs();
      RxFacts(rx);
      cmdLocked := true;
      if isOpen && !rx.executingCmd {
        r, ret, taken := ReceiveIdle();
        mid := rx.Abs();
        RxFacts(rx);
      }
      var processQueuedUrcs := !rx.isBinaryRx;
      cmdLocked := false;
      if processQueuedUrcs {
        var _ := ProcessUrcs();
      }
    }

    /** One call of the receiver while no command is running. */
    method ReceiveIdle() returns (r: int, ret: Code, ghost taken: seq<byte>)
      requires Valid()
      modifies this`accepted, this`polls, rx, rx.uart, rx.queue, Arrays()
      ensures Valid() && OnlyReceived(old(Now()), Now()) && polls == old(polls) + 1 && rx.Ctx() == old(rx.Ctx())
      ensures r == (if ret == ParserError then rx.lastIoError else 0) && (ret == ParserError ==> r < 0)
      ensures Inv(rx.Ctx(), old(rx.Abs())) && old(rx.uart.input) == taken + rx.uart.input
      ensures var fed := Feed(rx.Ctx(), old(rx.Abs()), taken);
        rx.Abs() == if ret == ParserError then fed.(status := ERROR_IO) else fed
      ensures ret in {ParserNop, ParserError} <==> rx.Abs().events == old(rx.events)
      ensures accepted == old(accepted) + rx.queue.Contents()[|old(rx.queue.Contents())|..]
    {
      hide Client.Valid, Client.Abs, R.Ring.Contents, Inv, Feed, Client.Here, Here, Polled;
      ghost var ctx, s, a := rx.Ctx(), rx.Abs(), Here();
      RxFacts(rx);
      HereFacts();
      FeedNone(ctx, s);
      r := 0;
      ret, taken := Poll(s, []);
      PolledFacts(ctx, s, a, ret, taken);
      EventsIs(rx);
      if ret == ParserError && rx.status == ERROR_IO {
        r := rx.lastIoError;
      }
    }

    /** Opening starts with an empty line and no frame, but keeps the URCs that are queued. */
    method Open(named: bool, uartFound: bool) returns (r: int)
      requires Valid() && !cmdLocked
      modifies this`isOpen, rx, rx.queue
      ensures Valid() && !cmdLocked && Onward() && Undisturbed()
      ensures r == if old(isOpen) then ERROR_ALREADY_EXISTS
                   else if !named then ERROR_INVALID_PARAMETER
                   else if !uartFound then ERROR_IO else 0
      ensures isOpen == (old(isOpen) || (named && uartFound))
      ensures r == 0 ==> rx.Cleared() && L.AtLineStart(rx.Abs())
    {
      hide Client.Valid, Client.Abs, R.Ring.Contents;
      r := 0;
      if isOpen {
        r := ERROR_ALREADY_EXISTS;
      } else if !named {
        r := ERROR_INVALID_PARAMETER;
      } else if !uartFound {
        r := ERROR_IO;
      } else {
        rx.ResetReceiveState();
        isOpen := true;
      }
    }

    /** Closing gives up a partial line or frame; queued URCs stay for processUrcs. */
    method Close()
      requires Valid() && !cmdLocked
      modifies this`isOpen, rx, rx.queue
      ensures Valid() && !cmdLocked && Onward() && Undisturbed()
      ensures !isOpen
      ensures old(isOpen) ==> rx.Cleared() && L.AtLineStart(rx.Abs())
    {
      hide Client.Valid, Client.Abs, R.Ring.Contents;
      if isOpen {
        isOpen := false;
        rx.ResetReceiveState();
      }
    }
  }

  /**
   The prefix of a wait is not forgotten when its command ends: during the next command, whatever that
   waits for, a URC line that begins with it is taken for a response and is not queued.
   */
  method PrefixOutlivesItsCommand(rx: Client, prefix: seq<byte>, text: seq<byte>, buf: array<byte>)
    requires rx.Valid() && buf != rx.rxBuffer && buf != rx.queue.buffer
    requires prefix != [] && L.Arrives(rx.Ctx(), rx.Abs(), prefix + text, CR)
    modifies rx
    ensures rx.Valid() && rx.status == NO_STATUS && Inv(rx.Ctx(), rx.Abs()) && rx.queue.Contents() == old(rx.queue.Contents())
    ensures var r := Feed(rx.Ctx(), rx.Abs(), prefix + text + [CR]);
      r.ring == rx.Abs().ring && r.events == rx.events + [GotResponse(Some(text), None)]
  {
    hide Client.Valid, Client.Abs, Inv, Feed, R.Ring.Contents, Client.Sound, Client.InFlight, Client.FlightFits;
    rx.BeginCommand();
    rx.ExpectResponse(Some(prefix), buf, None);
    rx.EndCommand();
    rx.BeginCommand();
    RxFacts(rx);
    EventsIs(rx);
    L.ResponseLine(rx.Ctx(), rx.Abs(), prefix + text, CR);
    assert (prefix + text)[|prefix|..] == text;
  }

  lemma EventsIs(rx: Client)
    ensures rx.Abs().events == rx.events && rx.Abs().status == rx.status
  {
  }

  lemma RxFacts(rx: Client)
    requires rx.Valid()
    ensures Inv(rx.Ctx(), rx.Abs()) && rx.Abs().ring == rx.queue.Model()
    ensures rx.queue.dequeueLocked <==> rx.queue.dequeueEntry.Some?
    ensures rx.queue.dequeueLocked ==> rx.queue.Contents() != []
  {
  }

  /** Receiving leaves the entry that is out alone and only appends to the queue. */
  lemma ReceivedGrows(rx: Client, ctx: Context, a: Moment, taken: seq<byte>, ret: Code)
    requires Inv(ctx, a.abs) && ctx == rx.Ctx() && Handled(ctx, a, rx.Here(), taken, ret) && rx.Valid()
    ensures a.abs.ring.Contents() <= rx.queue.Contents()
    ensures a.abs.ring.dequeueEntry == rx.queue.dequeueEntry && a.input == taken + rx.uart.input
    ensures rx.queue.dequeueLocked <==> rx.queue.dequeueEntry.Some?
    ensures taken == [] ==> rx.queue.Contents() == a.abs.ring.Contents()
    ensures rx.rspBuffer == a.flight.rsp && (rx.binBuffer == a.flight.bin || rx.binBuffer == rx.rspBuffer)
  {
    hide Inv, R.Ring.Inv, R.Ring.Contents, Went, Ended, Reports, Client.Sound, Client.Landed, Client.ParamsHeld, Client.Counted;
    FeedGrows(ctx, a.abs, taken);
    FeedNone(ctx, a.abs);
    rx.HereFacts();
    RxFacts(rx);
  }
}
