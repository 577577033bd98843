# Verification of the AT client core

This project models the parts of u-connectClient, an AT command client, in which the
difficulty sits, and proves what they promise.  `dafny verify dfyconfig.toml`
checks everything.

| part | files | of the source |
|---|---|---|
| URC queue | `UrcRing.dfy`, `UrcQueue.dfy` | `src/u_cx_at_urc_queue.c` |
| receiver, commands, callbacks | `AtReceiver.dfy`, `AtLines.dfy`, `AtClient.dfy`, `AtSession.dfy`, `UrcDispatch.dfy` | `src/u_cx_at_client.c` |
| parameters | `AtEscape.dfy`, `AtParams.dfy`, `AtAddress.dfy`, `AtCodec.dfy`, `AtParser.dfy`, `AtText.dfy`, `AtExchange.dfy` | `src/u_cx_at_util.c`, `src/u_cx_at_params.c`, the send loop of `src/u_cx_at_client.c` |
| XMODEM sender | `Crc.dfy`, `CrcPolynomial.dfy`, `XmodemReceiver.dfy`, `XmodemLine.dfy`, `XmodemTrace.dfy`, `Xmodem.dfy` | `src/u_cx_xmodem.c` |
| receive rings | `RingSlots.dfy`, `DmaRing.dfy`, `IrqRing.dfy` | `ports/uart/u_port_uart_stm32f4_dma.c`, `ports/uart/u_port_uart_stm32f4_irq.c` |
| shared | `Bytes.dfy`, `Chars.dfy`, `Timing.dfy` | |

How the parts are put together:

* **URC queue.**  `UrcRing` is the ring on values: positions, slots and the FIFO
  they hold, with each operation as a function.  `UrcQueue` is the class over an
  octet array with the fields of the C structure; each method is tied to the ring
  function, and its validity says that the array holds every entry octet for octet.
* **Receiver.**  `AtReceiver` is a transducer that takes one octet at a time.
  `AtClient` is the client with its fields and read loops over a `Uart` whose
  reads return what an adversary grants: less than asked, nothing, or an error.
  Every receive call refines the transducer.  `AtLines` says what lines mean by
  their octets alone.  `AtSession` adds commands, opening,
  closing and callbacks that edit their URC or run commands; two logs record what
  was accepted and what was dispatched.
* **Threads.**  `UrcDispatch` is a state machine of any number of threads over the
  command mutex and the dispatch mutex, with calls nested in callbacks.
* **Parameters.**  Texts are octet sequences.  Every printer and parser has a
  function of the text as its specification; the methods with loops and in-place
  stores are proved equal to it, and the round trips are lemmas about it.
  `AtText` tells the wire format by literal text, for texts of any origin.
  `AtExchange` leads printed parameters through the receiver to the parser.
* **XMODEM.**  The sender runs against a line whose losses, damage, write errors,
  silence and stray octets are an adversary's, with a standard receiver (Forsberg,
  XMODEM/YMODEM Protocol Reference, sections 4.2, 4.3, 7.3 and 8.1) at the far
  end.  Its replies wait in order until they are read or lost, however late that
  is; no ACK comes from anywhere else.  `XmodemLine` is the line and the tries on
  values, `XmodemTrace` what is written and heard in order, `Xmodem` the sender.
* **Rings.**  An adversary stores octets and runs the interrupt between any two
  volatile accesses of the reader, and may overrun it.  Unbounded totals, kept beside the fields of the
  C structure, say what the 32-bit counters stand for.

Where the code does not do what one may expect, the model follows the code and a
lemma says exactly when it does:

* A command returns the status as it is after URC dispatch, which a callback's own
  command or another thread's command may have replaced
  (`NestedCommandReplacesStatus`, `OtherCommandReplacesStatus`, `OwnStatusReturned`).
* A thread that loses the try for the dispatch mutex can leave a URC queued
  (`LostTryLeavesAnEntry`, `NothingLeftBehind`, `LeftBehind`).
* A wait that begins while a response frame of an earlier one is still arriving
  is told the old count for its own buffer, and the next response of the same
  command is stored behind the end of it (`OldCountForNewBuffer`,
  `OldCountOverruns`, `ExpectResponse`, `CmdGetRspParamLine`).
* The prefix of a wait stays registered after its command, and later commands take
  URCs that begin with it for responses (`PrefixOutlivesItsCommand`).
* An `s` parameter with text behind its closing quote loses its last character, and
  an address parser takes empty IPv6 groups and whatever stands between the digits
  and the letter of a Bluetooth address (`TextBehindQuote`, `Ipv6Groups`, `BdIff`).
* A string whose escaped form does not fit 42 octets is sent as it is
  (`StrSurvivesIff`, `BinSurvivesIff`, `SpelledOutBreakIsLost`).
* A Bluetooth address of unknown type is printed as public (`BdRoundTrip`).
* A short read of the XMODEM data callback puts padding in mid-file
  (`PaddingInside`).
* An ACK that is still under way counts for the next XMODEM block, which may be
  lost (`RetryLosesTheNextBlock`, `LateAckDeceives`, `AttemptsAreSafe`, `Send`).
* While the wrap interrupt is late, a discard in the DMA ring can deliver octets
  twice, and an overrun can pass unnoticed (`DeliveredTwice`, `OverrunDelivered`,
  `GetRxBufferAvailable`).
* The third wrap branch of the queue's offset search cannot be reached
  (`GetEnqueueOffset`).

## Model

| member | source | states |
|---|---|---|
| `UrcRing.RunIsFifo` | src/u_cx_at_urc_queue.c:119-268 | For every interleaving of one producer (begin, then end or abort) and one consumer (take, then drop), an open enqueue across a drop included: what was delivered followed by what is queued is exactly what was committed, in order |
| `UrcRing.StepIsFifo` | src/u_cx_at_urc_queue.c:119-268 | One call of either side keeps that law: end appends its entry, abort changes nothing, drop removes exactly the oldest entry |
| `UrcRing.EnqueueBeginKeeps` | src/u_cx_at_urc_queue.c:119-153 | A line is accepted if and only if it has at most 65535 octets and its prefix fits the largest free run; the open entry gets that whole run, and the queued entries do not change |
| `UrcRing.PlaceFits` | src/u_cx_at_urc_queue.c:55-93 | Room is found exactly when the largest usable contiguous run fits the request, and the offset is the start of that largest run |
| `UrcRing.NoLongerRun` | src/u_cx_at_urc_queue.c:55-93 | No run of free octets in the buffer is longer than the one that decides acceptance, save the tail behind a wrap position |
| `UrcRing.EmptyQueueAccepts` | src/u_cx_at_urc_queue.c:126-132 | An empty queue accepts a line if and only if its length is at most 65535 and length + 5 fits the buffer from its aligned start |
| `UrcRing.ChargedSize` | src/u_cx_at_urc_queue.c:171-184 | The size that an enqueue end charges is the one computed from header and segment end, and it stays in the window that was promised |
| `UrcRing.EnqueueEndKeeps` | src/u_cx_at_urc_queue.c:166-186 | Ending an enqueue within its capacity keeps all position invariants and appends exactly (line, payload) |
| `UrcRing.EnqueueAbortKeeps` | src/u_cx_at_urc_queue.c:188-208 | Aborting keeps the invariants and the queued entries, wrapped or not |
| `UrcRing.AbortUndoesBegin` | src/u_cx_at_urc_queue.c:188-208 | Abort after begin restores every position and count of a queue in use; an empty one is left rewound |
| `UrcRing.DequeuedSize` | src/u_cx_at_urc_queue.c:240-248 | The size rebuilt from the four header octets equals the size charged at enqueue for every buffer length and start parity, although the two sides test padding against different segment ends |
| `UrcRing.DequeueBeginKeeps` | src/u_cx_at_urc_queue.c:216-226 | An entry is taken exactly when something is queued and no enqueue is open; taking changes no content |
| `UrcRing.DequeueEndKeeps` | src/u_cx_at_urc_queue.c:234-263 | Dropping removes the oldest entry and nothing else, unwraps and rewinds correctly, and leaves an open enqueue and its capacity alone |
| `UrcRing.CommittedBounds` | src/u_cx_at_urc_queue.c:240-262 | Every queued entry lies between the read position and the committed end of its segment, and a ring without used octets is empty and not wrapped |
| `UrcRing.OddEndsAtTheEnd` | src/u_cx_at_urc_queue.c:171-182 | Every entry starts on the parity of the start position; an entry of odd size, for which no padding was charged, ends exactly at the end of the buffer |
| `UrcQueue.UrcQueue.constructor` | src/u_cx_at_urc_queue.c:99-111 | Initialisation gives an empty valid queue whose start has the parity of the buffer address |
| `UrcQueue.UrcQueue.GetEnqueueOffset` | src/u_cx_at_urc_queue.c:55-93 | The three-branch search on the fields agrees with the ring; its third wrap branch is proved unreachable |
| `UrcQueue.UrcQueue.EnqueueBegin` | src/u_cx_at_urc_queue.c:119-153 | On the octet array: accepted exactly when the ring accepts, with header, line and terminator where the ring says; all queued entries keep their octets either way |
| `UrcQueue.UrcQueue.EnqueueGetPayloadPtr` | src/u_cx_at_urc_queue.c:155-164 | The window handed out has min(capacity, 65535) octets, lies in the buffer and meets no queued entry, the one with the callback included |
| `UrcQueue.WindowClear` | src/u_cx_at_urc_queue.c:137-164 | In every reachable state with an open enqueue the payload window lies in the buffer and is disjoint from every live entry, whatever has happened to the read position since |
| `UrcQueue.UrcQueue.StorePayload` | src/u_cx_at_urc_queue.c:155-164 | Writing payload into the window disturbs no other entry and not the line in front of it |
| `UrcQueue.UrcQueue.EnqueueEnd` | src/u_cx_at_urc_queue.c:166-186 | The entry becomes part of the queue with the octets found in the window as its payload; the capacity assertion cannot fail |
| `UrcQueue.UrcQueue.EnqueueAbort` | src/u_cx_at_urc_queue.c:188-208 | The array keeps every queued entry and the fields become those of the ring after an abort |
| `UrcQueue.UrcQueue.DequeueBegin` | src/u_cx_at_urc_queue.c:210-232 | The entry handed out holds the oldest line and payload octet for octet; None exactly when the dispatch lock is taken, nothing is queued or an enqueue is open |
| `UrcQueue.UrcQueue.EditEntry` | src/u_cx_at_urc_queue.c:240-243 | A callback may write anything into the line and payload it was given: sizes, positions, all other entries and an open payload window stay |
| `UrcQueue.UrcQueue.DequeueEnd` | src/u_cx_at_urc_queue.c:234-268 | Exactly the oldest entry leaves the array model, also while an enqueue is open, and its size is read from the array header |
| `AtReceiver.FeedAppend` | src/u_cx_at_client.c:383-412 | Feeding a stream in two parts is feeding it at once |
| `AtReceiver.SplitDoesNotMatter` | src/u_cx_at_client.c:184-412 | Octets fed in any two ways of cutting them up give the same line, frame state, queue, status and events; each read call of the client feeds the octets it took (HandleRxData) |
| `AtReceiver.FrameSync` | src/u_cx_at_client.c:285-381 | A frame that declares n octets ends exactly after n of them on the response, URC and discard paths, and not one octet earlier |
| `AtReceiver.FrameMeaning` | src/u_cx_at_client.c:229-381 | Of the data behind a response line the first min(n, c) octets are kept, for a capacity of c, and reported with that count (HandleRxData says that they are in the buffer); a URC is queued whole or not at all; a frame behind a status line sets the status without reporting it; anything else is discarded |
| `AtReceiver.UrcFrame` | src/u_cx_at_client.c:249-261 | A URC with payload is queued if and only if prefix and payload together fit the largest free run |
| `AtReceiver.FeedLine` | src/u_cx_at_client.c:184-227 | Printable text before an end of line reaches the line handler unchanged if it is shorter than the buffer |
| `AtReceiver.FeedPayload` | src/u_cx_at_client.c:316-343 | Payload octets of any value are kept up to the space there is and counted down, never read as text |
| `AtReceiver.FeedGrows` | src/u_cx_at_client.c:161-203 | Receiving only appends to the queue, leaves the entry that is out alone, and appends to the events |
| `AtLines.StatusIff` | src/u_cx_at_client.c:131-158 | Of a printable line that fits: a status is reported, and set, if and only if a command is executing, does not wait for the line, and the line is OK (0), ERROR (-1) or ERROR: with digits only (minus their value, at most INT_MAX) |
| `AtLines.OkLine` | src/u_cx_at_client.c:136-142 | OK and a CR or LF, at the start of a line, leave status 0 and report it, and leave queue and line as they were |
| `AtLines.ErrorLine` | src/u_cx_at_client.c:142-147 | The same of ERROR and -1 |
| `AtLines.ErrorCodeLine` | src/u_cx_at_client.c:148-158 | ERROR: with the number n leaves -n, for every n up to INT_MAX, and minus INT_MAX beyond |
| `AtLines.ZeroIff` | src/u_cx_at_client.c:136-158 | A line stands for success if and only if it is OK, or ERROR: with zeros only |
| `AtLines.StatusWasSaid` | src/u_cx_at_client.c:111-182 | Whatever octets arrive, cut and framed in whatever way: a status that has changed is the one that some line among them says, at its line end or at the header of a frame behind it |
| `AtLines.LastLineDecides` | src/u_cx_at_client.c:131-158 | Whatever came before, a last line that says a status leaves that status |
| `AtLines.ResponseIff` | src/u_cx_at_client.c:131-164 | A response is reported if and only if the command waits for the line, or it is executing and the line is not empty, not OK and begins with none of ERROR, plus, star and AT+ |
| `AtLines.ResponseLine` | src/u_cx_at_client.c:131-164 | It hands out what follows the prefix that is waited for, or else the whole line, and does nothing else |
| `AtLines.AnswerWasSent` | src/u_cx_at_client.c:111-182 | Whatever octets arrive: a response text that has changed is what some line among them hands out |
| `AtLines.UrcIff` | src/u_cx_at_client.c:166-182 | A line is queued, without payload, if and only if it begins with a plus or a star, no command waits for it, and it fits the largest free run; it does nothing else |
| `AtLines.OtherLine` | src/u_cx_at_client.c:111-182 | All other lines leave no trace: empty ones, the echo of a command, ERROR with anything but digits, and whatever comes without a plus or a star while no command is executing |
| `AtLines.FrameOfLine` | src/u_cx_at_client.c:229-381 | What a line does with a frame behind it, for any data and with the length high octet first: response, URC and status as for the line alone, with the data kept up to the room, queued whole or not at all, or passed over |
| `AtLines.FeedUnended` | src/u_cx_at_client.c:187-227 | Octets without an end of line and without SOH: only printable ones are added to the line, and it begins anew exactly when it has filled the buffer, for any number of octets |
| `AtClient.Client.HandleRxData` | src/u_cx_at_client.c:383-412 | For every stream, every adversary of short, empty and failing reads and every resumption point: the octets taken off the UART leave the state that feeding them one by one leaves, with what that reports, and it comes back only for a report, a read that failed or gave less than asked, or the end of a frame. If word, buffer and frame in flight fit together at the start, they still do, a reported response is in the buffer, octet for octet, with its count in the word, and nothing is stored behind the end of a buffer; a frame in flight overruns its buffer exactly if more is stored than that holds |
| `AtClient.Client.HandleBinaryRx` | src/u_cx_at_client.c:285-381 | Same for the binary part, with the two length octets and the payload resumable anywhere |
| `AtClient.Client.ReadPayload` | src/u_cx_at_client.c:316-343 | The chunked read loops with their 64-octet discard buffer equal the octet-by-octet payload transducer and end only when the payload does, or with a read that failed or gave nothing new |
| `AtClient.Client.KeepBytes` | src/u_cx_at_client.c:316-343 | Octets go behind those that were kept, in the buffer of the response or in the window of the queue; the overrun is noted if and only if a response now has more than its buffer holds |
| `AtClient.Client.FinishTransfer` | src/u_cx_at_client.c:345-378 | The end of a frame writes the number of kept octets to the length word and reports them, with those octets in the buffer it was set up with, or commits the URC with exactly the octets in its window |
| `AtClient.Client.ParseIncomingChar` | src/u_cx_at_client.c:184-227 | One character changes the client as one transducer step does, the full-buffer restart and the immediate commit of a URC line included |
| `AtClient.Client.ParseLine` | src/u_cx_at_client.c:111-182 | A line ended by a zero in the receive buffer sets exactly the status or response text, or opens exactly the URC, that its classification calls for; all else stays, and a URC without room is dropped |
| `AtClient.Client.SetupBinaryTransfer` | src/u_cx_at_client.c:229-283 | Where the payload will go and how much of it fits; the room that a response is given fits the buffer if and only if the length word did; a URC that does not fit is aborted and the queue is as before it began |
| `AtClient.Client.OpenExactlyInUrcPayload` | src/u_cx_at_client.c:82-97 | In every valid state the queue has an open enqueue exactly when a binary frame with a complete header is going to the URC queue, so no enqueue assertion can fail on any stream or error |
| `AtClient.Client.ResetReceiveState` | src/u_cx_at_client.c:82-97 | Giving up reception aborts an open enqueue, clears line, frame and expected response and loses no queued URC; status and reported events stay |
| `AtClient.Client.ExpectResponse` | src/u_cx_at_client.c:749-761 | The response words and buffer are replaced without touching what is being received; word, buffer and frame fit together if and only if no response frame is in flight or it goes to the same buffer |
| `AtClient.OldCountForNewBuffer` | src/u_cx_at_client.c:345-358 | A run in which a wait that times out inside a frame is followed by one with another buffer: the second is told two octets, its buffer has one and holds none of them |
| `AtClient.WaitAgain` | src/u_cx_at_client.c:749-761 | The second half of that run, for any frame of two octets and any other buffer of one |
| `AtClient.OldCountOverruns` | src/u_cx_at_client.c:229-247 | How that run goes on: the next response frame of the command is given the old count for its room, and an octet is stored behind the end of the buffer |
| `AtClient.Client.UrcEdit` | src/u_cx_at_client.c:422-430 | A callback that rewrites its URC changes nothing of what is being received |
| `AtSession.Session.CmdEnd` | src/u_cx_at_client.c:451-480 | The own status of the command is the one that the octets taken during the wait leave, or that of a failed read or of the time-out. Without those two it is what a line among the octets says, and what the last line says if that says anything: 0 for OK, -1 for ERROR, -n for ERROR:n. What is returned is read after the URCs were dispatched: the own one if no callback ran a command, which is so in a nested call, and else that of the last command a callback ran |
| `AtSession.Session.ProcessUrcs` | src/u_cx_at_client.c:415-433 | Called inside a callback it dispatches nothing; otherwise it returns only with nothing queued or an enqueue open; every URC accepted is dispatched or still queued, in order |
| `AtSession.Session.Dispatch` | src/u_cx_at_client.c:415-433 | One round calls the callback for exactly the oldest queued URC and drops exactly that one |
| `AtSession.Session.HandleRx` | src/u_cx_at_client.c:801-828 | Idle reception takes octets as the receiver does, and the URCs they complete are accepted before any callback; the log law accepted == dispatched + queued stays; queued URCs stay only behind an open frame; the result is negative exactly when the receiver failed |
| `AtSession.Session.AwaitStatus` | src/u_cx_at_client.c:453-462 | The wait ends with the status that the octets taken leave, or that of a failed read, or the time-out code if and only if the time was up at the last look at the clock, with one look for each call of the receiver; it drops no URC |
| `AtSession.Session.CmdGetRspParamLine` | src/u_cx_at_client.c:749-777 | The client waits with the prefix of this call. What is handed out is the first response that the octets taken report, or nothing, and then the command has ended or the time was up; the text lies in the receive buffer, ended by a zero. It is what a line among the octets holds behind the prefix, or a whole line that is no other answer; and whenever the octets end with such a line, its text is handed out. A count that is reported, and the data it counts, are in the word and the buffer of the caller if and only if no frame of an earlier wait was arriving into another buffer (or the data happen to be there already); that other end is reported without a text and leaves the buffer as it was |
| `AtSession.PrefixOutlivesItsCommand` | src/u_cx_at_client.c:436-449 | A run in which a URC line is taken for a response and not queued, for any prefix and text: the prefix of a wait stays registered when its command ends, and the next command, which does not wait for it, still takes such lines |
| `AtSession.Session.Open` | src/u_cx_at_client.c:523-551 | The error cases in their order; a successful open starts at the beginning of a line with no part of a line, a frame or a response left, and keeps queued URCs |
| `AtSession.Session.Close` | src/u_cx_at_client.c:553-572 | Closing gives up a partial line or frame, an expected response and an open enqueue, and keeps queued URCs |
| `UrcDispatch.CallbacksInOrder` | src/u_cx_at_client.c:415-433 | For any number of threads and every schedule: at most one callback runs, callbacks follow the queueing order, and each accepted URC gets at most one |
| `UrcDispatch.StepKeepsInv` | src/u_cx_at_client.c:415-480 | No step of any thread breaks mutex ownership, the bound of one call per callback, or the log of callbacks |
| `UrcDispatch.RunKeepsInv` | src/u_cx_at_client.c:415-480 | The same over whole schedules |
| `UrcDispatch.NestedDispatchesNothing` | src/u_cx_at_urc_queue.c:214-231 | A call made inside a callback finds the dispatch mutex taken by its own thread and returns without dispatching |
| `UrcDispatch.CallbackIsAlone` | src/u_cx_at_urc_queue.c:210-268 | From the moment a callback runs until it returns no other callback starts, over any number of steps of all threads |
| `UrcDispatch.LoopEnds` | src/u_cx_at_urc_queue.c:214-229 | A dispatch loop ends only because nothing is queued, an enqueue is open, or another call held the dispatch mutex |
| `UrcDispatch.UncontendedDrains` | src/u_cx_at_client.c:415-433 | An outermost processUrcs, whatever its callbacks and other threads do, ends only with nothing queued or an enqueue open, unless another thread tries the dispatch mutex or completes an entry meanwhile |
| `UrcDispatch.NothingLeftBehind` | src/u_cx_at_client.c:415-480 | For any number of threads and every schedule without two kinds of step, once all are idle nothing is queued or an entry is being received. The two: a try for the dispatch mutex that fails while its holder is giving up, and an idle reception that ends inside a frame with something queued |
| `UrcDispatch.StaysAttended` | src/u_cx_at_client.c:415-480 | Every other step keeps: what can be dispatched has a call that will still look at the queue |
| `UrcDispatch.LeftBehind` | src/u_cx_at_urc_queue.c:214-229 | The converse: after such a step, if the other threads are idle or on their way out, the queue stays as it is, not empty, until another call is made |
| `UrcDispatch.LostTryLeavesAnEntry` | src/u_cx_at_urc_queue.c:214-229 | A schedule of two threads after which both are idle and a URC is still queued |
| `UrcDispatch.NestedCommandReplacesStatus` | src/u_cx_at_client.c:476-479 | A schedule in which a successful command returns the failure of a command run by a URC callback |
| `UrcDispatch.OtherCommandReplacesStatus` | src/u_cx_at_client.c:472-479 | A schedule in which a successful command returns the not-yet-known status of a command that another thread has just begun |
| `UrcDispatch.OwnStatusReturned` | src/u_cx_at_client.c:451-480 | Whatever the other threads and callbacks do between unlock and return: a command returns the last status that was written meanwhile, so its own if and only if none was or the last one is equal |
| `UrcDispatch.StatusIsLastWritten` | src/u_cx_at_client.c:451-480 | Over any schedule the status is the last one written: by the receiver, or by the beginning of a command; reception while idle writes none |
| `UrcDispatch.AssertionsHold` | src/u_cx_at_client.c:438-446 | The assertions on a previous command and on a previous dequeue cannot fail, and no thread waits for a mutex it holds |
| `UrcDispatch.NoDeadlock` | src/u_cx_at_client.c:438-480 | Unless all threads are idle, some call can go on |
| `AtEscape.EscapeRoundTrip` | src/u_cx_at_util.c:330-447 | unescape(escape(s)) == s for every octet string, zeros and unprintable octets included |
| `AtEscape.EscapeIsPrintable` | src/u_cx_at_util.c:330-386 | Escaped text holds printable characters only, so no zero and no line end |
| `AtEscape.QuotedEndsThere` | src/u_cx_at_util.c:153-186 | The tokenizer stops exactly at the end of quoted text that is followed by a comma or the end, whatever the string holds |
| `AtEscape.EndsThere` | src/u_cx_at_util.c:153-186 | Text that the tokenizer sweeps from outside to outside is exactly one parameter |
| `AtEscape.QuotedIsLong` | src/u_cx_at_util.c:225-228 | A parameter that starts with a quote and has an end is at least two characters long, so stripping both quotes stays inside it |
| `AtEscape.FindParamEnd` | src/u_cx_at_util.c:153-186 | The scanning loop finds the end that the recursive specification gives, or none for an open string, escape or bracket |
| `AtEscape.WriteEscString` | src/u_cx_at_util.c:449-477 | For a buffer of at least three octets: zero if and only if the full quoted text is not shorter than the buffer, else exactly that text; nothing behind the buffer is written |
| `AtEscape.UnescapeNext` | src/u_cx_at_util.c:394-444 | No write of the in-place decoder reaches an octet that has yet to be read |
| `AtEscape.UnescapeString` | src/u_cx_at_util.c:388-447 | Decoding in place gives what decoding a copy gives, ends it with a zero and leaves every octet outside the text alone |
| `AtParams.StrtolOfDecimal` | src/u_cx_at_params.c:338-359 | Reading a printed 32-bit number gives it back and stops at the first character that is not part of it |
| `AtParams.BinaryToHex` | src/u_cx_at_util.c:72-98 | True exactly when text and terminator fit; the text is that of the data or of the reversed data, or (null) for the null pointer, cut or filled up to the buffer |
| `AtParams.HexToBinary` | src/u_cx_at_util.c:122-141 | The octets converted are the longest valid prefix that the output holds |
| `AtParams.HexPrefixOf` | src/u_cx_at_util.c:72-141 | Printed octets are read back whatever follows them |
| `AtParams.HexBytesOf` | src/u_cx_at_util.c:280-297 | The byte-array parameter reads back what was printed |
| `AtParams.HexInPlace` | src/u_cx_at_util.c:280-297 | Decoding hex over its own text equals decoding a copy, since octet i is stored after characters 2i and 2i+1 were read; odd lengths and bad digits fail |
| `AtParams.IntListRoundTrip` | src/u_cx_at_params.c:310-413 | Any list of 16-bit integers, the empty one included, is read back from its text |
| `AtParams.ReadIntsInPlace` | src/u_cx_at_params.c:343-359 | Each value is stored over text that the parse position has passed, so the values are those of the untouched text |
| `AtParams.StringToIntList` | src/u_cx_at_params.c:310-367 | Zero exactly when the untouched text is a valid list, and then the octets of the text hold its values in two-octet form |
| `AtParams.IntListToString` | src/u_cx_at_params.c:369-413 | The list text and its length if that leaves room for the terminator, else -1, for every buffer size |
| `AtAddress.Ipv4FromString` | src/u_cx_at_params.c:61-95 | The loop accepts exactly four decimal numbers below 256 with dots between and nothing behind |
| `AtAddress.Ipv6FromString` | src/u_cx_at_params.c:99-157 | The loop accepts exactly eight hex numbers of at most four characters, each as strtol takes it, with colons between, in matching brackets or none |
| `AtAddress.StrtolOfHex4` | src/u_cx_at_params.c:113-125 | Reading a printed group gives it back and stops behind its four digits |
| `AtAddress.IpRoundTrip` | src/u_cx_at_params.c:190-263 | Every IPv4 and IPv6 address is read back from its text, word order included |
| `AtAddress.IpTextFits` | src/u_cx_at_params.c:209-263 | No address text is longer than 41 characters, so the 42-octet buffer of the send loop always suffices |
| `AtAddress.IpToString` | src/u_cx_at_params.c:209-263 | The text and its length if it is shorter than the buffer, else -1 |
| `AtAddress.MacRoundTrip` | src/u_cx_at_params.c:291-308 | Every MAC address is read back from its text |
| `AtAddress.MacFromString` | src/u_cx_at_params.c:291-300 | Zero exactly for twelve hex digits, and then the six octets they stand for |
| `AtAddress.MacToString` | src/u_cx_at_params.c:302-308 | The twelve digits and their count if they leave room for the terminator, else -1 and an empty text |
| `AtAddress.BdToString` | src/u_cx_at_params.c:277-289 | Digits and suffix with their count if fourteen octets are there, else -1 |
| `AtAddress.BdRoundTrip` | src/u_cx_at_params.c:265-289 | A Bluetooth address comes back unchanged if and only if its type is random or public; an unknown type comes back as public |
| `AtAddress.BdFromString` | src/u_cx_at_params.c:159-184 | Suffix, default type and the six octets; -1 for every other text, the empty one included |
| `AtCodec.SendCmd` | src/u_cx_at_client.c:580-721 | What goes out is the command, the parameter texts with commas between, and a CR or the binary frame; hex data sent in chunks is one text |
| `AtCodec.SendString` | src/u_cx_at_client.c:624-652 | The escaped form if it fits the 42-octet buffer, the raw string between quotes if not |
| `AtCodec.RoundTrip` | src/u_cx_at_client.c:589-715 | Any list of typed parameters printed by the send loop and parsed with the same format gives the full count and equal values, and its text holds no zero, if each string fits escaped or is safe unescaped and each Bluetooth type is random or public |
| `AtCodec.CountIsExact` | src/u_cx_at_util.c:188-308 | The result is the number of values read, never more than the format asks for, or minus the number of the first bad parameter |
| `AtCodec.ValuesMatchFormat` | src/u_cx_at_util.c:207-299 | For any text, each value is of the kind its format letter asks for, and only unknown letters are passed over |
| `AtCodec.StrSurvivesIff` | src/u_cx_at_client.c:624-637 | A string sent alone comes back if and only if its escaped form fits or it is safe unescaped: one parameter for the tokenizer when quoted, and no escape in it that the decoder knows |
| `AtCodec.BinSurvivesIff` | src/u_cx_at_client.c:638-652 | The same for '$', where a raw zero ends the text that the parser sees |
| `AtCodec.CleanIsRawSafe` | src/u_cx_at_client.c:631-634 | A string without quotes, backslashes and zeros is always safe unescaped |
| `AtCodec.SpelledOutBreakIsLost` | src/u_cx_at_client.c:627-635 | A concrete family of long strings that comes back changed: a spelled-out line break turns into a real one |
| `AtCodec.UnescapeKeeps` | src/u_cx_at_util.c:388-447 | The decoder leaves a text as it is if and only if it holds no escape it knows; otherwise it gets shorter |
| `AtParser.ParseParams` | src/u_cx_at_util.c:188-308 | Working in place, it returns the count and, through its outputs, the values that the untouched text specifies: decoding one parameter disturbs neither earlier results nor later parameters, and nothing outside the text |
| `AtParser.DecodeValue` | src/u_cx_at_util.c:207-299 | Each case changes only the octets of its own parameter and its terminator |
| `AtParser.HoldsStill` | src/u_cx_at_util.c:188-308 | A result that points into a finished part of the buffer keeps its meaning whatever happens behind it |
| `AtExchange.ResponseCarriesValues` | src/u_cx_at_client.c:749-794 | Printed parameters behind the expected prefix, received as a line by a client that waits for them, are reported with a text that parses to the values that were sent |
| `AtExchange.FramedResponseCarriesValues` | src/u_cx_at_client.c:677-694 | The same for a line followed by what the B parameter sends for up to 65535 octets: the text parses to the values that were sent, and the data are reported up to the room for them |
| `AtExchange.UrcCarriesValues` | src/u_cx_at_client.c:161-203 | The same for a line that begins with a plus or a star and that no command waits for: it is queued if it fits, and its parameters parse to the values that were sent |
| `AtText.EscapesSpelled` | src/u_cx_at_util.c:330-386 | The escape of every octet: printable ones other than quote and backslash go out as they are, CR, LF, tab, backspace, quote, backslash and zero as a backslash and their letter, all others as a backslash, x and two upper-case hex digits |
| `AtText.LiteralsStay` | src/u_cx_at_util.c:371-374 | A string of printable octets without quote and backslash escapes to itself |
| `AtText.EscapeLength` | src/u_cx_at_util.c:330-386 | The exact length of an escaped string: one octet for each such character, two for each octet with a letter, four for each other |
| `AtText.StringOnWire` | src/u_cx_at_client.c:624-637 | A string goes out escaped if and only if that takes at most 39 octets, and otherwise as it is; plain text goes out unchanged between quotes in either case |
| `AtText.UnescapeKnown` | src/u_cx_at_util.c:397-432 | What the decoder makes of each known escape, hex digits of either case included, whatever follows |
| `AtText.UnescapeUnknown` | src/u_cx_at_util.c:414-441 | A backslash at the end or in front of any other character stays, but x without two hex digits behind it loses its backslash |
| `AtText.UnescapePlain` | src/u_cx_at_util.c:388-447 | Text without a backslash stays, whatever follows it |
| `AtText.BareString` | src/u_cx_at_util.c:218-236 | Unquoted text without comma, quote, backslash, bracket and zero is taken whole by 's' and by '$' |
| `AtText.BareList` | src/u_cx_at_util.c:188-308 | A list of such texts with commas between them, for any format of 's' and '$': each letter takes the next text, and the count is that of the letters or of the texts, whichever there are fewer of |
| `AtText.TextBehindQuote` | src/u_cx_at_util.c:218-245 | Text behind a closing quote belongs to the parameter; 's' cuts its last character off, '$' does not |
| `AtText.Unclosed` | src/u_cx_at_util.c:153-186 | Commas in quotes or brackets end no parameter; an open quote or bracket makes the parameter invalid for every format letter |
| `AtText.DigitIff` | src/u_cx_at_util.c:208-217 | A 'd' parameter is valid if and only if it is digits with a minus in front or not; its value is clamped to 32 bits |
| `AtText.HexIff` | src/u_cx_at_util.c:280-297 | An 'h' parameter is valid if and only if it is an even number of hex digits of either case, two for each octet, the high one first |
| `AtText.MacIff` | src/u_cx_at_params.c:291-300 | A MAC address is valid if and only if it is twelve hex digits, and these are its octets in order |
| `AtText.BdIff` | src/u_cx_at_params.c:159-184 | A Bluetooth address is valid if and only if it begins with twelve hex digits and ends with r (random) or p (public), or has those digits alone (public) |
| `AtText.Ipv4Iff` | src/u_cx_at_params.c:61-95 | An IPv4 address is valid if and only if it is four texts of decimal digits with values below 256 and dots between them; the first one is the high octet |
| `AtText.Ipv6Groups` | src/u_cx_at_params.c:99-157 | Eight groups of at most four hex digits of either case with colons between them, in brackets or not, are read as the address with those values; even empty groups are, as zero, except at the end without a bracket |
| `AtText.Ipv4Spelled` | src/u_cx_at_params.c:209-221 | An IPv4 address is printed as its four octets in decimal, the high one first |
| `AtText.Ipv6Spelled` | src/u_cx_at_params.c:222-263 | An IPv6 address is printed in brackets, as eight groups of four lower-case hex digits, the high half of the last word first |
| `AtText.IntListIsRead` | src/u_cx_at_params.c:310-367 | Decimal numbers of 16 bits with commas between them in square brackets, leading zeros allowed, are read as those numbers |
| `AtText.IntTooBig` | src/u_cx_at_params.c:343-359 | A number that does not fit 16 bits makes the list invalid |
| `AtText.IntListSpelled` | src/u_cx_at_params.c:369-413 | A list is printed as its numbers with commas between them, in square brackets |
| `AtText.NumberSpelled` | src/u_cx_at_params.c:393-400 | Numbers are printed with a minus if negative, and without leading zeros |
| `Crc.ComputeCrc16` | src/u_cx_xmodem.c:77-93 | The nested loops compute the shift-register specification of the data |
| `Crc.RegisterLinear` | src/u_cx_xmodem.c:77-93 | The register is linear over GF(2), start values included |
| `Crc.ResidueIsZero` | src/u_cx_xmodem.c:173-175 | Data followed by its two CRC octets, high octet first, leaves zero |
| `CrcPolynomial.Division` | src/u_cx_xmodem.c:77-93 | For every start value and bit string: message times x^16 is a multiple of x^16 + x^12 + x^5 + 1 plus the register |
| `CrcPolynomial.RemainderUnique` | src/u_cx_xmodem.c:77-93 | No other polynomial of degree below 16 is a remainder of that division |
| `CrcPolynomial.CrcIsRemainder` | src/u_cx_xmodem.c:77-93 | The CRC is the remainder of M(x) times x^16 modulo the generator, and the only one |
| `CrcPolynomial.BurstDetected` | src/u_cx_xmodem.c:77-93 | Two blocks of equal length that differ in one non-empty burst of at most 16 bits have different CRCs |
| `XmodemReceiver.BurstIsRejected` | src/u_cx_xmodem.c:172-175 | A packet damaged in one such burst of its block or CRC fails the check of the receiver |
| `XmodemReceiver.PacketIsIntact` | src/u_cx_xmodem.c:146-175 | Header, complement and CRC of every packet that is sent pass the checks of the receiver, which then finds number and block |
| `XmodemReceiver.HearOnce` | src/u_cx_xmodem.c:184-234 | The expected packet is taken, and the same packet again is acknowledged but not taken twice, also when numbers wrap |
| `Xmodem.BuildPacket` | src/u_cx_xmodem.c:141-175 | The packet built in place is the specified one for either block size and any amount of data |
| `Xmodem.SendBlock` | src/u_cx_xmodem.c:137-238 | The last ACK, NAK or CAN that was heard decides: 0 if and only if it is an ACK, -3 if and only if it is a CAN, and else -1 after three tries; after an ACK or a CAN nothing more is written or read. A CAN that comes in time after the first write means -3 with that one write. Every write is a copy of the one packet, and the tries are those of the specification (Attempts) |
| `XmodemTrace.ListenIff` | src/u_cx_xmodem.c:196-226 | A wait hears an octet if and only if that is the first one it waits for which a read yields before the time is up |
| `XmodemTrace.RefusedOnce` | src/u_cx_xmodem.c:219-222 | If the first answer to a write that comes in time is a CAN, there is one try and the result is -3 |
| `XmodemReceiver.PacketSpelled` | src/u_cx_xmodem.c:141-175 | The packet octet for octet: 1 or 2 by the block size, number and complement, the block, and two octets that make the CRC of what follows the header zero |
| `XmodemLine.AttemptsAreSafe` | src/u_cx_xmodem.c:181-236 | On every line, with replies as late as may be: the receiver takes the block at most once, and only if it is the one it expects; zero is wrong about a block if and only if an ACK from before the last write ended the tries although the receiver does not have the block (so a late ACK to an earlier try is harmless, and so is one that is lost) |
| `XmodemLine.LateAckDeceives` | src/u_cx_xmodem.c:181-236 | A line and a clock on which the block is reported as sent and never arrives exist if and only if an ACK is under way at the start |
| `XmodemLine.RetryLosesTheNextBlock` | src/u_cx_xmodem.c:181-236 | How that comes about: a try that times out although it arrived leaves a second ACK, and the next block, lost, counts as sent |
| `XmodemLine.PassingLineTakesBlock` | src/u_cx_xmodem.c:181-236 | If one of three writes arrives and its reply comes in time, after only losses, damage and write failures, the block is taken and reported as sent |
| `XmodemLine.WorkingLinePasses` | src/u_cx_xmodem.c:181-236 | A line that delivers everything and answers in time passes any number of blocks and the end |
| `Xmodem.WaitForStart` | src/u_cx_xmodem.c:98-132 | The first of 'C', NAK and CAN that is heard before the time is up gives 0, -2 and -3; none of them gives -1 |
| `Xmodem.SendEot` | src/u_cx_xmodem.c:243-292 | Exactly one EOT; zero exactly if it was written and an ACK is heard in time |
| `XmodemLine.EndIsSafe` | src/u_cx_xmodem.c:243-292 | The same of the end: an ACK to it is wrong if and only if it was under way before and the receiver did not see the end |
| `Xmodem.Send` | src/u_cx_xmodem.c:345-443 | Zero means that the receiver has taken the chunks in order, each once, and the end, if and only if no late ACK was taken for the answer to something it did not have; so whenever none was taken for an answer at all, after any number of retries, and the data then arrive padded at the end in the least number of blocks if the callback fills its reads. None is, if none was under way at the start and no block needed a second try. On a line on which every block gets through in time within three tries, and then the end, the result is zero. The writes are one to three copies per block, numbered from one modulo 256, and one EOT. -3 is returned if and only if a CAN was heard before the EOT, and then nothing was written or read after it; a CAN in time after the first write means -3 with that one write |
| `Xmodem.NumberWraps` | src/u_cx_xmodem.c:368-415 | Block n carries n modulo 256, past any number of wraps |
| `Xmodem.FilledIsData` | src/u_cx_xmodem.c:371-412 | With full reads padding is at the end only and the blocks number ceil(length / size) |
| `Xmodem.PaddingInside` | src/u_cx_xmodem.c:159-162 | For data without 0x1A the copy of the receiver starts with the data if and only if every block but the last was filled: a short callback read puts padding in mid-file |
| `DmaRing.DmaUart.GetDmaWriteCount` | ports/uart/u_port_uart_stm32f4_dma.c:93-105 | Whatever the DMA and the wrap interrupt do between its reads, the count is that of one moment, with just as many wraps counted as when the call returns: the total at that moment, or that less one buffer if the interrupt of its last wrap had not run |
| `DmaRing.DmaUart.Difference` | ports/uart/u_port_uart_stm32f4_dma.c:117-131 | The difference of the 32-bit counters exceeds the buffer exactly if the sample shows an overflow, and otherwise is what the sample shows behind the reader, across any wraps |
| `DmaRing.DmaUart.GetRxBufferAvailable` | ports/uart/u_port_uart_stm32f4_dma.c:107-144 | The last sample decides: what it shows behind the reader is accepted, or after 101 samples that all show an overflow the reader moves to it. Without an overrun that takes one and the same wrap, uncounted at each of the 101 samples, so an interrupt that never ran at one of some 202 accesses. A discard makes octets unread again if and only if the interrupt lagged and the writer was no buffer ahead, and skips unread ones if and only if the counters show more than was read; an overrun is accepted if and only if the interrupt lagged |
| `DmaRing.MisfitLags` | ports/uart/u_port_uart_stm32f4_dma.c:117-131 | While the writer is no buffer ahead a sample shows an overflow if and only if the interrupt of the wrap behind the position of the reader has not run yet |
| `DmaRing.NoOverrun` | ports/uart/u_port_uart_stm32f4_dma.c:117-131 | 101 such samples in a row are impossible if the interrupt gets to run between any access and the end of the samples that begin with it, unless the script of events ends with that wrap uncounted |
| `DmaRing.DmaUart.Read` | ports/uart/u_port_uart_stm32f4_dma.c:324-379 | If the writer does not get a buffer ahead, and the interrupt is not kept waiting through 101 samples, all that was ever delivered stays a prefix of what was written and nothing is discarded, while the DMA goes on writing during the copy and the counters wrap. In any case it delivers min(length, what the last sample shows), from the position of the reader after the discards; a blocking read with nothing there gives up only when its time is up |
| `DmaRing.DeliveredTwice` | ports/uart/u_port_uart_stm32f4_dma.c:130-142 | A run without any overrun in which a discard behind a lagging interrupt takes back an octet that was read, and it is delivered again |
| `DmaRing.OverrunDelivered` | ports/uart/u_port_uart_stm32f4_dma.c:107-144 | A run in which a lagging interrupt hides an overrun, and the newest octet is delivered for the oldest with no overflow counted |
| `DmaRing.DmaUart.Happen` | ports/uart/u_port_uart_stm32f4_dma.c:413-419 | A stored octet or a counted wrap does exactly that and keeps the buffer image and the counters consistent, whether or not it overruns the reader |
| `RingSlots.MirrorNext` | ports/uart/u_port_uart_stm32f4_dma.c:345-362 | Storing the next octet spares all octets less than a buffer behind it, for any buffer size |
| `IrqRing.IrqUart.RxCpltCallback` | ports/uart/u_port_uart_stm32f4_irq.c:288-307 | An octet is dropped exactly when size-1 octets are held, else accepted behind the others |
| `IrqRing.IrqUart.GetRxBufferAvailable` | ports/uart/u_port_uart_stm32f4_irq.c:92-102 | The snapshot is the number held when the head was read, whatever arrives before the tail is |
| `IrqRing.IrqUart.Read` | ports/uart/u_port_uart_stm32f4_irq.c:222-276 | Delivers the next min(length, number held) of what was accepted, with the callback running between any two accesses; with nothing held a blocking read gives up only when its time is up |
| `IrqRing.IrqUart.Copy` | ports/uart/u_port_uart_stm32f4_irq.c:263-275 | The copy loop delivers accepted octets in order and frees them with one store |
| `IrqRing.IrqUart.FlushRx` | ports/uart/u_port_uart_stm32f4_irq.c:347-365 | Flushing empties the ring of exactly what has arrived |

## Left out

- AtReceiver.SplitDoesNotMatter: speaks of octets, not of calls; when idle, `handleRxData` returns at the end of a frame and need not drain the UART, which `HandleRxData` states through the octets it took.
- UrcDispatch.StepKeepsInv: the short critical sections under the queue mutex are single steps; a thread that begins a second command before ending its first is not modelled, since the documentation forbids it.
- AtClient.Client.KeepBytes: what an octet stored behind the end of a buffer overwrites is not modelled; that it happens is recorded.
- AtParams.StrtolOfDecimal: `strtol` is modelled for a 32-bit `long`, with blanks, sign and saturation; on a 64-bit `long` values beyond 32 bits would be cut instead.
- AtText.Ipv6Groups: one direction; what `strtol` takes besides, blanks, a sign or 0x in front of a group, is in the reader (`ReadGroups`) that `Ipv6FromString` equals.
- AtText.IntListIsRead: one direction, for the same reason (`ReadInts`).
- AtAddress.BdFromString: for an empty text the code looks at the octet in front of it; the result is -1 whatever it finds, which is what the model returns.
- AtCodec.SendCmd: format and arguments are one typed list, so a mismatch of the two is not modelled; for more than 65535 octets the 'B' header holds the length modulo 65536.
- IrqRing.IrqUart.Read: a negative timeout waits for ever in the code and until the script of the clock ends in the model.
- DmaRing.DmaUart.Read: assumes no UART error; the resynchronisation after one is left out.
- DmaRing.DmaUart.Happen: an octet that would end a second wrap before the interrupt of the first has run, or put the reader 2^32 - 16384 octets behind, is assumed not to come: the one would lose a wrap count, the other is beyond the 32-bit counters.
- Xmodem.Send: the progress callback and the 10 ms pause between blocks have no effect on what is proved and are left out; a transfer is assumed to meet a receiver at its beginning.
- Crc.ComputeCrc16: the buffer is an array of 8-bit vectors and not the octet type of the other modules, because the loop works on bits.
- Queue headers are little-endian, as on the targets of the ports; character classes are those of the C locale.
- The variant without a URC queue (`U_CX_USE_URC_QUEUE == 0`) is left out: it has none of the state.
- The real clock and command timeouts: a clock answers whether the time is up, and restoring the command timeout is not modelled.
- OS ports, threads and tasks, UART set-up, the F7 and H7 ring ports (same ring as F4 DMA), log output and the generated API are left out.
- `uCxXmodemSendFile`, `uCxAtUtilReplaceChar` and `uCxAtClientDeinit` are left out.
