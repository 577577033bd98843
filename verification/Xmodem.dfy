/**
 The XMODEM-1K/CRC sender.  It runs against a line whose losses, damage, write
 errors, silence, noise and late replies an adversary chooses, with a standard
 receiver at the far end; the clock is the adversary's too.
 */
module Xmodem {
  import opened Bytes
  import opened Crc
  import Timing
  import opened XmodemReceiver
  import opened XmodemLine
  import opened XmodemTrace

  const MAX_RETRIES: nat := 3

  class Line {
    var fates: seq<Fate>
    var sounds: seq<Sound>
    var pending: seq<bv8>           // the replies that are under way, oldest first
    var receiver: Receiver
    ghost var late: nat             // how many of them were so before the latest write
    ghost var wasLate: bool
    ghost var stale: bool
    ghost var deceived: bool
    ghost var sent: seq<seq<bv8>>   // every write the sender made
    ghost var trace: seq<Sign>      // every write, and every octet that was read

    ghost function Now(): Air
      reads this
    {
      Air(fates, sounds, pending, late, receiver, wasLate, stale, deceived)
    }

    constructor (fates: seq<Fate>, sounds: seq<Sound>)
      ensures Now() == Air(fates, sounds, [], 0, Receiver(1, [], 0, false), false, false, false) && sent == [] && trace == []
    {
      this.fates, this.sounds := fates, sounds;
      receiver, pending, sent, trace := Receiver(1, [], 0, false), [], [], [];
      late, wasLate, stale, deceived := 0, false, false, false;
    }

    method Write(octets: seq<bv8>) returns (written: int)
      modifies this
      ensures (Now(), written) == Transmit(old(Now()), octets)
      ensures sent == old(sent) + [octets] && trace == old(trace) + [Wrote(octets)]
    {
      late := |pending|;
      var fate := if fates == [] then Deliver else fates[0];
      fates := Tail(fates);
      written := |octets|;
      match fate {
        case Deliver =>
          Arrive(octets);
        case Lose =>
        case Damage(heard) =>
          Arrive(heard);
        case Fail(count) =>
          written := count;
      }
      sent, trace := sent + [octets], trace + [Wrote(octets)];
    }

    method Arrive(octets: seq<bv8>)
      modifies this`receiver, this`pending
      ensures Now() == Answered(old(Now()), octets)
    {
      var (r, answer) := Hear(receiver, octets);
      receiver, pending := r, pending + [answer];
    }

    /** Reads at most one octet. */
    method Read() returns (octet: Option<bv8>)
      modifies this`sounds, this`pending, this`late, this`wasLate, this`trace
      ensures (Now(), octet) == Next(old(Now()))
      ensures trace == old(trace) + if octet.Some? then [Heard(octet.value)] else []
    {
      var sound := if sounds == [] then Reply else sounds[0];
      sounds, octet := Tail(sounds), None;
      match sound {
        case Quiet =>
        case Reply =>
          octet := if pending == [] then None else Some(pending[0]);
          Pop();
        case Stray(b) =>
          octet := Some(b);
        case Drop =>
          Pop();
      }
      if octet.Some? { trace := trace + [Heard(octet.value)]; }
    }

    method Pop()
      modifies this`pending, this`late, this`wasLate
      ensures Now() == Popped(old(Now()))
    {
      pending, late, wasLate := Tail(pending), if late > 0 then late - 1 else 0, late > 0;
    }

    /** Keeps the record of late ACKs that were taken for an answer. */
    ghost method Judge(octets: seq<bv8>, heard: Option<bv8>)
      modifies this`stale, this`deceived
      ensures Now() == Judged(old(Now()), octets, heard)
    {
      if heard == Some(ACK) && wasLate {
        stale, deceived := true, deceived || !Has(receiver, octets);
      }
    }
  }

  // ----- one block -----

  /** Header, padded data and CRC, built in place. */
  method BuildPacket(packet: array<bv8>, blockNum: bv8, data: seq<bv8>, blockSize: nat)
    requires IsBlockSize(blockSize) && |data| <= blockSize
    requires packet.Length == HEADER_SIZE + 1024 + CRC_SIZE
    modifies packet
    ensures packet[..HEADER_SIZE + blockSize + CRC_SIZE] == Packet(blockNum, Padded(data, blockSize))
  {
    hide Crc16, HighOctet, LowOctet, Packet, Padded;
    packet[0] := if blockSize == 1024 then STX else SOH;
    packet[1] := blockNum;
    packet[2] := !blockNum;
    forall i | 0 <= i < blockSize {
      packet[HEADER_SIZE + i] := PAD;
    }
    forall i | 0 <= i < |data| {
      packet[HEADER_SIZE + i] := data[i];
    }
    PaddedIs(packet[HEADER_SIZE..HEADER_SIZE + blockSize], data, blockSize);
    var crc := ComputeCrc16(packet, HEADER_SIZE, blockSize);
    packet[HEADER_SIZE + blockSize] := HighOctet(crc);
    packet[HEADER_SIZE + blockSize + 1] := LowOctet(crc);
    assert packet[HEADER_SIZE..HEADER_SIZE + blockSize] == Padded(data, blockSize);
    PacketIs(packet[..], blockNum, Padded(data, blockSize));
  }

  lemma PaddedIs(block: seq<bv8>, data: seq<bv8>, blockSize: nat)
    requires |block| == blockSize >= |data|
    requires forall i :: 0 <= i < blockSize ==> block[i] == if i < |data| then data[i] else PAD
    ensures block == Padded(data, blockSize)
  {
  }

  lemma PacketIs(s: seq<bv8>, num: bv8, block: seq<bv8>)
    requires |s| >= HEADER_SIZE + |block| + CRC_SIZE
    requires s[0] == (if |block| == 1024 then STX else SOH) && s[1] == num && s[2] == !num
    requires s[HEADER_SIZE..HEADER_SIZE + |block|] == block
    requires s[HEADER_SIZE + |block|] == HighOctet(Crc16(block)) && s[HEADER_SIZE + |block| + 1] == LowOctet(Crc16(block))
    ensures s[..HEADER_SIZE + |block| + CRC_SIZE] == Packet(num, block)
  {
    hide Crc16, HighOctet, LowOctet;
    assert s[HEADER_SIZE + |block|..HEADER_SIZE + |block| + CRC_SIZE] == CrcOctets(block);
    assert forall i :: 0 <= i < |block| ==> s[HEADER_SIZE + i] == block[i];
  }

  /** The loop of the three waits: reads octets until one counts or the time is up. */
  method Await(line: Line, clock: Timing.Clock, stops: set<bv8>) returns (heard: Option<bv8>)
    modifies line`sounds, line`pending, line`late, line`wasLate, line`trace, clock
    ensures (line.Now(), clock.answers, heard) == Listen(old(line.Now()), old(clock.answers), stops)
    ensures old(line.trace) <= line.trace && Waited(line.trace[|old(line.trace)|..], stops, heard)
  {
    hide Waited;
    heard := None;
    var waiting := true;
    ghost var signs: seq<Sign> := [];
    NothingWaited(stops);
    while waiting
      invariant line.trace == old(line.trace) + signs && Waited(signs, stops, heard) && (waiting ==> heard == None)
      invariant if waiting then
          heard == None && Listen(line.Now(), clock.answers, stops) == Listen(old(line.Now()), old(clock.answers), stops)
        else (line.Now(), clock.answers, heard) == Listen(old(line.Now()), old(clock.answers), stops)
      decreases |clock.answers|, waiting
    {
      var expired := clock.Expired();
      if expired {
        waiting := false;
      } else {
        var octet := line.Read();
        if octet.Some? {
          WaitedMore(signs, stops, octet.value);
          signs := signs + [Heard(octet.value)];
        }
        if octet.Some? && octet.value in stops {
          heard, waiting := octet, false;
        }
      }
    }
  }

  lemma NothingWaited(stops: set<bv8>)
    ensures Waited([], stops, None)
  {
  }

  /** k writes of the same octets. */
  function Copies(octets: seq<bv8>, k: nat): (r: seq<seq<bv8>>)
    ensures |r| == k
  {
    seq(k, i => octets)
  }

  /** xmodemSendBlock: up to three tries with the packet. */
  method SendBlock(line: Line, clock: Timing.Clock, blockNum: bv8, data: seq<bv8>, blockSize: nat) returns (r: int, ghost tries: nat)
    requires IsBlockSize(blockSize) && |data| <= blockSize
    modifies line, clock
    ensures Attempts(old(line.Now()), old(clock.answers), Packet(blockNum, Padded(data, blockSize)), MAX_RETRIES)
            == Outcome(line.Now(), clock.answers, r, tries)
    ensures line.sent == old(line.sent) + Copies(Packet(blockNum, Padded(data, blockSize)), tries)
    // The last ACK, NAK or CAN heard decides, and nothing is written or read behind an ACK or a CAN.
    ensures old(line.trace) <= line.trace && Orderly(line.trace[|old(line.trace)|..], Packet(blockNum, Padded(data, blockSize)))
    ensures r == ResultOf(LastAnswer(line.trace[|old(line.trace)|..]))
    ensures old(IsRefused(line.Now(), clock.answers, Packet(blockNum, Padded(data, blockSize)))) ==> r == -3 && tries == 1
  {
    hide Packet, Hear, Padded, OneTry, Orderly, LastAnswer, Waited, IsRefused;
    var packet := new bv8[HEADER_SIZE + 1024 + CRC_SIZE];
    BuildPacket(packet, blockNum, data, blockSize);
    var octets := packet[..HEADER_SIZE + blockSize + CRC_SIZE];
    r, tries := -1, 0;
    ghost var signs: seq<Sign> := [];
    NothingHeard(octets);
    if IsRefused(line.Now(), clock.answers, octets) { RefusedOnce(line.Now(), clock.answers, octets, MAX_RETRIES); }
    var retry := 0;
    while retry < MAX_RETRIES && r == -1
      invariant 0 <= retry <= MAX_RETRIES && tries == retry
      invariant line.sent == old(line.sent) + Copies(octets, tries)
      invariant line.trace == old(line.trace) + signs && Orderly(signs, octets) && r == ResultOf(LastAnswer(signs))
      invariant var o := Attempts(old(line.Now()), old(clock.answers), octets, MAX_RETRIES);
        if r == -1 then
          var p := Attempts(line.Now(), clock.answers, octets, MAX_RETRIES - retry);
          p.(tries := p.tries + retry) == o
        else Outcome(line.Now(), clock.answers, r, tries) == o
    {
      var heard, now := Try(line, clock, octets, ANSWERS);
      OneMoreTry(signs, octets, now, heard);
      signs := signs + [Wrote(octets)] + now;
      tries := tries + 1;
      match heard {
        case Some(answer) =>
          if answer == ACK { r := 0; } else if answer == CAN { r := -3; }
        case None =>
      }
      retry := retry + 1;
    }
  }

  /** One write and the wait for the answer to it. */
  method Try(line: Line, clock: Timing.Clock, octets: seq<bv8>, stops: set<bv8>)
    returns (heard: Option<bv8>, ghost signs: seq<Sign>)
    modifies line, clock
    ensures (line.Now(), clock.answers, heard) == OneTry(old(line.Now()), old(clock.answers), octets, stops)
    ensures line.sent == old(line.sent) + [octets]
    ensures line.trace == old(line.trace) + [Wrote(octets)] + signs && Waited(signs, stops, heard)
  {
    hide Listen, Judged, Waited;
    NothingWaited(stops);
    var written := line.Write(octets);
    heard, signs := None, [];
    if written == |octets| {
      ghost var before := line.trace;
      heard := Await(line, clock, stops);
      signs := line.trace[|before|..];
      line.Judge(octets, heard);
    }
  }

  lemma NothingHeard(octets: seq<bv8>)
    ensures Orderly([], octets) && LastAnswer([]) == None
  {
  }

  // ----- start and end of a transfer -----

  /** xmodemWaitForStart: only 'C', NAK and CAN end the wait early, and each gives its own code. */
  method WaitForStart(line: Line, clock: Timing.Clock) returns (r: int)
    modifies line`sounds, line`pending, line`late, line`wasLate, line`trace, clock
    ensures Since(old(line.trace), line.trace, r)
    ensures var (air, ticks, heard) := Listen(old(line.Now()), old(clock.answers), {CCHR, NAK, CAN});
      && line.Now() == air && clock.answers == ticks
      && r == match heard
              case None => -1
              case Some(start) => if start == CCHR then 0 else if start == NAK then -2 else -3
  {
    hide Waited;
    var heard := Await(line, clock, {CCHR, NAK, CAN});
    StartIsCalm(line.trace[|old(line.trace)|..], heard);
    r := -1;
    if heard.Some? {
      if heard.value == CCHR {
        r := 0;
      } else if heard.value == NAK {
        r := -2;
      } else {
        r := -3;
      }
    }
  }

  /** xmodemSendEot: one EOT; everything but an ACK is ignored until the time is up. */
  method SendEot(line: Line, clock: Timing.Clock) returns (r: int)
    modifies line, clock
    ensures line.sent == old(line.sent) + [[EOT]]
    ensures Ends(old(line.trace), line.trace, r == 0)
    ensures var (air, ticks, heard) := OneTry(old(line.Now()), old(clock.answers), [EOT], {ACK});
      line.Now() == air && clock.answers == ticks && r == if heard == Some(ACK) then 0 else -1
  {
    hide Waited;
    var heard, signs := Try(line, clock, [EOT], {ACK});
    r := if heard == Some(ACK) then 0 else -1;
    assert line.trace[|old(line.trace)| + 1..] == signs;
    OnlyAck(signs, heard);
  }

  lemma OnlyAck(signs: seq<Sign>, heard: Option<bv8>)
    requires Waited(signs, {ACK}, heard)
    ensures heard == None || heard == Some(ACK)
  {
  }

  // ----- a whole transfer -----

  /** The caller's data callback: it may fill less than asked for, or fail. */
  class Source {
    const data: seq<bv8>
    var answers: seq<int>

    constructor (data: seq<bv8>, answers: seq<int>)
      ensures this.data == data && this.answers == answers
    {
      this.data, this.answers := data, answers;
    }

    /** Never more than asked for; exactly that once the script of short returns is used up. */
    method Provide(buffer: array<bv8>, offset: nat, request: nat) returns (count: int)
      requires request <= buffer.Length && offset + request <= |data|
      modifies this, buffer
      ensures count == Given(old(answers), request)
      ensures answers == Tail(old(answers))
      ensures count >= 0 ==> buffer[..count] == data[offset..offset + count]
    {
      count := request;
      if answers != [] {
        count := if answers[0] < request then answers[0] else request;
      }
      answers := Tail(answers);
      if count >= 0 {
        forall i | 0 <= i < count {
          buffer[i] := data[offset + i];
        }
        assert buffer[..count] == data[offset..offset + count];
      }
    }
  }

  /** What the callback gives when it is asked for so much. */
  function Given(answers: seq<int>, request: nat): int {
    if answers == [] then request else Min(answers[0], request)
  }

  /** How many blocks it takes to send so much of the data. */
  function Blocks(answers: seq<int>, left: nat, blockSize: nat): nat
    requires blockSize > 0
    decreases left
  {
    if left == 0 then 0
    else
      var given := Given(answers, Min(left, blockSize));
      if given <= 0 then 1 else 1 + Blocks(Tail(answers), left - given, blockSize)
  }

  lemma {:induction false} FullBlocks(left: nat, blockSize: nat)
    requires IsBlockSize(blockSize)
    ensures Blocks([], left, blockSize) == Ceiling(left, blockSize)
    decreases left
  {
    if left > 0 {
      FullBlocks(left - Min(left, blockSize), blockSize);
      assert blockSize == 128 || blockSize == 1024;
    }
  }

  /** A callback that gives something whenever it is asked. */
  predicate Generous(answers: seq<int>) {
    forall i :: 0 <= i < |answers| ==> answers[i] > 0
  }

  /** The number on the n-th block, counted from one. */
  function Number(n: nat): bv8 {
    if n == 0 then 0 else Number(n - 1) + 1
  }

  lemma NumberNext(n: nat)
    ensures Number(n + 1) == Number(n) + 1 && Number(0) == 0
  {
  }

  /** An octet counter that wraps after 255. */
  lemma {:induction false} NumberWraps(n: nat)
    ensures Number(n) as nat == n % 256
  {
    hide Number;
    NumberNext(0);
    if n > 0 {
      NumberWraps(n - 1);
      NumberNext(n - 1);
      NextOctet(Number(n - 1));
      NextRemainder(n - 1);
    }
  }

  lemma NextRemainder(n: nat)
    ensures (n + 1) % 256 == if n % 256 == 255 then 0 else n % 256 + 1
  {
  }

  lemma NextOctet(b: bv8)
    ensures (b + 1) as nat == if b == 255 then 0 else b as nat + 1
  {
  }

  function Joined(chunks: seq<seq<bv8>>): seq<bv8> {
    if chunks == [] then [] else Joined(chunks[..|chunks| - 1]) + chunks[|chunks| - 1]
  }

  predicate Fit(chunks: seq<seq<bv8>>, blockSize: nat) {
    forall i :: 0 <= i < |chunks| ==> 1 <= |chunks[i]| <= blockSize
  }

  /** Every block but the last one is full. */
  predicate Filled(chunks: seq<seq<bv8>>, blockSize: nat) {
    forall i :: 0 <= i < |chunks| - 1 ==> |chunks[i]| == blockSize
  }

  function PaddedAll(chunks: seq<seq<bv8>>, blockSize: nat): (r: seq<bv8>)
    requires Fit(chunks, blockSize)
    ensures |r| == |chunks| * blockSize
  {
    if chunks == [] then []
    else PaddedAll(chunks[..|chunks| - 1], blockSize) + Padded(chunks[|chunks| - 1], blockSize)
  }

  /** The writes of a run: tries[i] copies of the packet that carries chunks[i] under number i+1. */
  function Writes(chunks: seq<seq<bv8>>, tries: seq<nat>, blockSize: nat): seq<seq<bv8>>
    requires Fit(chunks, blockSize) && |tries| == |chunks|
  {
    if chunks == [] then []
    else
      var n := |chunks| - 1;
      Writes(chunks[..n], tries[..n], blockSize) + Copies(Packet(Number(n + 1), Padded(chunks[n], blockSize)), tries[n])
  }

  function Ceiling(n: nat, blockSize: nat): nat
    requires blockSize > 0
  {
    (n + blockSize - 1) / blockSize
  }

  /** How far a run got: the receiver has taken these chunks, each once and in order. */
  predicate Took(r: Receiver, chunks: seq<seq<bv8>>, blockSize: nat)
    requires Fit(chunks, blockSize)
  {
    r.accepted == PaddedAll(chunks, blockSize) && r.blocks == |chunks| && r.expected == Number(|chunks| + 1)
  }

  /** At most the last of the chunks is missing: its acknowledgement decides. */
  predicate TookMost(r: Receiver, chunks: seq<seq<bv8>>, blockSize: nat)
    requires Fit(chunks, blockSize)
  {
    || Took(r, chunks, blockSize)
    || (chunks != [] && Took(r, chunks[..|chunks| - 1], blockSize))
  }

  lemma TookNext(r: Receiver, chunks: seq<seq<bv8>>, chunk: seq<bv8>, blockSize: nat)
    requires Fit(chunks, blockSize) && 1 <= |chunk| <= blockSize && Took(r, chunks, blockSize)
    ensures r.expected == Number(|chunks| + 1)
    ensures Fit(chunks + [chunk], blockSize) && TookMost(r, chunks + [chunk], blockSize)
    ensures Took(Accept(r, Padded(chunk, blockSize)), chunks + [chunk], blockSize)
    ensures TookMost(Accept(r, Padded(chunk, blockSize)), chunks + [chunk], blockSize)
  {
    assert (chunks + [chunk])[..|chunks|] == chunks;
  }

  /** What has been asked of the line so far: chunks of the data in order, each written 1 to 3 times. */
  predicate Asked(chunks: seq<seq<bv8>>, tries: seq<nat>, data: seq<bv8>, sent: seq<seq<bv8>>, blockSize: nat) {
    && Fit(chunks, blockSize) && |tries| == |chunks|
    && (forall i :: 0 <= i < |tries| ==> 1 <= tries[i] <= MAX_RETRIES)
    && Joined(chunks) <= data
    && sent == Writes(chunks, tries, blockSize)
  }

  lemma AskedNext(chunks: seq<seq<bv8>>, tries: seq<nat>, data: seq<bv8>, sent: seq<seq<bv8>>, blockSize: nat,
                  chunk: seq<bv8>, t: nat)
    requires Asked(chunks, tries, data, sent, blockSize)
    requires 1 <= |chunk| <= blockSize && 1 <= t <= MAX_RETRIES
    requires chunk <= data[|Joined(chunks)|..]
    ensures Asked(chunks + [chunk], tries + [t], data,
                  sent + Copies(Packet(Number(|chunks| + 1), Padded(chunk, blockSize)), t), blockSize)
    ensures Joined(chunks + [chunk]) == Joined(chunks) + chunk
  {
    hide Packet, Padded, Number;
    assert (chunks + [chunk])[..|chunks|] == chunks;
    assert (tries + [t])[..|chunks|] == tries;
  }

  /** Full reads: the receiver gets the data, padded once at its end, in the fewest blocks. */
  lemma FilledIsData(chunks: seq<seq<bv8>>, blockSize: nat)
    requires IsBlockSize(blockSize) && Fit(chunks, blockSize) && Filled(chunks, blockSize)
    ensures |Joined(chunks)| <= |chunks| * blockSize
    ensures PaddedAll(chunks, blockSize) == Joined(chunks) + Padding(|chunks| * blockSize - |Joined(chunks)|)
    ensures |chunks| == Ceiling(|Joined(chunks)|, blockSize)
  {
    hide PaddedAll, Joined;
    if chunks == [] {
      EmptyParts(blockSize);
    } else {
      var n := |chunks| - 1;
      FullIsData(chunks[..n], blockSize);
      SizeIs(n, |chunks[n]|, blockSize);
      LastParts(chunks, blockSize);
    }
  }

  lemma EmptyParts(blockSize: nat)
    ensures Joined([]) == [] && PaddedAll([], blockSize) == []
  {
  }

  lemma LastParts(chunks: seq<seq<bv8>>, blockSize: nat)
    requires Fit(chunks, blockSize) && chunks != []
    ensures Joined(chunks) == Joined(chunks[..|chunks| - 1]) + chunks[|chunks| - 1]
    ensures PaddedAll(chunks, blockSize)
         == PaddedAll(chunks[..|chunks| - 1], blockSize) + Padded(chunks[|chunks| - 1], blockSize)
  {
  }

  predicate AllFull(chunks: seq<seq<bv8>>, blockSize: nat) {
    forall i :: 0 <= i < |chunks| ==> |chunks[i]| == blockSize
  }

  lemma FilledNext(chunks: seq<seq<bv8>>, chunk: seq<bv8>, blockSize: nat)
    ensures AllFull(chunks, blockSize) ==> Filled(chunks + [chunk], blockSize)
    ensures AllFull(chunks, blockSize) && |chunk| == blockSize ==> AllFull(chunks + [chunk], blockSize)
  {
  }

  lemma {:induction false} FullIsData(chunks: seq<seq<bv8>>, blockSize: nat)
    requires IsBlockSize(blockSize) && AllFull(chunks, blockSize)
    ensures |Joined(chunks)| == |chunks| * blockSize
    ensures PaddedAll(chunks, blockSize) == Joined(chunks)
  {
    if chunks != [] {
      var n := |chunks| - 1;
      FullIsData(chunks[..n], blockSize);
      SizeIs(n, blockSize, blockSize);
      assert Padded(chunks[n], blockSize) == chunks[n];
    }
  }

  lemma SizeIs(n: nat, last: nat, blockSize: nat)
    requires IsBlockSize(blockSize) && 1 <= last <= blockSize
    ensures (n + 1) * blockSize == n * blockSize + blockSize
    ensures Ceiling(n * blockSize + last, blockSize) == n + 1
  {
    if blockSize == 128 {
      assert Ceiling(n * 128 + last, 128) == n + 1;
    } else {
      assert Ceiling(n * 1024 + last, 1024) == n + 1;
    }
  }

  /**
   A short read in mid-file puts padding there.  For data without padding octets the receiver's
   copy starts with the data exactly when every block but the last was full.
   */
  lemma PaddingInside(chunks: seq<seq<bv8>>, blockSize: nat)
    requires IsBlockSize(blockSize) && Fit(chunks, blockSize) && PAD !in Joined(chunks)
    ensures Joined(chunks) <= PaddedAll(chunks, blockSize) <==> Filled(chunks, blockSize)
  {
    if Filled(chunks, blockSize) {
      FilledIsData(chunks, blockSize);
    } else {
      var i := FirstShort(chunks, blockSize);
      JoinedAt(chunks, i + 1);
      PaddedAt(chunks, i, blockSize);
      FullIsData(chunks[..i], blockSize);
      var at := i * blockSize + |chunks[i]|;
      assert chunks[..i + 1][..i] == chunks[..i];
      assert at < |Joined(chunks)| && Joined(chunks)[at] == chunks[i + 1][0];
      assert PaddedAll(chunks, blockSize)[at] == PAD;
    }
  }

  lemma FirstShort(chunks: seq<seq<bv8>>, blockSize: nat) returns (i: nat)
    requires Fit(chunks, blockSize) && !Filled(chunks, blockSize)
    ensures i < |chunks| - 1 && |chunks[i]| < blockSize
    ensures forall j :: 0 <= j < i ==> |chunks[j]| == blockSize
  {
    i := 0;
    while |chunks[i]| == blockSize
      invariant i < |chunks| - 1
      invariant forall j :: 0 <= j < i ==> |chunks[j]| == blockSize
      decreases |chunks| - i
    {
      i := i + 1;
    }
  }

  /** Where chunk k starts in the data. */
  lemma {:induction false} JoinedAt(chunks: seq<seq<bv8>>, k: nat)
    requires k < |chunks|
    ensures Joined(chunks[..k]) + chunks[k] <= Joined(chunks)
  {
    var n := |chunks| - 1;
    if k < n {
      JoinedAt(chunks[..n], k);
      assert chunks[..n][..k] == chunks[..k];
    }
  }

  /** Where block k starts in what the receiver has. */
  lemma {:induction false} PaddedAt(chunks: seq<seq<bv8>>, k: nat, blockSize: nat)
    requires k < |chunks| && Fit(chunks, blockSize)
    ensures PaddedAll(chunks[..k], blockSize) + Padded(chunks[k], blockSize) <= PaddedAll(chunks, blockSize)
  {
    var n := |chunks| - 1;
    if k < n {
      PaddedAt(chunks[..n], k, blockSize);
      assert chunks[..n][..k] == chunks[..k];
    }
  }

  function PacketSize(blockSize: nat): nat {
    HEADER_SIZE + blockSize + CRC_SIZE
  }

  /** The line passes what is left to send, every block within its tries. */
  ghost predicate Easy(line: Line, clock: Timing.Clock, source: Source, left: nat, blockSize: nat)
    requires blockSize > 0
    reads line, clock, source
  {
    && Clear(line.Now()) && !line.stale && Generous(source.answers)
    && Passes(line.fates, clock.answers, PacketSize(blockSize), MAX_RETRIES, Blocks(source.answers, left, blockSize))
  }

  /** The same once the receiver has said that it is ready. */
  ghost predicate Ready(line: Line, clock: Timing.Clock, source: Source, blockSize: nat)
    requires blockSize > 0
    reads line, clock, source
  {
    && line.sounds == [Stray(CCHR)] && line.pending == [] && InTime(clock.answers, 1) && Generous(source.answers)
    && Passes(line.fates, clock.answers[1..], PacketSize(blockSize), MAX_RETRIES,
              Blocks(source.answers, |source.data|, blockSize))
  }

  /** The receiver is ready, and its answer to the first packet, in time, is a CAN. */
  ghost predicate RefusedAtOnce(line: Line, clock: Timing.Clock, source: Source, blockSize: nat)
    requires IsBlockSize(blockSize) && source.data != []
    reads line, clock, source
  {
    var (air, ticks, heard) := Listen(line.Now(), clock.answers, {CCHR, NAK, CAN});
    heard == Some(CCHR) && FirstRefused(air, ticks, source.answers, source.data, blockSize)
  }

  ghost predicate FirstRefused(a: Air, ticks: seq<bool>, answers: seq<int>, data: seq<bv8>, blockSize: nat)
    requires IsBlockSize(blockSize) && data != []
  {
    var given := Given(answers, Min(|data|, blockSize));
    given > 0 && IsRefused(a, ticks, Packet(1, Padded(data[..given], blockSize)))
  }

  /** No block needed a second try. */
  predicate AtOnce(tries: seq<nat>) {
    forall i :: 0 <= i < |tries| ==> tries[i] == 1
  }

  lemma AtOnceNext(tries: seq<nat>, t: nat)
    ensures AtOnce(tries + [t]) <==> AtOnce(tries) && t == 1
  {
    assert tries == (tries + [t])[..|tries|] && (tries + [t])[|tries|] == t;
  }

  /**
   uCxXmodemSend.  Zero means that the receiver has taken the chunks the callback gave, each once and
   in order, and the end, exactly if no late ACK was taken for the answer to something that it did not
   have; so whenever no late ACK was taken for an answer at all, as when late replies are lost or no
   block is repeated.  A line on which every block gets through in time within three tries, and then
   the end, leads to zero.
   */
  method Send(line: Line, clock: Timing.Clock, isOpen: bool, use1K: bool, source: Source?)
    returns (r: int, ghost chunks: seq<seq<bv8>>, ghost tries: seq<nat>, ghost sent: seq<seq<bv8>>)
    requires Fair(line.Now()) && line.receiver == Receiver(1, [], 0, false) && !line.stale && !line.deceived
    modifies line, clock, source
    ensures r in {0, -1, -2, -3, -4}
    ensures Asked(chunks, tries, if source == null then [] else source.data, sent, Size(use1K))
    ensures line.sent == old(line.sent) + sent || line.sent == old(line.sent) + sent + [[EOT]]
    ensures source == null || source.data == [] || !isOpen ==> r == -1 && line.sent == old(line.sent)
    ensures r == 0 ==> Joined(chunks) == source.data && line.sent == old(line.sent) + sent + [[EOT]]
    ensures source != null && old(source.answers) == [] ==> Filled(chunks, Size(use1K))
    ensures line.deceived ==> line.stale
    ensures r == 0 ==> (line.receiver.done && Took(line.receiver, chunks, Size(use1K)) <==> !line.deceived)
    ensures !line.deceived ==> TookMost(line.receiver, chunks, Size(use1K))
    ensures r == 0 && !line.deceived && old(source.answers) == [] ==> Delivered(line.receiver, source.data, Size(use1K))
    ensures ACK !in old(line.pending) && AtOnce(tries) ==> !line.stale
    ensures source != null && source.data != [] && isOpen && old(Ready(line, clock, source, Size(use1K))) ==>
      r == 0 && !line.stale
    // -3 means exactly that a CAN was heard before the end was written, and nothing has happened since;
    // otherwise no CAN was heard, unless after the end.
    ensures old(line.trace) <= line.trace && var signs := line.trace[|old(line.trace)|..];
      && (r == -3 <==> Cancelled(signs))
      && (r != -3 ==> (r != 0 && Calm(signs)) || Closed(signs, r == 0))
    ensures source != null && source.data != [] && isOpen && old(RefusedAtOnce(line, clock, source, Size(use1K))) ==>
      r == -3 && |sent| == 1 && line.sent == old(line.sent) + sent
  {
    hide Took, Writes, Packet, Padded, PaddedAll, Joined, Number, Delivered, Fair, Generous, Acks, Listen,
         Passes, Blocks, InTime, Since, Ends, Cancelled, Calm, Closed, FirstRefused;
    chunks, tries, sent := [], [], [];
    NothingYet(line.receiver, Size(use1K));
    SinceNothing(line.trace, -1);
    if !isOpen || source == null || |source.data| == 0 {
      r := -1;
      SinceIs(old(line.trace), line.trace, r);
    } else {
      StartFacts(line, clock, source, Size(use1K));
      r := WaitForStart(line, clock);
      ghost var started := line.trace;
      if r == 0 {
        r, chunks, tries, sent := SendBlocks(line, clock, Size(use1K), source);
        SinceThen(old(line.trace), started, line.trace, r);
      }
      if r == 0 {
        ghost var all := line.trace;
        r := Finish(line, clock, Size(use1K), source, chunks);
        EndsClosed(old(line.trace), all, line.trace, r == 0);
      } else {
        SinceIs(old(line.trace), line.trace, r);
      }
    }
  }

  lemma StartFacts(line: Line, clock: Timing.Clock, source: Source, blockSize: nat)
    requires Fair(line.Now()) && blockSize > 0
    ensures var (air, ticks, heard) := Listen(line.Now(), clock.answers, {CCHR, NAK, CAN});
      && Fair(air) && Same(line.Now(), air) && Acks(air.pending) <= Acks(line.pending)
      && (Ready(line, clock, source, blockSize) ==>
            && heard == Some(CCHR) && Clear(air)
            && Passes(air.fates, ticks, PacketSize(blockSize), MAX_RETRIES, Blocks(source.answers, |source.data|, blockSize)))
    ensures Acks(line.pending) == 0 <==> ACK !in line.pending
  {
    hide Passes, Blocks;
    ListenFacts(line.Now(), clock.answers, {CCHR, NAK, CAN});
    LastReply(line.pending, ACK);
  }

  /** The end, after all blocks. */
  method Finish(line: Line, clock: Timing.Clock, blockSize: nat, source: Source, ghost chunks: seq<seq<bv8>>) returns (r: int)
    requires Fair(line.Now()) && IsBlockSize(blockSize) && Fit(chunks, blockSize) && Joined(chunks) == source.data
    requires Reached(line.receiver, line.deceived, true, chunks, blockSize) && (line.deceived ==> line.stale)
    modifies line, clock
    ensures r in {0, -1} && line.sent == old(line.sent) + [[EOT]] && (line.deceived ==> line.stale)
    ensures Ends(old(line.trace), line.trace, r == 0)
    ensures !line.deceived ==> Took(line.receiver, chunks, blockSize)
    ensures r == 0 ==> (line.receiver.done && Took(line.receiver, chunks, blockSize) <==> !line.deceived)
    ensures r == 0 && !line.deceived && Filled(chunks, blockSize) ==> Delivered(line.receiver, source.data, blockSize)
    ensures Acks(old(line.pending)) == 0 ==> line.stale == old(line.stale)
    ensures old(Easy(line, clock, source, 0, blockSize)) ==> r == 0 && !line.stale
  {
    hide Took, Joined, Delivered, Fair, InTime, Generous, OneTry, Filled, Acks, Padded, Number, PaddedAll;
    LastReply(line.pending, ACK);
    EndIsSafe(line.Now(), clock.answers);
    TookToTheEnd(line.receiver, chunks, blockSize);
    if Easy(line, clock, source, 0, blockSize) {
      PassingEnd(line.Now(), clock.answers);
    }
    ghost var before := line.receiver;
    r := SendEot(line, clock);
    if Took(before, chunks, blockSize) && Filled(chunks, blockSize) {
      FilledIsDelivered(before, source.data, chunks, blockSize);
    }
  }

  /** The data, then padding up to the end of the last of as few blocks as it takes. */
  predicate Delivered(r: Receiver, data: seq<bv8>, blockSize: nat)
    requires IsBlockSize(blockSize)
  {
    var n := Ceiling(|data|, blockSize);
    n * blockSize >= |data| && r.accepted == data + Padding(n * blockSize - |data|) && r.blocks == n
  }

  lemma FilledIsDelivered(r: Receiver, data: seq<bv8>, chunks: seq<seq<bv8>>, blockSize: nat)
    requires IsBlockSize(blockSize) && Fit(chunks, blockSize) && Filled(chunks, blockSize)
    requires Took(r, chunks, blockSize) && Joined(chunks) == data
    ensures Delivered(r, data, blockSize) && Delivered(r.(done := true), data, blockSize)
  {
    hide PaddedAll, Joined, Number;
    FilledIsData(chunks, blockSize);
  }

  function Size(use1K: bool): nat {
    if use1K then 1024 else 128
  }

  lemma NothingYet(r: Receiver, blockSize: nat)
    requires r == Receiver(1, [], 0, false)
    ensures Took(r, [], blockSize) && TookMost(r, [], blockSize)
    ensures Writes([], [], blockSize) == [] && Joined([]) == []
  {
    assert Number(1) == 1;
  }

  /** What the sender has done between two blocks; `whole` says that no block has failed. */
  predicate Progress(data: seq<bv8>, offset: nat, blockNum: bv8, whole: bool,
                     chunks: seq<seq<bv8>>, tries: seq<nat>, sent: seq<seq<bv8>>, blockSize: nat) {
    && Asked(chunks, tries, data, sent, blockSize)
    && (whole ==> offset <= |data| && Joined(chunks) == data[..offset] && blockNum == Number(|chunks| + 1))
  }

  /** What the receiver has then: once it was deceived, it has missed a block for good. */
  predicate Reached(r: Receiver, deceived: bool, whole: bool, chunks: seq<seq<bv8>>, blockSize: nat) {
    && Fit(chunks, blockSize)
    && (if deceived then r.blocks < |chunks|
        else TookMost(r, chunks, blockSize) && (whole ==> Took(r, chunks, blockSize)))
  }

  lemma ProgressNext(data: seq<bv8>, offset: nat, blockNum: bv8, whole: bool,
                     chunks: seq<seq<bv8>>, tries: seq<nat>, sent: seq<seq<bv8>>, blockSize: nat, chunk: seq<bv8>, t: nat)
    requires Progress(data, offset, blockNum, true, chunks, tries, sent, blockSize)
    requires 1 <= |chunk| <= blockSize && 1 <= t <= MAX_RETRIES
    requires offset + |chunk| <= |data| && chunk == data[offset..offset + |chunk|]
    ensures Progress(data, if whole then offset + |chunk| else offset, if whole then blockNum + 1 else blockNum, whole,
                     chunks + [chunk], tries + [t],
                     sent + Copies(Packet(blockNum, Padded(chunk, blockSize)), t), blockSize)
  {
    hide Writes, Packet, Padded, PaddedAll, Joined, Fit, Copies, Number;
    AskedNext(chunks, tries, data, sent, blockSize, chunk, t);
    NumberNext(|chunks| + 1);
    assert data[..offset] + chunk == data[..offset + |chunk|];
  }

  lemma ReachedNext(r: Receiver, after: Receiver, was: bool, deceived: bool, whole: bool,
                    chunks: seq<seq<bv8>>, blockSize: nat, chunk: seq<bv8>)
    requires Reached(r, was, true, chunks, blockSize) && 1 <= |chunk| <= blockSize
    requires after == Accept(r, Padded(chunk, blockSize)) || after == r
    requires was ==> deceived
    requires !was ==> (deceived <==> whole && after == r)
    ensures Reached(after, deceived, whole, chunks + [chunk], blockSize)
  {
    hide Padded, PaddedAll, Number;
    if !was {
      TookNext(r, chunks, chunk, blockSize);
      NotTaken(r, Padded(chunk, blockSize));
    }
  }

  lemma NotTaken(r: Receiver, block: seq<bv8>)
    ensures Accept(r, block) != r
  {
  }

  lemma ReachedExpects(r: Receiver, deceived: bool, data: seq<bv8>, offset: nat, blockNum: bv8,
                       chunks: seq<seq<bv8>>, tries: seq<nat>, sent: seq<seq<bv8>>, blockSize: nat)
    requires Progress(data, offset, blockNum, true, chunks, tries, sent, blockSize)
    requires Reached(r, deceived, true, chunks, blockSize)
    ensures !deceived ==> r.expected == blockNum
    ensures Reached(r, deceived, false, chunks, blockSize)
    ensures Progress(data, offset, blockNum, false, chunks, tries, sent, blockSize)
  {
    hide Asked, TookMost, Number, Joined;
  }

  /** The block loop of uCxXmodemSend. */
  method SendBlocks(line: Line, clock: Timing.Clock, blockSize: nat, source: Source)
    returns (r: int, ghost chunks: seq<seq<bv8>>, ghost tries: seq<nat>, ghost sent: seq<seq<bv8>>)
    requires Fair(line.Now()) && line.receiver == Receiver(1, [], 0, false) && IsBlockSize(blockSize)
    requires !line.stale && !line.deceived
    modifies line, clock, source
    ensures Fair(line.Now()) && r in {0, -1, -3, -4} && (line.deceived ==> line.stale)
    ensures Asked(chunks, tries, source.data, sent, blockSize) && line.sent == old(line.sent) + sent
    ensures Since(old(line.trace), line.trace, r)
    ensures source.data != [] && old(FirstRefused(line.Now(), clock.answers, source.answers, source.data, blockSize)) ==>
      r == -3 && |sent| == 1
    ensures r == 0 ==> Joined(chunks) == source.data
    ensures Reached(line.receiver, line.deceived, r == 0, chunks, blockSize)
    ensures old(source.answers) == [] ==> Filled(chunks, blockSize)
    ensures Acks(old(line.pending)) == 0 && AtOnce(tries) ==> !line.stale && (r == 0 ==> Acks(line.pending) == 0)
    ensures old(Easy(line, clock, source, |source.data|, blockSize)) ==> r == 0 && Easy(line, clock, source, 0, blockSize)
  {
    hide Progress, Filled, AllFull, Reached, Fair, Easy, Generous, Acks, AtOnce, Since, FirstRefused;
    r, chunks, tries, sent := 0, [], [], [];
    var buffer := new bv8[1024];
    var blockNum: bv8 := 1;
    var offset := 0;
    Started(line.receiver, source.data, blockSize);
    SinceNothing(line.trace, 0);
    ghost var refused := source.data != [] && FirstRefused(line.Now(), clock.answers, source.answers, source.data, blockSize);
    while offset < |source.data| && r == 0
      invariant Since(old(line.trace), line.trace, r)
      invariant refused && r == 0 ==>
        && offset == 0 && blockNum == 1 && sent == []
        && FirstRefused(line.Now(), clock.answers, source.answers, source.data, blockSize)
      invariant refused && r != 0 ==> r == -3 && |sent| == 1
      invariant Fair(line.Now()) && r in {0, -1, -3, -4} && 0 <= offset <= |source.data|
      invariant Progress(source.data, offset, blockNum, r == 0, chunks, tries, sent, blockSize)
      invariant Reached(line.receiver, line.deceived, r == 0, chunks, blockSize) && (line.deceived ==> line.stale)
      invariant line.sent == old(line.sent) + sent
      invariant old(source.answers) == [] ==> source.answers == [] && Filled(chunks, blockSize)
      invariant old(source.answers) == [] && r == 0 && offset < |source.data| ==> AllFull(chunks, blockSize)
      invariant Acks(old(line.pending)) == 0 && AtOnce(tries) ==> !line.stale && (r == 0 ==> Acks(line.pending) == 0)
      invariant old(Easy(line, clock, source, |source.data|, blockSize)) ==>
        r == 0 && Easy(line, clock, source, |source.data| - offset, blockSize)
      decreases |source.data| - offset, if r == 0 then 1 else 0
    {
      var bytesRead: int;
      ghost var trace := line.trace;
      r, bytesRead, chunks, tries, sent :=
        SendNext(line, clock, source, buffer, offset, blockNum, blockSize, old(line.sent), chunks, tries, sent);
      SinceThen(old(line.trace), trace, line.trace, r);
      if r == 0 {
        offset := offset + bytesRead;
        blockNum := blockNum + 1;
      }
    }
    Ended(source.data, offset, blockNum, r == 0, chunks, tries, sent, blockSize);
  }

  lemma Ended(data: seq<bv8>, offset: nat, blockNum: bv8, whole: bool,
              chunks: seq<seq<bv8>>, tries: seq<nat>, sent: seq<seq<bv8>>, blockSize: nat)
    requires Progress(data, offset, blockNum, whole, chunks, tries, sent, blockSize)
    ensures Asked(chunks, tries, data, sent, blockSize)
    ensures whole && offset == |data| ==> Joined(chunks) == data
  {
    hide Joined;
  }

  /** Asks the callback for the next block's data and sends it. */
  method SendNext(line: Line, clock: Timing.Clock, source: Source, buffer: array<bv8>, offset: nat, blockNum: bv8, blockSize: nat,
                  ghost before: seq<seq<bv8>>,
                  ghost chunks0: seq<seq<bv8>>, ghost tries0: seq<nat>, ghost sent0: seq<seq<bv8>>)
    returns (r: int, bytesRead: int, ghost chunks: seq<seq<bv8>>, ghost tries: seq<nat>, ghost sent: seq<seq<bv8>>)
    requires Fair(line.Now()) && IsBlockSize(blockSize) && buffer.Length == 1024 && offset < |source.data|
    requires Progress(source.data, offset, blockNum, true, chunks0, tries0, sent0, blockSize)
    requires Reached(line.receiver, line.deceived, true, chunks0, blockSize) && (line.deceived ==> line.stale)
    requires line.sent == before + sent0
    modifies line, clock, source, buffer
    ensures Fair(line.Now()) && r in {0, -1, -3, -4}
    ensures r == 0 ==> 0 < bytesRead <= |source.data| - offset
    ensures Progress(source.data, if r == 0 then offset + bytesRead else offset,
                     if r == 0 then blockNum + 1 else blockNum, r == 0, chunks, tries, sent, blockSize)
    ensures Reached(line.receiver, line.deceived, r == 0, chunks, blockSize) && (line.deceived ==> line.stale)
    ensures line.sent == before + sent && Since(old(line.trace), line.trace, r)
    ensures old(FirstRefused(line.Now(), clock.answers, source.answers, source.data, blockSize)) && offset == 0 && blockNum == 1 ==>
      r == -3 && |sent| == |sent0| + 1
    ensures old(source.answers) == [] ==> source.answers == [] && (AllFull(chunks0, blockSize) ==> Filled(chunks, blockSize))
    ensures old(source.answers) == [] && AllFull(chunks0, blockSize) ==>
      offset + bytesRead == |source.data| || AllFull(chunks, blockSize)
    ensures AtOnce(tries) ==> AtOnce(tries0)
    ensures AtOnce(tries) && Acks(old(line.pending)) == 0 && !old(line.stale) ==>
      !line.stale && (r == 0 ==> Acks(line.pending) == 0)
    ensures old(Easy(line, clock, source, |source.data| - offset, blockSize)) ==>
      r == 0 && Easy(line, clock, source, |source.data| - offset - bytesRead, blockSize)
  {
    hide Progress, Filled, AllFull, Reached, Packet, Padded, Fit, Copies, Number, Fair, Attempts, Acks, Passes, PassesBlock, Clear,
         Blocks, Generous, Orderly, LastAnswer, IsRefused, Since, AtOnce, ResultOf;
    var remaining := |source.data| - offset;
    var request := if remaining < blockSize then remaining else blockSize;
    ghost var easy, answers := Easy(line, clock, source, remaining, blockSize), source.answers;
    ghost var trace := line.trace;
    bytesRead := source.Provide(buffer, offset, request);
    SinceNothing(trace, -4);
    r, chunks, tries, sent := -4, chunks0, tries0, sent0;
    ReachedExpects(line.receiver, line.deceived, source.data, offset, blockNum, chunks, tries, sent, blockSize);
    if easy { OneBlock(line.fates, clock.answers, answers, remaining, blockSize); }
    if bytesRead > 0 {
      ghost var chunk, t, receiver, deceived := buffer[..bytesRead], 0, line.receiver, line.deceived;
      BlockFacts(line.Now(), clock.answers, blockNum, Padded(chunk, blockSize));
      r, t := SendBlock(line, clock, blockNum, buffer[..bytesRead], blockSize);
      BlockSince(trace, line.trace, Packet(blockNum, Padded(chunk, blockSize)), r);
      ProgressNext(source.data, offset, blockNum, r == 0, chunks, tries, sent, blockSize, chunk, t);
      ReachedNext(receiver, line.receiver, deceived, line.deceived, r == 0, chunks, blockSize, chunk);
      FilledNext(chunks, chunk, blockSize);
      AtOnceNext(tries0, t);
      chunks, tries := chunks + [chunk], tries + [t];
      sent := sent + Copies(Packet(blockNum, Padded(chunk, blockSize)), t);
    }
  }

  lemma BlockSince(before: seq<Sign>, after: seq<Sign>, octets: seq<bv8>, r: int)
    requires before <= after && Orderly(after[|before|..], octets) && |octets| > 1
    requires r == ResultOf(LastAnswer(after[|before|..]))
    ensures Since(before, after, r)
  {
    hide Orderly, LastAnswer;
    BlockIsCalm(after[|before|..], octets);
  }

  /** The part of an easy transfer that is the next block. */
  lemma OneBlock(fates: seq<Fate>, ticks: seq<bool>, answers: seq<int>, left: nat, blockSize: nat)
    requires left > 0 && blockSize > 0 && Generous(answers)
    requires Passes(fates, ticks, PacketSize(blockSize), MAX_RETRIES, Blocks(answers, left, blockSize))
    ensures var given := Given(answers, Min(left, blockSize));
      var passed := PassesBlock(fates, ticks, PacketSize(blockSize), MAX_RETRIES);
      && given > 0 && Generous(Tail(answers)) && passed.Some?
      && Passes(passed.value.fates, passed.value.ticks, PacketSize(blockSize), MAX_RETRIES,
                Blocks(Tail(answers), left - given, blockSize))
  {
    hide PassesBlock;
    if answers != [] { assert answers[0] > 0; }
  }

  /** What the tries with one block come to. */
  lemma BlockFacts(a: Air, ticks: seq<bool>, blockNum: bv8, block: seq<bv8>)
    requires Fair(a) && IsBlockSize(|block|)
    requires !a.deceived ==> a.receiver.expected == blockNum
    ensures var o := Attempts(a, ticks, Packet(blockNum, block), MAX_RETRIES);
      && Fair(o.air) && o.r in {0, -1, -3} && 1 <= o.tries <= MAX_RETRIES
      && (o.air.receiver == Accept(a.receiver, block) || o.air.receiver == a.receiver)
      && (a.deceived ==> o.air.deceived)
      && (!a.deceived ==> (o.air.deceived <==> o.r == 0 && o.air.receiver == a.receiver))
      && (a.stale ==> o.air.stale) && (o.air.deceived && !a.deceived ==> o.air.stale)
      && (Acks(a.pending) == 0 && o.tries == 1 ==> o.air.stale == a.stale)
      && (Acks(a.pending) == 0 && o.tries == 1 && o.r == 0 ==> Acks(o.air.pending) == 0)
      && (!a.deceived && Clear(a) ==>
            var passed := PassesBlock(a.fates, ticks, PacketSize(|block|), MAX_RETRIES);
            passed.Some? ==>
              && o.r == 0 && Clear(o.air) && o.air.stale == a.stale && !o.air.deceived
              && o.air.fates == passed.value.fates && o.ticks == passed.value.ticks)
  {
    hide Attempts, Packet, Fair, Clear, Acks, Has, Accept, PassesBlock;
    LastReply(a.pending, ACK);
    AttemptsAreSafe(a, ticks, blockNum, block, MAX_RETRIES);
    if !a.deceived {
      HasTaken(a.receiver, Attempts(a, ticks, Packet(blockNum, block), MAX_RETRIES).air.receiver, block);
      if Clear(a) {
        PassingLineTakesBlock(a, ticks, block, MAX_RETRIES);
      }
    }
  }

  lemma Started(r: Receiver, data: seq<bv8>, blockSize: nat)
    requires r == Receiver(1, [], 0, false)
    ensures Progress(data, 0, 1, true, [], [], [], blockSize)
    ensures Reached(r, false, true, [], blockSize)
    ensures AllFull([], blockSize) && Filled([], blockSize)
  {
    NothingYet(r, blockSize);
  }

  lemma TookToTheEnd(r: Receiver, chunks: seq<seq<bv8>>, blockSize: nat)
    requires Fit(chunks, blockSize)
    ensures Took(r, chunks, blockSize) == Took(r.(done := true), chunks, blockSize)
    ensures TookMost(r, chunks, blockSize) == TookMost(r.(done := true), chunks, blockSize)
    ensures Took(r, chunks, blockSize) ==> r.blocks == |chunks|
  {
  }
}
