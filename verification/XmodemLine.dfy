/**
 The line between an XMODEM sender and a standard receiver.  An adversary
 chooses what becomes of each write and what each read yields; replies wait in
 order until they are read or lost, however late that is.
 */
module XmodemLine {
  import opened Bytes
  import opened XmodemReceiver

  /** What happens to one write: it arrives, is lost, is damaged on the way, or fails. */
  datatype Fate = Deliver | Lose | Damage(octets: seq<bv8>) | Fail(written: int)

  /** What one read call yields: nothing, the oldest reply, a stray octet, or nothing and the reply is lost. */
  datatype Sound = Quiet | Reply | Stray(octet: bv8) | Drop

  /** Damage is noticed by the receiver's checks. */
  predicate FairFate(f: Fate) {
    f.Damage? ==> !Intact(f.octets) && f.octets != [EOT]
  }

  /** No ACK that the receiver did not send. */
  predicate FairSound(s: Sound) {
    s.Stray? ==> s.octet != ACK
  }

  /**
   The line and the far end.  The first `late` of the pending replies were under way before the
   latest write, and `wasLate` says so of the reply that was read last.  `stale` says that such an ACK
   ended the wait for the answer to a later write, and `deceived` that the receiver did not have what
   was written then.
   */
  datatype Air = Air(fates: seq<Fate>, sounds: seq<Sound>, pending: seq<bv8>, late: nat, receiver: Receiver,
                     wasLate: bool, stale: bool, deceived: bool)

  predicate Fair(a: Air) {
    && (forall i :: 0 <= i < |a.fates| ==> FairFate(a.fates[i]))
    && (forall i :: 0 <= i < |a.sounds| ==> FairSound(a.sounds[i]))
    && a.late <= |a.pending|
  }

  /** The receiver has what these octets carry: a repetition would be acknowledged and not taken. */
  predicate Has(r: Receiver, octets: seq<bv8>) {
    if octets == [EOT] then r.done else |octets| > 1 && octets[1] == r.expected - 1
  }

  function Tail<T>(s: seq<T>): seq<T> {
    if s == [] then [] else s[1..]
  }

  function FateOf(fates: seq<Fate>): Fate {
    if fates == [] then Deliver else fates[0]
  }

  /** One write, and the number that the UART reports. */
  function Transmit(a: Air, octets: seq<bv8>): (Air, int) {
    var b := a.(fates := Tail(a.fates), late := |a.pending|);
    match FateOf(a.fates)
    case Deliver => (Answered(b, octets), |octets|)
    case Lose => (b, |octets|)
    case Damage(heard) => (Answered(b, heard), |octets|)
    case Fail(written) => (b, written)
  }

  function Answered(a: Air, octets: seq<bv8>): Air {
    var (r, answer) := Hear(a.receiver, octets);
    a.(receiver := r, pending := a.pending + [answer])
  }

  /** One read of at most one octet. */
  function Next(a: Air): (Air, Option<bv8>) {
    var b := a.(sounds := Tail(a.sounds));
    match if a.sounds == [] then Reply else a.sounds[0]
    case Quiet => (b, None)
    case Reply => (Popped(b), if a.pending == [] then None else Some(a.pending[0]))
    case Stray(octet) => (b, Some(octet))
    case Drop => (Popped(b), None)
  }

  function Popped(a: Air): Air {
    a.(pending := Tail(a.pending), late := if a.late > 0 then a.late - 1 else 0, wasLate := a.late > 0)
  }

  /** Reads until one of the given octets is heard or the time is up. */
  function Listen(a: Air, ticks: seq<bool>, stops: set<bv8>): (Air, seq<bool>, Option<bv8>)
    decreases |ticks|
  {
    if ticks == [] || ticks[0] then (a, Tail(ticks), None)
    else
      var (b, octet) := Next(a);
      if octet.Some? && octet.value in stops then (b, ticks[1..], octet)
      else Listen(b, ticks[1..], stops)
  }

  /** Keeps the record of ACKs that are taken for the answer to what was written after them. */
  function Judged(a: Air, octets: seq<bv8>, heard: Option<bv8>): Air {
    var late := heard == Some(ACK) && a.wasLate;
    a.(stale := a.stale || late, deceived := a.deceived || (late && !Has(a.receiver, octets)))
  }

  const ANSWERS: set<bv8> := {ACK, NAK, CAN}

  /** One try: the write and, if it went well, the wait for an answer. */
  function OneTry(a: Air, ticks: seq<bool>, octets: seq<bv8>, stops: set<bv8>): (Air, seq<bool>, Option<bv8>) {
    var (b, written) := Transmit(a, octets);
    if written != |octets| then (b, ticks, None)
    else
      var (c, rest, heard) := Listen(b, ticks, stops);
      (Judged(c, octets, heard), rest, heard)
  }

  datatype Outcome = Outcome(air: Air, ticks: seq<bool>, r: int, tries: nat)

  /** Up to k tries: an ACK ends them with 0 and a CAN with -3. */
  function Attempts(a: Air, ticks: seq<bool>, octets: seq<bv8>, k: nat): Outcome
    decreases k
  {
    if k == 0 then Outcome(a, ticks, -1, 0)
    else
      var (b, rest, heard) := OneTry(a, ticks, octets, ANSWERS);
      if heard == Some(ACK) then Outcome(b, rest, 0, 1)
      else if heard == Some(CAN) then Outcome(b, rest, -3, 1)
      else
        var o := Attempts(b, rest, octets, k - 1);
        o.(tries := o.tries + 1)
  }

  // ----- what an ACK means -----

  function Acks(replies: seq<bv8>): nat {
    if replies == [] then 0 else Acks(replies[1..]) + if replies[0] == ACK then 1 else 0
  }

  lemma {:induction false} LastReply(replies: seq<bv8>, answer: bv8)
    ensures Acks(replies + [answer]) == Acks(replies) + if answer == ACK then 1 else 0
    ensures ACK in replies <==> Acks(replies) > 0
  {
    if replies == [] {
      assert replies + [answer] == [answer];
    } else {
      LastReply(replies[1..], answer);
      assert (replies + [answer])[1..] == replies[1..] + [answer];
    }
  }

  /** Everything but what is read and lost stays. */
  predicate Same(a: Air, b: Air) {
    b.receiver == a.receiver && b.fates == a.fates && b.stale == a.stale && b.deceived == a.deceived
  }

  /** Replies behind the first `late` ones are read as such, and those are all there were before. */
  lemma {:induction false} ListenFacts(a: Air, ticks: seq<bool>, stops: set<bv8>)
    requires Fair(a)
    ensures var (b, rest, heard) := Listen(a, ticks, stops);
      && Fair(b) && Same(a, b) && |rest| <= |ticks|
      && Acks(b.pending) + (if heard == Some(ACK) then 1 else 0) <= Acks(a.pending)
      && (heard.Some? ==> heard.value in stops)
      && (heard == Some(ACK) && b.wasLate ==> ACK in a.pending[..a.late])
      && (heard == Some(ACK) && !b.wasLate ==> ACK in a.pending[a.late..])
    decreases |ticks|
  {
    hide Same, Acks, Fair, Next;
    SameTrans(a, a, a);
    if ticks != [] && !ticks[0] {
      var (b, octet) := Next(a);
      NextFacts(a);
      if !(octet.Some? && octet.value in stops) {
        ListenFacts(b, ticks[1..], stops);
        SameTrans(a, b, Listen(b, ticks[1..], stops).0);
      }
    }
  }

  lemma SameTrans(a: Air, b: Air, c: Air)
    ensures Same(a, a) && (Same(a, b) && Same(b, c) ==> Same(a, c))
    ensures Fair(a) ==> a.late <= |a.pending|
  {
  }

  lemma NextFacts(a: Air)
    requires Fair(a)
    ensures var (b, octet) := Next(a);
      && Fair(b) && Same(a, b) && b.late <= |b.pending| && a.late <= |a.pending|
      && Acks(b.pending) + (if octet == Some(ACK) then 1 else 0) <= Acks(a.pending)
      && (octet == Some(ACK) ==> a.pending != [] && a.pending[0] == ACK && b.wasLate == (a.late > 0))
      && (ACK in b.pending[..b.late] ==> ACK in a.pending[..a.late])
      && (ACK in b.pending[b.late..] ==> ACK in a.pending[a.late..])
  {
    hide Acks, Fair, Popped;
    LaterSounds(a);
    Popping(a.(sounds := Tail(a.sounds)));
  }

  lemma LaterSounds(a: Air)
    requires Fair(a)
    ensures Fair(a.(sounds := Tail(a.sounds))) && a.late <= |a.pending|
    ensures a.sounds != [] ==> FairSound(a.sounds[0])
  {
    hide FairSound, FairFate;
  }

  lemma Popping(a: Air)
    requires Fair(a)
    ensures var b := Popped(a);
      && Fair(b) && Same(a, b) && b.late <= |b.pending| && b.wasLate == (a.late > 0)
      && Acks(b.pending) + (if a.pending != [] && a.pending[0] == ACK then 1 else 0) == Acks(a.pending)
      && (ACK in b.pending[..b.late] ==> ACK in a.pending[..a.late])
      && (ACK in b.pending[b.late..] ==> ACK in a.pending[a.late..])
  {
    hide Acks, FairSound, FairFate;
    PopFacts(a.pending, a.late);
  }

  lemma PopFacts(replies: seq<bv8>, late: nat)
    requires late <= |replies|
    ensures var rest, early := Tail(replies), if late > 0 then late - 1 else 0;
      && early <= |rest| && Acks(rest) + (if replies != [] && replies[0] == ACK then 1 else 0) == Acks(replies)
      && (ACK in rest[..early] ==> ACK in replies[..late])
      && (ACK in rest[early..] ==> ACK in replies[late..])
  {
    if replies != [] {
      if late > 0 {
        assert replies[1..][..late - 1] == replies[..late][1..] && replies[1..][late - 1..] == replies[late..];
      } else {
        assert replies[1..][0..] == replies[0..][1..];
      }
    }
  }

  /** An ACK to this very write comes from a receiver that has the packet now. */
  lemma TryFacts(a: Air, ticks: seq<bool>, num: bv8, block: seq<bv8>)
    requires Fair(a) && IsBlockSize(|block|)
    ensures var octets := Packet(num, block);
      var (b, rest, heard) := OneTry(a, ticks, octets, ANSWERS);
      && Fair(b) && |rest| <= |ticks| && (heard.Some? ==> heard.value in ANSWERS)
      && (b.receiver == a.receiver || (a.receiver.expected == num && b.receiver == Accept(a.receiver, block)))
      && b.deceived == (a.deceived || (heard == Some(ACK) && !Has(b.receiver, octets)))
      && (a.stale ==> b.stale) && (b.deceived && !a.deceived ==> b.stale)
      && (ACK !in a.pending ==> b.stale == a.stale)
      && Acks(b.pending) + (if heard == Some(ACK) then 1 else 0) <= Acks(a.pending) + 1
  {
    hide Packet, Intact, Listen, Acks, Hear, Has;
    var octets := Packet(num, block);
    var (b, written) := Transmit(a, octets);
    TransmitFacts(a, num, block);
    if written == |octets| {
      ListenFacts(b, ticks, ANSWERS);
    }
  }

  /** What a write does: the replies that were under way are late ones now, and one may come behind them. */
  lemma TransmitFacts(a: Air, num: bv8, block: seq<bv8>)
    requires Fair(a) && IsBlockSize(|block|)
    ensures var octets := Packet(num, block);
      var (b, written) := Transmit(a, octets);
      && Fair(b) && b.stale == a.stale && b.deceived == a.deceived
      && (b.receiver == a.receiver || (a.receiver.expected == num && b.receiver == Accept(a.receiver, block)))
      && b.pending[..b.late] == a.pending && Acks(b.pending) <= Acks(a.pending) + 1
      && (ACK in b.pending[b.late..] ==> Has(b.receiver, octets))
  {
    hide Packet, Intact, Acks, Hear, Has;
    PacketAnswer(a.receiver, num, block);
    match FateOf(a.fates) {
      case Deliver => OneMore(a.pending, Hear(a.receiver, Packet(num, block)).1);
      case Damage(heard) =>
        DamageAnswer(a.receiver, heard);
        OneMore(a.pending, NAK);
      case _ => OneMore(a.pending, NAK);
    }
  }

  lemma PacketAnswer(r: Receiver, num: bv8, block: seq<bv8>)
    requires IsBlockSize(|block|)
    ensures var octets := Packet(num, block);
      var (after, answer) := Hear(r, octets);
      && (after == r || (r.expected == num && after == Accept(r, block)))
      && (answer == ACK ==> Has(after, octets))
  {
    hide Packet, Intact;
    PacketLength(num, block);
    PacketIsIntact(num, block);
    NextIsNotThis(num);
  }

  lemma DamageAnswer(r: Receiver, octets: seq<bv8>)
    requires !Intact(octets) && octets != [EOT]
    ensures Hear(r, octets) == (r, NAK)
  {
  }

  lemma OneMore(replies: seq<bv8>, answer: bv8)
    ensures replies[..|replies|] == replies && replies[|replies|..] == []
    ensures (replies + [answer])[..|replies|] == replies && (replies + [answer])[|replies|..] == [answer]
    ensures Acks(replies + [answer]) <= Acks(replies) + 1
  {
    LastReply(replies, answer);
  }

  /**
   On every line: the receiver takes the block at most once, and only if it is the one it expects;
   zero is wrong about a block exactly if an ACK from before the last write ended the tries although
   the receiver does not have the block.
   */
  lemma {:induction false} AttemptsAreSafe(a: Air, ticks: seq<bool>, num: bv8, block: seq<bv8>, k: nat)
    requires Fair(a) && IsBlockSize(|block|)
    ensures var octets := Packet(num, block);
      var o := Attempts(a, ticks, octets, k);
      && Fair(o.air)
      && (o.air.receiver == a.receiver || (a.receiver.expected == num && o.air.receiver == Accept(a.receiver, block)))
      && o.air.deceived == (a.deceived || (o.r == 0 && !Has(o.air.receiver, octets)))
      && (a.stale ==> o.air.stale) && (o.air.deceived && !a.deceived ==> o.air.stale)
      && (ACK !in a.pending && o.tries <= 1 ==> o.air.stale == a.stale)
      && o.tries <= k && (k > 0 ==> o.tries > 0) && (o.r == -1 ==> o.tries == k) && o.r in {0, -1, -3}
      && Acks(o.air.pending) + (if o.r == 0 then 1 else 0) <= Acks(a.pending) + o.tries
    decreases k
  {
    hide OneTry, Packet, Fair, Has, Acks;
    if k > 0 {
      var (b, rest, heard) := OneTry(a, ticks, Packet(num, block), ANSWERS);
      TryFacts(a, ticks, num, block);
      if heard != Some(ACK) && heard != Some(CAN) {
        AttemptsAreSafe(b, rest, num, block, k - 1);
        NextIsNotThis(num);
      }
    }
  }

  /** A receiver that has the block it expected at the start has taken it. */
  lemma HasTaken(before: Receiver, after: Receiver, block: seq<bv8>)
    requires IsBlockSize(|block|) && (after == before || after == Accept(before, block))
    ensures Has(after, Packet(before.expected, block)) <==> after == Accept(before, block)
    ensures before != Accept(before, block)
  {
    hide Packet;
    PacketLength(before.expected, block);
    NextIsNotThis(before.expected);
    PacketNumber(before.expected, block);
  }

  lemma PacketNumber(num: bv8, block: seq<bv8>)
    ensures |Packet(num, block)| > 1 && Packet(num, block)[1] == num
  {
  }

  /** The same of the end of a transfer. */
  lemma EndIsSafe(a: Air, ticks: seq<bool>)
    requires Fair(a)
    ensures var (b, rest, heard) := OneTry(a, ticks, [EOT], {ACK});
      && Fair(b) && (b.receiver == a.receiver || b.receiver == a.receiver.(done := true))
      && b.deceived == (a.deceived || (heard == Some(ACK) && !b.receiver.done))
      && (a.stale ==> b.stale) && (b.deceived && !a.deceived ==> b.stale)
      && (ACK !in a.pending ==> b.stale == a.stale)
  {
    hide Intact, Listen, Hear, Acks;
    var (b, written) := Transmit(a, [EOT]);
    match FateOf(a.fates) {
      case Damage(heard) =>
        DamageAnswer(a.receiver, heard);
        OneMore(a.pending, NAK);
      case _ =>
        EndAnswer(a.receiver);
        OneMore(a.pending, ACK);
    }
    if written == 1 {
      ListenFacts(b, ticks, {ACK});
    }
  }

  lemma EndAnswer(r: Receiver)
    ensures Hear(r, [EOT]) == (r.(done := true), ACK)
  {
  }

  // ----- when a zero can be wrong -----

  /** The block is reported as sent, and the receiver does not have it. */
  predicate Deceives(a: Air, ticks: seq<bool>, block: seq<bv8>, k: nat)
    requires IsBlockSize(|block|)
  {
    var o := Attempts(a, ticks, Packet(a.receiver.expected, block), k);
    o.r == 0 && o.air.receiver == a.receiver
  }

  /** Exactly an ACK that is already under way makes that possible. */
  lemma LateAckDeceives(pending: seq<bv8>, receiver: Receiver, block: seq<bv8>, k: nat)
    requires IsBlockSize(|block|) && k > 0
    ensures ACK in pending <==>
      exists a: Air, ticks: seq<bool> :: Fair(a) && a.pending == pending && a.receiver == receiver && Deceives(a, ticks, block, k)
  {
    hide Packet, OneTry, Fair;
    if ACK in pending {
      var i :| 0 <= i < |pending| && pending[i] == ACK;
      Deceived(pending, receiver, block, k, i);
    }
    forall a: Air, ticks: seq<bool> |
      Fair(a) && a.pending == pending && a.receiver == receiver && Deceives(a, ticks, block, k)
      ensures ACK in pending
    {
      if ACK !in pending { OwnAcksOnly(a, ticks, block, k); }
    }
  }

  /** Without an ACK under way at the start, all that come answer a receiver that has taken the block. */
  lemma {:induction false} OwnAcksOnly(a: Air, ticks: seq<bool>, block: seq<bv8>, k: nat)
    requires Fair(a) && IsBlockSize(|block|) && ACK !in a.pending
    ensures var o := Attempts(a, ticks, Packet(a.receiver.expected, block), k);
      o.r == 0 ==> o.air.receiver == Accept(a.receiver, block) && o.air.receiver != a.receiver
    decreases k
  {
    hide OneTry, Packet, Fair, Has, Acks;
    var num := a.receiver.expected;
    if k > 0 {
      var (b, rest, heard) := OneTry(a, ticks, Packet(num, block), ANSWERS);
      TryFacts(a, ticks, num, block);
      NoLateAck(a, ticks, block);
      HasTaken(a.receiver, b.receiver, block);
      if heard != Some(ACK) && heard != Some(CAN) {
        if b.receiver == a.receiver {
          OwnAcksOnly(b, rest, block, k - 1);
        } else {
          AttemptsAreSafe(b, rest, num, block, k - 1);
          NextIsNotThis(num);
        }
      }
    }
  }

  /** As long as the receiver has not taken the block, no ACK comes. */
  lemma NoLateAck(a: Air, ticks: seq<bool>, block: seq<bv8>)
    requires Fair(a) && IsBlockSize(|block|) && ACK !in a.pending
    ensures var (b, rest, heard) := OneTry(a, ticks, Packet(a.receiver.expected, block), ANSWERS);
      b.receiver == a.receiver ==> ACK !in b.pending && heard != Some(ACK)
  {
    hide Packet, Intact, Acks, Listen;
    var octets := Packet(a.receiver.expected, block);
    HearOnce(a.receiver, block);
    HasTaken(a.receiver, a.receiver, block);
    PacketLength(a.receiver.expected, block);
    LastReply(a.pending, NAK);
    var (b, written) := Transmit(a, octets);
    if written == |octets| {
      ListenFacts(b, ticks, ANSWERS);
      LastReply(Listen(b, ticks, ANSWERS).0.pending, NAK);
    }
  }

  /** The write is lost, so are the replies before the ACK, and the ACK is read. */
  lemma Deceived(pending: seq<bv8>, receiver: Receiver, block: seq<bv8>, k: nat, i: nat)
    requires IsBlockSize(|block|) && k > 0 && i < |pending| && pending[i] == ACK
    ensures exists a: Air, ticks: seq<bool> ::
      Fair(a) && a.pending == pending && a.receiver == receiver && Deceives(a, ticks, block, k)
  {
    hide Packet;
    var a := Air([Lose], seq(i, _ => Drop) + [Reply], pending, 0, receiver, false, false, false);
    var ticks := seq(i + 1, _ => false);
    var octets := Packet(receiver.expected, block);
    var b := Transmit(a, octets).0;
    DropsThenReply(b, ticks, i);
    assert Fair(a) && Deceives(a, ticks, block, k);
  }

  lemma {:induction false} DropsThenReply(a: Air, ticks: seq<bool>, i: nat)
    requires i < |a.pending| && a.pending[i] == ACK
    requires a.sounds == seq(i, _ => Drop) + [Reply] && ticks == seq(i + 1, _ => false)
    ensures var (b, rest, heard) := Listen(a, ticks, ANSWERS);
      heard == Some(ACK) && b.receiver == a.receiver
    decreases i
  {
    if i > 0 {
      assert a.sounds[1..] == seq(i - 1, _ => Drop) + [Reply];
      assert ticks[1..] == seq(i, _ => false);
      DropsThenReply(Next(a).0, ticks[1..], i - 1);
    }
  }

  /**
   A try that times out although the block arrived leaves an ACK behind: block two is lost, and
   still counts as sent.
   */
  lemma RetryLosesTheNextBlock(receiver: Receiver, first: seq<bv8>, second: seq<bv8>)
    requires IsBlockSize(|first|) && IsBlockSize(|second|)
    ensures
      var a := Air([Deliver, Deliver, Lose], [], [], 0, receiver, false, false, false);
      var o := Attempts(a, [true, false, false], Packet(receiver.expected, first), 3);
      var p := Attempts(o.air, o.ticks, Packet(receiver.expected + 1, second), 3);
      && o.r == 0 && o.tries == 2 && o.air.receiver == Accept(receiver, first) && o.air.stale && !o.air.deceived
      && p.r == 0 && p.tries == 1 && p.air.receiver == o.air.receiver && p.air.deceived
  {
    hide Packet, OneTry, Accept;
    FirstTryTimesOut(receiver, first);
    SecondTryIsAnswered(receiver, first);
    LostSecondBlock(Accept(receiver, first), second);
    NextNumber(receiver, first);
  }

  lemma NextNumber(receiver: Receiver, block: seq<bv8>)
    ensures Accept(receiver, block).expected == receiver.expected + 1
  {
  }

  lemma FirstTryTimesOut(receiver: Receiver, block: seq<bv8>)
    requires IsBlockSize(|block|)
    ensures OneTry(Air([Deliver, Deliver, Lose], [], [], 0, receiver, false, false, false), [true, false, false],
                   Packet(receiver.expected, block), ANSWERS)
            == (Air([Deliver, Lose], [], [ACK], 0, Accept(receiver, block), false, false, false), [false, false], None)
  {
    hide Packet, Hear, Accept;
    HearOnce(receiver, block);
    assert [Deliver, Deliver, Lose][1..] == [Deliver, Lose] && [true, false, false][1..] == [false, false];
    assert [] + [ACK] == [ACK];
  }

  lemma SecondTryIsAnswered(receiver: Receiver, block: seq<bv8>)
    requires IsBlockSize(|block|)
    ensures OneTry(Air([Deliver, Lose], [], [ACK], 0, Accept(receiver, block), false, false, false), [false, false],
                   Packet(receiver.expected, block), ANSWERS)
            == (Air([Lose], [], [ACK], 0, Accept(receiver, block), true, true, false), [false], Some(ACK))
  {
    hide Packet, Hear, Intact, Has;
    HearOnce(receiver, block);
    HasTaken(receiver, Accept(receiver, block), block);
    assert [Deliver, Lose][1..] == [Lose] && [false, false][1..] == [false];
    assert ([ACK] + [ACK])[1..] == [ACK];
  }

  lemma LostSecondBlock(receiver: Receiver, block: seq<bv8>)
    requires IsBlockSize(|block|)
    ensures OneTry(Air([Lose], [], [ACK], 0, receiver, true, true, false), [false], Packet(receiver.expected, block), ANSWERS)
            == (Air([], [], [], 0, receiver, true, true, true), [], Some(ACK))
  {
    hide Packet, Hear, Intact, Has;
    HasTaken(receiver, receiver, block);
    assert [Lose][1..] == [] && [false][1..] == [] && [ACK][1..] == [];
  }

  // ----- a line that works -----

  /** The time is not up at the next n looks at the clock. */
  predicate InTime(ticks: seq<bool>, n: nat) {
    |ticks| >= n && forall i :: 0 <= i < n ==> !ticks[i]
  }

  /** The clock after a wait that hears nothing. */
  function AfterTimeout(ticks: seq<bool>): (r: seq<bool>)
    ensures |r| <= |ticks|
  {
    if ticks == [] then [] else if ticks[0] then ticks[1..] else AfterTimeout(ticks[1..])
  }

  datatype Left = Left(fates: seq<Fate>, ticks: seq<bool>)

  /**
   Whether one of the next k writes of so many octets arrives and its reply comes in time, with only
   losses, damage and failures before; and what is left of the line's and the clock's script then.
   */
  function PassesBlock(fates: seq<Fate>, ticks: seq<bool>, size: nat, k: nat): Option<Left>
    decreases k
  {
    if k == 0 then None
    else
      var later := Tail(fates);
      match FateOf(fates)
      case Deliver => if InTime(ticks, 1) then Some(Left(later, ticks[1..])) else None
      case Damage(_) => if InTime(ticks, 1) then PassesBlock(later, ticks[1..], size, k - 1) else None
      case Lose => PassesBlock(later, AfterTimeout(ticks), size, k - 1)
      case Fail(written) => PassesBlock(later, if written == size then AfterTimeout(ticks) else ticks, size, k - 1)
  }

  /** So many blocks and then the end get through, each block within k tries. */
  predicate Passes(fates: seq<Fate>, ticks: seq<bool>, size: nat, k: nat, blocks: nat)
    decreases blocks
  {
    if blocks == 0 then FateOf(fates) == Deliver && InTime(ticks, 1)
    else
      var left := PassesBlock(fates, ticks, size, k);
      left.Some? && Passes(left.value.fates, left.value.ticks, size, k, blocks - 1)
  }

  /** Nothing is under way, and every reply is there when it is looked for. */
  predicate Clear(a: Air) {
    Fair(a) && a.sounds == [] && a.pending == []
  }

  lemma {:induction false} PassingLineTakesBlock(a: Air, ticks: seq<bool>, block: seq<bv8>, k: nat)
    requires Clear(a) && IsBlockSize(|block|)
    ensures var octets := Packet(a.receiver.expected, block);
      var left := PassesBlock(a.fates, ticks, |octets|, k);
      var o := Attempts(a, ticks, octets, k);
      left.Some? ==>
        && o.r == 0 && Clear(o.air) && o.air.receiver == Accept(a.receiver, block)
        && o.air.fates == left.value.fates && o.ticks == left.value.ticks
        && o.air.stale == a.stale && o.air.deceived == a.deceived
    decreases k
  {
    hide Packet, Accept, OneTry, Fair;
    if k > 0 {
      var octets := Packet(a.receiver.expected, block);
      PassingTry(a, ticks, block);
      var (b, rest, heard) := OneTry(a, ticks, octets, ANSWERS);
      if FateOf(a.fates) != Deliver && PassesBlock(a.fates, ticks, |octets|, k).Some? {
        PassingLineTakesBlock(b, rest, block, k - 1);
      }
    }
  }

  lemma PassingTry(a: Air, ticks: seq<bool>, block: seq<bv8>)
    requires Clear(a) && IsBlockSize(|block|)
    ensures var octets := Packet(a.receiver.expected, block);
      var (b, rest, heard) := OneTry(a, ticks, octets, ANSWERS);
      match FateOf(a.fates)
      case Deliver =>
        InTime(ticks, 1) ==>
          heard == Some(ACK) && Kept(a, b) && b.receiver == Accept(a.receiver, block) && rest == ticks[1..]
      case Damage(_) =>
        InTime(ticks, 1) ==> heard == Some(NAK) && Kept(a, b) && b.receiver == a.receiver && rest == ticks[1..]
      case Lose => heard == None && Kept(a, b) && b.receiver == a.receiver && rest == AfterTimeout(ticks)
      case Fail(written) =>
        && heard == None && Kept(a, b) && b.receiver == a.receiver
        && rest == if written == |octets| then AfterTimeout(ticks) else ticks
  {
    hide Packet, Hear, Accept, Intact;
    var octets := Packet(a.receiver.expected, block);
    match FateOf(a.fates) {
      case Damage(heard) =>
        DamageAnswer(a.receiver, heard);
        PromptTry(a, ticks, octets, heard);
      case Deliver =>
        HearOnce(a.receiver, block);
        PromptTry(a, ticks, octets, octets);
      case _ =>
        Silence(Transmit(a, octets).0, ticks, ANSWERS);
    }
  }

  /** A write that is answered in time. */
  lemma PromptTry(a: Air, ticks: seq<bool>, octets: seq<bv8>, arrives: seq<bv8>)
    requires Clear(a) && (FateOf(a.fates) == Damage(arrives) || (FateOf(a.fates) == Deliver && arrives == octets))
    ensures var (b, rest, heard) := OneTry(a, ticks, octets, ANSWERS);
      var (r, answer) := Hear(a.receiver, arrives);
      InTime(ticks, 1) && answer in ANSWERS ==>
        heard == Some(answer) && Kept(a, b) && b.receiver == r && rest == ticks[1..]
  {
    hide Hear;
  }

  /** The line is clear again and its record is the same; one fate is used up. */
  predicate Kept(a: Air, b: Air) {
    Clear(b) && b.fates == Tail(a.fates) && b.stale == a.stale && b.deceived == a.deceived
  }

  lemma {:induction false} Silence(a: Air, ticks: seq<bool>, stops: set<bv8>)
    requires Clear(a)
    ensures var (b, rest, heard) := Listen(a, ticks, stops);
      && heard == None && rest == AfterTimeout(ticks) && Clear(b) && Same(a, b)
    decreases |ticks|
  {
    if ticks != [] && !ticks[0] {
      Silence(Next(a).0, ticks[1..], stops);
    }
  }

  lemma PassingEnd(a: Air, ticks: seq<bool>)
    requires Clear(a) && FateOf(a.fates) == Deliver && InTime(ticks, 1)
    ensures var (b, rest, heard) := OneTry(a, ticks, [EOT], {ACK});
      heard == Some(ACK) && b.stale == a.stale && b.deceived == a.deceived && b.receiver.done
  {
  }

  /** A line on which every write arrives, and whose replies come in time, passes everything. */
  lemma {:induction false} WorkingLinePasses(fates: seq<Fate>, ticks: seq<bool>, size: nat, k: nat, blocks: nat)
    requires (forall i :: 0 <= i < |fates| ==> fates[i] == Deliver) && InTime(ticks, blocks + 1) && k > 0
    ensures Passes(fates, ticks, size, k, blocks)
    decreases blocks
  {
    if blocks > 0 {
      WorkingLinePasses(Tail(fates), ticks[1..], size, k, blocks - 1);
    }
  }
}
