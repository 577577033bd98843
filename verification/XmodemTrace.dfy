/**
 What an XMODEM sender writes and hears, in order, and what that says of its result: an ACK
 or a CAN ends the tries with a block, and a CAN the whole transfer, with nothing written after.
 */
module XmodemTrace {
  import opened Bytes
  import opened XmodemReceiver
  import opened XmodemLine

  /** One write, or one octet that a read yielded. */
  datatype Sign = Wrote(octets: seq<bv8>) | Heard(octet: bv8)

  // ----- a wait -----

  /** A wait: nothing is written, and the octet that ends it is the only one of those it waits for. */
  predicate Waited(signs: seq<Sign>, stops: set<bv8>, heard: Option<bv8>) {
    && (heard.Some? ==> signs != [] && signs[|signs| - 1] == Heard(heard.value) && heard.value in stops)
    && forall i :: 0 <= i < |signs| ==>
         signs[i].Heard? && ((heard.Some? && i == |signs| - 1) || signs[i].octet !in stops)
  }

  lemma WaitedMore(signs: seq<Sign>, stops: set<bv8>, octet: bv8)
    requires Waited(signs, stops, None)
    ensures Waited(signs + [Heard(octet)], stops, if octet in stops then Some(octet) else None)
  {
  }

  /** What the n-th of the coming reads yields. */
  function Sounded(a: Air, n: nat): Option<bv8>
    decreases n
  {
    if n == 0 then Next(a).1 else Sounded(Next(a).0, n - 1)
  }

  /** The n-th read comes in time, and is the first to yield one of these octets. */
  predicate HearsAt(a: Air, ticks: seq<bool>, stops: set<bv8>, n: nat, octet: bv8) {
    && InTime(ticks, n + 1)
    && Sounded(a, n) == Some(octet) && octet in stops
    && forall m :: 0 <= m < n ==> Sounded(a, m).None? || Sounded(a, m).value !in stops
  }

  lemma HearsLater(a: Air, ticks: seq<bool>, stops: set<bv8>, n: nat, octet: bv8)
    requires ticks != [] && !ticks[0] && (Next(a).1.None? || Next(a).1.value !in stops)
    ensures HearsAt(a, ticks, stops, n + 1, octet) <==> HearsAt(Next(a).0, ticks[1..], stops, n, octet)
    ensures !HearsAt(a, ticks, stops, 0, octet)
  {
    hide Next;
    var b := Next(a).0;
    assert Sounded(a, 0) == Next(a).1;
    assert forall m :: 0 <= m <= n ==> Sounded(a, m + 1) == Sounded(b, m);
    if HearsAt(a, ticks, stops, n + 1, octet) {
      assert forall m :: 0 <= m < n ==> Sounded(b, m) == Sounded(a, m + 1);
      assert forall i :: 0 <= i < n + 1 ==> ticks[1..][i] == ticks[i + 1];
    }
    if HearsAt(b, ticks[1..], stops, n, octet) {
      forall m | 0 <= m < n + 1 ensures Sounded(a, m).None? || Sounded(a, m).value !in stops {
        if m > 0 { assert Sounded(a, m) == Sounded(b, m - 1); }
      }
      assert forall i :: 1 <= i < n + 2 ==> ticks[i] == ticks[1..][i - 1];
    }
  }

  /** A wait hears an octet exactly if that is the first one of its kind that a read yields in time. */
  lemma {:induction false} ListenIff(a: Air, ticks: seq<bool>, stops: set<bv8>, octet: bv8)
    ensures Listen(a, ticks, stops).2 == Some(octet) <==> exists n: nat :: HearsAt(a, ticks, stops, n, octet)
    decreases |ticks|
  {
    hide Next, HearsAt;
    if ticks == [] || ticks[0] {
      TooLate(a, ticks, stops, octet);
    } else {
      var (b, first) := Next(a);
      if first.Some? && first.value in stops {
        HeardFirst(a, ticks, stops, octet);
      } else {
        ListenIff(b, ticks[1..], stops, octet);
        if Listen(b, ticks[1..], stops).2 == Some(octet) {
          var n: nat :| HearsAt(b, ticks[1..], stops, n, octet);
          HearsLater(a, ticks, stops, n, octet);
          assert HearsAt(a, ticks, stops, n + 1, octet);
        }
        forall n: nat | HearsAt(a, ticks, stops, n, octet)
          ensures Listen(a, ticks, stops).2 == Some(octet)
        {
          HearsLater(a, ticks, stops, if n > 0 then n - 1 else 0, octet);
        }
      }
    }
  }

  lemma TooLate(a: Air, ticks: seq<bool>, stops: set<bv8>, octet: bv8)
    requires ticks == [] || ticks[0]
    ensures forall n: nat :: !HearsAt(a, ticks, stops, n, octet)
  {
  }

  lemma HeardFirst(a: Air, ticks: seq<bool>, stops: set<bv8>, octet: bv8)
    requires ticks != [] && !ticks[0] && Next(a).1.Some? && Next(a).1.value in stops
    ensures HearsAt(a, ticks, stops, 0, octet) <==> Next(a).1 == Some(octet)
    ensures forall n: nat :: HearsAt(a, ticks, stops, n, octet) ==> n == 0
  {
    hide Next;
    assert Sounded(a, 0) == Next(a).1;
  }

  // ----- one block -----

  /** The last ACK, NAK or CAN that was heard. */
  function LastAnswer(signs: seq<Sign>): Option<bv8> {
    if signs == [] then None
    else
      var n := |signs| - 1;
      if signs[n].Heard? && signs[n].octet in {ACK, NAK, CAN} then Some(signs[n].octet) else LastAnswer(signs[..n])
  }

  /** All writes are of these octets, and an ACK or a CAN can only be the last of the signs. */
  predicate Orderly(signs: seq<Sign>, octets: seq<bv8>) {
    forall i :: 0 <= i < |signs| ==>
      && (signs[i].Wrote? ==> signs[i].octets == octets)
      && (signs[i] == Heard(ACK) || signs[i] == Heard(CAN) ==> i == |signs| - 1)
  }

  /** What the last answer makes of the tries with a block. */
  function ResultOf(answer: Option<bv8>): int {
    if answer == Some(ACK) then 0 else if answer == Some(CAN) then -3 else -1
  }

  lemma {:induction false} Unanswered(before: seq<Sign>, signs: seq<Sign>)
    requires Waited(signs, {ACK, NAK, CAN}, None)
    ensures LastAnswer(before + signs) == LastAnswer(before)
    decreases |signs|
  {
    if signs == [] {
      assert before + signs == before;
    } else {
      var n := |signs| - 1;
      Unanswered(before, signs[..n]);
      assert (before + signs)[..|before + signs| - 1] == before + signs[..n];
    }
  }

  /** One more try after others that were not decisive. */
  lemma OneMoreTry(before: seq<Sign>, octets: seq<bv8>, signs: seq<Sign>, heard: Option<bv8>)
    requires Orderly(before, octets) && ResultOf(LastAnswer(before)) == -1 && Waited(signs, {ACK, NAK, CAN}, heard)
    ensures var all := before + [Wrote(octets)] + signs;
      && Orderly(all, octets)
      && LastAnswer(all) == if heard.Some? then heard else LastAnswer(before)
  {
    var all := before + [Wrote(octets)] + signs;
    NotDecisive(before, octets);
    if heard.Some? {
      assert all[|all| - 1] == signs[|signs| - 1];
    } else {
      Unanswered(before + [Wrote(octets)], signs);
      assert (before + [Wrote(octets)])[..|before|] == before;
    }
  }

  lemma NotDecisive(signs: seq<Sign>, octets: seq<bv8>)
    requires Orderly(signs, octets) && ResultOf(LastAnswer(signs)) == -1
    ensures Heard(ACK) !in signs && Heard(CAN) !in signs
  {
    if Heard(ACK) in signs || Heard(CAN) in signs {
      var i :| 0 <= i < |signs| && (signs[i] == Heard(ACK) || signs[i] == Heard(CAN));
    }
  }

  // ----- a transfer -----

  /** No CAN has been heard and the end has not been written. */
  predicate Calm(signs: seq<Sign>) {
    Heard(CAN) !in signs && Wrote([EOT]) !in signs
  }

  /** A CAN is the last of the signs and the first CAN, and the end has not been written. */
  predicate Cancelled(signs: seq<Sign>) {
    signs != [] && signs[|signs| - 1] == Heard(CAN) && Calm(signs[..|signs| - 1])
  }

  /** The end was written once, after everything else, and acknowledged or not. */
  predicate Closed(signs: seq<Sign>, acknowledged: bool) {
    exists k :: 0 <= k < |signs| && signs[k] == Wrote([EOT]) && Calm(signs[..k])
      && Waited(signs[k + 1..], {ACK}, if acknowledged then Some(ACK) else None)
  }

  /** What has happened since, by the result so far. */
  predicate Since(before: seq<Sign>, after: seq<Sign>, r: int) {
    && before <= after
    && var signs := after[|before|..]; if r == -3 then Cancelled(signs) else Calm(signs)
  }

  lemma SinceThen(a: seq<Sign>, b: seq<Sign>, c: seq<Sign>, r: int)
    requires Since(a, b, 0) && Since(b, c, r)
    ensures Since(a, c, r)
  {
    CalmThen(b[|a|..], c[|b|..]);
    assert c[|a|..] == b[|a|..] + c[|b|..];
  }

  lemma SinceNothing(a: seq<Sign>, r: int)
    requires r != -3
    ensures Since(a, a, r)
  {
  }

  /** One thing after the other. */
  lemma CalmThen(a: seq<Sign>, b: seq<Sign>)
    requires Calm(a)
    ensures Calm(b) ==> Calm(a + b)
    ensures Cancelled(b) ==> Cancelled(a + b)
  {
    if Cancelled(b) {
      assert (a + b)[..|a + b| - 1] == a + b[..|b| - 1];
    }
  }

  /** The end is written and waited for. */
  predicate Ends(before: seq<Sign>, after: seq<Sign>, acknowledged: bool) {
    && before + [Wrote([EOT])] <= after
    && Waited(after[|before| + 1..], {ACK}, if acknowledged then Some(ACK) else None)
  }

  lemma EndsClosed(a: seq<Sign>, b: seq<Sign>, c: seq<Sign>, acknowledged: bool)
    requires Since(a, b, 0) && Ends(b, c, acknowledged)
    ensures a <= c && Closed(c[|a|..], acknowledged) && !Cancelled(c[|a|..])
  {
    hide Waited;
    var all, k := c[|a|..], |b| - |a|;
    assert all[k] == c[|b|] == (b + [Wrote([EOT])])[|b|];
    assert all[..k] == b[|a|..] && all[k + 1..] == c[|b| + 1..];
  }

  lemma SinceIs(a: seq<Sign>, b: seq<Sign>, r: int)
    requires Since(a, b, r)
    ensures a <= b && (r == -3 <==> Cancelled(b[|a|..])) && (r != -3 ==> Calm(b[|a|..]))
  {
  }

  /** The wait for the receiver's start. */
  lemma StartIsCalm(signs: seq<Sign>, heard: Option<bv8>)
    requires Waited(signs, {CCHR, NAK, CAN}, heard)
    ensures heard.Some? ==> heard.value in {CCHR, NAK, CAN}
    ensures if heard == Some(CAN) then Cancelled(signs) else Calm(signs)
  {
  }

  /** The tries with a block. */
  lemma BlockIsCalm(signs: seq<Sign>, octets: seq<bv8>)
    requires Orderly(signs, octets) && |octets| > 1
    ensures if LastAnswer(signs) == Some(CAN) then Cancelled(signs) else Calm(signs)
  {
    CanIsLast(signs, octets);
    assert Wrote([EOT]) !in signs;
  }

  lemma {:induction false} CanIsLast(signs: seq<Sign>, octets: seq<bv8>)
    requires Orderly(signs, octets)
    ensures LastAnswer(signs) == Some(CAN) <==> signs != [] && signs[|signs| - 1] == Heard(CAN)
    decreases |signs|
  {
    if signs != [] && !(signs[|signs| - 1].Heard? && signs[|signs| - 1].octet in {ACK, NAK, CAN}) {
      var before := signs[..|signs| - 1];
      CanIsLast(before, octets);
      if before != [] { assert before[|before| - 1] == signs[|signs| - 2]; }
    }
  }

  // ----- a CAN in time -----

  /** The answer to a write of these octets that comes in time is a CAN. */
  ghost predicate IsRefused(a: Air, ticks: seq<bool>, octets: seq<bv8>) {
    var (b, written) := Transmit(a, octets);
    written == |octets| && exists n: nat :: HearsAt(b, ticks, {ACK, NAK, CAN}, n, CAN)
  }

  /** Then there is no second try. */
  lemma RefusedOnce(a: Air, ticks: seq<bool>, octets: seq<bv8>, k: nat)
    requires IsRefused(a, ticks, octets) && k > 0
    ensures var o := Attempts(a, ticks, octets, k); o.r == -3 && o.tries == 1
  {
    hide Transmit, HearsAt, Listen, Judged;
    ListenIff(Transmit(a, octets).0, ticks, {ACK, NAK, CAN}, CAN);
  }
}
