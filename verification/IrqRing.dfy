/**
 The interrupt-driven receive ring: the receive callback stores octets while the
 reader takes its snapshot, copies and moves the tail.  An adversary runs the
 callback between any two accesses of the reader.
 */
module IrqRing {
  import opened Bytes
  import Timing
  import opened RingSlots

  const SIZE: nat := 2048

  class IrqUart {
    const buffer: array<byte>
    var rxHead: nat
    var rxTail: nat

    // What has really happened, without any index wrapping.
    var accepted: seq<byte>
    var taken: nat                 // how many of them have been read or flushed
    var dropped: seq<nat>          // how many octets were held when one was dropped

    var script: seq<seq<byte>>     // the octets that arrive at each access of the reader

    ghost predicate Valid()
      reads this, buffer
    {
      && buffer.Length == SIZE && Mirror(buffer[..], accepted, taken, SIZE)
      && taken <= |accepted| < taken + SIZE
      && rxHead == |accepted| % SIZE && rxTail == taken % SIZE
      && forall i :: 0 <= i < |dropped| ==> dropped[i] == SIZE - 1
    }

    constructor (script: seq<seq<byte>>)
      ensures Valid() && accepted == [] && taken == 0 && dropped == [] && fresh(buffer)
    {
      buffer := new byte[SIZE];
      rxHead, rxTail, accepted, taken, dropped := 0, 0, [], 0, [];
      this.script := script;
    }

    /** HAL_UART_RxCpltCallback: an octet is dropped exactly when size-1 octets are held. */
    method RxCpltCallback(b: byte)
      requires Valid()
      modifies this`rxHead, this`accepted, this`dropped, buffer
      ensures Valid()
      ensures |old(accepted)| - taken < SIZE - 1 ==> accepted == old(accepted) + [b] && dropped == old(dropped)
      ensures |old(accepted)| - taken == SIZE - 1 ==> accepted == old(accepted) && dropped == old(dropped) + [SIZE - 1]
    {
      var nextHead := (rxHead + 1) % SIZE;
      FullIff(|accepted|, taken);
      if nextHead != rxTail {
        MirrorNext(buffer[..], accepted, taken, SIZE, b);
        buffer[rxHead] := b;
        rxHead := nextHead;
        accepted := accepted + [b];
      } else {
        dropped := dropped + [|accepted| - taken];
      }
    }

    /** The test of the callback: one slot always stays free. */
    static lemma FullIff(total: nat, taken: nat)
      requires taken <= total < taken + SIZE
      ensures (total % SIZE + 1) % SIZE == (total + 1) % SIZE
      ensures (total + 1) % SIZE == taken % SIZE <==> total - taken == SIZE - 1
    {
    }

    method Interfere()
      requires Valid()
      modifies this`rxHead, this`accepted, this`dropped, this`script, buffer
      ensures Valid() && old(accepted) <= accepted
    {
      if script != [] {
        var octets := script[0];
        script := script[1..];
        for i := 0 to |octets|
          invariant Valid() && old(accepted) <= accepted
        {
          RxCpltCallback(octets[i]);
        }
      }
    }

    /** getRxBufferAvailable: what was held when the head was looked at, whatever arrives before the tail is. */
    method GetRxBufferAvailable() returns (available: nat)
      requires Valid()
      modifies this`rxHead, this`accepted, this`dropped, this`script, buffer
      ensures Valid() && old(accepted) <= accepted && available == |old(accepted)| - taken
    {
      hide Mirror;
      var head := rxHead;
      Interfere();
      var tail := rxTail;
      Held(|old(accepted)|, taken);
      available := if head >= tail then head - tail else SIZE - tail + head;
    }

    static lemma Held(total: nat, taken: nat)
      requires taken <= total < taken + SIZE
      ensures var head, tail := total % SIZE, taken % SIZE;
        total - taken == if head >= tail then head - tail else SIZE - tail + head
    {
    }

    /**
     uPortUartRead: what it delivers is what comes next of what was accepted, and as much as was held
     when it looked and there is room for; with nothing held, a blocking read waits.
     */
    method Read(isOpen: bool, data: array?<byte>, length: nat, timeoutMs: int, clock: Timing.Clock) returns (r: int)
      requires Valid() && (data != null ==> data.Length >= length && data != buffer)
      modifies this, buffer, data, clock
      ensures Valid() && old(accepted) <= accepted && -1 <= r <= length
      ensures r == -1 <==> length == 0 || !isOpen
      ensures r >= 0 && (data == null || timeoutMs == 0 || |old(accepted)| > old(taken)) ==>
        r == if data == null then 0 else Min(length, |old(accepted)| - old(taken))
      ensures r == 0 && data != null && timeoutMs != 0 ==>
        clock.answers == [] || (timeoutMs > 0 && true in old(clock.answers))
      ensures taken == old(taken) + (if r > 0 then r else 0) && taken <= |accepted|
      ensures r > 0 ==> data[..r] == accepted[old(taken)..taken]
    {
      hide Mirror;
      r := -1;
      if length != 0 && isOpen {
        var available := GetRxBufferAvailable();
        r := 0;
        if data != null && (timeoutMs != 0 || available != 0) {
          if timeoutMs != 0 && available == 0 {
            available := AwaitData(timeoutMs, clock);
          }
          r := Copy(data, length, available);
        }
      }
    }

    /** The wait of a blocking read; a negative timeout waits for ever, here until the clock's script ends. */
    method AwaitData(timeoutMs: int, clock: Timing.Clock) returns (available: nat)
      requires Valid()
      modifies this`rxHead, this`accepted, this`dropped, this`script, clock, buffer
      ensures Valid() && old(accepted) <= accepted && available <= |accepted| - taken
      ensures available == 0 ==> clock.answers == [] || (timeoutMs > 0 && true in old(clock.answers))
    {
      hide Mirror;
      available := 0;
      var waiting := true;
      ghost var asked := 0;
      while available == 0 && waiting
        invariant Valid() && old(accepted) <= accepted && available <= |accepted| - taken
        invariant asked <= |old(clock.answers)| && clock.answers == old(clock.answers)[asked..]
        invariant !waiting && available == 0 ==> clock.answers == [] || (timeoutMs > 0 && true in old(clock.answers))
        decreases |clock.answers|, waiting
      {
        available := GetRxBufferAvailable();
        var expired := clock.Expired();
        if asked < |old(clock.answers)| { asked := asked + 1; }
        if timeoutMs > 0 && expired {
          available := 0;
          waiting := false;
        } else if timeoutMs <= 0 && clock.answers == [] {
          waiting := false;
        }
      }
    }

    /** The copy loop and the one store that frees what was copied. */
    method Copy(data: array<byte>, length: nat, available: nat) returns (n: nat)
      requires Valid() && data.Length >= length && data != buffer && available <= |accepted| - taken
      modifies this`rxHead, this`rxTail, this`accepted, this`taken, this`dropped, this`script, buffer, data
      ensures Valid() && old(accepted) <= accepted
      ensures n == (if length < available then length else available) && taken == old(taken) + n
      ensures data[..n] == accepted[old(taken)..taken]
    {
      hide Mirror, IrqUart.Valid;
      ValidFacts();
      n := if length < available then length else available;
      var tail := rxTail;
      for i := 0 to n
        invariant Valid() && old(accepted) <= accepted && taken == old(taken)
        invariant tail == (taken + i) % SIZE
        invariant data[..i] == accepted[taken..taken + i]
      {
        CopyOctet(data, i, tail);
        NextSlot(taken + i);
        tail := (tail + 1) % SIZE;
        Interfere();
      }
      Release(tail, n);
    }

    lemma ValidFacts()
      requires Valid()
      ensures rxTail == taken % SIZE
    {
    }

    static lemma NextSlot(k: nat)
      ensures (k % SIZE + 1) % SIZE == (k + 1) % SIZE
    {
    }

    method CopyOctet(data: array<byte>, i: nat, tail: nat)
      requires Valid() && data != buffer && i < data.Length && taken + i < |accepted| && tail == (taken + i) % SIZE
      requires data[..i] == accepted[taken..taken + i]
      modifies data
      ensures Valid() && data[..i + 1] == accepted[taken..taken + i + 1]
    {
      data[i] := buffer[tail];
      assert data[i] == accepted[taken + i];
    }

    /** rxTail moves in one store: the callback sees all of what was copied as free, or none of it. */
    method Release(tail: nat, n: nat)
      requires Valid() && taken + n <= |accepted| && tail == (taken + n) % SIZE
      modifies this`rxTail, this`taken
      ensures Valid() && taken == old(taken) + n
    {
      rxTail := tail;
      taken := taken + n;
    }

    /** uPortUartFlushRx, with the interrupt off: everything that has arrived is gone, nothing else is. */
    method FlushRx(isOpen: bool)
      requires Valid()
      modifies this`rxTail, this`taken
      ensures Valid()
      ensures isOpen ==> taken == |accepted| && rxTail == rxHead
      ensures !isOpen ==> taken == old(taken) && rxTail == old(rxTail)
    {
      if isOpen {
        rxTail := rxHead;
        taken := |accepted|;
      }
    }
  }
}
