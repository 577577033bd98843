/**
 The URC queue as the program keeps it: position fields and one byte buffer in
 which every entry is written as two 16-bit sizes, the line, a terminating zero
 and the payload.
 */
module UrcQueue {
  import opened Bytes
  import opened UrcRing

  /** The bytes of an entry header. */
  function Header(lineLen: nat, payloadLen: nat): (r: seq<byte>)
    requires lineLen <= U16_MAX && payloadLen <= U16_MAX
    ensures |r| == HEADER_SIZE
  {
    LE16(lineLen) + LE16(payloadLen)
  }

  /** The bytes of a whole entry. */
  function Encode(e: Entry): (r: seq<byte>)
    requires |e.line| <= U16_MAX && |e.payload| <= U16_MAX
    ensures |r| == RawSize(e)
  {
    Header(|e.line|, |e.payload|) + e.line + [0] + e.payload
  }

  ghost predicate HeaderStored(buf: seq<byte>, off: nat, e: Entry) {
    && |e.line| <= U16_MAX && |e.payload| <= U16_MAX
    && off + RawSize(e) <= |buf|
    && buf[off..off + HEADER_SIZE] == Header(|e.line|, |e.payload|)
  }

  ghost predicate Stored(buf: seq<byte>, off: nat, e: Entry) {
    && |e.line| <= U16_MAX && |e.payload| <= U16_MAX
    && off + RawSize(e) <= |buf|
    && buf[off..off + RawSize(e)] == Encode(e)
  }

  /** Every slot holds its entry; the slot out with the consumer still holds its header. */
  ghost predicate AllStored(buf: seq<byte>, slots: seq<Slot>, out: bool) {
    && (forall i :: (if out then 1 else 0) <= i < |slots| ==> Stored(buf, slots[i].off, slots[i].entry))
    && (out && |slots| > 0 ==> HeaderStored(buf, slots[0].off, slots[0].entry))
  }

  /** The header, line and terminator of an entry whose payload is still to come. */
  ghost predicate OpenStored(buf: seq<byte>, o: OpenEntry) {
    Stored(buf, o.off, Entry(o.line, []))
  }

  lemma StoredHasHeader(buf: seq<byte>, off: nat, e: Entry)
    requires Stored(buf, off, e)
    ensures HeaderStored(buf, off, e)
  {
    assert buf[off..off + HEADER_SIZE] == buf[off..off + RawSize(e)][..HEADER_SIZE];
  }

  /** A write outside [lo, hi) leaves an entry inside it alone. */
  lemma StoredFrame(before: seq<byte>, after: seq<byte>, off: nat, e: Entry)
    requires |before| == |after|
    requires forall i :: off <= i < off + RawSize(e) && i < |before| ==> after[i] == before[i]
    ensures Stored(before, off, e) ==> Stored(after, off, e)
    ensures HeaderStored(before, off, e) ==> HeaderStored(after, off, e)
  {
    if off + RawSize(e) <= |before| {
      assert after[off..off + RawSize(e)] == before[off..off + RawSize(e)];
      assert after[off..off + HEADER_SIZE] == before[off..off + HEADER_SIZE];
    }
  }

  lemma AllStoredFrame(before: seq<byte>, after: seq<byte>, slots: seq<Slot>, out: bool, lo: nat, hi: nat)
    requires |before| == |after|
    requires AllStored(before, slots, out)
    requires ClearOf(slots, lo, hi)
    requires forall i :: 0 <= i < |before| && !(lo <= i < hi) ==> after[i] == before[i]
    ensures AllStored(after, slots, out)
  {
    forall i | 0 <= i < |slots|
      ensures Stored(before, slots[i].off, slots[i].entry) ==> Stored(after, slots[i].off, slots[i].entry)
      ensures HeaderStored(before, slots[i].off, slots[i].entry) ==> HeaderStored(after, slots[i].off, slots[i].entry)
    {
      StoredFrame(before, after, slots[i].off, slots[i].entry);
    }
  }

  /** The slots of a ring stay clear of everything from CommitEnd to the end of the segment. */
  lemma SlotsClear(r: Ring)
    requires r.Inv()
    ensures forall i :: 0 <= i < |r.front| ==>
      r.front[i].off + RawSize(r.front[i].entry) <= r.CommitEnd()
      || (r.isWrapped && r.readPos <= r.front[i].off)
    ensures forall i :: 0 <= i < |r.back| ==> r.back[i].off + RawSize(r.back[i].entry) <= r.CommitEnd()
  {
    CommittedBounds(r);
    forall i | 0 <= i < |r.front| ensures RawSize(r.front[i].entry) <= r.front[i].size {
      assert SlotOk(r.front[i], r.startPos, r.bufferLen);
    }
    forall i | 0 <= i < |r.back| ensures RawSize(r.back[i].entry) <= r.back[i].size {
      assert SlotOk(r.back[i], r.startPos, r.bufferLen);
    }
  }

  /** An opened entry takes its prefix at the position that Place chose, clear of every slot. */
  lemma OpenedLayout(r: Ring, line: seq<byte>)
    requires r.Inv() && r.enqueueEntry.None? && r.EnqueueBegin(line).1
    ensures var (p, off) := r.Place(PrefixSize(line));
      var q := r.EnqueueBegin(line).0;
      && off.Some? && off.value == p.writePos && off.value + PrefixSize(line) <= p.SegmentEnd() <= r.bufferLen
      && q == p.(writePos := p.writePos + PrefixSize(line),
                 usedBytes := p.usedBytes + PrefixSize(line),
                 enqueueCapacity := p.SegmentEnd() - (p.writePos + PrefixSize(line)),
                 enqueueEntry := Some(OpenEntry(off.value, line)))
      && q.front == r.front && q.back == r.back && q.dequeueEntry == r.dequeueEntry
      && ClearOf(r.front, off.value, q.writePos) && ClearOf(r.back, off.value, q.writePos)
  {
    EnqueueBeginKeeps(r, line);
    PlaceFits(r, PrefixSize(line));
    SlotsClear(r.EnqueueBegin(line).0);
    hide Placed, SlotsOk, Tiles, Ring.OnGrid, Ring.Place;
  }

  ghost predicate ClearOf(slots: seq<Slot>, lo: nat, hi: nat) {
    forall i :: 0 <= i < |slots| ==> slots[i].off + RawSize(slots[i].entry) <= lo || hi <= slots[i].off
  }

  /** The payload window of an open entry overlaps no slot. */
  lemma WindowClear(r: Ring)
    requires r.Inv() && r.enqueueEntry.Some?
    ensures r.writePos + r.enqueueCapacity <= r.bufferLen
    ensures ClearOf(r.front, r.enqueueEntry.value.off, r.writePos + r.enqueueCapacity)
    ensures ClearOf(r.back, r.enqueueEntry.value.off, r.writePos + r.enqueueCapacity)
  {
    SlotsClear(r);
  }

  lemma StoreFrame(r: Ring, before: seq<byte>, after: seq<byte>)
    requires r.Inv() && r.enqueueEntry.Some? && |before| == |after| == r.bufferLen
    requires forall i :: 0 <= i < |before| && !(r.writePos <= i < r.writePos + r.enqueueCapacity) ==> after[i] == before[i]
    ensures AllStored(before, r.front, r.dequeueEntry.Some?) ==> AllStored(after, r.front, r.dequeueEntry.Some?)
    ensures AllStored(before, r.back, false) ==> AllStored(after, r.back, false)
    ensures OpenStored(before, r.enqueueEntry.value) ==> OpenStored(after, r.enqueueEntry.value)
  {
    var o := r.enqueueEntry.value;
    WindowClear(r);
    StoredFrame(before, after, o.off, Entry(o.line, []));
    if AllStored(before, r.front, r.dequeueEntry.Some?) {
      AllStoredFrame(before, after, r.front, r.dequeueEntry.Some?, o.off, r.writePos + r.enqueueCapacity);
    }
    if AllStored(before, r.back, false) {
      AllStoredFrame(before, after, r.back, false, o.off, r.writePos + r.enqueueCapacity);
    }
  }

  /** The two header fields, read back. */
  lemma HeaderRead(buf: seq<byte>, off: nat, e: Entry)
    requires HeaderStored(buf, off, e)
    ensures buf[off] as int + 256 * buf[off + 1] as int == |e.line|
    ensures buf[off + 2] as int + 256 * buf[off + 3] as int == |e.payload|
  {
    var h := buf[off..off + HEADER_SIZE];
    assert h[0] == buf[off] && h[1] == buf[off + 1] && h[2] == buf[off + 2] && h[3] == buf[off + 3];
  }

  function SetPayloadSize(buf: seq<byte>, off: nat, n: nat): seq<byte>
    requires off + HEADER_SIZE <= |buf| && n <= U16_MAX
  {
    buf[off + 2 := n % 256][off + 3 := n / 256]
  }

  /** Patching the payload size completes an opened entry whose payload is in place. */
  lemma PatchStores(buf: seq<byte>, o: OpenEntry, payload: seq<byte>)
    requires OpenStored(buf, o) && |payload| <= U16_MAX
    requires o.off + PrefixSize(o.line) + |payload| <= |buf|
    requires buf[o.off + PrefixSize(o.line)..o.off + PrefixSize(o.line) + |payload|] == payload
    ensures Stored(SetPayloadSize(buf, o.off, |payload|), o.off, Entry(o.line, payload))
  {
    hide Header;
    var w := SetPayloadSize(buf, o.off, |payload|);
    var lo := o.off + HEADER_SIZE;
    var mid := o.off + PrefixSize(o.line);
    var rest := o.line + [0];
    PatchHeader(buf, o.off, |o.line|, |payload|);
    SliceJoin(buf, o.off, lo, mid);
    assert buf[o.off..mid] == Header(|o.line|, 0) + rest;
    assert buf[lo..mid] == rest;
    assert w[lo..mid] == buf[lo..mid];
    assert w[mid..mid + |payload|] == buf[mid..mid + |payload|];
    SliceJoin(w, o.off, lo, mid + |payload|);
    SliceJoin(w, lo, mid, mid + |payload|);
    assert Header(|o.line|, |payload|) + (rest + payload) == Encode(Entry(o.line, payload));
  }

  lemma SliceJoin(s: seq<byte>, a: nat, b: nat, c: nat)
    requires a <= b <= c <= |s|
    ensures s[a..c] == s[a..b] + s[b..c]
  {
  }

  lemma PatchHeader(buf: seq<byte>, off: nat, lineLen: nat, n: nat)
    requires off + HEADER_SIZE <= |buf| && lineLen <= U16_MAX && n <= U16_MAX
    requires Header(lineLen, 0) <= buf[off..]
    ensures SetPayloadSize(buf, off, n)[off..off + HEADER_SIZE] == Header(lineLen, n)
  {
    assert buf[off] == buf[off..][0] && buf[off + 1] == buf[off..][1];
  }

  lemma AllStoredAppend(buf: seq<byte>, slots: seq<Slot>, out: bool, s: Slot)
    requires AllStored(buf, slots, out) && Stored(buf, s.off, s.entry)
    requires out ==> |slots| > 0
    ensures AllStored(buf, slots + [s], out)
  {
  }

  /** After EnqueueEnd every slot of the ring, the new one included, holds its entry. */
  lemma EndStored(r: Ring, buf: seq<byte>, payload: seq<byte>)
    requires r.Inv() && r.enqueueEntry.Some? && |payload| <= r.enqueueCapacity && |payload| <= U16_MAX
    requires |buf| == r.bufferLen
    requires AllStored(buf, r.front, r.dequeueEntry.Some?) && AllStored(buf, r.back, false)
    requires OpenStored(buf, r.enqueueEntry.value)
    requires r.writePos + |payload| <= |buf| && buf[r.writePos..r.writePos + |payload|] == payload
    ensures var o := r.enqueueEntry.value;
      var q := r.EnqueueEnd(payload);
      && o.off + HEADER_SIZE <= |buf|
      && AllStored(SetPayloadSize(buf, o.off, |payload|), q.front, r.dequeueEntry.Some?)
      && AllStored(SetPayloadSize(buf, o.off, |payload|), q.back, false)
  {
    var o := r.enqueueEntry.value;
    var q := r.EnqueueEnd(payload);
    WindowClear(r);
    PatchStores(buf, o, payload);
    var w := SetPayloadSize(buf, o.off, |payload|);
    AllStoredFrame(buf, w, r.front, r.dequeueEntry.Some?, o.off, r.writePos + r.enqueueCapacity);
    AllStoredFrame(buf, w, r.back, false, o.off, r.writePos + r.enqueueCapacity);
    var s := Slot(o.off, q.writePos - o.off, Entry(o.line, payload));
    if r.isWrapped {
      AllStoredAppend(w, r.back, false, s);
    } else {
      AllStoredAppend(w, r.front, r.dequeueEntry.Some?, s);
    }
    hide Ring.Inv, AllStored, Stored, OpenStored, ClearOf;
  }

  lemma AbortModel(r: Ring)
    requires r.Inv() && r.enqueueEntry.Some?
    ensures var o := r.enqueueEntry.value;
      && PrefixSize(o.line) <= r.usedBytes
      && r.EnqueueAbort() ==
         if o.off == r.startPos && r.isWrapped
         then r.(usedBytes := r.usedBytes - PrefixSize(o.line), enqueueCapacity := 0, enqueueEntry := None,
                 writePos := r.wrapPos, wrapPos := r.bufferLen, isWrapped := false)
         else r.(usedBytes := r.usedBytes - PrefixSize(o.line), enqueueCapacity := 0, enqueueEntry := None,
                 writePos := o.off)
  {
    CommittedBounds(r);
  }

  lemma EndModel(r: Ring, payload: seq<byte>, extra: nat, s: Slot)
    requires r.Inv() && r.enqueueEntry.Some? && |payload| <= r.enqueueCapacity
    requires s == Slot(r.enqueueEntry.value.off, PrefixSize(r.enqueueEntry.value.line) + extra,
                       Entry(r.enqueueEntry.value.line, payload))
    requires var padded := Align(PrefixSize(r.enqueueEntry.value.line) + |payload|) - PrefixSize(r.enqueueEntry.value.line);
      extra == if padded > r.enqueueCapacity then |payload| else padded
    ensures r.EnqueueEnd(payload) == r.(
      writePos := r.writePos + extra,
      usedBytes := r.usedBytes + extra,
      enqueueCapacity := 0,
      enqueueEntry := None,
      front := if r.isWrapped then r.front else r.front + [s],
      back := if r.isWrapped then r.back + [s] else r.back)
  {
  }

  /** The first slot of a queue with no open entry can be handed out as stored. */
  lemma TakeEntry(r: Ring, buf: seq<byte>)
    requires r.Inv() && r.enqueueEntry.None? && r.dequeueEntry.None?
    requires AllStored(buf, r.front, false)
    ensures r.usedBytes > 0 <==> r.Contents() != []
    ensures r.DequeueBegin().Inv() && r.DequeueBegin().Contents() == r.Contents()
    ensures r.usedBytes > 0 ==> Stored(buf, r.readPos, r.Contents()[0]) && AllStored(buf, r.front, true)
  {
    if r.usedBytes > 0 {
      UsedIsBounded(r);
      DequeuedSize(r);
      StoredHasHeader(buf, r.readPos, r.front[0].entry);
    } else {
      UnusedIsEmpty(r);
    }
  }

  /** The entry out with the consumer owns the bytes at readPos alone. */
  lemma EditFrame(r: Ring)
    requires r.Inv() && r.dequeueEntry.Some?
    ensures var hi := r.readPos + RawSize(r.Contents()[0]);
      && r.Contents() != [] && r.Contents()[0] == r.front[0].entry && r.front[0].off == r.readPos
      && hi <= r.bufferLen
      && ClearOf(r.front[1..], r.readPos, hi)
      && ClearOf(r.back, r.readPos, hi)
      && (r.enqueueEntry.Some? ==>
            r.writePos + r.enqueueCapacity <= r.readPos || hi <= r.enqueueEntry.value.off <= r.writePos)
  {
    CommittedBounds(r);
    SlotsClear(r);
    DropFirst(r.front, r.readPos, if r.isWrapped then r.wrapPos else r.CommitEnd(), r.startPos, r.bufferLen);
    TilesBounds(r.front[1..], r.readPos + r.front[0].size, if r.isWrapped then r.wrapPos else r.CommitEnd());
    assert SlotOk(r.front[0], r.startPos, r.bufferLen);
    hide Tiles, SlotsOk, Ring.OnGrid, Ring.OpenOk;
  }

  lemma EditStores(r: Ring, before: seq<byte>, after: seq<byte>)
    requires r.Inv() && r.dequeueEntry.Some? && |before| == |after| == r.bufferLen
    requires forall i | 0 <= i < |before| && !(r.readPos + HEADER_SIZE <= i < r.readPos + RawSize(r.Contents()[0])) ::
      after[i] == before[i]
    ensures AllStored(before, r.front, true) ==> AllStored(after, r.front, true)
    ensures AllStored(before, r.back, false) ==> AllStored(after, r.back, false)
    ensures r.enqueueEntry.Some? && OpenStored(before, r.enqueueEntry.value) ==> OpenStored(after, r.enqueueEntry.value)
  {
    EditFrame(r);
    var hi := r.readPos + RawSize(r.Contents()[0]);
    hide Ring.Inv, Ring.Contents, Stored;
    if r.enqueueEntry.Some? {
      var o := r.enqueueEntry.value;
      StoredFrame(before, after, o.off, Entry(o.line, []));
    }
    if AllStored(before, r.back, false) {
      AllStoredFrame(before, after, r.back, false, r.readPos, hi);
    }
    if AllStored(before, r.front, true) {
      AllStoredFrame(before, after, r.front[1..], false, r.readPos, hi);
      assert after[r.readPos..r.readPos + HEADER_SIZE] == before[r.readPos..r.readPos + HEADER_SIZE];
      forall i | 1 <= i < |r.front| ensures Stored(after, r.front[i].off, r.front[i].entry) {
        assert r.front[i] == r.front[1..][i - 1];
      }
    }
  }

  /** What is left once the entry at readPos is dropped is stored as before. */
  lemma DequeuedStored(r: Ring, buf: seq<byte>)
    requires r.Inv() && r.dequeueEntry.Some?
    requires AllStored(buf, r.front, true) && AllStored(buf, r.back, false)
    ensures AllStored(buf, r.DequeueEnd().front, false) && AllStored(buf, r.DequeueEnd().back, false)
    ensures r.front != [] && r.readPos + RawSize(r.front[0].entry) <= |buf|
    ensures r.dequeueEntry.value == r.readPos
    ensures SizeWithin(r.readPos, r.front[0].entry, if r.isWrapped then r.wrapPos else r.bufferLen) == r.front[0].size
    ensures r.front[0].size <= r.usedBytes
    ensures buf[r.readPos] as int + 256 * buf[r.readPos + 1] as int == |r.front[0].entry.line|
    ensures buf[r.readPos + 2] as int + 256 * buf[r.readPos + 3] as int == |r.front[0].entry.payload|
  {
    DequeuedSize(r);
    HeaderRead(buf, r.readPos, r.front[0].entry);
    hide Ring.Inv, Stored, HeaderStored;
  }

  class UrcQueue {
    const buffer: array<byte>
    const startPos: nat
    var bufferLen: nat
    var readPos: nat
    var writePos: nat
    var usedBytes: nat
    var wrapPos: nat
    var enqueueCapacity: nat
    var isWrapped: bool
    var enqueueEntry: Option<nat>
    var dequeueEntry: Option<nat>
    var dequeueLocked: bool
    ghost var front: seq<Slot>
    ghost var back: seq<Slot>
    ghost var openLine: seq<byte>

    ghost function Model(): Ring
      reads this
    {
      Ring(bufferLen, startPos, readPos, writePos, usedBytes, wrapPos, enqueueCapacity, isWrapped,
           if enqueueEntry.Some? then Some(OpenEntry(enqueueEntry.value, openLine)) else None,
           dequeueEntry, front, back)
    }

    ghost predicate Valid()
      reads this, buffer
    {
      && bufferLen == buffer.Length
      && (dequeueLocked <==> dequeueEntry.Some?)
      && Model().Inv()
      && AllStored(buffer[..], front, dequeueEntry.Some?)
      && AllStored(buffer[..], back, false)
      && (enqueueEntry.Some? ==> OpenStored(buffer[..], OpenEntry(enqueueEntry.value, openLine)))
    }

    lemma ValidFacts()
      requires Valid()
      ensures Model().Inv() && (enqueueEntry.Some? <==> Model().enqueueEntry.Some?)
      ensures Model().enqueueCapacity == enqueueCapacity && Model().writePos == writePos
      ensures dequeueEntry == Model().dequeueEntry && (dequeueLocked <==> dequeueEntry.Some?)
    {
    }

    /** The queued URCs, oldest first. */
    ghost function Contents(): seq<Entry>
      reads this
    {
      Model().Contents()
    }

    /** The bytes written so far into the payload window, which starts at writePos. */
    ghost function Window(n: nat): (r: seq<byte>)
      requires Valid() && enqueueEntry.Some? && n <= enqueueCapacity
      ensures |r| == n && writePos + n <= buffer.Length
      reads this, buffer
    {
      WindowClear(Model());
      buffer[writePos..writePos + n]
    }

    /** The buffer lies at an address whose lowest bit is addressLsb. */
    constructor (buffer: array<byte>, addressLsb: nat)
      requires addressLsb <= 1
      ensures Valid() && this.buffer == buffer
      ensures Model() == Ring(buffer.Length, addressLsb, addressLsb, addressLsb, 0, buffer.Length, 0, false,
                              None, None, [], [])
    {
      this.buffer := buffer;
      bufferLen := buffer.Length;
      startPos := addressLsb;
      readPos := addressLsb;
      writePos := addressLsb;
      wrapPos := buffer.Length;
      usedBytes, enqueueCapacity, isWrapped := 0, 0, false;
      enqueueEntry, dequeueEntry, dequeueLocked := None, None, false;
      front, back, openLine := [], [], [];
    }

    /** getEnqueueOffset: finds room for an entry, wrapping when the head has more of it. */
    method GetEnqueueOffset(requiredSize: nat) returns (off: Option<nat>)
      requires Valid() && enqueueEntry.None? && requiredSize > 0
      modifies this
      ensures (Model(), off) == old(Model()).Place(requiredSize)
      ensures bufferLen == old(bufferLen) && dequeueLocked == old(dequeueLocked)
    {
      if requiredSize > bufferLen - usedBytes {
        return None;
      }
      if usedBytes == 0 {
        readPos, writePos, wrapPos, isWrapped := startPos, startPos, bufferLen, false;
      }
      if isWrapped {
        return if requiredSize <= readPos - writePos then Some(writePos) else None;
      }
      var tailSpace := bufferLen - writePos;
      var headSpace := readPos - startPos;
      if headSpace > tailSpace && requiredSize <= headSpace {
        wrapPos, isWrapped, writePos := writePos, true, startPos;
        return Some(startPos);
      }
      if requiredSize <= tailSpace {
        return Some(writePos);
      }
      if requiredSize <= headSpace {
        // headSpace > tailSpace was taken care of above
        assert false;
      }
      return None;
    }

    /** Stores the two 16-bit header fields. */
    method WriteHeader(off: nat, lineLen: nat, payloadLen: nat)
      requires off + HEADER_SIZE <= buffer.Length && lineLen <= U16_MAX && payloadLen <= U16_MAX
      modifies buffer
      ensures buffer[off..off + HEADER_SIZE] == Header(lineLen, payloadLen)
      ensures forall i :: 0 <= i < buffer.Length && !(off <= i < off + HEADER_SIZE) ==> buffer[i] == old(buffer[i])
    {
      buffer[off], buffer[off + 1] := lineLen % 256, lineLen / 256;
      buffer[off + 2], buffer[off + 3] := payloadLen % 256, payloadLen / 256;
    }

    /** Writes header, line and terminator of an entry without payload. */
    method WritePrefix(off: nat, line: seq<byte>)
      requires |line| <= U16_MAX && off + PrefixSize(line) <= buffer.Length
      modifies buffer
      ensures OpenStored(buffer[..], OpenEntry(off, line))
      ensures forall i :: 0 <= i < buffer.Length && !(off <= i < off + PrefixSize(line)) ==> buffer[i] == old(buffer[i])
    {
      forall i | 0 <= i < |line| {
        buffer[off + HEADER_SIZE + i] := line[i];
      }
      buffer[off + HEADER_SIZE + |line|] := 0;
      WriteHeader(off, |line|, 0);
      assert buffer[off + HEADER_SIZE..off + HEADER_SIZE + |line|] == line;
      assert buffer[off..off + PrefixSize(line)] == buffer[off..off + HEADER_SIZE]
             + buffer[off + HEADER_SIZE..off + HEADER_SIZE + |line|] + [buffer[off + HEADER_SIZE + |line|]];
    }

    /** Fills in the entry at the place found for it and records it as open. */
    method OpenEntryAt(off: nat, line: seq<byte>)
      requires |line| <= U16_MAX && bufferLen == buffer.Length
      requires off == writePos && off + PrefixSize(line) <= Model().SegmentEnd() <= bufferLen
      modifies this, buffer
      ensures Model() == old(Model()).(
        writePos := off + PrefixSize(line),
        usedBytes := old(usedBytes) + PrefixSize(line),
        enqueueCapacity := old(Model()).SegmentEnd() - (off + PrefixSize(line)),
        enqueueEntry := Some(OpenEntry(off, line)))
      ensures OpenStored(buffer[..], OpenEntry(off, line))
      ensures forall i :: 0 <= i < buffer.Length && !(off <= i < off + PrefixSize(line)) ==> buffer[i] == old(buffer[i])
      ensures dequeueLocked == old(dequeueLocked)
    {
      WritePrefix(off, line);
      writePos := writePos + PrefixSize(line);
      usedBytes := usedBytes + PrefixSize(line);
      var segmentEnd := if isWrapped then readPos else bufferLen;
      enqueueCapacity := segmentEnd - writePos;
      enqueueEntry := Some(off);
      openLine := line;
    }

    /** Opens an entry for the line; false, with nothing queued or lost, when there is no room. */
    method EnqueueBegin(line: seq<byte>) returns (ok: bool)
      requires Valid() && enqueueEntry.None?
      modifies this, buffer
      ensures Valid()
      ensures (Model(), ok) == old(Model()).EnqueueBegin(line)
      ensures ok <==> enqueueEntry.Some?
    {
      hide AllStored, OpenStored;
      EnqueueBeginKeeps(Model(), line);
      ghost var before, bytes := Model(), buffer[..];
      ok := false;
      if |line| <= U16_MAX {
        PlaceFits(before, PrefixSize(line));
        var offset := GetEnqueueOffset(PrefixSize(line));
        if offset.Some? {
          OpenedLayout(before, line);
          hide Ring.Place, Ring.Inv, Placed, Ring.LargestRun, ClearOf, Ring.EnqueueBegin;
          OpenEntryAt(offset.value, line);
          AllStoredFrame(bytes, buffer[..], front, dequeueEntry.Some?, offset.value, writePos);
          AllStoredFrame(bytes, buffer[..], back, false, offset.value, writePos);
          ok := true;
        }
      }
    }

    /**
     Where the payload of the open entry goes and how much of it fits.  The window lies in the
     buffer and clear of every queued entry, the one out with the consumer included.
     */
    method EnqueueGetPayloadPtr() returns (pos: nat, capacity: nat)
      requires Valid() && enqueueEntry.Some?
      ensures pos == writePos && capacity == Min(enqueueCapacity, U16_MAX)
      ensures pos + capacity <= buffer.Length
      ensures ClearOf(front, pos, pos + capacity) && ClearOf(back, pos, pos + capacity)
    {
      LineLenRead();
      pos := enqueueEntry.value + HEADER_SIZE + HeaderField(enqueueEntry.value) + 1;
      capacity := if enqueueCapacity > U16_MAX then U16_MAX else enqueueCapacity;
      WindowClear(Model());
    }

    /** Reads one 16-bit header field. */
    function HeaderField(off: nat): nat
      requires off + 2 <= buffer.Length
      reads buffer
    {
      buffer[off] as int + 256 * buffer[off + 1] as int
    }

    /** Bytes that arrive for the open entry are stored straight into its window. */
    method StorePayload(at: nat, bytes: seq<byte>)
      requires Valid() && enqueueEntry.Some? && at + |bytes| <= enqueueCapacity
      modifies buffer
      ensures Valid()
      ensures Window(at + |bytes|) == old(Window(at)) + bytes
    {
      hide AllStored, OpenStored, Ring.Inv;
      WindowClear(Model());
      ghost var before := buffer[..];
      CopyIn(writePos + at, bytes);
      StoreFrame(Model(), before, buffer[..]);
    }

    /** memcpy into the buffer. */
    method CopyIn(pos: nat, bytes: seq<byte>)
      requires pos + |bytes| <= buffer.Length
      modifies buffer
      ensures buffer[..] == old(buffer[..pos]) + bytes + old(buffer[pos + |bytes|..])
    {
      forall i | 0 <= i < |bytes| {
        buffer[pos + i] := bytes[i];
      }
    }

    /** Moves the positions past the payload and its padding and closes the open entry. */
    method Close(additionalSize: nat, ghost slot: Slot)
      requires enqueueEntry.Some?
      modifies this
      ensures Model() == old(Model()).(
        writePos := old(writePos) + additionalSize,
        usedBytes := old(usedBytes) + additionalSize,
        enqueueCapacity := 0,
        enqueueEntry := None,
        front := if old(isWrapped) then old(front) else old(front) + [slot],
        back := if old(isWrapped) then old(back) + [slot] else old(back))
      ensures dequeueLocked == old(dequeueLocked)
    {
      writePos := writePos + additionalSize;
      usedBytes := usedBytes + additionalSize;
      enqueueCapacity := 0;
      enqueueEntry := None;
      if isWrapped { back := back + [slot]; } else { front := front + [slot]; }
    }

    /** Patches the payload size into an entry header. */
    method WritePayloadSize(off: nat, payloadSize: nat)
      requires off + HEADER_SIZE <= buffer.Length && payloadSize <= U16_MAX
      modifies buffer
      ensures buffer[..] == SetPayloadSize(old(buffer[..]), off, payloadSize)
    {
      buffer[off + 2], buffer[off + 3] := payloadSize % 256, payloadSize / 256;
    }

    lemma LineLenRead()
      requires Valid() && enqueueEntry.Some?
      ensures enqueueEntry.value + PrefixSize(openLine) <= buffer.Length
      ensures HeaderField(enqueueEntry.value) == |openLine|
    {
      var e := Entry(openLine, []);
      StoredHasHeader(buffer[..], enqueueEntry.value, e);
      HeaderRead(buffer[..], enqueueEntry.value, e);
    }

    /** How many bytes the payload and its padding add to the open entry. */
    method AdditionalSize(payloadSize: nat) returns (extra: nat)
      requires Valid() && enqueueEntry.Some?
      requires payloadSize <= enqueueCapacity && payloadSize <= U16_MAX
      ensures payloadSize <= extra <= enqueueCapacity
      ensures var padded := Align(PrefixSize(openLine) + payloadSize) - PrefixSize(openLine);
        extra == if padded > enqueueCapacity then payloadSize else padded
    {
      var off := enqueueEntry.value;
      LineLenRead();
      var prefixSize := HEADER_SIZE + HeaderField(off) + 1;
      var entrySize := Align(prefixSize + payloadSize);
      extra := entrySize - prefixSize;
      if extra > enqueueCapacity {
        extra := payloadSize;
      }
    }

    /** Commits the open entry with the first payloadSize bytes of its window as payload. */
    method EnqueueEnd(payloadSize: nat)
      requires Valid() && enqueueEntry.Some?
      requires payloadSize <= enqueueCapacity && payloadSize <= U16_MAX
      modifies this, buffer
      ensures Valid()
      ensures Model() == old(Model()).EnqueueEnd(old(Window(payloadSize))) && enqueueEntry.None?
      ensures Contents() == old(Contents()) + [Entry(old(openLine), old(Window(payloadSize)))]
    {
      hide AllStored, OpenStored, Stored, Ring.Inv, Ring.Contents, Ring.EnqueueEnd;
      ghost var before, payload := Model(), Window(payloadSize);
      EnqueueEndKeeps(before, payload);
      EndStored(before, buffer[..], payload);
      var additionalSize := AdditionalSize(payloadSize);
      ghost var slot := Slot(enqueueEntry.value, PrefixSize(openLine) + additionalSize, Entry(openLine, payload));
      WritePayloadSize(enqueueEntry.value, payloadSize);
      Close(additionalSize, slot);
      EndModel(before, payload, additionalSize, slot);
    }

    /** Takes the open entry back out. */
    method EnqueueAbort()
      requires Valid() && enqueueEntry.Some?
      modifies this
      ensures Valid()
      ensures Model() == old(Model()).EnqueueAbort() && enqueueEntry.None?
      ensures dequeueEntry == old(dequeueEntry) && dequeueLocked == old(dequeueLocked)
      ensures Contents() == old(Contents())
    {
      hide AllStored, OpenStored, Ring.Inv, Ring.Contents, Ring.EnqueueAbort;
      EnqueueAbortKeeps(Model());
      AbortModel(Model());
      LineLenRead();
      var entryOffset := enqueueEntry.value;
      var entrySize := HEADER_SIZE + HeaderField(entryOffset) + 1;
      usedBytes := usedBytes - entrySize;
      if entryOffset == startPos && isWrapped {
        writePos, wrapPos, isWrapped := wrapPos, bufferLen, false;
      } else {
        writePos := entryOffset;
      }
      enqueueCapacity := 0;
      enqueueEntry := None;
    }

    /**
     Hands the oldest entry to the consumer, byte for byte as it was queued.  Nothing is handed
     out while another entry is out, while one is being enqueued, or when the queue is empty.
     */
    method DequeueBegin() returns (entry: Option<nat>)
      requires Valid()
      modifies this
      ensures Valid()
      ensures old(dequeueLocked) ==> entry.None? && Model() == old(Model())
      ensures !old(dequeueLocked) ==> Model() == old(Model()).DequeueBegin() && entry == dequeueEntry
      ensures entry.Some? <==> !old(dequeueLocked) && enqueueEntry.None? && Contents() != []
      ensures entry.Some? ==> Stored(buffer[..], entry.value, Contents()[0])
      ensures Contents() == old(Contents()) && enqueueEntry == old(enqueueEntry)
    {
      entry := None;
      if !dequeueLocked {
        ghost var before := Model();
        if enqueueEntry.None? { TakeEntry(before, buffer[..]); }
        hide AllStored, OpenStored, Stored, Ring.Inv, Ring.Contents;
        if usedBytes > 0 && enqueueEntry.None? {
          dequeueLocked := true;
          entry := Some(readPos);
          dequeueEntry := entry;
        }
      }
    }

    /** The number of bytes of the entry that is out, as its header tells the callback. */
    method EntryBytes(entry: nat) returns (n: nat)
      requires Valid() && dequeueEntry == Some(entry)
      ensures Contents() != [] && n == RawSize(Contents()[0])
    {
      DequeuedStored(Model(), buffer[..]);
      n := HEADER_SIZE + HeaderField(entry) + 1 + HeaderField(entry + 2);
    }

    /** A callback may overwrite the line and payload of the entry it was handed. */
    method EditEntry(at: nat, bytes: seq<byte>)
      requires Valid() && dequeueEntry.Some?
      requires HEADER_SIZE <= at && at + |bytes| <= RawSize(Contents()[0])
      modifies buffer
      ensures Valid()
      ensures enqueueEntry.Some? ==> Window(enqueueCapacity) == old(Window(enqueueCapacity))
    {
      hide AllStored, OpenStored, Stored, Ring.Inv, Ring.Contents, ClearOf;
      ghost var before := buffer[..];
      EditFrame(Model());
      if enqueueEntry.Some? { WindowClear(Model()); }
      CopyIn(readPos + at, bytes);
      EditStores(Model(), before, buffer[..]);
      if enqueueEntry.Some? {
        assert buffer[writePos..writePos + enqueueCapacity] == before[writePos..writePos + enqueueCapacity];
      }
    }

    /** Winds the positions back once the tail segment or the whole queue is used up. */
    method Settle()
      modifies this
      ensures Model() == old(Model()).Settled()
      ensures dequeueLocked == old(dequeueLocked) && bufferLen == old(bufferLen)
    {
      if isWrapped && readPos == wrapPos {
        readPos, wrapPos, isWrapped := startPos, bufferLen, false;
        front, back := back, [];
      }
      if usedBytes == 0 {
        readPos, writePos, wrapPos, isWrapped := startPos, startPos, bufferLen, false;
      }
    }

    /** Removes the entry that was handed out; its size is rebuilt from its header alone. */
    method DequeueEnd(entry: nat)
      requires Valid() && dequeueEntry == Some(entry)
      modifies this
      ensures Valid()
      ensures old(Model()).dequeueEntry.Some? && Model() == old(Model()).DequeueEnd()
      ensures dequeueEntry.None? && !dequeueLocked
      ensures Contents() == old(Contents())[1..]
    {
      ghost var before := Model();
      hide AllStored, OpenStored, Ring.Inv, Ring.Contents, Ring.Settled, Entries, Align;
      DequeueEndKeeps(before);
      DequeuedStored(before, buffer[..]);
      var rawEntrySize := HEADER_SIZE + HeaderField(entry) + 1 + HeaderField(entry + 2);
      var totEntrySize := Align(rawEntrySize);
      var segmentEnd := if isWrapped then wrapPos else bufferLen;
      if entry + totEntrySize > segmentEnd {
        totEntrySize := rawEntrySize;
      }
      readPos := readPos + totEntrySize;
      usedBytes := usedBytes - totEntrySize;
      dequeueEntry := None;
      front := front[1..];
      assert Model() == before.Dropped();
      Settle();
      dequeueLocked := false;
    }
  }
}
