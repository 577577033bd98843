/**
 The URC queue as a value: every position variable of the queue record together
 with the slots that are live in the buffer.  Each function below is one queue
 operation; the lemmas say that the operations keep the ring well formed and act
 on its contents as a first-in first-out list.
 */
module UrcRing {
  import opened Bytes

  /** One URC: the text line and the binary payload that followed it. */
  datatype Entry = Entry(line: seq<byte>, payload: seq<byte>)

  /** A committed entry and the bytes of the buffer it owns. */
  datatype Slot = Slot(off: nat, size: nat, entry: Entry)

  /** The entry between EnqueueBegin and EnqueueEnd or EnqueueAbort. */
  datatype OpenEntry = OpenEntry(off: nat, line: seq<byte>)

  const HEADER_SIZE: nat := 4

  /** Rounds a size up to the alignment of the 16-bit header fields. */
  function Align(size: nat): nat {
    (size + 1) / 2 * 2
  }

  function PrefixSize(line: seq<byte>): nat {
    HEADER_SIZE + |line| + 1
  }

  function RawSize(e: Entry): nat {
    PrefixSize(e.line) + |e.payload|
  }

  /** The bytes an entry takes when it starts at off in a segment that ends at end. */
  function SizeWithin(off: nat, e: Entry, end: nat): nat {
    if off + Align(RawSize(e)) > end then RawSize(e) else Align(RawSize(e))
  }

  ghost predicate SlotOk(s: Slot, startPos: nat, bufferLen: nat) {
    && startPos <= s.off
    && (s.off - startPos) % 2 == 0
    && |s.entry.line| <= U16_MAX
    && |s.entry.payload| <= U16_MAX
    && s.size == SizeWithin(s.off, s.entry, bufferLen)
    && s.off + s.size <= bufferLen
  }

  ghost predicate SlotsOk(slots: seq<Slot>, startPos: nat, bufferLen: nat) {
    forall i :: 0 <= i < |slots| ==> SlotOk(slots[i], startPos, bufferLen)
  }

  /** The slots lie back to back from lo to hi. */
  ghost predicate Tiles(slots: seq<Slot>, lo: nat, hi: nat) {
    if slots == [] then lo == hi
    else slots[0].off == lo && Tiles(slots[1..], lo + slots[0].size, hi)
  }

  function Entries(slots: seq<Slot>): (r: seq<Entry>)
    ensures |r| == |slots|
    ensures forall i :: 0 <= i < |r| ==> r[i] == slots[i].entry
  {
    seq(|slots|, i requires 0 <= i < |slots| => slots[i].entry)
  }

  datatype Ring = Ring(
    bufferLen: nat,
    startPos: nat,
    readPos: nat,
    writePos: nat,
    usedBytes: nat,
    wrapPos: nat,
    enqueueCapacity: nat,
    isWrapped: bool,
    enqueueEntry: Option<OpenEntry>,
    dequeueEntry: Option<nat>,
    front: seq<Slot>,   // live slots from readPos on
    back: seq<Slot>)    // live slots that wrapped to startPos
  {
    /** What the queue holds, oldest entry first. */
    function Contents(): seq<Entry> {
      Entries(front) + Entries(back)
    }

    /** End of the committed bytes of the segment being written. */
    function CommitEnd(): nat {
      if enqueueEntry.Some? then enqueueEntry.value.off else writePos
    }

    /** Where the segment that is being written must stop. */
    function SegmentEnd(): nat {
      if isWrapped then readPos else bufferLen
    }

    ghost predicate OnGrid(pos: nat) {
      pos >= startPos && (pos - startPos) % 2 == 0
    }

    ghost predicate Linear() {
      && back == []
      && wrapPos == bufferLen
      && readPos <= writePos
      && writePos <= Max(bufferLen, startPos)
      && usedBytes == writePos - readPos
      && Tiles(front, readPos, CommitEnd())
    }

    ghost predicate Wrapped() {
      && front != []
      && startPos < writePos <= readPos < wrapPos <= bufferLen
      && (OnGrid(wrapPos) || wrapPos == bufferLen)
      && usedBytes == (wrapPos - readPos) + (writePos - startPos)
      && Tiles(front, readPos, wrapPos)
      && Tiles(back, startPos, CommitEnd())
    }

    ghost predicate OpenOk() {
      match enqueueEntry
      case None => enqueueCapacity == 0
      case Some(o) =>
        && OnGrid(o.off)
        && |o.line| <= U16_MAX
        && writePos == o.off + PrefixSize(o.line)
        && writePos + enqueueCapacity <= SegmentEnd()
        && ((o.off + PrefixSize(o.line) + enqueueCapacity - startPos) % 2 == 0
            || writePos + enqueueCapacity == bufferLen)
    }

    /** Holds between any two queue operations. */
    ghost predicate Inv() {
      && startPos <= 1
      && OnGrid(readPos)
      && (OnGrid(CommitEnd()) || CommitEnd() == bufferLen)
      && (if isWrapped then Wrapped() else Linear())
      && OpenOk()
      && SlotsOk(front, startPos, bufferLen)
      && SlotsOk(back, startPos, bufferLen)
      && (dequeueEntry.Some? ==> front != [] && dequeueEntry.value == readPos)
    }

    // ----- operations -----

    function Rewind(): Ring {
      this.(readPos := startPos, writePos := startPos, wrapPos := bufferLen, isWrapped := false)
    }

    /** Starts writing at startPos again, below the oldest entry. */
    function Wrap(): Ring {
      this.(wrapPos := writePos, isWrapped := true, writePos := startPos)
    }

    /** Chooses where an entry of the given size goes; None when it fits nowhere. */
    function Place(size: nat): (Ring, Option<nat>)
      requires Inv() && enqueueEntry.None?
    {
      if size > bufferLen - usedBytes then (this, None)
      else
        var r := if usedBytes == 0 then Rewind() else this;
        if r.isWrapped then
          (r, if size <= r.readPos - r.writePos then Some(r.writePos) else None)
        else
          var tailSpace := bufferLen - r.writePos;
          var headSpace := r.readPos - startPos;
          if headSpace > tailSpace && size <= headSpace then (r.Wrap(), Some(startPos))
          else if size <= tailSpace then (r, Some(r.writePos))
          else (r, None)
    }

    function EnqueueBegin(line: seq<byte>): (Ring, bool)
      requires Inv() && enqueueEntry.None?
    {
      if |line| > U16_MAX then (this, false)
      else
        var (r, off) := Place(PrefixSize(line));
        if off.None? then (r, false)
        else
          var w := off.value + PrefixSize(line);
          var end := if r.isWrapped then r.readPos else bufferLen;
          (r.(writePos := w,
              usedBytes := usedBytes + PrefixSize(line),
              enqueueCapacity := Max(end - w, 0),
              enqueueEntry := Some(OpenEntry(off.value, line))), true)
    }

    function EnqueueEnd(payload: seq<byte>): Ring
      requires Inv() && enqueueEntry.Some? && |payload| <= enqueueCapacity
    {
      var o := enqueueEntry.value;
      var e := Entry(o.line, payload);
      var padded := Align(RawSize(e)) - PrefixSize(o.line);
      var extra := if padded > enqueueCapacity then |payload| else padded;
      var s := Slot(o.off, PrefixSize(o.line) + extra, e);
      this.(writePos := writePos + extra,
            usedBytes := usedBytes + extra,
            enqueueCapacity := 0,
            enqueueEntry := None,
            front := if isWrapped then front else front + [s],
            back := if isWrapped then back + [s] else back)
    }

    function EnqueueAbort(): Ring
      requires Inv() && enqueueEntry.Some?
    {
      var o := enqueueEntry.value;
      assert PrefixSize(o.line) <= usedBytes by { CommittedBounds(this); }
      var r := this.(usedBytes := usedBytes - PrefixSize(o.line), enqueueCapacity := 0, enqueueEntry := None);
      if o.off == startPos && isWrapped
      then r.(writePos := wrapPos, wrapPos := bufferLen, isWrapped := false)
      else r.(writePos := o.off)
    }

    /** The entry handed to the consumer, if any. */
    function DequeueBegin(): Ring
      requires Inv() && dequeueEntry.None?
    {
      if usedBytes > 0 && enqueueEntry.None? then this.(dequeueEntry := Some(readPos)) else this
    }

    /** The ring right after its oldest slot is gone, before positions are wound back. */
    function Dropped(): Ring
      requires Inv() && front != [] && front[0].size <= usedBytes
    {
      this.(readPos := readPos + front[0].size, usedBytes := usedBytes - front[0].size,
            dequeueEntry := None, front := front[1..])
    }

    /** Leaves the wrapped form once the tail segment is used up, and winds an empty ring back. */
    function Settled(): Ring {
      var r := if isWrapped && readPos == wrapPos
               then this.(readPos := startPos, wrapPos := bufferLen, isWrapped := false, front := back, back := [])
               else this;
      if r.usedBytes == 0 then r.Rewind() else r
    }

    function DequeueEnd(): Ring
      requires Inv() && dequeueEntry.Some?
    {
      assert front[0].size <= usedBytes by { DequeuedSize(this); }
      Dropped().Settled()
    }

    /** Length of the longest run of bytes that the next entry could be given. */
    function LargestRun(): int {
      if usedBytes == 0 then bufferLen - startPos
      else if isWrapped then readPos - writePos
      else Max(bufferLen - writePos, readPos - startPos)
    }
  }

  // ----- tilings -----

  lemma {:induction false} TilesBounds(slots: seq<Slot>, lo: nat, hi: nat)
    requires Tiles(slots, lo, hi)
    ensures lo <= hi
    ensures forall i :: 0 <= i < |slots| ==> lo <= slots[i].off && slots[i].off + slots[i].size <= hi
  {
    if slots == [] {
    } else {
      TilesBounds(slots[1..], lo + slots[0].size, hi);
      forall i | 0 <= i < |slots|
        ensures lo <= slots[i].off && slots[i].off + slots[i].size <= hi
      {
        if i > 0 { assert slots[i] == slots[1..][i - 1]; }
      }
    }
  }

  lemma {:induction false} TilesAppend(slots: seq<Slot>, lo: nat, mid: nat, s: Slot)
    requires Tiles(slots, lo, mid) && s.off == mid
    ensures Tiles(slots + [s], lo, mid + s.size)
  {
    if slots == [] {
      assert (slots + [s])[1..] == [];
    } else {
      TilesAppend(slots[1..], lo + slots[0].size, mid, s);
      assert (slots + [s])[1..] == slots[1..] + [s];
    }
  }

  lemma CommittedBounds(r: Ring)
    requires r.Inv()
    ensures (if r.isWrapped then r.startPos else r.readPos) <= r.CommitEnd() <= r.writePos
    ensures forall i :: 0 <= i < |r.front| ==>
      r.readPos <= r.front[i].off && r.front[i].off + r.front[i].size <= if r.isWrapped then r.wrapPos else r.CommitEnd()
    ensures forall i :: 0 <= i < |r.back| ==>
      r.startPos <= r.back[i].off && r.back[i].off + r.back[i].size <= r.CommitEnd()
    ensures r.usedBytes == 0 ==> r.front == [] && r.back == [] && !r.isWrapped && r.enqueueEntry.None?
  {
    TilesBounds(r.front, r.readPos, if r.isWrapped then r.wrapPos else r.CommitEnd());
    if r.isWrapped {
      TilesBounds(r.back, r.startPos, r.CommitEnd());
    }
    if r.front != [] {
      assert SlotOk(r.front[0], r.startPos, r.bufferLen);
    }
  }

  /** Entries start on the grid of the start position, and one of odd size can only end at the buffer's end. */
  lemma OddEndsAtTheEnd(r: Ring, s: Slot)
    requires r.Inv() && (s in r.front || s in r.back)
    ensures r.startPos <= s.off && (s.off - r.startPos) % 2 == 0 && s.off + s.size <= r.bufferLen
    ensures s.size == RawSize(s.entry) || s.size == RawSize(s.entry) + 1
    ensures s.size % 2 == 1 ==> s.off + s.size == r.bufferLen
  {
    hide Tiles;
    assert SlotOk(s, r.startPos, r.bufferLen);
    assert Align(RawSize(s.entry)) % 2 == 0;
  }

  /** The size rebuilt from the header is the size that was charged. */
  lemma DequeuedSize(r: Ring)
    requires r.Inv() && r.front != []
    ensures SizeWithin(r.readPos, r.front[0].entry, if r.isWrapped then r.wrapPos else r.bufferLen) == r.front[0].size
    ensures r.front[0].off == r.readPos
    ensures r.front[0].size <= r.usedBytes
  {
    TilesBounds(r.front, r.readPos, if r.isWrapped then r.wrapPos else r.CommitEnd());
  }

  // ----- what each operation keeps, and what it does to the contents -----

  /** Everything Inv asks for except that a wrapped ring has something in its head segment. */
  ghost predicate Placed(q: Ring, off: nat) {
    && q.startPos <= 1
    && q.OnGrid(q.readPos)
    && q.enqueueEntry.None?
    && off == q.writePos
    && q.OnGrid(off)
    && SlotsOk(q.front, q.startPos, q.bufferLen)
    && SlotsOk(q.back, q.startPos, q.bufferLen)
    && (q.dequeueEntry.Some? ==> q.front != [] && q.dequeueEntry.value == q.readPos)
    && (if q.isWrapped then
          && q.front != []
          && q.readPos < q.wrapPos <= q.bufferLen
          && (q.OnGrid(q.wrapPos) || q.wrapPos == q.bufferLen)
          && off <= q.readPos
          && q.usedBytes == (q.wrapPos - q.readPos) + (off - q.startPos)
          && Tiles(q.front, q.readPos, q.wrapPos)
          && Tiles(q.back, q.startPos, off)
        else
          && q.back == []
          && q.wrapPos == q.bufferLen
          && q.readPos <= off
          && q.usedBytes == off - q.readPos
          && Tiles(q.front, q.readPos, off))
  }

  lemma UnusedIsEmpty(r: Ring)
    requires r.Inv() && r.usedBytes == 0
    ensures r.front == [] && r.back == [] && !r.isWrapped && r.enqueueEntry.None? && r.dequeueEntry.None?
    ensures r.readPos == r.writePos && Placed(r.Rewind(), r.startPos)
  {
    CommittedBounds(r);
  }

  lemma InvIsPlaced(r: Ring)
    requires r.Inv() && r.enqueueEntry.None? && r.OnGrid(r.writePos)
    ensures Placed(r, r.writePos)
  {
    hide SlotsOk, Tiles, Ring.OnGrid;
  }

  lemma WrapIsPlaced(r: Ring)
    requires r.Inv() && r.enqueueEntry.None? && !r.isWrapped && r.usedBytes > 0
    requires r.writePos <= r.bufferLen
    ensures Placed(r.Wrap(), r.startPos)
  {
    hide SlotsOk;
  }

  lemma RewindKeepsInv(r: Ring)
    requires r.Inv() && r.enqueueEntry.None? && r.usedBytes == 0
    ensures r.Rewind().Inv()
  {
    UnusedIsEmpty(r);
    hide SlotsOk;
  }

  lemma {:induction false} TilesGrow(slots: seq<Slot>, lo: nat, hi: nat, startPos: nat, bufferLen: nat)
    requires Tiles(slots, lo, hi) && SlotsOk(slots, startPos, bufferLen) && slots != []
    ensures lo < hi <= bufferLen
  {
    TilesBounds(slots, lo, hi);
    assert SlotOk(slots[0], startPos, bufferLen);
    if |slots| > 1 {
      assert slots[1..][0] == slots[1];
      TilesGrow(slots[1..], lo + slots[0].size, hi, startPos, bufferLen);
    }
  }

  lemma UsedIsBounded(r: Ring)
    requires r.Inv() && r.enqueueEntry.None? && r.usedBytes > 0
    ensures r.writePos <= r.bufferLen
    ensures !r.isWrapped ==> r.front != []
  {
    if !r.isWrapped && r.front != [] {
      TilesGrow(r.front, r.readPos, r.writePos, r.startPos, r.bufferLen);
    }
  }

  /** Place succeeds exactly when the largest free run fits, and then takes its start. */
  lemma PlaceFits(r: Ring, size: nat)
    requires r.Inv() && r.enqueueEntry.None? && size > 0
    ensures var (q, off) := r.Place(size);
      && q.front == r.front && q.back == r.back
      && q.startPos == r.startPos
      && q.bufferLen == r.bufferLen
      && q.usedBytes == r.usedBytes
      && q.dequeueEntry == r.dequeueEntry
      && (off.Some? <==> size <= r.LargestRun())
      && (off.None? ==> q.Inv())
      && (off.Some? ==>
            && Placed(q, off.value)
            && off.value + r.LargestRun() == q.SegmentEnd())
  {
    if r.usedBytes == 0 {
      UnusedIsEmpty(r);
      RewindKeepsInv(r);
      hide SlotsOk, Tiles, Placed, Ring.OnGrid, Ring.OpenOk;
    } else {
      UsedIsBounded(r);
      if r.isWrapped {
        hide SlotsOk, Tiles, Placed, Ring.OpenOk;
        if size <= r.LargestRun() {
          InvIsPlaced(r);
        }
      } else {
        hide SlotsOk, Tiles, Placed, Ring.OpenOk;
        WrapIsPlaced(r);
        if r.OnGrid(r.writePos) { InvIsPlaced(r); }
      }
    }
  }

  lemma OpenedKeeps(p: Ring, off: nat, line: seq<byte>, run: nat, q: Ring)
    requires Placed(p, off) && |line| <= U16_MAX && PrefixSize(line) <= run
    requires off + run == p.SegmentEnd()
    requires q == p.(writePos := off + PrefixSize(line),
                     usedBytes := p.usedBytes + PrefixSize(line),
                     enqueueCapacity := run - PrefixSize(line),
                     enqueueEntry := Some(OpenEntry(off, line)))
    ensures q.Inv()
  {
    assert (q.writePos + q.enqueueCapacity) == q.SegmentEnd();
  }

  /**
   A line is accepted exactly when it is short enough for the header and its prefix fits the
   largest free run; the entry then gets that whole run.
   */
  lemma EnqueueBeginKeeps(r: Ring, line: seq<byte>)
    requires r.Inv() && r.enqueueEntry.None?
    ensures var (q, ok) := r.EnqueueBegin(line);
      && q.Inv()
      && q.Contents() == r.Contents()
      && q.dequeueEntry == r.dequeueEntry
      && (ok <==> |line| <= U16_MAX && PrefixSize(line) <= r.LargestRun())
      && (ok ==> q.enqueueEntry.Some? && q.enqueueEntry.value.line == line
                 && PrefixSize(line) + q.enqueueCapacity == r.LargestRun())
      && (!ok ==> q.enqueueEntry.None?)
  {
    if |line| <= U16_MAX {
      PlaceFits(r, PrefixSize(line));
      var (p, off) := r.Place(PrefixSize(line));
      if off.Some? {
        OpenedKeeps(p, off.value, line, r.LargestRun(), r.EnqueueBegin(line).0);
      }
      hide Placed, Ring.Inv, Ring.LargestRun, Entries;
    } else {
      hide Ring.Inv;
    }
  }

  /** The size EnqueueEnd charges is the one any reader rebuilds from the header. */
  lemma ChargedSize(r: Ring, payload: seq<byte>)
    requires r.Inv() && r.enqueueEntry.Some? && |payload| <= r.enqueueCapacity && |payload| <= U16_MAX
    ensures var q := r.EnqueueEnd(payload);
      var o := r.enqueueEntry.value;
      && o.off < q.writePos <= r.writePos + r.enqueueCapacity
      && SlotOk(Slot(o.off, q.writePos - o.off, Entry(o.line, payload)), r.startPos, r.bufferLen)
      && (r.OnGrid(q.writePos) || q.writePos == r.bufferLen)
  {
    hide SlotsOk, Tiles;
    var q := r.EnqueueEnd(payload);
    var o := r.enqueueEntry.value;
    var raw := PrefixSize(o.line) + |payload|;
    assert r.SegmentEnd() <= r.bufferLen;
    assert Align(raw) % 2 == 0 && raw <= Align(raw) <= raw + 1;
    if Align(raw) - PrefixSize(o.line) > r.enqueueCapacity {
      assert |payload| == r.enqueueCapacity;
      assert q.writePos == r.bufferLen;
    }
  }

  /** EnqueueEnd appends the opened line with its payload. */
  lemma EnqueueEndKeeps(r: Ring, payload: seq<byte>)
    requires r.Inv() && r.enqueueEntry.Some? && |payload| <= r.enqueueCapacity && |payload| <= U16_MAX
    ensures var q := r.EnqueueEnd(payload);
      && q.Inv()
      && q.enqueueEntry.None?
      && q.dequeueEntry == r.dequeueEntry
      && q.Contents() == r.Contents() + [Entry(r.enqueueEntry.value.line, payload)]
  {
    hide SlotsOk, Tiles, SlotOk;
    var o := r.enqueueEntry.value;
    var q := r.EnqueueEnd(payload);
    var s := Slot(o.off, q.writePos - o.off, Entry(o.line, payload));
    ChargedSize(r, payload);
    if r.isWrapped {
      TilesAppend(r.back, r.startPos, o.off, s);
      AppendedWrapped(r, s, q);
    } else {
      TilesAppend(r.front, r.readPos, o.off, s);
      AppendedLinear(r, s, q);
    }
    hide Ring.Inv, Align;
  }

  lemma AppendedWrapped(r: Ring, s: Slot, q: Ring)
    requires r.Inv() && r.enqueueEntry.Some? && r.isWrapped
    requires SlotOk(s, r.startPos, r.bufferLen) && s.off == r.enqueueEntry.value.off
    requires s.off < s.off + s.size <= r.readPos && s.off + s.size >= r.writePos
    requires r.OnGrid(s.off + s.size) || s.off + s.size == r.bufferLen
    requires Tiles(r.back + [s], r.startPos, s.off + s.size)
    requires q == r.(writePos := s.off + s.size, usedBytes := r.usedBytes + (s.off + s.size - r.writePos),
                     enqueueCapacity := 0, enqueueEntry := None, back := r.back + [s])
    ensures q.Inv()
  {
    hide SlotOk, Tiles;
  }

  lemma AppendedLinear(r: Ring, s: Slot, q: Ring)
    requires r.Inv() && r.enqueueEntry.Some? && !r.isWrapped
    requires SlotOk(s, r.startPos, r.bufferLen) && s.off == r.enqueueEntry.value.off
    requires s.off < s.off + s.size <= r.bufferLen && s.off + s.size >= r.writePos
    requires r.OnGrid(s.off + s.size) || s.off + s.size == r.bufferLen
    requires Tiles(r.front + [s], r.readPos, s.off + s.size)
    requires q == r.(writePos := s.off + s.size, usedBytes := r.usedBytes + (s.off + s.size - r.writePos),
                     enqueueCapacity := 0, enqueueEntry := None, front := r.front + [s])
    ensures q.Inv()
  {
    hide SlotOk, Tiles;
  }

  /** EnqueueAbort leaves the contents as they were. */
  lemma EnqueueAbortKeeps(r: Ring)
    requires r.Inv() && r.enqueueEntry.Some?
    ensures var q := r.EnqueueAbort();
      && q.Inv()
      && q.enqueueEntry.None?
      && q.dequeueEntry == r.dequeueEntry
      && q.Contents() == r.Contents()
  {
    CommittedBounds(r);
  }

  /** Abort gives back every byte and position that Begin took from a queue in use. */
  lemma AbortUndoesBegin(r: Ring, line: seq<byte>)
    requires r.Inv() && r.enqueueEntry.None? && r.EnqueueBegin(line).1
    ensures r.EnqueueBegin(line).0.Inv()
    ensures r.EnqueueBegin(line).0.EnqueueAbort() == if r.usedBytes == 0 then r.Rewind() else r
  {
    EnqueueBeginKeeps(r, line);
    CommittedBounds(r);
  }

  /** What is left of the tiling once its first slot is dropped. */
  lemma DropFirst(slots: seq<Slot>, lo: nat, hi: nat, startPos: nat, bufferLen: nat)
    requires slots != [] && Tiles(slots, lo, hi) && SlotsOk(slots, startPos, bufferLen)
    ensures Tiles(slots[1..], lo + slots[0].size, hi)
    ensures SlotsOk(slots[1..], startPos, bufferLen)
    ensures lo + slots[0].size <= hi
    ensures slots[1..] == [] <==> lo + slots[0].size == hi
    ensures (lo + slots[0].size - startPos) % 2 == 0 || lo + slots[0].size == bufferLen
  {
    assert SlotOk(slots[0], startPos, bufferLen);
    TilesBounds(slots[1..], lo + slots[0].size, hi);
    if slots[1..] != [] {
      TilesGrow(slots[1..], lo + slots[0].size, hi, startPos, bufferLen);
    }
  }

  lemma DroppedKeeps(r: Ring)
    requires r.Inv() && r.front != [] && r.front[0].size <= r.usedBytes
    requires r.isWrapped && r.readPos + r.front[0].size != r.wrapPos
    ensures r.Dropped().Inv() && r.Dropped().usedBytes > 0
  {
    DropFirst(r.front, r.readPos, r.wrapPos, r.startPos, r.bufferLen);
    hide SlotsOk, Tiles;
  }

  lemma UnwrappedKeeps(r: Ring, q: Ring)
    requires r.Inv() && r.front != [] && r.front[0].size <= r.usedBytes
    requires r.isWrapped && r.readPos + r.front[0].size == r.wrapPos
    requires q == r.Dropped().(readPos := r.startPos, wrapPos := r.bufferLen, isWrapped := false,
                              front := r.back, back := [])
    ensures q.Inv() && q.usedBytes > 0 && r.front[1..] == []
  {
    DropFirst(r.front, r.readPos, r.wrapPos, r.startPos, r.bufferLen);
    hide SlotsOk, Tiles;
  }

  lemma LinearKeeps(r: Ring)
    requires r.Inv() && r.front != [] && r.front[0].size <= r.usedBytes && !r.isWrapped
    ensures r.Dropped().usedBytes > 0 ==> r.Dropped().Inv()
    ensures r.Dropped().usedBytes == 0 ==> r.Dropped().Rewind().Inv() && r.enqueueEntry.None?
  {
    DropFirst(r.front, r.readPos, r.CommitEnd(), r.startPos, r.bufferLen);
    assert r.CommitEnd() <= r.writePos <= Max(r.bufferLen, r.startPos);
    hide SlotsOk, Tiles;
  }

  /** DequeueEnd drops the oldest entry and nothing else, also while an enqueue is open. */
  lemma DequeueEndKeeps(r: Ring)
    requires r.Inv() && r.dequeueEntry.Some?
    ensures var q := r.DequeueEnd();
      && q.Inv()
      && q.dequeueEntry.None?
      && q.enqueueEntry == r.enqueueEntry
      && q.enqueueCapacity == r.enqueueCapacity
      && q.Contents() == r.Contents()[1..]
      && q.usedBytes == r.usedBytes - r.front[0].size
  {
    DequeuedSize(r);
    if !r.isWrapped {
      LinearKeeps(r);
    } else if r.readPos + r.front[0].size != r.wrapPos {
      DroppedKeeps(r);
    } else {
      UnwrappedKeeps(r, r.Dropped().(readPos := r.startPos, wrapPos := r.bufferLen, isWrapped := false,
                                    front := r.back, back := []));
    }
    hide Ring.Inv, SizeWithin;
    assert r.Dropped().Contents() == r.Contents()[1..];
  }

  // ----- free space -----

  ghost predicate WindowFree(slots: seq<Slot>, lo: nat, hi: nat) {
    forall i :: 0 <= i < |slots| ==> slots[i].off + slots[i].size <= lo || hi <= slots[i].off
  }

  /** A window that meets no slot of a tiling lies wholly before or wholly after it. */
  lemma {:induction false} TilesLeaveNoGap(slots: seq<Slot>, a: nat, b: nat, lo: nat, hi: nat)
    requires Tiles(slots, a, b) && slots != [] && lo < hi && WindowFree(slots, lo, hi)
    ensures hi <= a || b <= lo
  {
    if |slots| > 1 {
      assert WindowFree(slots[1..], lo, hi) by {
        forall i | 0 <= i < |slots[1..]|
          ensures slots[1..][i].off + slots[1..][i].size <= lo || hi <= slots[1..][i].off
        {
          assert slots[1..][i] == slots[i + 1];
        }
      }
      TilesLeaveNoGap(slots[1..], a + slots[0].size, b, lo, hi);
    }
  }

  /**
   No free run of the buffer is longer than the one that decides acceptance, except the bytes
   after wrapPos, which come back only when the ring unwraps.
   */
  lemma NoLongerRun(r: Ring, lo: nat, hi: nat)
    requires r.Inv() && r.enqueueEntry.None?
    requires r.startPos <= lo < hi <= r.bufferLen
    requires WindowFree(r.front, lo, hi) && WindowFree(r.back, lo, hi)
    ensures hi - lo <= r.LargestRun() || (r.isWrapped && r.wrapPos <= lo)
  {
    if r.usedBytes > 0 {
      UsedIsBounded(r);
      TilesLeaveNoGap(r.front, r.readPos, if r.isWrapped then r.wrapPos else r.writePos, lo, hi);
      if r.isWrapped {
        assert r.back != [];
        TilesLeaveNoGap(r.back, r.startPos, r.writePos, lo, hi);
      }
    }
  }

  /** An empty queue takes every line that can be represented and fits the aligned buffer. */
  lemma EmptyQueueAccepts(r: Ring, line: seq<byte>)
    requires r.Inv() && r.enqueueEntry.None? && r.Contents() == []
    ensures r.EnqueueBegin(line).1 <==> |line| <= U16_MAX && PrefixSize(line) <= r.bufferLen - r.startPos
  {
    EnqueueBeginKeeps(r, line);
    assert r.front == [] && r.back == [];
  }

  // ----- whole runs -----

  /** One call of the producer (first three) or of the consumer (last two). */
  datatype Op = Begin(line: seq<byte>) | End(payload: seq<byte>) | Abort | Take | Drop

  /** A ring with everything ever committed to it and everything its consumer has finished. */
  datatype History = History(ring: Ring, committed: seq<Entry>, delivered: seq<Entry>)

  /** What the two sides must respect: one open entry, one entry out, payload within capacity. */
  predicate Enabled(r: Ring, op: Op) {
    match op
    case Begin(_) => r.enqueueEntry.None?
    case End(payload) => r.enqueueEntry.Some? && |payload| <= r.enqueueCapacity && |payload| <= U16_MAX
    case Abort => r.enqueueEntry.Some?
    case Take => r.dequeueEntry.None?
    case Drop => r.dequeueEntry.Some?
  }

  function Step(h: History, op: Op): History
    requires h.ring.Inv() && Enabled(h.ring, op)
  {
    match op
    case Begin(line) => h.(ring := h.ring.EnqueueBegin(line).0)
    case End(payload) =>
      h.(ring := h.ring.EnqueueEnd(payload), committed := h.committed + [Entry(h.ring.enqueueEntry.value.line, payload)])
    case Abort => h.(ring := h.ring.EnqueueAbort())
    case Take => h.(ring := h.ring.DequeueBegin())
    case Drop => h.(ring := h.ring.DequeueEnd(), delivered := h.delivered + [h.ring.front[0].entry])
  }

  ghost predicate Fifo(h: History) {
    h.ring.Inv() && h.committed == h.delivered + h.ring.Contents()
  }

  lemma DequeueBeginKeeps(r: Ring)
    requires r.Inv() && r.dequeueEntry.None?
    ensures r.DequeueBegin().Inv() && r.DequeueBegin().Contents() == r.Contents()
    ensures r.DequeueBegin().dequeueEntry.Some? <==> r.enqueueEntry.None? && r.Contents() != []
  {
    if r.enqueueEntry.None? {
      if r.usedBytes > 0 { UsedIsBounded(r); } else { UnusedIsEmpty(r); }
    }
  }

  lemma FirstOfContents(r: Ring)
    requires r.Inv() && r.dequeueEntry.Some?
    ensures r.front != [] && r.Contents() == [r.front[0].entry] + r.Contents()[1..]
  {
    hide Ring.Linear, Ring.Wrapped, Ring.OpenOk, SlotsOk;
  }

  lemma StepIsFifo(h: History, op: Op)
    requires Fifo(h) && Enabled(h.ring, op)
    ensures Fifo(Step(h, op))
  {
    hide Ring.Inv, Ring.Contents, Ring.EnqueueBegin, Ring.EnqueueEnd, Ring.EnqueueAbort, Ring.DequeueBegin, Ring.DequeueEnd;
    match op
    case Begin(line) => EnqueueBeginKeeps(h.ring, line);
    case End(payload) => EnqueueEndKeeps(h.ring, payload);
    case Abort => EnqueueAbortKeeps(h.ring);
    case Take => DequeueBeginKeeps(h.ring);
    case Drop =>
      DequeueEndKeeps(h.ring);
      FirstOfContents(h.ring);
  }

  /** Each call is one that its side may make in the state the calls before it left. */
  ghost predicate Legal(h: History, ops: seq<Op>)
    requires h.ring.Inv()
    decreases |ops|
  {
    ops != [] ==>
      && Enabled(h.ring, ops[0])
      && (StepKeepsInv(h, ops[0]); Legal(Step(h, ops[0]), ops[1..]))
  }

  ghost function Run(h: History, ops: seq<Op>): History
    requires h.ring.Inv() && Legal(h, ops)
    decreases |ops|
  {
    if ops == [] then h else StepKeepsInv(h, ops[0]); Run(Step(h, ops[0]), ops[1..])
  }

  lemma StepKeepsInv(h: History, op: Op)
    requires h.ring.Inv() && Enabled(h.ring, op)
    ensures Step(h, op).ring.Inv()
  {
    StepIsFifo(h.(committed := h.delivered + h.ring.Contents()), op);
    hide Ring.Inv, Ring.EnqueueBegin, Ring.EnqueueEnd, Ring.EnqueueAbort, Ring.DequeueBegin, Ring.DequeueEnd;
  }

  /**
   Every interleaving of a producer and a consumer: what was delivered followed by what is
   queued is what was committed, in order, nothing lost, repeated or invented.
   */
  lemma {:induction false} RunIsFifo(h: History, ops: seq<Op>)
    requires Fifo(h) && Legal(h, ops)
    ensures Fifo(Run(h, ops))
    ensures h.committed <= Run(h, ops).committed
    decreases |ops|
  {
    if ops != [] {
      StepIsFifo(h, ops[0]);
      RunIsFifo(Step(h, ops[0]), ops[1..]);
    }
    hide Ring.Inv, Ring.Contents, Enabled;
  }
}
