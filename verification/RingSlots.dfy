/** What the two receive rings share: octet k of a stream lies in slot k modulo the size of its buffer. */
module RingSlots {
  import opened Bytes

  /** Octets from the given one on are in the buffer. */
  predicate Mirror(buf: seq<byte>, stream: seq<byte>, from: int, size: nat) {
    |buf| == size && size > 0 && forall k :: 0 <= k < |stream| && from <= k ==> buf[k % size] == stream[k]
  }

  /** Storing the next octet spares the others if no buffer-full lies between. */
  lemma MirrorNext(buf: seq<byte>, stream: seq<byte>, from: int, size: nat, b: byte)
    requires Mirror(buf, stream, from, size)
    ensures Mirror(buf[|stream| % size := b], stream + [b], Max(from, |stream| + 1 - size), size)
  {
    forall k | 0 <= k < |stream| && |stream| - size < k ensures k % size != |stream| % size {
      NotSameSlot(k, |stream|, size);
    }
  }

  lemma NotSameSlot(i: nat, j: nat, size: nat)
    requires i < j < i + size
    ensures i % size != j % size
  {
    OneLap(j / size - i / size, size);
    assert i == i / size * size + i % size && j == j / size * size + j % size;
    assert (j / size - i / size) * size == j / size * size - i / size * size;
  }

  /** A multiple of the size is never strictly between zero and the size. */
  lemma OneLap(laps: int, size: nat)
    ensures laps * size <= 0 || laps * size >= size
  {
    if laps > 0 {
      assert laps * size == size + (laps - 1) * size;
    }
  }
}
