/**
 The other end of an XMODEM transfer: packets as Forsberg's protocol reference
 lays them out (sections 4.2, 4.3 and 8.1) and a receiver that acknowledges
 block n and a repeated block n-1 and takes each block once (section 7.3).
 */
module XmodemReceiver {
  import opened Crc
  import opened CrcPolynomial

  const SOH: bv8 := 0x01
  const STX: bv8 := 0x02
  const EOT: bv8 := 0x04
  const ACK: bv8 := 0x06
  const NAK: bv8 := 0x15
  const CAN: bv8 := 0x18
  const CCHR: bv8 := 0x43
  const PAD: bv8 := 0x1A

  const HEADER_SIZE: nat := 3
  const CRC_SIZE: nat := 2

  predicate IsBlockSize(n: nat) {
    n == 128 || n == 1024
  }

  function Padding(n: nat): (r: seq<bv8>)
    ensures |r| == n && forall i :: 0 <= i < n ==> r[i] == PAD
  {
    seq(n, i => PAD)
  }

  function Padded(data: seq<bv8>, blockSize: nat): (r: seq<bv8>)
    requires |data| <= blockSize
    ensures |r| == blockSize && data <= r
  {
    data + Padding(blockSize - |data|)
  }

  function CrcOctets(block: seq<bv8>): (r: seq<bv8>)
    ensures |r| == CRC_SIZE
  {
    [HighOctet(Crc16(block)), LowOctet(Crc16(block))]
  }

  /** The octets of one packet. */
  function Packet(num: bv8, block: seq<bv8>): (r: seq<bv8>)
    ensures |r| == HEADER_SIZE + |block| + CRC_SIZE
  {
    [if |block| == 1024 then STX else SOH, num, !num] + block + CrcOctets(block)
  }

  /** The receiver's checks: a known block size, a number with its complement and a good CRC. */
  predicate Intact(p: seq<bv8>) {
    && |p| > 2
    && (p[0] == SOH || p[0] == STX)
    && |p| == HEADER_SIZE + (if p[0] == STX then 1024 else 128) + CRC_SIZE
    && p[2] == !p[1]
    && p[|p| - CRC_SIZE..] == CrcOctets(p[HEADER_SIZE..|p| - CRC_SIZE])
  }

  function Block(p: seq<bv8>): seq<bv8>
    requires |p| >= HEADER_SIZE + CRC_SIZE
  {
    p[HEADER_SIZE..|p| - CRC_SIZE]
  }

  lemma PacketIsIntact(num: bv8, block: seq<bv8>)
    requires IsBlockSize(|block|)
    ensures Intact(Packet(num, block)) && Packet(num, block)[1] == num && Block(Packet(num, block)) == block
  {
    hide Crc16, HighOctet, LowOctet;
    var p := Packet(num, block);
    assert p[HEADER_SIZE..|p| - CRC_SIZE] == block;
    assert p[|p| - CRC_SIZE..] == CrcOctets(block);
  }

  /**
   The layout, octet for octet: 1 or 2 by the size, the number and its complement, the block, and two
   octets behind it that make the CRC of all that follows the header zero.
   */
  lemma PacketSpelled(num: bv8, block: seq<bv8>)
    requires IsBlockSize(|block|)
    ensures var p := Packet(num, block);
      && |p| == |block| + 5
      && p[0] == (if |block| == 128 then 1 else 2) && p[1] == num && p[1] as nat + p[2] as nat == 255
      && p[3..|p| - 2] == block && Crc16(p[3..]) == 0
  {
    hide Crc16, HighOctet, LowOctet;
    var p := Packet(num, block);
    assert p[3..] == block + [HighOctet(Crc16(block)), LowOctet(Crc16(block))];
    ResidueIsZero(block);
    Complement(num);
  }

  lemma Complement(b: bv8)
    ensures b as nat + (!b) as nat == 255
  {
    assert b + !b == 255;
    assert !b == 255 - b;
  }

  /** What the receiver has: the next block number, the data taken and whether it saw the end. */
  datatype Receiver = Receiver(expected: bv8, accepted: seq<bv8>, blocks: nat, done: bool)

  function Accept(r: Receiver, block: seq<bv8>): Receiver {
    r.(expected := r.expected + 1, accepted := r.accepted + block, blocks := r.blocks + 1)
  }

  /** One transmission reaching the receiver, and its reply. */
  function Hear(r: Receiver, octets: seq<bv8>): (Receiver, bv8) {
    if octets == [EOT] then (r.(done := true), ACK)
    else if !Intact(octets) then (r, NAK)
    else if octets[1] == r.expected then (Accept(r, Block(octets)), ACK)
    else if octets[1] == r.expected - 1 then (r, ACK)
    else (r, CAN)
  }

  lemma NextIsNotThis(n: bv8)
    ensures n != n + 1 && n == (n + 1) - 1
  {
  }

  /** The expected packet is taken; heard again right after, it is acknowledged and not taken twice. */
  lemma HearOnce(r: Receiver, block: seq<bv8>)
    requires IsBlockSize(|block|)
    ensures Hear(r, Packet(r.expected, block)) == (Accept(r, block), ACK)
    ensures Hear(Accept(r, block), Packet(r.expected, block)) == (Accept(r, block), ACK)
  {
    hide Intact, Packet;
    PacketIsIntact(r.expected, block);
    NextIsNotThis(r.expected);
    PacketLength(r.expected, block);
  }

  lemma PacketLength(num: bv8, block: seq<bv8>)
    requires IsBlockSize(|block|)
    ensures Packet(num, block) != [EOT]
  {
  }

  // ----- what the CRC catches -----

  /** Everything of a packet that its CRC covers: the block and the CRC itself. */
  function Covered(p: seq<bv8>): seq<bv8>
    requires |p| >= HEADER_SIZE
  {
    p[HEADER_SIZE..]
  }

  lemma IntactHasNoResidue(p: seq<bv8>)
    requires Intact(p)
    ensures Crc16(Covered(p)) == 0
  {
    hide Crc16, HighOctet, LowOctet;
    assert Covered(p) == Block(p) + CrcOctets(Block(p));
    ResidueIsZero(Block(p));
  }

  /** A packet damaged in one burst of at most sixteen bits of its block or CRC is never taken. */
  lemma BurstIsRejected(p: seq<bv8>, q: seq<bv8>, k: nat)
    requires Intact(p) && |q| == |p| && q[..HEADER_SIZE] == p[..HEADER_SIZE]
    requires k < |Message(Covered(p))| && Message(Covered(p))[k] != Message(Covered(q))[k]
    requires forall i :: 0 <= i < |Message(Covered(p))| && Message(Covered(p))[i] != Message(Covered(q))[i]
                         ==> k <= i < k + 16
    ensures !Intact(q)
  {
    hide Message, Crc16;
    assert |p| >= HEADER_SIZE;
    BurstDetected(Covered(p), Covered(q), k);
    IntactHasNoResidue(p);
    if Intact(q) {
      IntactHasNoResidue(q);
    }
  }
}
