/** How a message is cut into SLMP packets, and why a receiver can put it together again. */
module SlmpSegments {
  import opened Bits
  import opened Bytes

  const SLMP_PAYLOAD_SIZE: nat := 1462

  /** `pktOff`, `syn` and `eom` are the header fields; the payload follows the header. */
  datatype Packet = Packet(pktOff: nat, payload: seq<Byte>, syn: bool, eom: bool) {
    function End(): nat { pktOff + |payload| }
  }

  /** The largest multiple of the alignment that, with an IP, a UDP and an SLMP header, fits a frame of 1500 bytes. */
  function PayloadSize(align: nat): (p: nat)
    requires 1 <= align <= SLMP_PAYLOAD_SIZE
    ensures 0 < p <= SLMP_PAYLOAD_SIZE < p + align && p % align == 0
    ensures 20 + 8 + (4 + 2 + 4) + p <= 1500 < 20 + 8 + (4 + 2 + 4) + p + align
  {
    PayloadIsMultiple(SLMP_PAYLOAD_SIZE / align, align);
    (SLMP_PAYLOAD_SIZE / align) * align
  }

  lemma PayloadIsMultiple(q: nat, align: nat)
    requires 1 <= align && q == SLMP_PAYLOAD_SIZE / align && align <= SLMP_PAYLOAD_SIZE
    ensures 0 < q * align <= SLMP_PAYLOAD_SIZE < q * align + align && (q * align) % align == 0
  {
    assert q * align == SLMP_PAYLOAD_SIZE - SLMP_PAYLOAD_SIZE % align;
    assert (q * align) % align == 0 by { MultipleMod(q, align); }
  }

  lemma MultipleMod(q: nat, m: nat)
    requires m >= 1
    ensures (q * m) % m == 0
  {
    ModUnique(q * m, m, q, 0);
  }

  /** The copying part of send_single: at most one payload, and no more than is left.  The offset
      field of the header has 32 bits. */
  function MakePacket(buf: seq<Byte>, cur: nat, payloadSize: nat, syn: bool, eom: bool): Packet
    requires cur <= |buf|
  {
    var left := |buf| - cur;
    var toCopy := if left > payloadSize then payloadSize else left;
    Packet(cur % 0x1_0000_0000, buf[cur..cur + toCopy], syn, eom)
  }

  // ---------------------------------------------------------------- what a segmentation is

  ghost predicate Genuine(p: Packet, buf: seq<Byte>) {
    p.End() <= |buf| && p.payload == buf[p.pktOff..p.End()]
  }

  /** Packets that start at 0 and follow each other without gap or overlap. */
  ghost predicate Consecutive(ps: seq<Packet>) {
    && |ps| >= 1 && ps[0].pktOff == 0
    && forall i | 0 < i < |ps| :: ps[i].pktOff == ps[i - 1].End() && 0 < |ps[i].payload|
  }

  /** A packet before the last: full, aligned, no EOM, and not reaching the end of the message. */
  ghost predicate Inner(p: Packet, buf: seq<Byte>, align: nat, syn: bool)
    requires 1 <= align <= SLMP_PAYLOAD_SIZE
  {
    && Genuine(p, buf) && p.pktOff % align == 0 && |p.payload| == PayloadSize(align)
    && p.syn == syn && !p.eom && p.End() < |buf|
  }

  /** The last packet: at most full, aligned, SYN and EOM set, and ending the message. */
  ghost predicate Final(p: Packet, buf: seq<Byte>, align: nat)
    requires 1 <= align <= SLMP_PAYLOAD_SIZE
  {
    && Genuine(p, buf) && p.pktOff % align == 0 && |p.payload| <= PayloadSize(align)
    && p.syn && p.eom && p.End() == |buf|
  }

  /** The packets tile [0, |buf|) in order, are aligned and fit a frame; SYN marks the first and last
      packet (all of them when every packet is acknowledged), EOM exactly the one that ends the message. */
  ghost predicate Segmentation(ps: seq<Packet>, buf: seq<Byte>, align: nat, ackAll: bool)
    requires 1 <= align <= SLMP_PAYLOAD_SIZE
  {
    && Consecutive(ps)
    && Final(ps[|ps| - 1], buf, align)
    && forall i | 0 <= i < |ps| - 1 :: Inner(ps[i], buf, align, i == 0 || ackAll)
  }

  // ---------------------------------------------------------------- the sending loop, in offset order

  /** The packets built so far; the next one starts at cur. */
  ghost predicate Prefix(ps: seq<Packet>, buf: seq<Byte>, align: nat, ackAll: bool, cur: nat)
    requires 1 <= align <= SLMP_PAYLOAD_SIZE
  {
    && Consecutive(ps) && ps[|ps| - 1].End() == cur < |buf| && cur % align == 0
    && forall i | 0 <= i < |ps| :: Inner(ps[i], buf, align, i == 0 || ackAll)
  }

  lemma AppendConsecutive(ps: seq<Packet>, p: Packet)
    requires Consecutive(ps) && p.pktOff == ps[|ps| - 1].End() && 0 < |p.payload|
    ensures Consecutive(ps + [p])
  {
  }

  lemma PacketAt(buf: seq<Byte>, align: nat, cur: nat, size: nat, syn: bool, eom: bool)
    requires 1 <= align <= SLMP_PAYLOAD_SIZE && size == PayloadSize(align)
    requires cur < |buf| <= 0x1_0000_0000 && cur % align == 0
    ensures var p := MakePacket(buf, cur, size, syn, eom);
            && p.pktOff == cur && 0 < |p.payload|
            && (cur < |buf| - size && !eom ==> Inner(p, buf, align, syn) && p.End() == cur + size)
            && (cur >= |buf| - size && eom && syn ==> Final(p, buf, align))
  {
    assert cur % 0x1_0000_0000 == cur;
  }

  lemma AppendMiddle(ps: seq<Packet>, buf: seq<Byte>, align: nat, ackAll: bool, cur: nat, size: nat)
    requires 1 <= align <= SLMP_PAYLOAD_SIZE && size == PayloadSize(align)
    requires |buf| <= 0x1_0000_0000 && Prefix(ps, buf, align, ackAll, cur) && cur < |buf| - size
    ensures Prefix(ps + [MakePacket(buf, cur, size, ackAll, false)], buf, align, ackAll, cur + size)
  {
    var p := MakePacket(buf, cur, size, ackAll, false);
    PacketAt(buf, align, cur, size, ackAll, false);
    AppendConsecutive(ps, p);
    SumMod(cur, size, align);
    var qs := ps + [p];
    assert forall i | 0 <= i < |ps| :: qs[i] == ps[i];
  }

  lemma SumMod(x: nat, y: nat, m: nat)
    requires m >= 1 && x % m == 0 && y % m == 0
    ensures (x + y) % m == 0
  {
    var a, b := x / m, y / m;
    assert x + y == (a + b) * m;
    MultipleMod(a + b, m);
  }

  lemma FirstPacket(buf: seq<Byte>, align: nat, ackAll: bool, size: nat)
    requires 1 <= align <= SLMP_PAYLOAD_SIZE && size == PayloadSize(align)
    ensures size >= |buf| ==> Segmentation([MakePacket(buf, 0, size, true, true)], buf, align, ackAll)
    ensures size < |buf| ==> Prefix([MakePacket(buf, 0, size, true, false)], buf, align, ackAll, size)
  {
    assert 0 % align == 0;
  }

  lemma AppendLast(ps: seq<Packet>, buf: seq<Byte>, align: nat, ackAll: bool, cur: nat, size: nat)
    requires 1 <= align <= SLMP_PAYLOAD_SIZE && size == PayloadSize(align)
    requires |buf| <= 0x1_0000_0000 && Prefix(ps, buf, align, ackAll, cur) && cur >= |buf| - size
    ensures Segmentation(ps + [MakePacket(buf, cur, size, true, true)], buf, align, ackAll)
  {
    var p := MakePacket(buf, cur, size, true, true);
    PacketAt(buf, align, cur, size, true, true);
    AppendConsecutive(ps, p);
    var qs := ps + [p];
    assert forall i | 0 <= i < |ps| :: qs[i] == ps[i];
  }

  /** slmp_sendmsg's three groups of packets: the first, the parallel loop, and the last one. */
  method Segment(buf: seq<Byte>, align: nat, ackAll: bool) returns (ps: seq<Packet>)
    requires 1 <= align <= SLMP_PAYLOAD_SIZE && |buf| <= 0x1_0000_0000
    ensures Segmentation(ps, buf, align, ackAll)
  {
    var size := PayloadSize(align);
    FirstPacket(buf, align, ackAll, size);
    ps := [MakePacket(buf, 0, size, true, size >= |buf|)];
    var cur := size;
    while cur < |buf| - size
      invariant cur < |buf| ==> Prefix(ps, buf, align, ackAll, cur)
      invariant cur >= |buf| ==> Segmentation(ps, buf, align, ackAll)
    {
      AppendMiddle(ps, buf, align, ackAll, cur, size);
      ps := ps + [MakePacket(buf, cur, size, ackAll, false)];
      cur := cur + size;
    }
    if cur < |buf| {
      AppendLast(ps, buf, align, ackAll, cur, size);
      ps := ps + [MakePacket(buf, cur, size, true, true)];
    }
  }

  /** The conditions of Segmentation leave no choice: a message has exactly one segmentation. */
  lemma SegmentationIsUnique(ps: seq<Packet>, qs: seq<Packet>, buf: seq<Byte>, align: nat, ackAll: bool)
    requires 1 <= align <= SLMP_PAYLOAD_SIZE
    requires Segmentation(ps, buf, align, ackAll) && Segmentation(qs, buf, align, ackAll)
    ensures ps == qs
  {
    SameLength(ps, qs, buf, align, ackAll);
    SameLength(qs, ps, buf, align, ackAll);
    forall i | 0 <= i < |ps|
      ensures ps[i] == qs[i]
    {
      SameOffset(ps, qs, buf, align, ackAll, i);
      if i + 1 < |ps| {
        SameOffset(ps, qs, buf, align, ackAll, i + 1);
      }
    }
  }

  lemma {:induction false} SameOffset(ps: seq<Packet>, qs: seq<Packet>, buf: seq<Byte>, align: nat, ackAll: bool,
                                      i: nat)
    requires 1 <= align <= SLMP_PAYLOAD_SIZE && i < |ps| && i < |qs|
    requires Segmentation(ps, buf, align, ackAll) && Segmentation(qs, buf, align, ackAll)
    ensures ps[i].pktOff == qs[i].pktOff
  {
    if i > 0 {
      SameOffset(ps, qs, buf, align, ackAll, i - 1);
    }
  }

  lemma SameLength(ps: seq<Packet>, qs: seq<Packet>, buf: seq<Byte>, align: nat, ackAll: bool)
    requires 1 <= align <= SLMP_PAYLOAD_SIZE
    requires Segmentation(ps, buf, align, ackAll) && Segmentation(qs, buf, align, ackAll)
    ensures |ps| <= |qs|
  {
    if |ps| > |qs| {
      var n := |qs| - 1;
      SameOffset(ps, qs, buf, align, ackAll, n);
    }
  }

  // ---------------------------------------------------------------- reassembly

  function Deliver(image: seq<Byte>, ps: seq<Packet>): (r: seq<Byte>)
    requires forall p | p in ps :: p.End() <= |image|
    ensures |r| == |image|
  {
    if ps == [] then image
    else
      var p := ps[|ps| - 1];
      assert p in ps && p.pktOff <= p.End() <= |image|;
      var before := Deliver(image, ps[..|ps| - 1]);
      before[..p.pktOff] + p.payload + before[p.End()..]
  }

  ghost predicate Covers(p: Packet, x: nat) { p.pktOff <= x < p.End() }

  lemma {:induction false} DeliveredByte(image: seq<Byte>, ps: seq<Packet>, buf: seq<Byte>, x: nat)
    requires |image| == |buf| && x < |buf|
    requires forall p | p in ps :: p.End() <= |image| && Genuine(p, buf)
    requires exists p :: p in ps && Covers(p, x)
    ensures Deliver(image, ps)[x] == buf[x]
  {
    var n := |ps| - 1;
    var last := ps[n];
    assert last in ps;
    if !Covers(last, x) {
      var p :| p in ps && Covers(p, x);
      assert p in ps[..n];
      assert forall q | q in ps[..n] :: q in ps;
      DeliveredByte(image, ps[..n], buf, x);
    }
  }

  lemma {:induction false} SomePacketCovers(ps: seq<Packet>, x: nat) returns (i: nat)
    requires Consecutive(ps) && x < ps[|ps| - 1].End()
    ensures i < |ps| && Covers(ps[i], x)
  {
    var n := |ps| - 1;
    if ps[n].pktOff <= x {
      i := n;
    } else {
      i := SomePacketCovers(ps[..n], x);
    }
  }

  /** Whatever order the packets arrive in, and however often each arrives, once every packet has
      arrived the receiver holds the message. */
  lemma Reassembly(image: seq<Byte>, ps: seq<Packet>, buf: seq<Byte>, align: nat, ackAll: bool, arrived: seq<Packet>)
    requires 1 <= align <= SLMP_PAYLOAD_SIZE && Segmentation(ps, buf, align, ackAll) && |image| == |buf|
    requires forall p | p in arrived :: p in ps
    requires forall p | p in ps :: p in arrived
    ensures Deliver(image, arrived) == buf
  {
    AllGenuine(ps, buf, align, ackAll);
    forall x: nat | x < |buf|
      ensures Deliver(image, arrived)[x] == buf[x]
    {
      var i := SomePacketCovers(ps, x);
      assert ps[i] in arrived;
      DeliveredByte(image, arrived, buf, x);
    }
  }

  lemma AllGenuine(ps: seq<Packet>, buf: seq<Byte>, align: nat, ackAll: bool)
    requires 1 <= align <= SLMP_PAYLOAD_SIZE && Segmentation(ps, buf, align, ackAll)
    ensures forall p | p in ps :: p.End() <= |buf| && Genuine(p, buf)
  {
    forall p | p in ps
      ensures p.End() <= |buf| && Genuine(p, buf)
    {
      var i :| 0 <= i < |ps| && ps[i] == p;
      if i < |ps| - 1 {
        assert Inner(ps[i], buf, align, i == 0 || ackAll);
      }
    }
  }
}
