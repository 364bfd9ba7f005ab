/** Sender and receiver together: a successful call has put the whole message on the wire. */
module SlmpDelivery {
  import opened Bytes
  import opened SlmpSegments
  import opened SlmpSender

  /** When slmp_sendmsg returns 0, a receiver that gets every packet that was sent, in any order and any number
      of times, rebuilds exactly the message, whatever its buffer held before. */
  lemma SuccessDelivers(ps: seq<Packet>, buf: seq<Byte>, align: nat, c: Config, s: State, image: seq<Byte>,
                        arrived: seq<Packet>)
    requires 1 <= align <= SLMP_PAYLOAD_SIZE && c.threads >= 1 && c.n == |ps|
    requires Segmentation(ps, buf, align, c.AckAll())
    requires Reachable(c, s) && s.phase == Returned(0)
    requires |image| == |buf|
    requires forall k | k in s.log && k < |ps| :: ps[k] in arrived
    requires forall p | p in arrived :: p in ps
    ensures Deliver(image, arrived) == buf
  {
    var labels :| Exec(c, Init(c), labels, s);
    ReturnsZero(c, labels, s);
    forall p | p in ps
      ensures p in arrived
    {
      var k :| 0 <= k < |ps| && ps[k] == p;
      UptoCounts(c.n, k);
      assert multiset(s.log)[k] == 1;
      assert k in s.log;
    }
    Reassembly(image, ps, buf, align, c.AckAll(), arrived);
  }
}
