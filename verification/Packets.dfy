/** Packets as the scheduler and the cache hold them, and the heap they are returned to. */
module Packets {
  import opened Dcc

  /** A packet handed to the scheduler: which allocation it is, and its bytes, which nobody writes
      to any more. */
  datatype Packet = Packet(id: nat, bytes: Bytes) {

    /** The sizes for which every routine stays within the packet and the signal buffer. */
    predicate Sendable() {
      3 <= |bytes| <= 15
    }

    /** The address under which the cache files the packet. */
    function Address(): (a: nat)
      requires 3 <= |bytes|
      ensures a < 128
    {
      AddressBelow128(bytes);
      AddressOf(bytes) as nat
    }
  }

  /** No packet is held twice. */
  ghost predicate Distinct(m: multiset<Packet>) {
    forall p :: m[p] <= 1
  }

  lemma DistinctPart(a: multiset<Packet>, b: multiset<Packet>)
    requires Distinct(a + b)
    ensures Distinct(a) && Distinct(b) && a !! b
  {
    forall p ensures a[p] <= 1 && b[p] <= 1 && a[p] + b[p] <= 1 {
      assert (a + b)[p] == a[p] + b[p];
    }
  }

  /** The C heap, as far as packets are concerned: what has been freed, in order. Destroying a packet
      twice or reading it afterwards is undefined, hence the preconditions. */
  class Allocator {
    var freed: seq<Packet>

    constructor ()
      ensures freed == []
    {
      freed := [];
    }

    method Destroy(p: Packet)
      requires p !in freed
      modifies this
      ensures freed == old(freed) + [p]
    {
      freed := freed + [p];
    }

    /** Reading a packet through its pointer. */
    function Deref(p: Packet): Bytes
      requires p !in freed
      reads this
    {
      p.bytes
    }
  }
}
